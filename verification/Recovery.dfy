/** A backup and its restore together: what is sealed, what verifies, what comes back. */
module Recovery {
  import opened Options
  import opened Text
  import opened Checksums
  import opened Restore

  const MANIFEST_ENTRY := "manifest.json"

  // ----- the sealed archive

  /** What the archive of a media directory holds besides its checksums. */
  function Sealable(manifest: string, files: seq<Entry>, database: string): seq<Entry> {
    [(MANIFEST_ENTRY, manifest)] + Inventory(files) + [(DATABASE_ENTRY, database)]
  }

  function NamesOf(entries: seq<Entry>): seq<string> {
    seq(|entries|, i requires 0 <= i < |entries| => entries[i].0)
  }

  /** The archive holds these entries and the checksum text printed for them, in any order. */
  ghost predicate IsSealed(archive: seq<Entry>, manifest: string, files: seq<Entry>, database: string, hash: Hash) {
    var entries := Sealable(manifest, files, database);
    forall e :: e in archive <==> e in entries || e == (CHECKSUM_ENTRY, ChecksumText(entries, hash))
  }

  lemma PrefixedNames(name: string)
    requires MEDIA_PREFIX <= name
    ensures name != MANIFEST_ENTRY && name != DATABASE_ENTRY && name != CHECKSUM_ENTRY
  {
    assert name[0] == 'm' && name[1] == 'e';
  }

  lemma PrefixTaken(disk: string)
    ensures MEDIA_PREFIX <= MEDIA_PREFIX + disk && DiskName(MEDIA_PREFIX + disk) == disk
  {
  }

  lemma {:induction false} InventoryDistinct(files: seq<Entry>)
    requires DistinctNames(files)
    ensures DistinctNames(Inventory(files))
  {
    hide IsSafeDiskName;
    if files != [] {
      InventoryDistinct(files[1..]);
      DiskNamesOfInventory(files[1..]);
      var rest := Inventory(files[1..]);
      forall e | e in rest ensures e.0 != MEDIA_PREFIX + files[0].0 {
        var f :| f in files[1..] && IsSafeDiskName(f.0) && e == (MEDIA_PREFIX + f.0, f.1);
        PrefixTaken(f.0);
        PrefixTaken(files[0].0);
      }
      forall i | 0 <= i < |rest| ensures rest[i].0 != MEDIA_PREFIX + files[0].0 {
        assert rest[i] in rest;
      }
    }
  }

  lemma InventoryPrefixed(files: seq<Entry>)
    ensures forall e :: e in Inventory(files) ==> MEDIA_PREFIX <= e.0
  {
    hide IsSafeDiskName;
    DiskNamesOfInventory(files);
  }

  lemma SealableDistinct(manifest: string, files: seq<Entry>, database: string)
    requires DistinctNames(files)
    ensures var entries := Sealable(manifest, files, database);
            DistinctNames(entries) && forall e :: e in entries ==> e.0 != CHECKSUM_ENTRY
  {
    hide Inventory;
    InventoryDistinct(files);
    InventoryPrefixed(files);
    var media := Inventory(files);
    forall i | 0 <= i < |media|
      ensures media[i].0 != MANIFEST_ENTRY && media[i].0 != DATABASE_ENTRY && media[i].0 != CHECKSUM_ENTRY
    {
      assert media[i] in media;
      PrefixedNames(media[i].0);
    }
  }

  /** Every entry is found under its name. */
  lemma SealedFinds(archive: seq<Entry>, manifest: string, files: seq<Entry>, database: string, hash: Hash, e: Entry)
    requires IsSealed(archive, manifest, files, database, hash) && DistinctNames(files)
    requires e in Sealable(manifest, files, database)
    ensures FindEntry(archive, e.0) == Some(e.1)
  {
    hide FindEntry, Sealable, ChecksumText;
    SealableDistinct(manifest, files, database);
    var entries, found := Sealable(manifest, files, database), FindEntry(archive, e.0);
    assert e in archive && found.Some?;
    assert (e.0, found.value) in entries;
    var i :| 0 <= i < |entries| && entries[i] == e;
    var j :| 0 <= j < |entries| && entries[j] == (e.0, found.value);
    assert i == j;
  }

  lemma InventoryFinds(archive: seq<Entry>, manifest: string, files: seq<Entry>, database: string, hash: Hash)
    requires IsSealed(archive, manifest, files, database, hash) && DistinctNames(files)
    ensures FindEntry(archive, DATABASE_ENTRY) == Some(database)
    ensures forall e :: e in Inventory(files) ==> FindEntry(archive, e.0) == Some(e.1)
    ensures forall name :: name in NamesOf(Inventory(files)) ==> FindEntry(archive, name).Some?
  {
    hide FindEntry, Inventory, IsSealed;
    assert (DATABASE_ENTRY, database) in Sealable(manifest, files, database);
    SealedFinds(archive, manifest, files, database, hash, (DATABASE_ENTRY, database));
    forall e | e in Inventory(files) ensures FindEntry(archive, e.0) == Some(e.1) {
      assert e in Sealable(manifest, files, database);
      SealedFinds(archive, manifest, files, database, hash, e);
    }
  }

  // ----- verifying it

  /** Every saved name survives being a line of the checksum file. */
  ghost predicate AllReadable(files: seq<Entry>) {
    forall f :: f in files && IsSafeDiskName(f.0) ==> Readable(f.0)
  }

  ghost predicate NoneHidden(files: seq<Entry>) {
    forall f :: f in files && IsSafeDiskName(f.0) ==> f.0[0] != '.'
  }

  lemma PrefixedReadable(disk: string)
    requires disk != ""
    ensures Readable(MEDIA_PREFIX + disk) <==> Readable(disk)
  {
    var name := MEDIA_PREFIX + disk;
    assert name[|name| - 1] == disk[|disk| - 1];
  }

  lemma FixedNamesReadable()
    ensures Readable(MANIFEST_ENTRY) && Readable(DATABASE_ENTRY)
  {
  }

  lemma SealableReadableIff(manifest: string, files: seq<Entry>, database: string)
    ensures (forall e :: e in Sealable(manifest, files, database) ==> Readable(e.0)) <==> AllReadable(files)
  {
    hide Inventory, Readable, FindLast, Utf8Length;
    DiskNamesOfInventory(files);
    FixedNamesReadable();
    forall f | f in files && IsSafeDiskName(f.0)
      ensures (MEDIA_PREFIX + f.0, f.1) in Sealable(manifest, files, database)
      ensures Readable(MEDIA_PREFIX + f.0) <==> Readable(f.0)
    {
      assert (MEDIA_PREFIX + f.0, f.1) in Inventory(files);
      PrefixedReadable(f.0);
    }
    if forall e :: e in Sealable(manifest, files, database) ==> Readable(e.0) {
      forall f | f in files && IsSafeDiskName(f.0) ensures Readable(f.0) {
        assert Readable((MEDIA_PREFIX + f.0, f.1).0);
      }
    }
  }

  /** The archive of a media directory verifies exactly when every saved name can be read back. */
  lemma BackupVerifiesIff(archive: seq<Entry>, manifest: string, files: seq<Entry>, database: string, hash: Hash)
    requires forall b :: IsDigest(hash(b))
    requires IsSealed(archive, manifest, files, database, hash) && DistinctNames(files)
    ensures Verify(archive, hash) == Accepted <==> AllReadable(files)
  {
    hide Verify, IsDigest, Readable, Sealable, IsSafeDiskName;
    SealableDistinct(manifest, files, database);
    SealableReadableIff(manifest, files, database);
    SealedVerifiesIff(Sealable(manifest, files, database), archive, hash);
  }

  lemma SpacedName()
    ensures IsSafeDiskName("a.b ") && !Readable("a.b ")
  {
    hide FindLast;
    var s := "a.b ";
    assert s[1..] == ".b " && s[2..] == "b " && s[3..] == " ";
    assert Utf8Length(" ") == 1 && Utf8Length("b ") == 2 && Utf8Length(s) == 4;
    FindLastBefore("a", '.', "b ");
    assert "a" + ['.'] + "b " == s;
  }

  /** Names that are saved and cannot be read back exist: a backup that holds one does not verify. */
  lemma UnreadableNamesAreSaved(archive: seq<Entry>, manifest: string, content: string, database: string, hash: Hash)
    requires forall b :: IsDigest(hash(b))
    requires IsSealed(archive, manifest, [("a.b ", content)], database, hash)
    ensures IsSafeDiskName("a.b ") && Verify(archive, hash) != Accepted
  {
    hide Verify, IsDigest, Readable, IsSealed, IsSafeDiskName;
    SpacedName();
    var files := [("a.b ", content)];
    assert files[0] in files;
    BackupVerifiesIff(archive, manifest, files, database, hash);
  }

  // ----- writing it back

  /** No two names of an inventory claim one file. */
  lemma InventoryNoClash(archive: seq<Entry>, files: seq<Entry>)
    ensures NoClash(archive, NamesOf(Inventory(files)))
  {
    hide FindEntry, Inventory;
    InventoryPrefixed(files);
    var entries := Inventory(files);
    forall a, b | a in NamesOf(entries) && b in NamesOf(entries) && DiskName(a) == DiskName(b) ensures a == b {
      var i :| 0 <= i < |entries| && entries[i].0 == a;
      var j :| 0 <= j < |entries| && entries[j].0 == b;
      assert entries[i] in entries && entries[j] in entries;
      assert a == MEDIA_PREFIX + DiskName(a) && b == MEDIA_PREFIX + DiskName(b);
    }
  }

  /** What the media directory holds after the inventory is written: the saved files as they were, and
      every other file as it is. */
  ghost predicate MediaBack(before: Files, after: Files, files: seq<Entry>) {
    && (forall f :: f in files && IsSafeDiskName(f.0) ==> f.0 in after && after[f.0] == f.1)
    && (forall disk :: (forall f :: f in files && IsSafeDiskName(f.0) ==> f.0 != disk) ==>
          (disk in after <==> disk in before) && (disk in before ==> after[disk] == before[disk]))
  }

  lemma InventoryComesBack(before: Files, archive: seq<Entry>, manifest: string, files: seq<Entry>, database: string,
      hash: Hash)
    requires IsSealed(archive, manifest, files, database, hash) && DistinctNames(files)
    ensures var names := NamesOf(Inventory(files));
            InPlace(Written(before, archive, names), archive, names)
                && MediaBack(before, Written(before, archive, names), files)
  {
    hide FindEntry, Inventory, Written, IsSealed, IsSafeDiskName, DiskName;
    var entries := Inventory(files);
    var names := NamesOf(entries);
    InventoryFinds(archive, manifest, files, database, hash);
    InventoryNoClash(archive, files);
    InPlaceIff(before, archive, names);
    DiskNamesOfInventory(files);
    forall f | f in files && IsSafeDiskName(f.0)
      ensures f.0 in Written(before, archive, names) && Written(before, archive, names)[f.0] == f.1
    {
      var e := (MEDIA_PREFIX + f.0, f.1);
      assert e in entries;
      var i :| 0 <= i < |entries| && entries[i] == e;
      assert names[i] in names;
      PrefixTaken(f.0);
    }
    forall disk | forall f :: f in files && IsSafeDiskName(f.0) ==> f.0 != disk
      ensures var after := Written(before, archive, names);
              (disk in after <==> disk in before) && (disk in before ==> after[disk] == before[disk])
    {
      forall name | name in names ensures DiskName(name) != disk {
        var i :| 0 <= i < |entries| && entries[i].0 == name;
        assert entries[i] in entries;
        var f :| f in files && IsSafeDiskName(f.0) && entries[i] == (MEDIA_PREFIX + f.0, f.1);
        PrefixTaken(f.0);
      }
      WrittenAt(before, archive, names, disk);
    }
  }

  lemma NamesWritableIff(files: seq<Entry>)
    ensures (forall name :: name in NamesOf(Inventory(files)) ==> IsWritable(name)) <==> NoneHidden(files)
  {
    hide Inventory, IsWritable;
    InventoryIsWritableIff(files);
    var entries := Inventory(files);
    forall e | e in entries ensures e.0 in NamesOf(entries) {
      var i :| 0 <= i < |entries| && entries[i] == e;
      assert NamesOf(entries)[i] == e.0;
    }
  }

  // ----- verify, then restore

  /** A restore of the archive of a media directory.  `compatible` is what verification asks besides the
      checksums: format, schema and the integrity of the snapshot. */
  method RestoreBackup(i: Installation, archive: seq<Entry>, names: seq<string>, compatible: bool, dryRun: bool,
                       hash: Hash, rollback: string, replay: (string, string) -> string, logRemovable: bool,
                       budget: nat,
                       ghost manifest: string, ghost files: seq<Entry>, ghost database: string)
    returns (outcome: Outcome)
    requires forall b :: IsDigest(hash(b))
    requires IsSealed(archive, manifest, files, database, hash) && DistinctNames(files)
    requires names == NamesOf(Inventory(files))
    modifies i
    ensures !compatible || dryRun || !AllReadable(files) ==>
              && i.media == old(i.media) && i.database == old(i.database) && i.log == old(i.log)
              && i.rollbacks == old(i.rollbacks)
              && outcome == if compatible && AllReadable(files) then Checked else Refused
    ensures i.Live(replay) != old(i.Live(replay)) ==>
              && InPlace(i.media, archive, names) && MediaBack(old(i.media), i.media, files)
              && (old(i.database).Some? ==>
                    rollback in i.rollbacks && Some(i.rollbacks[rollback]) == old(i.Live(replay)))
    ensures compatible && !dryRun && AllReadable(files) && budget > |names| + 2 ==>
              (outcome == Restored <==> NoneHidden(files))
    ensures outcome == Restored ==>
              && InPlace(i.media, archive, names) && MediaBack(old(i.media), i.media, files)
              && (logRemovable || old(i.log).None? ==> i.Live(replay) == Some(database))
  {
    hide Verify, IsSealed, AllReadable, NoneHidden, Inventory, NamesOf, Written, FindEntry, IsWritable, IsDigest,
         InPlace, MediaBack, DistinctNames;
    BackupVerifiesIff(archive, manifest, files, database, hash);
    InventoryFinds(archive, manifest, files, database, hash);
    InventoryComesBack(i.media, archive, manifest, files, database, hash);
    NamesWritableIff(files);
    var check := VerifyChecksums(archive, hash);
    if check != Accepted || !compatible {
      return Refused;
    }
    if dryRun {
      return Checked;
    }
    var snapshot := FindEntry(archive, DATABASE_ENTRY).value;
    var done;
    outcome, done := i.Restore(archive, names, snapshot, rollback, replay, logRemovable, budget);
    if done == |names| {
      assert names[..done] == names;
    }
  }
}
