/** Which files a backup saves, what its archive holds, and what comes back, in terms of the names
themselves. */
module BackupNames {
  import opened Options
  import opened Text
  import opened Checksums
  import opened Restore
  import opened Recovery

  // ----- bytes

  predicate Continues(b: int) {
    0x80 <= b < 0xC0
  }

  /** These bytes stand for the code point, in the form of section 3 of RFC 3629, shortest or not. */
  predicate StandFor(bytes: seq<int>, n: int) {
    || (|bytes| == 1 && 0 <= bytes[0] < 0x80 && n == bytes[0])
    || (|bytes| == 2 && 0xC0 <= bytes[0] < 0xE0 && Continues(bytes[1])
        && n == (bytes[0] - 0xC0) * 0x40 + (bytes[1] - 0x80))
    || (|bytes| == 3 && 0xE0 <= bytes[0] < 0xF0 && Continues(bytes[1]) && Continues(bytes[2])
        && n == (bytes[0] - 0xE0) * 0x1000 + (bytes[1] - 0x80) * 0x40 + (bytes[2] - 0x80))
    || (|bytes| == 4 && 0xF0 <= bytes[0] < 0xF8 && Continues(bytes[1]) && Continues(bytes[2]) && Continues(bytes[3])
        && n == (bytes[0] - 0xF0) * 0x4_0000 + (bytes[1] - 0x80) * 0x1000 + (bytes[2] - 0x80) * 0x40
                + (bytes[3] - 0x80))
  }

  /** A character's length is that of its shortest encoding; lengths add up. */
  lemma BytesOfCharacter(c: char, rest: string)
    ensures Utf8Length("") == 0 && Utf8Length([c] + rest) == Utf8Length([c]) + Utf8Length(rest)
    ensures exists bytes :: |bytes| == Utf8Length([c]) && StandFor(bytes, c as int)
    ensures forall bytes :: StandFor(bytes, c as int) ==> |bytes| >= Utf8Length([c])
  {
    hide StandFor;
    var n := c as int;
    assert ([c] + rest)[1..] == rest && [c][1..] == [];
    var shortest := Shortest(n);
    forall bytes | StandFor(bytes, n) ensures |bytes| >= Utf8Length([c]) {
      Capacity(bytes, n);
    }
  }

  lemma Capacity(bytes: seq<int>, n: int)
    requires StandFor(bytes, n)
    ensures 1 <= |bytes| && (|bytes| == 1 ==> n < 0x80)
    ensures (|bytes| == 2 ==> n < 0x800) && (|bytes| == 3 ==> n < 0x1_0000)
  {
  }

  lemma Shortest(n: int) returns (bytes: seq<int>)
    requires 0 <= n < 0x11_0000
    ensures StandFor(bytes, n)
    ensures |bytes| == if n < 0x80 then 1 else if n < 0x800 then 2 else if n < 0x1_0000 then 3 else 4
  {
    Digit(n);
    Digit(n / 0x40);
    Digit(n / 0x1000);
    DividedTwice(n);
    if n < 0x80 {
      bytes := [n];
    } else if n < 0x800 {
      bytes := [0xC0 + n / 0x40, 0x80 + n % 0x40];
    } else if n < 0x1_0000 {
      bytes := [0xE0 + n / 0x1000, 0x80 + n / 0x40 % 0x40, 0x80 + n % 0x40];
    } else {
      bytes := [0xF0 + n / 0x4_0000, 0x80 + n / 0x1000 % 0x40, 0x80 + n / 0x40 % 0x40, 0x80 + n % 0x40];
    }
  }

  lemma Digit(n: int)
    ensures n == n / 0x40 * 0x40 + n % 0x40 && 0 <= n % 0x40 < 0x40
  {
  }

  lemma DividedTwice(n: int)
    ensures n / 0x40 / 0x40 == n / 0x1000 && n / 0x1000 / 0x40 == n / 0x4_0000
  {
  }

  // ----- names

  predicate NoSeparators(s: string) {
    '/' !in s && '\\' !in s && forall i :: 0 <= i < |s| - 1 ==> !(s[i] == '.' && s[i + 1] == '.')
  }

  /** A stem, a dot and an extension; no separators, no "..", at most 64 bytes. */
  ghost predicate Saveable(name: string) {
    && NoSeparators(name) && Utf8Length(name) <= 64
    && exists stem, ext :: name == stem + "." + ext && stem != "" && ext != "" && '.' !in ext
  }

  /** A backup saves a file under "media/" exactly when its name has that form. */
  lemma SavedIff(files: seq<Entry>)
    ensures forall e :: e in Inventory(files) <==>
              exists f :: f in files && Saveable(f.0) && e == ("media/" + f.0, f.1)
  {
    hide IsSafeDiskName, Inventory, Saveable;
    DiskNamesOfInventory(files);
    forall f | f in files ensures IsSafeDiskName(f.0) <==> Saveable(f.0) {
      SafeIff(f.0);
    }
  }

  lemma SafeIff(name: string)
    ensures IsSafeDiskName(name) <==> Saveable(name)
  {
    hide FindLast, Utf8Length;
    DoubleDots(name);
    if IsSafeDiskName(name) {
      var dot := FindLast(name, '.').value;
      assert name == name[..dot] + "." + name[dot + 1..];
    }
    if Saveable(name) {
      var stem, ext :| name == stem + "." + ext && stem != "" && ext != "" && '.' !in ext;
      FindLastBefore(stem, '.', ext);
      assert "." == ['.'];
    }
  }

  /** A restore writes exactly the names of that form that are not hidden, "media/" in front or not. */
  lemma WritableIff(name: string)
    ensures IsWritable(name) <==>
            var disk := if |name| >= 6 && name[..6] == "media/" then name[6..] else name;
            Saveable(disk) && disk[0] != '.'
  {
    hide IsSafeDiskName, Saveable;
    assert |"media/"| == 6;
    SafeIff(DiskName(name));
    SaveableParts(DiskName(name));
  }

  lemma SaveableParts(name: string)
    ensures Saveable(name) ==> name != "" && '/' !in name && '\\' !in name
  {
  }

  lemma DoubleDots(name: string)
    ensures NoSeparators(name) <==> '/' !in name && '\\' !in name && !HasDoubleDot(name)
  {
  }

  // ----- ordinary names and uploads

  predicate Ascii(s: string) {
    forall i :: 0 <= i < |s| ==> s[i] as int < 0x80
  }

  predicate PlainPart(s: string) {
    s != "" && Ascii(s) && '.' !in s && '/' !in s && '\\' !in s
  }

  lemma {:induction false} AsciiLength(s: string)
    requires Ascii(s)
    ensures Utf8Length(s) == |s|
  {
    if s != "" { AsciiLength(s[1..]); }
  }

  /** Every short enough plain name is saved and can be written back; it can be read back unless it ends in
      white space. */
  lemma PlainNames(stem: string, ext: string)
    requires PlainPart(stem) && PlainPart(ext) && |stem| + 1 + |ext| <= 64
    ensures var name := stem + "." + ext;
            && Saveable(name) && IsWritable("media/" + name)
            && (Readable(name) || IsSpace(name[|name| - 1]) || '\n' in name)
  {
    hide FindLast, Utf8Length, IsSafeDiskName;
    var name := stem + "." + ext;
    AsciiLength(name);
    forall i | 0 <= i < |name| - 1 ensures !(name[i] == '.' && name[i + 1] == '.') {
      if i < |stem| { assert name[i] == stem[i] && stem[i] in stem; }
      if i == |stem| { assert name[i + 1] == ext[0] && ext[0] in ext; }
      if i > |stem| { assert name[i] == ext[i - |stem| - 1] && name[i] in ext; }
    }
    SafeIff(name);
    assert ("media/" + name)[6..] == name;
    assert name[0] == stem[0] && stem[0] in stem;
  }

  /** The names of uploads: 36 hexadecimal digits and hyphens, a dot, an alphanumeric extension. */
  predicate IsUpload(name: string) {
    && 38 <= |name| <= 64 && name[36] == '.'
    && (forall i :: 0 <= i < 36 ==> '0' <= name[i] <= '9' || 'a' <= name[i] <= 'f' || name[i] == '-')
    && forall i :: 37 <= i < |name| ==> '0' <= name[i] <= '9' || 'a' <= name[i] <= 'z' || 'A' <= name[i] <= 'Z'
  }

  lemma UploadIsWhole(name: string)
    requires IsUpload(name)
    ensures name != "" && IsSafeDiskName(name) && Readable(name) && name[0] != '.'
  {
    hide IsSafeDiskName, Saveable, IsWritable;
    var stem, ext := name[..36], name[37..];
    assert name == stem + "." + ext;
    UploadParts(name);
    PlainNames(stem, ext);
    SafeIff(name);
    var last := name[|name| - 1];
    assert !IsSpace(last) && '\n' !in name by { UploadParts(name); }
  }

  lemma UploadParts(name: string)
    requires IsUpload(name)
    ensures PlainPart(name[..36]) && PlainPart(name[37..]) && !IsSpace(name[|name| - 1]) && '\n' !in name
  {
  }

  lemma AllUploads(files: seq<Entry>)
    requires forall f :: f in files ==> IsUpload(f.0)
    ensures AllReadable(files) && NoneHidden(files) && forall f :: f in files ==> IsSafeDiskName(f.0)
  {
    hide IsSafeDiskName, Readable, IsUpload;
    forall f | f in files ensures IsSafeDiskName(f.0) && Readable(f.0) && f.0 != "" && f.0[0] != '.' {
      UploadIsWhole(f.0);
    }
  }

  /** A backup of uploads verifies, and a restore that is left to finish brings every one of them back. */
  method RestoreUploads(i: Installation, archive: seq<Entry>, names: seq<string>, hash: Hash, rollback: string,
                        replay: (string, string) -> string, logRemovable: bool, budget: nat,
                        ghost manifest: string, ghost files: seq<Entry>, ghost database: string)
    returns (outcome: Outcome)
    requires forall b :: IsDigest(hash(b))
    requires IsSealed(archive, manifest, files, database, hash) && DistinctNames(files)
    requires names == NamesOf(Inventory(files)) && budget > |files| + 2
    requires forall f :: f in files ==> IsUpload(f.0)
    modifies i
    ensures Verify(archive, hash) == Accepted && outcome == Restored
    ensures forall f :: f in files ==> f.0 in i.media && i.media[f.0] == f.1
    ensures logRemovable || old(i.log).None? ==> i.Live(replay) == Some(database)
  {
    hide Verify, IsSealed, AllReadable, NoneHidden, Inventory, IsDigest, InPlace, IsUpload, IsSafeDiskName,
         DistinctNames;
    AllUploads(files);
    BackupVerifiesIff(archive, manifest, files, database, hash);
    InventoryIsShort(files);
    outcome := RestoreBackup(i, archive, names, true, false, hash, rollback, replay, logRemovable, budget, manifest,
                             files, database);
  }

  lemma {:induction false} InventoryIsShort(files: seq<Entry>)
    ensures |Inventory(files)| <= |files|
  {
    hide IsSafeDiskName;
    if files != [] { InventoryIsShort(files[1..]); }
  }

  // ----- the archive

  ghost predicate SavedEntry(e: Entry, files: seq<Entry>) {
    exists f :: f in files && Saveable(f.0) && e == ("media/" + f.0, f.1)
  }

  ghost predicate ArchiveEntry(e: Entry, manifest: string, files: seq<Entry>, database: string, hash: Hash) {
    var listed := [("manifest.json", manifest)] + Inventory(files) + [("database.sqlite", database)];
    || e == ("manifest.json", manifest) || e == ("database.sqlite", database)
    || e == ("checksums.sha256", Listing(hash, listed)) || SavedEntry(e, files)
  }

  /** The archive holds the manifest, the saved files, the database and the checksums under their names, and
      the checksum file one line for each of the others. */
  lemma ArchiveLayout(archive: seq<Entry>, manifest: string, files: seq<Entry>, database: string, hash: Hash)
    requires IsSealed(archive, manifest, files, database, hash)
    ensures forall e :: e in archive <==> ArchiveEntry(e, manifest, files, database, hash)
  {
    hide Inventory, ChecksumText, Saveable, Listing, SavedEntry;
    SavedAre(files);
    ListingIsText(Sealable(manifest, files, database), hash);
  }

  lemma SavedAre(files: seq<Entry>)
    ensures forall e :: e in Inventory(files) <==> SavedEntry(e, files)
  {
    hide Inventory, Saveable;
    SavedIff(files);
  }

  /** Digest, two spaces, name, line feed: one line after the other. */
  function Listing(hash: Hash, entries: seq<Entry>): string {
    if entries == [] then "" else hash(entries[0].1) + "  " + entries[0].0 + "\n" + Listing(hash, entries[1..])
  }

  lemma {:induction false} ListingIsText(entries: seq<Entry>, hash: Hash)
    ensures Listing(hash, entries) == ChecksumText(entries, hash)
  {
    if entries == [] {
      EmptyText(hash);
    } else {
      var line, rest := hash(entries[0].1) + "  " + entries[0].0, ChecksumLines(entries[1..], hash) + [""];
      ListingIsText(entries[1..], hash);
      assert ChecksumLines(entries, hash) + [""] == [line] + rest;
      hide ChecksumLines;
      JoinAppend([line], rest, "\n");
      assert Join([line], "\n") == line;
    }
  }

  // ----- reading a checksum file that was written elsewhere

  predicate Blank(s: string) {
    forall i :: 0 <= i < |s| ==> IsSpace(s[i])
  }

  /** Equal to a digest in lower case, but for the case of its letters. */
  predicate SameDigest(digits: string, digest: string) {
    && |digits| == |digest|
    && forall i :: 0 <= i < |digits| ==>
         (digits[i] == digest[i] && !('A' <= digits[i] <= 'F'))
         || ('A' <= digits[i] <= 'F' && digest[i] as int == digits[i] as int + 32)
  }

  lemma BlankTrims(s: string)
    requires Blank(s)
    ensures Trim(s) == ""
  {
    TrimPadded(s, "");
    assert s + "" == s;
  }

  lemma {:induction false} TrimEndPadded(s: string, after: string)
    requires Trimmed(s) && Blank(after)
    ensures TrimEnd(s + after) == s
  {
    if after == "" {
      assert s + after == s;
    } else {
      var t := s + after;
      TrimEndPadded(s, after[..|after| - 1]);
      assert t[..|t| - 1] == s + after[..|after| - 1];
      assert t[|t| - 1] == after[|after| - 1];
    }
  }

  lemma {:induction false} TrimBoth(before: string, s: string, after: string)
    requires Trimmed(s) && Blank(before) && Blank(after)
    ensures Trim(before + s + after) == s
  {
    hide TrimEnd;
    if before == "" {
      assert before + s + after == s + after;
      TrimEndPadded(s, after);
      if s == "" {
        BlankTrims(after);
        assert s + after == after;
      } else {
        assert (s + after)[0] == s[0];
      }
    } else {
      TrimBoth(before[1..], s, after);
      assert (before + s + after)[1..] == before[1..] + s + after;
    }
  }

  lemma LowerDigest(digits: string, digest: string)
    requires SameDigest(digits, digest) && IsDigest(digest)
    ensures Lower(digits) == digest && Trimmed(digits) && ' ' !in digits && digits != ""
  {
    forall i | 0 <= i < |digits| ensures Lower(digits)[i] == digest[i] && !IsSpace(digits[i]) {
      assert digest[i] in digest;
    }
  }

  /** A recorded line may have white space around it and digits in either case; blank lines are skipped, and a
      line without two spaces in a row is malformed. */
  lemma ForeignLine(before: string, digits: string, gap: string, name: string, after: string, digest: string,
                    recorded: Recorded)
    requires Blank(before) && Blank(after) && SameDigest(digits, digest) && IsDigest(digest) && Readable(name)
    requires Blank(gap) && ' ' !in gap
    ensures Record(before + (digits + gap + "  " + name) + after, recorded) == Some(recorded[name := digest])
    ensures Record(before, recorded) == Some(recorded)
  {
    hide Lower, Trim, SplitOnce;
    LowerDigest(digits, digest);
    var s := digits + gap + "  " + name;
    assert s[0] == digits[0] && s[|s| - 1] == name[|name| - 1];
    TrimBoth(before, s, after);
    SplitOnceAt(digits + gap, name);
    TrimBoth("", digits, gap);
    assert "" + digits + gap == digits + gap;
    BlankTrims(before);
  }

  lemma MalformedLine(line: string, recorded: Recorded)
    requires Trimmed(line) && line != "" && forall i :: 0 <= i < |line| - 1 ==> !(line[i] == ' ' && line[i + 1] == ' ')
    ensures Record(line, recorded) == None
  {
    hide SplitOnce;
    if SplitOnce(line).Some? { HasSpaces(line); }
  }

  lemma HasSpaces(s: string)
    requires SplitOnce(s).Some?
    ensures exists i :: 0 <= i < |s| - 1 && s[i] == ' ' && s[i + 1] == ' '
  {
    hide SplitOnce;
    var k := |SplitOnce(s).value.0|;
    assert s[k] == ' ' && s[k + 1] == ' ';
  }

  // ----- the first fault

  /** Of two entries of one name the first is read. */
  lemma {:induction false} FirstFound(entries: seq<Entry>, i: nat)
    requires i < |entries| && forall j :: 0 <= j < i ==> entries[j].0 != entries[i].0
    ensures FindEntry(entries, entries[i].0) == Some(entries[i].1)
  {
    if i > 0 { FirstFound(entries[1..], i - 1); }
  }

  predicate Matches(e: Entry, recorded: Recorded, hash: Hash) {
    e.0 == "checksums.sha256" || (e.0 in recorded && recorded[e.0] == hash(e.1))
  }

  /** Verification reports the first entry that is not recorded or does not match, and accepts if there is none. */
  lemma {:induction false} FirstFault(entries: seq<Entry>, recorded: Recorded, hash: Hash)
    ensures match CheckEntries(entries, recorded, hash)
            case Accepted => forall e :: e in entries ==> Matches(e, recorded, hash)
            case Unrecorded(name) => FaultAt(entries, recorded, hash, name) && name !in recorded
            case Mismatch(name) => FaultAt(entries, recorded, hash, name) && name in recorded
            case _ => false
  {
    if entries != [] {
      var e, rest := entries[0], entries[1..];
      FirstFault(rest, recorded, hash);
      if Matches(e, recorded, hash) {
        FaultLater(entries, recorded, hash);
      } else {
        assert entries[0].0 == e.0;
      }
    }
  }

  ghost predicate FaultAt(entries: seq<Entry>, recorded: Recorded, hash: Hash, name: string) {
    exists i :: 0 <= i < |entries| && entries[i].0 == name && !Matches(entries[i], recorded, hash)
                && forall j :: 0 <= j < i ==> Matches(entries[j], recorded, hash)
  }

  lemma FaultLater(entries: seq<Entry>, recorded: Recorded, hash: Hash)
    requires entries != [] && Matches(entries[0], recorded, hash)
    ensures forall name :: FaultAt(entries[1..], recorded, hash, name) ==> FaultAt(entries, recorded, hash, name)
  {
    hide Matches;
    var rest := entries[1..];
    forall name | FaultAt(rest, recorded, hash, name) ensures FaultAt(entries, recorded, hash, name) {
      var i :| 0 <= i < |rest| && rest[i].0 == name && !Matches(rest[i], recorded, hash)
               && forall j :: 0 <= j < i ==> Matches(rest[j], recorded, hash);
      assert entries[i + 1] == rest[i] && forall j :: 1 <= j < i + 1 ==> entries[j] == rest[j - 1];
    }
  }

  /** Which fault an archive has: no checksum file, a malformed line, or the first entry that does not match
      what the lines record. */
  lemma VerifyFaults(entries: seq<Entry>, hash: Hash)
    ensures match Verify(entries, hash)
            case NoChecksums => forall e :: e in entries ==> e.0 != "checksums.sha256"
            case Malformed => exists text :: ("checksums.sha256", text) in entries && RecordAll(Lines(text)).None?
            case Accepted =>
              exists text :: && ("checksums.sha256", text) in entries && RecordAll(Lines(text)).Some?
                             && forall e :: e in entries ==> Matches(e, RecordAll(Lines(text)).value, hash)
            case Unrecorded(name) =>
              exists text :: && ("checksums.sha256", text) in entries && RecordAll(Lines(text)).Some?
                             && FaultAt(entries, RecordAll(Lines(text)).value, hash, name)
                             && name !in RecordAll(Lines(text)).value
            case Mismatch(name) =>
              exists text :: && ("checksums.sha256", text) in entries && RecordAll(Lines(text)).Some?
                             && FaultAt(entries, RecordAll(Lines(text)).value, hash, name)
                             && name in RecordAll(Lines(text)).value
  {
    hide FindEntry, RecordAll, Lines, CheckEntries, Matches, FaultAt;
    var text := FindEntry(entries, "checksums.sha256");
    if text.Some? && RecordAll(Lines(text.value)).Some? {
      FirstFault(entries, RecordAll(Lines(text.value)).value, hash);
    }
  }
}
