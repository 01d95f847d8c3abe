/** Restoring a backup over a live installation, one effect at a time. */
module Restore {
  import opened Options
  import opened Text
  import opened Checksums

  const MEDIA_PREFIX := "media/"
  const DATABASE_ENTRY := "database.sqlite"
  const MAX_NAME_BYTES: nat := 64

  // ----- media names

  function Utf8Length(s: string): nat {
    if s == "" then 0
    else
      var n := s[0] as int;
      (if n < 0x80 then 1 else if n < 0x800 then 2 else if n < 0x1_0000 then 3 else 4) + Utf8Length(s[1..])
  }

  predicate HasDoubleDot(s: string) {
    exists i :: 0 <= i < |s| - 1 && s[i] == '.' && s[i + 1] == '.'
  }

  /** A name the media directory may hold: one path segment with a stem and an extension. */
  predicate IsSafeDiskName(name: string) {
    && name != "" && Utf8Length(name) <= MAX_NAME_BYTES
    && '/' !in name && '\\' !in name && !HasDoubleDot(name)
    && match FindLast(name, '.')
       case Some(dot) => 0 < dot && dot + 1 < |name|
       case None => false
  }

  predicate JoinsInside(name: string) {
    name != "" && '/' !in name && '\\' !in name && name[0] != '.'
  }

  function DiskName(name: string): string {
    if MEDIA_PREFIX <= name then name[|MEDIA_PREFIX|..] else name
  }

  /** The file a restore would write for a name of the inventory. */
  predicate IsWritable(name: string) {
    IsSafeDiskName(DiskName(name)) && JoinsInside(DiskName(name))
  }

  /** The inventory of a backup: the safe names among the directory's files. */
  function Inventory(files: seq<Entry>): seq<Entry> {
    if files == [] then []
    else (if IsSafeDiskName(files[0].0) then [(MEDIA_PREFIX + files[0].0, files[0].1)] else []) + Inventory(files[1..])
  }

  // ----- the effects on media files

  type Files = map<string, string>

  /** The media files once the first n names of the inventory are written. */
  function Written(media: Files, entries: seq<Entry>, names: seq<string>): Files {
    if names == [] then media
    else
      var last := names[|names| - 1];
      var before := Written(media, entries, names[..|names| - 1]);
      match FindEntry(entries, last)
      case Some(content) => before[DiskName(last) := content]
      case None => before
  }

  predicate InPlace(media: Files, entries: seq<Entry>, names: seq<string>) {
    forall name :: name in names ==>
      FindEntry(entries, name).Some? && DiskName(name) in media
          && media[DiskName(name)] == FindEntry(entries, name).value
  }

  /** No two names of the inventory claim one file for different contents. */
  predicate NoClash(entries: seq<Entry>, names: seq<string>) {
    forall a, b :: a in names && b in names && DiskName(a) == DiskName(b) ==>
      FindEntry(entries, a) == FindEntry(entries, b)
  }

  /** What a file holds after the writes: the content for the last name that claims it. */
  lemma {:induction false} WrittenAt(media: Files, entries: seq<Entry>, names: seq<string>, disk: string)
    requires forall name :: name in names ==> FindEntry(entries, name).Some?
    ensures var after := Written(media, entries, names);
            if forall name :: name in names ==> DiskName(name) != disk
            then (disk in after <==> disk in media) && (disk in media ==> after[disk] == media[disk])
            else && disk in after
                 && exists name :: name in names && DiskName(name) == disk
                     && after[disk] == FindEntry(entries, name).value
  {
    hide DiskName, FindEntry;
    if names != [] {
      var front, last := names[..|names| - 1], names[|names| - 1];
      assert names == front + [last];
      WrittenAt(media, entries, front, disk);
    }
  }

  /** Every file of the inventory ends up with its own content exactly when no two names clash. */
  lemma InPlaceIff(media: Files, entries: seq<Entry>, names: seq<string>)
    requires forall name :: name in names ==> FindEntry(entries, name).Some?
    ensures InPlace(Written(media, entries, names), entries, names) <==> NoClash(entries, names)
  {
    hide DiskName, FindEntry, Written;
    forall name | name in names ensures DiskName(name) in Written(media, entries, names) {
      WrittenAt(media, entries, names, DiskName(name));
    }
    if NoClash(entries, names) {
      forall name | name in names
        ensures Written(media, entries, names)[DiskName(name)] == FindEntry(entries, name).value
      {
        WrittenAt(media, entries, names, DiskName(name));
      }
    }
  }

  lemma {:induction false} DiskNamesOfInventory(files: seq<Entry>)
    ensures forall e :: e in Inventory(files) <==>
              exists f :: f in files && IsSafeDiskName(f.0) && e == (MEDIA_PREFIX + f.0, f.1)
  {
    hide IsSafeDiskName;
    if files != [] {
      DiskNamesOfInventory(files[1..]);
      assert files == [files[0]] + files[1..];
      assert forall f :: f in files <==> f == files[0] || f in files[1..];
    }
  }

  /** A backup of a media directory can be written back exactly when no saved file is hidden: names
      with a leading dot pass the check on the way out and fail it on the way in. */
  lemma InventoryIsWritableIff(files: seq<Entry>)
    ensures (forall e :: e in Inventory(files) ==> IsWritable(e.0)) <==>
            forall f :: f in files && IsSafeDiskName(f.0) ==> f.0[0] != '.'
  {
    hide Inventory;
    DiskNamesOfInventory(files);
    forall f | f in files && IsSafeDiskName(f.0)
      ensures (MEDIA_PREFIX + f.0, f.1) in Inventory(files) && DiskName(MEDIA_PREFIX + f.0) == f.0
      ensures IsWritable(MEDIA_PREFIX + f.0) <==> f.0[0] != '.'
    {
      assert (MEDIA_PREFIX + f.0)[|MEDIA_PREFIX|..] == f.0;
    }
    if forall e :: e in Inventory(files) ==> IsWritable(e.0) {
      forall f | f in files && IsSafeDiskName(f.0) ensures f.0[0] != '.' {
        assert IsWritable((MEDIA_PREFIX + f.0, f.1).0);
      }
    }
  }

  lemma HiddenNamesAreSaved()
    ensures IsSafeDiskName(".a.png") && !IsWritable(MEDIA_PREFIX + ".a.png")
  {
    hide FindLast, Utf8Length;
    var s := ".a.png";
    HiddenLength();
    FindLastBefore(".a", '.', "png");
    assert ".a" + ['.'] + "png" == s;
    assert (MEDIA_PREFIX + s)[|MEDIA_PREFIX|..] == s;
  }

  lemma HiddenLength()
    ensures Utf8Length(".a.png") == 6
  {
    var s := ".a.png";
    assert s[1..] == "a.png" && s[2..] == ".png" && s[3..] == "png" && s[4..] == "ng" && s[5..] == "g";
    assert Utf8Length("png") == 3;
  }

  // ----- cut short and started again

  /** What was there before does not matter for a file that some name claims. */
  lemma {:induction false} ClaimedAlike(one: Files, other: Files, entries: seq<Entry>, names: seq<string>, disk: string)
    requires forall name :: name in names ==> FindEntry(entries, name).Some?
    requires exists name :: name in names && DiskName(name) == disk
    ensures var a, b := Written(one, entries, names), Written(other, entries, names);
            disk in a && disk in b && a[disk] == b[disk]
  {
    hide DiskName, FindEntry;
    var front, last := names[..|names| - 1], names[|names| - 1];
    assert names == front + [last];
    if DiskName(last) != disk {
      ClaimedAlike(one, other, entries, front, disk);
    }
  }

  /** A restore that is cut short after any number of media files and then started again leaves the
      media files as one that was never interrupted. */
  lemma RestartIsHarmless(media: Files, entries: seq<Entry>, names: seq<string>, done: nat)
    requires done <= |names| && forall name :: name in names ==> FindEntry(entries, name).Some?
    ensures Written(Written(media, entries, names[..done]), entries, names) == Written(media, entries, names)
  {
    hide Written, FindEntry, DiskName;
    var part := Written(media, entries, names[..done]);
    var once, twice := Written(media, entries, names), Written(part, entries, names);
    forall disk ensures (disk in once <==> disk in twice) && (disk in once ==> once[disk] == twice[disk]) {
      if exists name :: name in names && DiskName(name) == disk {
        ClaimedAlike(media, part, entries, names, disk);
      } else {
        assert forall name :: name in names[..done] ==> name in names;
        WrittenAt(media, entries, names[..done], disk);
        WrittenAt(media, entries, names, disk);
        WrittenAt(part, entries, names, disk);
      }
    }
  }

  // ----- the installation

  datatype Outcome = Restored | Checked | Refused | CutShort

  /** A restore takes a rollback snapshot if there is a database to replace. */
  function Saves(database: Option<string>): nat {
    if database.Some? then 1 else 0
  }

  /** The database file, the log beside it, the media directory and the rollback snapshots. */
  class Installation {
    var media: Files
    var database: Option<string>
    var log: Option<string>
    var rollbacks: Files

    /** The live state: what SQLite reads from the file and the log beside it. */
    ghost function Live(replay: (string, string) -> string): Option<string>
      reads this`database, this`log
    {
      match database
      case None => None
      case Some(file) => Some(if log.Some? then replay(file, log.value) else file)
    }

    /** The effects of a restore in order; the process stops before effect number `budget`, because
        that effect fails or because of a crash.  Each effect is atomic. */
    method Restore(entries: seq<Entry>, names: seq<string>, snapshot: string, rollback: string,
                   replay: (string, string) -> string, logRemovable: bool, budget: nat)
      returns (outcome: Outcome, done: nat)
      requires FindEntry(entries, DATABASE_ENTRY) == Some(snapshot)
      modifies this
      ensures done <= |names| && forall name :: name in names[..done] ==> FindEntry(entries, name).Some?
      ensures media == Written(old(media), entries, names[..done])
      ensures outcome != Checked
      ensures outcome == Refused ==>
                done < |names| && (FindEntry(entries, names[done]).None? || !IsWritable(names[done]))
      ensures (outcome == Refused || done < |names|) ==>
                database == old(database) && log == old(log) && rollbacks == old(rollbacks)
      ensures Live(replay) != old(Live(replay)) ==>
                && done == |names|
                && (forall name :: name in names ==> FindEntry(entries, name).Some? && IsWritable(name))
                && (old(database).Some? ==> rollback in rollbacks && Some(rollbacks[rollback]) == old(Live(replay)))
      ensures forall other :: other != rollback ==>
                (other in rollbacks <==> other in old(rollbacks))
                && (other in rollbacks ==> rollbacks[other] == old(rollbacks)[other])
      ensures outcome == Restored ==>
                && done == |names| && (forall name :: name in names ==> IsWritable(name)) && database == Some(snapshot)
                && (logRemovable || old(log).None? ==> Live(replay) == Some(snapshot))
                && (!logRemovable && old(log).Some? ==> Live(replay) == Some(replay(snapshot, old(log).value)))
      ensures outcome == CutShort ==> done == if budget < |names| then budget else |names|
      ensures outcome != Refused ==>
                && database == (if outcome == Restored then Some(snapshot) else old(database))
                && rollbacks == (if old(database).Some? && budget > |names|
                                 then old(rollbacks)[rollback := old(Live(replay)).value] else old(rollbacks))
                && log == if logRemovable && budget > |names| + Saves(old(database)) then None else old(log)
      ensures outcome != Refused ==> (outcome == Restored <==> budget >= |names| + Saves(old(database)) + 2)
    {
      hide Written, IsWritable, FindEntry;
      outcome, done := CutShort, 0;
      var left := budget;
      StartOf(old(media), entries, names);
      for i := 0 to |names|
        invariant done == i && left == budget - i >= 0 && outcome == CutShort
        invariant forall name :: name in names[..i] ==> FindEntry(entries, name).Some? && IsWritable(name)
        invariant media == Written(old(media), entries, names[..i])
        invariant database == old(database) && log == old(log) && rollbacks == old(rollbacks)
      {
        var bytes := FindEntry(entries, names[i]);
        if bytes.None? || !IsWritable(names[i]) {
          outcome := Refused;
          return;
        }
        if left == 0 {
          return;
        }
        OneMore(old(media), entries, names, i);
        assert names[..i + 1] == names[..i] + [names[i]];
        media := media[DiskName(names[i]) := bytes.value];
        done, left := i + 1, left - 1;
      }
      assert names[..|names|] == names;
      if database.Some? {
        if left == 0 {
          return;
        }
        var state := if log.Some? then replay(database.value, log.value) else database.value;
        rollbacks := rollbacks[rollback := state];
        left := left - 1;
      }
      if left == 0 {
        return;
      }
      log := if logRemovable then None else log;
      left := left - 1;
      if left == 0 {
        return;
      }
      database := Some(snapshot);
      outcome := Restored;
    }
  }

  lemma StartOf(media: Files, entries: seq<Entry>, names: seq<string>)
    ensures Written(media, entries, names[..0]) == media
  {
  }

  lemma OneMore(media: Files, entries: seq<Entry>, names: seq<string>, i: nat)
    requires i < |names| && FindEntry(entries, names[i]).Some?
    ensures Written(media, entries, names[..i + 1])
         == Written(media, entries, names[..i])[DiskName(names[i]) := FindEntry(entries, names[i]).value]
  {
    hide DiskName, FindEntry;
    assert names[..i + 1][..i] == names[..i];
  }
}
