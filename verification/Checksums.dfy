/** The checksum file of a backup: written line by line when the archive is sealed, read back when it
    is verified. */
module Checksums {
  import opened Options
  import opened Text

  /** A name and what is stored under it; the checksum text stands for its own encoding. */
  type Entry = (string, string)

  type Hash = string -> string

  const CHECKSUM_ENTRY := "checksums.sha256"

  predicate IsDigest(h: string) {
    h != "" && forall c :: c in h ==> '0' <= c <= '9' || 'a' <= c <= 'f'
  }

  // ----- writing

  function ChecksumLine(e: Entry, hash: Hash): string {
    hash(e.1) + "  " + e.0
  }

  function ChecksumLines(entries: seq<Entry>, hash: Hash): seq<string> {
    seq(|entries|, i requires 0 <= i < |entries| => ChecksumLine(entries[i], hash))
  }

  /** Every line is followed by a line feed. */
  function ChecksumText(entries: seq<Entry>, hash: Hash): string {
    Join(ChecksumLines(entries, hash) + [""], "\n")
  }

  lemma TextOfOne(line: string)
    ensures Join([line, ""], "\n") == line + "\n"
  {
    assert [line, ""][1..] == [""];
  }

  method PrintChecksums(manifest: Entry, media: seq<Entry>, database: Entry, hash: Hash) returns (text: string)
    ensures text == ChecksumText([manifest] + media + [database], hash)
  {
    hide Join;
    text := "";
    var chained := [manifest] + media;
    EmptyText(hash);
    for i := 0 to |chained|
      invariant text == ChecksumText(chained[..i], hash)
    {
      TextSnoc(chained[..i], chained[i], hash);
      assert chained[..i + 1] == chained[..i] + [chained[i]];
      text := text + (ChecksumLine(chained[i], hash) + "\n");
    }
    assert chained[..|chained|] == chained;
    TextSnoc(chained, database, hash);
    text := text + (ChecksumLine(database, hash) + "\n");
  }

  lemma EmptyText(hash: Hash)
    ensures ChecksumText([], hash) == ""
  {
  }

  lemma TextSnoc(entries: seq<Entry>, e: Entry, hash: Hash)
    ensures ChecksumText(entries + [e], hash) == ChecksumText(entries, hash) + (ChecksumLine(e, hash) + "\n")
  {
    var ls, l := ChecksumLines(entries, hash), ChecksumLine(e, hash);
    assert ChecksumLines(entries + [e], hash) + [""] == ls + [l, ""];
    TextOfOne(l);
    if ls == [] {
      assert ls + [l, ""] == [l, ""];
    } else {
      JoinAppend(ls, [l, ""], "\n");
      JoinAppend(ls, [""], "\n");
    }
  }

  // ----- reading

  /** The text around the first two spaces. */
  function SplitOnce(s: string): (r: Option<(string, string)>)
    ensures r.Some? ==> s == r.value.0 + "  " + r.value.1
  {
    if |s| < 2 then None
    else if s[0] == ' ' && s[1] == ' ' then Some(("", s[2..]))
    else match SplitOnce(s[1..])
      case Some((before, after)) => Some(([s[0]] + before, after))
      case None => None
  }

  type Recorded = map<string, string>

  function Record(line: string, recorded: Recorded): Option<Recorded> {
    var t := Trim(line);
    if t == "" then Some(recorded)
    else match SplitOnce(t)
      case Some((hash, name)) => Some(recorded[name := Lower(Trim(hash))])
      case None => None
  }

  /** The checksums recorded by the lines; none when a line is malformed. */
  function RecordAll(lines: seq<string>): Option<Recorded> {
    if lines == [] then Some(map[])
    else match RecordAll(lines[..|lines| - 1])
      case Some(recorded) => Record(lines[|lines| - 1], recorded)
      case None => None
  }

  datatype Check = Accepted | NoChecksums | Malformed | Unrecorded(name: string) | Mismatch(name: string)

  function CheckEntries(entries: seq<Entry>, recorded: Recorded, hash: Hash): Check {
    if entries == [] then Accepted
    else
      var (name, content) := entries[0];
      if name != CHECKSUM_ENTRY && name !in recorded then Unrecorded(name)
      else if name != CHECKSUM_ENTRY && recorded[name] != hash(content) then Mismatch(name)
      else CheckEntries(entries[1..], recorded, hash)
  }

  function FindEntry(entries: seq<Entry>, name: string): (content: Option<string>)
    ensures content.Some? ==> (name, content.value) in entries
    ensures content.None? ==> forall e :: e in entries ==> e.0 != name
  {
    if entries == [] then None
    else if entries[0].0 == name then Some(entries[0].1)
    else FindEntry(entries[1..], name)
  }

  function Verify(entries: seq<Entry>, hash: Hash): Check {
    match FindEntry(entries, CHECKSUM_ENTRY)
    case None => NoChecksums
    case Some(text) =>
      match RecordAll(Lines(text))
      case None => Malformed
      case Some(recorded) => CheckEntries(entries, recorded, hash)
  }

  method VerifyChecksums(entries: seq<Entry>, hash: Hash) returns (r: Check)
    ensures r == Verify(entries, hash)
  {
    hide Lines, FindEntry, Record;
    var text := FindEntry(entries, CHECKSUM_ENTRY);
    if text.None? {
      return NoChecksums;
    }
    var lines := Lines(text.value);
    var expected: Recorded := map[];
    for i := 0 to |lines|
      invariant RecordAll(lines[..i]) == Some(expected)
    {
      assert lines[..i + 1][..i] == lines[..i];
      var next := Record(lines[i], expected);
      if next.None? {
        MalformedStays(lines, i + 1);
        return Malformed;
      }
      expected := next.value;
    }
    assert lines[..|lines|] == lines;
    for i := 0 to |entries|
      invariant CheckEntries(entries, expected, hash) == CheckEntries(entries[i..], expected, hash)
    {
      var (name, content) := entries[i];
      assert entries[i..][1..] == entries[i + 1..];
      if name != CHECKSUM_ENTRY {
        if name !in expected {
          return Unrecorded(name);
        }
        if expected[name] != hash(content) {
          return Mismatch(name);
        }
      }
    }
    r := Accepted;
  }

  lemma {:induction false} MalformedStays(lines: seq<string>, i: nat)
    requires i <= |lines| && RecordAll(lines[..i]).None?
    ensures RecordAll(lines).None?
  {
    hide Record;
    if i == |lines| {
      assert lines[..i] == lines;
    } else {
      var front := lines[..|lines| - 1];
      assert front[..i] == lines[..i];
      MalformedStays(front, i);
    }
  }

  // ----- what can be read back

  /** A name that survives being a line of the checksum file. */
  predicate Readable(name: string) {
    name != "" && '\n' !in name && !IsSpace(name[|name| - 1])
  }

  lemma {:induction false} SplitOnceAt(before: string, after: string)
    requires ' ' !in before
    ensures SplitOnce(before + "  " + after) == Some((before, after))
  {
    var s := before + "  " + after;
    if before == "" {
      assert s[2..] == after;
    } else {
      SplitOnceAt(before[1..], after);
      assert s[1..] == before[1..] + "  " + after;
      assert before == [before[0]] + before[1..];
    }
  }

  lemma DigestIsPlain(h: string)
    requires IsDigest(h)
    ensures ' ' !in h && '\n' !in h && Trimmed(h) && Lower(h) == h
  {
    forall i | 0 <= i < |h| ensures Lower(h)[i] == h[i] {
      assert h[i] in h;
    }
    assert h[0] in h && h[|h| - 1] in h;
  }

  lemma LineReadsBack(e: Entry, hash: Hash, recorded: Recorded)
    requires IsDigest(hash(e.1)) && Readable(e.0)
    ensures Record(ChecksumLine(e, hash), recorded) == Some(recorded[e.0 := hash(e.1)])
  {
    hide Trim, SplitOnce, Lower;
    var h, l := hash(e.1), ChecksumLine(e, hash);
    DigestIsPlain(h);
    assert l[0] == h[0] && h[0] in h && l[|l| - 1] == e.0[|e.0| - 1];
    assert Trimmed(l) && Trim(l) == l;
    SplitOnceAt(h, e.0);
  }

  ghost predicate DistinctNames(entries: seq<Entry>) {
    forall i, j :: 0 <= i < j < |entries| ==> entries[i].0 != entries[j].0
  }

  lemma {:induction false} AllReadBack(entries: seq<Entry>, hash: Hash)
    requires forall e :: e in entries ==> IsDigest(hash(e.1)) && Readable(e.0)
    requires DistinctNames(entries)
    ensures var r := RecordAll(ChecksumLines(entries, hash));
            r.Some? && forall e :: e in entries ==> e.0 in r.value && r.value[e.0] == hash(e.1)
  {
    hide Record, ChecksumLine, Readable, IsDigest;
    var ls := ChecksumLines(entries, hash);
    if entries != [] {
      var front, last := entries[..|entries| - 1], entries[|entries| - 1];
      assert ls[..|ls| - 1] == ChecksumLines(front, hash);
      AllReadBack(front, hash);
      var recorded := RecordAll(ChecksumLines(front, hash)).value;
      LineReadsBack(last, hash, recorded);
      forall e | e in entries
        ensures var all := recorded[last.0 := hash(last.1)]; e.0 in all && all[e.0] == hash(e.1)
      {
        var i :| 0 <= i < |entries| && entries[i] == e;
        if i < |front| {
          assert front[i] == e;
        }
      }
    }
  }

  lemma LinesOfText(entries: seq<Entry>, hash: Hash)
    requires forall e :: e in entries ==> IsDigest(hash(e.1)) && Readable(e.0)
    ensures Lines(ChecksumText(entries, hash)) == ChecksumLines(entries, hash)
  {
    hide Join, Split, Readable, IsDigest, Lower;
    var ls := ChecksumLines(entries, hash);
    forall l | l in ls + [""] ensures '\n' !in l && (l != "" ==> l[|l| - 1] != '\r') {
      if l in ls {
        var i :| 0 <= i < |ls| && ls[i] == l;
        assert entries[i] in entries;
        LineIsPlain(entries[i], hash);
      }
    }
    JoinLf(ls + [""]);
    StripNoReturns(ls);
    assert (ls + [""])[..|ls|] == ls;
  }

  lemma LineIsPlain(e: Entry, hash: Hash)
    requires IsDigest(hash(e.1)) && Readable(e.0)
    ensures var l := ChecksumLine(e, hash); '\n' !in l && l != "" && l[|l| - 1] != '\r'
  {
    hide Lower;
    DigestIsPlain(hash(e.1));
    var l := ChecksumLine(e, hash);
    assert l[|l| - 1] == e.0[|e.0| - 1];
  }

  /** No line can record a name that is not readable. */
  lemma RecordIsReadable(line: string, recorded: Recorded)
    requires '\n' !in line && Record(line, recorded).Some?
    requires forall n :: n in recorded ==> Readable(n)
    ensures forall n :: n in Record(line, recorded).value ==> Readable(n)
  {
    hide SplitOnce, Lower, Trim;
    var t := Trim(line);
    TrimKeeps(line, '\n');
    if t != "" {
      var (h, name) := SplitOnce(t).value;
      assert t == h + "  " + name;
      assert t[|t| - 1] == if name == "" then ' ' else name[|name| - 1];
      assert forall c :: c in name ==> c in t;
    }
  }

  lemma {:induction false} RecordedAreReadable(lines: seq<string>)
    requires RecordAll(lines).Some? && forall l :: l in lines ==> '\n' !in l
    ensures forall n :: n in RecordAll(lines).value ==> Readable(n)
  {
    hide Record, Readable;
    if lines != [] {
      var front := lines[..|lines| - 1];
      RecordedAreReadable(front);
      RecordIsReadable(lines[|lines| - 1], RecordAll(front).value);
    }
  }

  lemma LinesHoldNoFeed(s: string)
    ensures forall l :: l in Lines(s) ==> '\n' !in l
  {
    hide Split;
    SplitParts(s, '\n');
    var parts := Split(s, '\n');
    assert forall p :: p in parts[..|parts| - 1] ==> p in parts;
  }

  // ----- the round trip

  lemma {:induction false} CheckAccepts(entries: seq<Entry>, recorded: Recorded, hash: Hash)
    ensures CheckEntries(entries, recorded, hash) == Accepted <==>
            forall e :: e in entries && e.0 != CHECKSUM_ENTRY ==> e.0 in recorded && recorded[e.0] == hash(e.1)
  {
    if entries != [] {
      CheckAccepts(entries[1..], recorded, hash);
      assert entries == [entries[0]] + entries[1..];
      assert forall e :: e in entries <==> e == entries[0] || e in entries[1..];
    }
  }

  /** An archive holding the entries and the checksum text printed for them, in any order, verifies
      exactly when every entry's name can be read back. */
  lemma SealedVerifiesIff(entries: seq<Entry>, archive: seq<Entry>, hash: Hash)
    requires forall b :: IsDigest(hash(b))
    requires DistinctNames(entries) && forall e :: e in entries ==> e.0 != CHECKSUM_ENTRY
    requires forall e :: e in archive <==> e in entries || e == (CHECKSUM_ENTRY, ChecksumText(entries, hash))
    ensures Verify(archive, hash) == Accepted <==> forall e :: e in entries ==> Readable(e.0)
  {
    hide Lines, ChecksumText, ChecksumLines, Readable, IsDigest, CheckEntries, RecordAll;
    var text := ChecksumText(entries, hash);
    assert (CHECKSUM_ENTRY, text) in archive;
    assert FindEntry(archive, CHECKSUM_ENTRY) == Some(text);
    if forall e :: e in entries ==> Readable(e.0) {
      LinesOfText(entries, hash);
      AllReadBack(entries, hash);
      CheckAccepts(archive, RecordAll(Lines(text)).value, hash);
    } else if RecordAll(Lines(text)).Some? {
      LinesHoldNoFeed(text);
      RecordedAreReadable(Lines(text));
      CheckAccepts(archive, RecordAll(Lines(text)).value, hash);
    }
  }

  /** Two archives that verify against the same checksum text agree, up to collisions of the hash, on
      every entry they share. */
  lemma NoSilentChange(one: seq<Entry>, other: seq<Entry>, hash: Hash, name: string, a: string, b: string)
    requires Verify(one, hash) == Accepted && Verify(other, hash) == Accepted
    requires FindEntry(one, CHECKSUM_ENTRY) == FindEntry(other, CHECKSUM_ENTRY)
    requires (name, a) in one && (name, b) in other && name != CHECKSUM_ENTRY
    ensures hash(a) == hash(b)
  {
    hide Lines, RecordAll, CheckEntries;
    var recorded := RecordAll(Lines(FindEntry(one, CHECKSUM_ENTRY).value)).value;
    CheckAccepts(one, recorded, hash);
    CheckAccepts(other, recorded, hash);
  }
}
