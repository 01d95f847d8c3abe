/** Strings as sequences of characters: the pieces of the standard string library that the Markdown
parser and printer use. */
module Text {
  import opened Options

  /** ASCII letters in lower case. */
  function Lower(s: string): (t: string)
    ensures |t| == |s|
  {
    seq(|s|, i requires 0 <= i < |s| => if 'A' <= s[i] <= 'Z' then (s[i] as int + 32) as char else s[i])
  }

  /** The Unicode White_Space property. */
  predicate IsSpace(c: char) {
    var n := c as int;
    || 0x09 <= n <= 0x0D || n == 0x20 || n == 0x85 || n == 0xA0 || n == 0x1680 || 0x2000 <= n <= 0x200A
    || n == 0x2028 || n == 0x2029 || n == 0x202F || n == 0x205F || n == 0x3000
  }

  function TrimStart(s: string): (t: string)
    ensures |t| <= |s|
    ensures t != "" ==> !IsSpace(t[0])
    ensures s != "" && !IsSpace(s[0]) ==> t == s
  {
    if s != "" && IsSpace(s[0]) then TrimStart(s[1..]) else s
  }

  function TrimEnd(s: string): (t: string)
    ensures t <= s
    ensures t != "" ==> !IsSpace(t[|t| - 1])
    ensures s != "" && !IsSpace(s[|s| - 1]) ==> t == s
  {
    if s != "" && IsSpace(s[|s| - 1]) then TrimEnd(s[..|s| - 1]) else s
  }

  predicate Trimmed(s: string) {
    s == "" || (!IsSpace(s[0]) && !IsSpace(s[|s| - 1]))
  }

  function Trim(s: string): (t: string)
    ensures Trimmed(t)
    ensures Trimmed(s) ==> t == s
  {
    TrimEnd(TrimStart(s))
  }

  /** Where c first occurs. */
  function Find(s: string, c: char): (i: Option<nat>)
    ensures i.Some? ==> i.value < |s| && s[i.value] == c && c !in s[..i.value]
    ensures i.None? ==> c !in s
  {
    if s == "" then None
    else if s[0] == c then Some(0)
    else match Find(s[1..], c)
      case Some(i) => assert s[..i + 1] == [s[0]] + s[1..][..i]; Some(i + 1)
      case None => None
  }

  /** Where c last occurs. */
  function FindLast(s: string, c: char): (i: Option<nat>)
    ensures i.Some? ==> i.value < |s| && s[i.value] == c && c !in s[i.value + 1..]
    ensures i.None? ==> c !in s
  {
    if s == "" then None
    else if s[|s| - 1] == c then Some(|s| - 1)
    else
      assert s == s[..|s| - 1] + [s[|s| - 1]];
      FindLast(s[..|s| - 1], c)
  }

  /** Drops every leading c. */
  function StripLeading(s: string, c: char): (t: string)
    ensures |t| <= |s|
    ensures t != "" ==> t[0] != c
  {
    if s != "" && s[0] == c then StripLeading(s[1..], c) else s
  }

  function StripTrailing(s: string, c: char): string {
    if s != "" && s[|s| - 1] == c then StripTrailing(s[..|s| - 1], c) else s
  }

  function Repeat(c: char, n: nat): (s: string)
    ensures |s| == n && forall i :: 0 <= i < n ==> s[i] == c
  {
    if n == 0 then "" else [c] + Repeat(c, n - 1)
  }

  /** The pieces between occurrences of c. */
  function Split(s: string, c: char): (parts: seq<string>)
    ensures |parts| >= 1
  {
    if s == "" then [""]
    else
      var rest := Split(s[1..], c);
      if s[0] == c then [""] + rest else [[s[0]] + rest[0]] + rest[1..]
  }

  function Join(parts: seq<string>, separator: string): string {
    if parts == [] then ""
    else if |parts| == 1 then parts[0]
    else parts[0] + separator + Join(parts[1..], separator)
  }

  function StripReturn(line: string): string {
    if line != "" && line[|line| - 1] == '\r' then line[..|line| - 1] else line
  }

  function StripReturns(lines: seq<string>): seq<string> {
    seq(|lines|, i requires 0 <= i < |lines| => StripReturn(lines[i]))
  }

  /** The lines of a text.  A carriage return is dropped only before a line feed; a last line is there
      only when it is not empty. */
  function Lines(s: string): seq<string> {
    var parts := Split(s, '\n');
    var n := |parts| - 1;
    StripReturns(parts[..n]) + if parts[n] == "" then [] else [parts[n]]
  }

  // ----- trimming

  /** A prefix without white space survives trimming the end, and none appears. */
  lemma {:induction false} PrefixOfTrimEnd(p: string, s: string)
    requires forall c :: c in p ==> !IsSpace(c)
    ensures p <= TrimEnd(s) <==> p <= s
  {
    if s != "" && IsSpace(s[|s| - 1]) {
      PrefixOfTrimEnd(p, s[..|s| - 1]);
      assert forall i :: 0 <= i < |p| ==> p[i] in p;
    }
  }

  lemma PrefixOfTrim(p: string, s: string)
    requires forall c :: c in p ==> !IsSpace(c)
    ensures p <= Trim(s) <==> p <= TrimStart(s)
  {
    PrefixOfTrimEnd(p, TrimStart(s));
  }

  /** Trimming a trimmed text with white space put around it gives it back. */
  lemma {:induction false} TrimPadded(before: string, s: string)
    requires Trimmed(s) && forall c :: c in before ==> IsSpace(c)
    ensures Trim(before + s) == s
  {
    if before == "" {
      assert before + s == s;
    } else {
      TrimPadded(before[1..], s);
      assert (before + s)[1..] == before[1..] + s;
    }
  }

  lemma {:induction false} TrimStartKeeps(s: string, c: char)
    requires c !in s
    ensures c !in TrimStart(s)
  {
    if s != "" && IsSpace(s[0]) { TrimStartKeeps(s[1..], c); }
  }

  /** Trimming adds no character. */
  lemma TrimKeeps(s: string, c: char)
    requires c !in s
    ensures c !in Trim(s) && c !in TrimEnd(s)
  {
    TrimStartKeeps(s, c);
  }

  lemma {:induction false} StripKeeps(s: string, d: char, c: char)
    requires c !in s
    ensures c !in StripLeading(s, d)
  {
    if s != "" && s[0] == d { StripKeeps(s[1..], d, c); }
  }

  lemma {:induction false} TrimStartSnoc(s: string, x: char)
    requires IsSpace(x)
    ensures TrimStart(s + [x]) == if TrimStart(s) == "" then "" else TrimStart(s) + [x]
  {
    if s == "" {
      assert s + [x] == [x] && TrimStart([x]) == TrimStart([x][1..]);
    } else if IsSpace(s[0]) {
      TrimStartSnoc(s[1..], x);
      assert (s + [x])[1..] == s[1..] + [x];
    }
  }

  lemma {:induction false} TrimStartOfTrimEnd(s: string)
    ensures TrimStart(TrimEnd(s)) == TrimEnd(TrimStart(s))
  {
    if s != "" && IsSpace(s[|s| - 1]) {
      var front, x := s[..|s| - 1], s[|s| - 1];
      assert s == front + [x];
      TrimStartOfTrimEnd(front);
      TrimStartSnoc(front, x);
      var t := TrimStart(front);
      if t != "" { assert (t + [x])[..|t|] == t; }
    } else if s != "" {
      TrimStartLast(s);
    }
  }

  lemma {:induction false} TrimStartLast(s: string)
    requires s != "" && !IsSpace(s[|s| - 1])
    ensures TrimStart(s) != "" && TrimStart(s)[|TrimStart(s)| - 1] == s[|s| - 1]
  {
    if IsSpace(s[0]) { TrimStartLast(s[1..]); }
  }

  lemma TrimOfTrimEnd(s: string)
    ensures Trim(TrimEnd(s)) == Trim(s)
  {
    TrimStartOfTrimEnd(s);
  }

  // ----- searching

  lemma {:induction false} FindAfter(before: string, c: char, rest: string)
    requires c !in before
    ensures Find(before + [c] + rest, c) == Some(|before|)
  {
    if before == "" {
    } else {
      FindAfter(before[1..], c, rest);
      assert (before + [c] + rest)[1..] == before[1..] + [c] + rest;
    }
  }

  lemma {:induction false} FindLastBefore(before: string, c: char, rest: string)
    requires c !in rest
    ensures FindLast(before + [c] + rest, c) == Some(|before|)
  {
    var s := before + [c] + rest;
    if rest != "" {
      FindLastBefore(before, c, rest[..|rest| - 1]);
      assert s[..|s| - 1] == before + [c] + rest[..|rest| - 1];
    }
  }

  lemma {:induction false} StripRun(n: nat, c: char, rest: string)
    requires rest == "" || rest[0] != c
    ensures StripLeading(Repeat(c, n) + rest, c) == rest
  {
    if n == 0 {
      assert Repeat(c, 0) + rest == rest;
    } else {
      StripRun(n - 1, c, rest);
      assert (Repeat(c, n) + rest)[1..] == Repeat(c, n - 1) + rest;
    }
  }

  // ----- lines

  lemma {:induction false} SplitParts(s: string, c: char)
    ensures forall i :: 0 <= i < |Split(s, c)| ==> c !in Split(s, c)[i]
  {
    if s != "" {
      SplitParts(s[1..], c);
    }
  }

  lemma SplitFirst(s: string, c: char)
    ensures s != "" && s[0] != c ==> Split(s, c)[0] != ""
    ensures s == "" ==> Split(s, c) == [""]
  {
  }

  lemma {:induction false} SplitPlain(s: string, c: char)
    requires c !in s
    ensures Split(s, c) == [s]
  {
    if s != "" {
      SplitPlain(s[1..], c);
      assert s == [s[0]] + s[1..];
    }
  }

  lemma {:induction false} SplitCons(s: string, rest: string, c: char)
    requires c !in s
    ensures Split(s + [c] + rest, c) == [s] + Split(rest, c)
  {
    if s == "" {
      assert (s + [c] + rest)[1..] == rest;
    } else {
      SplitCons(s[1..], rest, c);
      assert (s + [c] + rest)[1..] == s[1..] + [c] + rest;
      assert s == [s[0]] + s[1..];
    }
  }

  lemma {:induction false} SplitOfJoin(parts: seq<string>, c: char)
    requires parts != [] && forall p :: p in parts ==> c !in p
    ensures Split(Join(parts, [c]), c) == parts
  {
    if |parts| == 1 {
      SplitPlain(parts[0], c);
    } else {
      var rest := Join(parts[1..], [c]);
      assert Join(parts, [c]) == parts[0] + [c] + rest;
      hide Join, Split;
      SplitOfJoin(parts[1..], c);
      SplitCons(parts[0], rest, c);
      assert [parts[0]] + parts[1..] == parts;
    }
  }

  lemma {:induction false} JoinOfSplit(s: string, c: char)
    ensures Join(Split(s, c), [c]) == s
  {
    if s != "" {
      JoinOfSplit(s[1..], c);
      var rest := Split(s[1..], c);
      if s[0] != c && |rest| > 1 {
        assert ([[s[0]] + rest[0]] + rest[1..])[1..] == rest[1..];
      }
    }
  }

  lemma {:induction false} JoinAppend(a: seq<string>, b: seq<string>, separator: string)
    requires a != [] && b != []
    ensures Join(a + b, separator) == Join(a, separator) + separator + Join(b, separator)
  {
    if |a| == 1 {
      assert (a + b)[1..] == b;
    } else {
      var rest := Join(a[1..] + b, separator);
      assert Join(a + b, separator) == a[0] + separator + rest by {
        assert (a + b)[1..] == a[1..] + b;
      }
      assert Join(a, separator) == a[0] + separator + Join(a[1..], separator);
      hide Join;
      JoinAppend(a[1..], b, separator);
      RegroupJoin(a[0], separator, Join(a[1..], separator), Join(b, separator));
    }
  }

  lemma RegroupJoin(first: string, separator: string, middle: string, last: string)
    ensures first + separator + (middle + separator + last) == (first + separator + middle) + separator + last
  {
    assert first + separator + (middle + (separator + last)) == first + separator + middle + (separator + last);
  }

  /** Lines that hold no line feed, do not end in a carriage return, and do not end the text with an
      empty line come back from the joined text. */
  lemma LinesOfJoin(lines: seq<string>)
    requires forall l :: l in lines ==> '\n' !in l && (l != "" ==> l[|l| - 1] != '\r')
    requires lines != [] ==> lines[|lines| - 1] != ""
    ensures Lines(Join(lines, "\n")) == lines
  {
    if lines == [] {
      assert Split("", '\n') == [""];
    } else {
      var s := Join(lines, "\n");
      assert Split(s, '\n') == lines by { JoinLf(lines); }
      LinesOf(s, lines);
    }
  }

  lemma JoinLf(lines: seq<string>)
    requires lines != [] && forall l :: l in lines ==> '\n' !in l
    ensures Split(Join(lines, "\n"), '\n') == lines
  {
    SplitOfJoin(lines, '\n');
    assert "\n" == ['\n'];
  }

  lemma LinesOfParts(s: string, parts: seq<string>)
    requires Split(s, '\n') == parts && parts[|parts| - 1] != ""
    ensures Lines(s) == StripReturns(parts[..|parts| - 1]) + [parts[|parts| - 1]]
  {
    hide Split, StripReturns;
  }

  lemma LinesOf(s: string, lines: seq<string>)
    requires Split(s, '\n') == lines
    requires lines[|lines| - 1] != ""
    requires forall l :: l in lines ==> l != "" ==> l[|l| - 1] != '\r'
    ensures Lines(s) == lines
  {
    hide Split, StripReturns;
    var n := |lines| - 1;
    StripNoReturns(lines[..n]);
    LinesOfParts(s, lines);
    assert lines == lines[..n] + [lines[n]];
  }

  /** A text as a form submits it: every line feed becomes a carriage return and a line feed. */
  function WithReturns(s: string): string {
    Join(Split(s, '\n'), "\r\n")
  }

  /** Every line but the last with a carriage return put after it. */
  function Returned(lines: seq<string>): (r: seq<string>)
    ensures |r| == |lines|
    ensures forall i :: 0 <= i < |lines| ==> r[i] == if i < |lines| - 1 then lines[i] + "\r" else lines[i]
  {
    seq(|lines|, i requires 0 <= i < |lines| => if i < |lines| - 1 then lines[i] + "\r" else lines[i])
  }

  lemma {:induction false} JoinReturned(lines: seq<string>)
    ensures Join(lines, "\r\n") == Join(Returned(lines), "\n")
  {
    if |lines| <= 1 {
      assert Returned(lines) == lines;
    } else {
      var rest := Join(lines[1..], "\r\n");
      assert Returned(lines)[1..] == Returned(lines[1..]);
      JoinReturned(lines[1..]);
      assert lines[0] + "\r\n" + rest == (lines[0] + "\r") + "\n" + rest by {
        assert "\r\n" == "\r" + "\n";
      }
    }
  }

  ghost predicate NoFeeds(lines: seq<string>) {
    forall l :: l in lines ==> '\n' !in l
  }

  lemma SubmittedText(lines: seq<string>)
    requires lines != [] && NoFeeds(lines)
    ensures WithReturns(Join(lines, "\n")) == Join(Returned(lines), "\n")
  {
    hide Join, Split, Returned;
    JoinLf(lines);
    JoinReturned(lines);
  }

  /** The lines of a submitted text are those of the text before. */
  lemma LinesOfReturns(lines: seq<string>)
    requires NoFeeds(lines) && (lines != [] ==> lines[|lines| - 1] != "")
    ensures Lines(WithReturns(Join(lines, "\n"))) == lines
  {
    hide Join, Split, Returned, StripReturns, WithReturns, Lines;
    if lines == [] {
      EmptyWithReturns();
    } else {
      var r := Returned(lines);
      SubmittedText(lines);
      ReturnedHoldNoFeed(lines);
      JoinLf(r);
      StripReturned(lines);
      LinesOfParts(Join(r, "\n"), r);
    }
  }

  lemma ReturnedHoldNoFeed(lines: seq<string>)
    requires NoFeeds(lines)
    ensures NoFeeds(Returned(lines))
  {
  }

  lemma StripReturned(lines: seq<string>)
    requires lines != []
    ensures var n, r := |lines| - 1, Returned(lines); r[n] == lines[n] && StripReturns(r[..n]) + [r[n]] == lines
  {
    var n, r := |lines| - 1, Returned(lines);
    forall i | 0 <= i < n ensures StripReturn(r[i]) == lines[i] {
      assert (lines[i] + "\r")[..|lines[i]|] == lines[i];
    }
    assert lines == lines[..n] + [lines[n]];
  }

  lemma EmptyWithReturns()
    ensures Lines(WithReturns(Join([], "\n"))) == []
  {
    assert Split("", '\n') == [""] && WithReturns("") == "";
  }

  lemma StripNoReturns(lines: seq<string>)
    requires forall l :: l in lines ==> l != "" ==> l[|l| - 1] != '\r'
    ensures StripReturns(lines) == lines
  {
    forall i | 0 <= i < |lines| ensures StripReturn(lines[i]) == lines[i] {
      assert lines[i] in lines;
    }
  }

  /** How many leading lines satisfy p. */
  function Span(lines: seq<string>, p: string -> bool): (n: nat)
    ensures n <= |lines|
    ensures forall i :: 0 <= i < n ==> p(lines[i])
    ensures n < |lines| ==> !p(lines[n])
  {
    if lines == [] || !p(lines[0]) then 0 else 1 + Span(lines[1..], p)
  }

  lemma {:induction false} SpanExactly(lines: seq<string>, p: string -> bool, n: nat)
    requires n <= |lines|
    requires forall i :: 0 <= i < n ==> p(lines[i])
    requires n < |lines| ==> !p(lines[n])
    ensures Span(lines, p) == n
  {
  }
}
