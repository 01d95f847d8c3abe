/** What the string functions do, told by the pieces a text is made of. */
module TextLaws {
  import opened Text

  /** The 25 code points with the Unicode White_Space property. */
  predicate Space(c: char) {
    c as int in {9, 10, 11, 12, 13, 32, 133, 160, 5760, 8192, 8193, 8194, 8195, 8196, 8197, 8198, 8199, 8200, 8201,
                 8202, 8232, 8233, 8239, 8287, 12288}
  }

  predicate Blank(s: string) {
    forall c :: c in s ==> Space(c)
  }

  predicate Bare(s: string) {
    s == "" || (!Space(s[0]) && !Space(s[|s| - 1]))
  }

  lemma SpaceIs(c: char)
    ensures IsSpace(c) <==> Space(c)
  {
  }

  lemma BlankCons(s: string)
    requires s != ""
    ensures Blank(s) <==> Space(s[0]) && Blank(s[1..])
  {
    hide Space;
    assert s == [s[0]] + s[1..];
  }

  lemma BlankSnoc(s: string, c: char)
    ensures Blank(s + [c]) <==> Blank(s) && Space(c)
  {
    hide Space;
    assert c in s + [c] && forall d :: d in s ==> d in s + [c];
  }

  /** Trimming the start takes white space away until there is none. */
  lemma {:induction false} TrimStartIs(s: string) returns (before: string)
    ensures s == before + TrimStart(s) && Blank(before)
    ensures TrimStart(s) == "" || !Space(TrimStart(s)[0])
  {
    hide IsSpace, Space, Blank;
    if s != "" { SpaceIs(s[0]); }
    if s != "" && IsSpace(s[0]) {
      var rest := TrimStartIs(s[1..]);
      before := [s[0]] + rest;
      Prepend(s[0], rest, TrimStart(s[1..]));
      assert s == [s[0]] + s[1..];
      assert before[1..] == rest;
      BlankCons(before);
    } else {
      before := "";
      EmptyIsBlank();
    }
  }

  lemma Prepend(c: char, s: string, t: string)
    ensures [c] + s + t == [c] + (s + t)
  {
  }

  lemma EmptyIsBlank()
    ensures Blank("")
  {
  }

  lemma {:induction false} TrimEndIs(s: string) returns (after: string)
    ensures s == TrimEnd(s) + after && Blank(after)
    ensures TrimEnd(s) == "" || !Space(TrimEnd(s)[|TrimEnd(s)| - 1])
  {
    hide IsSpace, Space, Blank;
    if s != "" { SpaceIs(s[|s| - 1]); }
    if s != "" && IsSpace(s[|s| - 1]) {
      var front := TrimEndIs(s[..|s| - 1]);
      after := front + [s[|s| - 1]];
      assert s == s[..|s| - 1] + [s[|s| - 1]];
      BlankSnoc(front, s[|s| - 1]);
    } else {
      after := "";
      EmptyIsBlank();
    }
  }

  /** The text with white space around it, and only that. */
  ghost predicate Padded(s: string, t: string) {
    Bare(t) && exists before, after :: s == before + t + after && Blank(before) && Blank(after)
  }

  lemma TrimPads(s: string)
    ensures Padded(s, Trim(s))
  {
    hide IsSpace, Space, Blank;
    var before := TrimStartIs(s);
    var t := TrimStart(s);
    var after := TrimEndIs(t);
    PadParts(s, before, TrimEnd(t), after);
    if TrimEnd(t) != "" { assert TrimEnd(t)[0] == t[0]; }
  }

  lemma PadParts(s: string, before: string, t: string, after: string)
    requires s == before + (t + after)
    ensures s == before + t + after
  {
  }

  lemma {:induction false} TrimStartDrops(before: string, t: string)
    requires Blank(before) && (t == "" || !Space(t[0]))
    ensures TrimStart(before + t) == t
  {
    hide IsSpace, Space, Blank;
    if before == "" {
      assert before + t == t;
      if t != "" { SpaceIs(t[0]); }
    } else {
      BlankCons(before);
      SpaceIs(before[0]);
      TrimStartDrops(before[1..], t);
      assert (before + t)[1..] == before[1..] + t;
    }
  }

  lemma {:induction false} TrimEndDrops(t: string, after: string)
    requires Blank(after) && (t == "" || !Space(t[|t| - 1]))
    ensures TrimEnd(t + after) == t
  {
    hide IsSpace, Space, Blank;
    var s := t + after;
    if after == "" {
      assert s == t;
      if t != "" { SpaceIs(t[|t| - 1]); }
    } else {
      var n := |after| - 1;
      assert after == after[..n] + [after[n]];
      BlankSnoc(after[..n], after[n]);
      SpaceIs(after[n]);
      TrimEndDrops(t, after[..n]);
      assert s[..|s| - 1] == t + after[..n];
    }
  }

  /** Trimming takes away exactly the white space at both ends. */
  lemma TrimIs(s: string, t: string)
    ensures Padded(s, t) <==> t == Trim(s)
  {
    hide IsSpace, Space, Blank, TrimStart, TrimEnd;
    TrimPads(s);
    if Padded(s, t) {
      var before, after :| s == before + t + after && Blank(before) && Blank(after);
      if t == "" {
        AllBlank(before, after);
        assert before + t == before;
      } else {
        PadParts(before + (t + after), before, t, after);
        TrimStartDrops(before, t + after);
        TrimEndDrops(t, after);
      }
    }
  }

  lemma AllBlank(before: string, after: string)
    requires Blank(before) && Blank(after)
    ensures Trim(before + after) == ""
  {
    hide IsSpace, Space, TrimEnd;
    TrimStartDrops(before + after, "");
    assert before + after + "" == before + after;
    TrimEndDrops("", "");
    assert "" + "" == "";
  }

  /** What is left when a run of one character is taken off the start. */
  lemma {:induction false} StripIs(s: string, c: char) returns (n: nat)
    ensures n <= |s| && (forall i :: 0 <= i < n ==> s[i] == c) && (n < |s| ==> s[n] != c)
    ensures StripLeading(s, c) == s[n..]
  {
    if s != "" && s[0] == c {
      n := StripIs(s[1..], c);
      assert forall i :: 1 <= i < n + 1 ==> s[i] == s[1..][i - 1];
      n := n + 1;
    } else {
      n := 0;
    }
  }

  // ----- lines

  /** The text is these lines, each behind the other: a line ends in a line feed, with a carriage return before
      it or not, and only the last may go without. */
  ghost predicate Ended(s: string, lines: seq<string>)
    decreases |lines|
  {
    if lines == [] then s == ""
    else
      || (|lines| == 1 && s == lines[0] && s != "" && '\n' !in s)
      || exists rest :: '\n' !in lines[0] && Ended(rest, lines[1..])
                        && (s == lines[0] + "\r\n" + rest
                            || (s == lines[0] + "\n" + rest && (lines[0] == "" || lines[0][|lines[0]| - 1] != '\r')))
  }

  function LinesOfPieces(parts: seq<string>): seq<string>
    requires parts != []
  {
    var n := |parts| - 1;
    StripReturns(parts[..n]) + if parts[n] == "" then [] else [parts[n]]
  }

  lemma LinesOfPiecesCons(parts: seq<string>)
    requires |parts| > 1
    ensures LinesOfPieces(parts) == [StripReturn(parts[0])] + LinesOfPieces(parts[1..])
  {
    var n := |parts| - 1;
    assert parts[1..][..n - 1] == parts[..n][1..];
    assert StripReturns(parts[..n]) == [StripReturn(parts[0])] + StripReturns(parts[..n][1..]);
  }

  lemma OneEnd(part: string, rest: string)
    requires '\n' !in part
    ensures var line := StripReturn(part);
            && '\n' !in line
            && (part + "\n" + rest == line + "\r\n" + rest
                || (part + "\n" + rest == line + "\n" + rest && (line == "" || line[|line| - 1] != '\r')))
  {
    var line := StripReturn(part);
    if line != part {
      assert part == line + "\r" && "\r" + "\n" == "\r\n";
      assert (line + "\r") + "\n" == line + ("\r" + "\n");
    }
  }

  lemma EndedCons(line: string, rest: string, lines: seq<string>, s: string)
    requires '\n' !in line && Ended(rest, lines)
    requires s == line + "\r\n" + rest
             || (s == line + "\n" + rest && (line == "" || line[|line| - 1] != '\r'))
    ensures Ended(s, [line] + lines)
  {
    assert ([line] + lines)[1..] == lines;
  }

  lemma LastPiece(part: string)
    requires '\n' !in part
    ensures Ended(part, LinesOfPieces([part]))
  {
    assert [part][..0] == [] && StripReturns([]) == [];
    assert [] + [part] == [part];
  }

  lemma {:induction false} PiecesEnd(parts: seq<string>)
    requires parts != [] && forall p :: p in parts ==> '\n' !in p
    ensures Ended(Join(parts, "\n"), LinesOfPieces(parts))
  {
    hide StripReturn, StripReturns, LinesOfPieces, Ended;
    if |parts| == 1 {
      LastPiece(parts[0]);
      assert parts == [parts[0]];
    } else {
      PiecesEnd(parts[1..]);
      LinesOfPiecesCons(parts);
      var rest := Join(parts[1..], "\n");
      OneEnd(parts[0], rest);
      EndedCons(StripReturn(parts[0]), rest, LinesOfPieces(parts[1..]), Join(parts, "\n"));
    }
  }

  /** The lines of a text are its pieces between line feeds, without the carriage return before a feed. */
  lemma LinesEnd(s: string)
    ensures Ended(s, Lines(s))
  {
    hide Split, Join, Ended, StripReturns;
    var parts := Split(s, '\n');
    JoinOfSplit(s, '\n');
    assert "\n" == ['\n'];
    SplitParts(s, '\n');
    PiecesEnd(parts);
    assert Lines(s) == LinesOfPieces(parts);
  }

  lemma LinesCons(part: string, rest: string)
    requires '\n' !in part
    ensures Lines(part + "\n" + rest) == [StripReturn(part)] + Lines(rest)
  {
    hide Split, StripReturn, StripReturns;
    var parts := Split(rest, '\n');
    SplitCons(part, rest, '\n');
    assert "\n" == ['\n'];
    assert ([part] + parts)[1..] == parts;
    LinesOfPiecesCons([part] + parts);
  }

  lemma StripsOne(line: string)
    ensures StripReturn(line + "\r") == line
    ensures line == "" || line[|line| - 1] != '\r' ==> StripReturn(line) == line
  {
    assert (line + "\r")[..|line|] == line;
  }

  lemma LastLine(s: string)
    requires '\n' !in s
    ensures Lines(s) == if s == "" then [] else [s]
  {
    SplitPlain(s, '\n');
    assert [s][..0] == [] && StripReturns([]) == [];
  }

  /** There is one such list of lines. */
  lemma {:induction false} EndedOnce(s: string, lines: seq<string>)
    requires Ended(s, lines)
    ensures lines == Lines(s)
    decreases |lines|
  {
    hide Lines;
    if lines == [] || (|lines| == 1 && s == lines[0] && s != "" && '\n' !in s) {
      LastLine(s);
    } else {
      var line := lines[0];
      var rest :| '\n' !in line && Ended(rest, lines[1..])
                  && (s == line + "\r\n" + rest
                      || (s == line + "\n" + rest && (line == "" || line[|line| - 1] != '\r')));
      hide Ended;
      EndedOnce(rest, lines[1..]);
      StripsOne(line);
      LinesCons(line, rest);
      LinesCons(line + "\r", rest);
      FeedRegroups(line, rest);
      assert lines == [line] + lines[1..];
    }
  }

  lemma FeedRegroups(line: string, rest: string)
    ensures line + "\r" + "\n" + rest == line + "\r\n" + rest
  {
    assert "\r" + "\n" == "\r\n";
    assert line + "\r" + "\n" == line + ("\r" + "\n");
  }
}
