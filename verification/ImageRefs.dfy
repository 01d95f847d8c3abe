/** The two scanners for image references in imported Markdown: they visit the same references, and
    rewriting changes nothing but the addresses that resolve. */
module ImageRefs {
  import opened Options
  import opened Text

  // ----- one step of the scan

  /** What a scanner finds at the next "![". */
  datatype Cut =
    | Done
    | NoBracket(before: string, after: string)
    | NoParen(before: string, alt: string, tail: string)
    | NoEnd(before: string, alt: string, round: string)
    | Found(before: string, alt: string, url: string, next: string)

  predicate BangAt(s: string, i: int) {
    0 <= i < |s| - 1 && s[i] == '!' && s[i + 1] == '['
  }

  /** Where "![" first occurs. */
  function FindBang(s: string): (i: Option<nat>)
    ensures i.Some? ==> BangAt(s, i.value) && forall j :: 0 <= j < i.value ==> !BangAt(s, j)
    ensures i.None? ==> forall j :: !BangAt(s, j)
  {
    if |s| < 2 then None
    else if BangAt(s, 0) then Some(0)
    else
      var found := FindBang(s[1..]);
      assert forall j :: 1 <= j ==> BangAt(s, j) == BangAt(s[1..], j - 1);
      match found
      case Some(i) => Some(i + 1)
      case None => None
  }

  /** The searches both scanners make, in their order. */
  function NextRef(s: string): Cut {
    match FindBang(s)
    case None => Done
    case Some(i) => AfterBang(s[..i], s[i + 2..])
  }

  function AfterBang(before: string, after: string): Cut {
    match Find(after, ']')
    case None => NoBracket(before, after)
    case Some(close) => AfterAlt(before, after[..close], after[close + 1..])
  }

  function AfterAlt(before: string, alt: string, tail: string): Cut {
    if !("(" <= tail) then NoParen(before, alt, tail)
    else
      match Find(tail[1..], ')')
      case None => NoEnd(before, alt, tail[1..])
      case Some(end) => Found(before, alt, tail[1..][..end], tail[1..][end + 1..])
  }

  /** The shapes of text, without searching: c splits s at its first "![". */
  ghost predicate Fits(s: string, c: Cut) {
    && (!c.Done? ==> forall j :: !BangAt(c.before, j))
    && (c.NoParen? || c.NoEnd? || c.Found? ==> ']' !in c.alt)
    && match c
       case Done => forall j :: !BangAt(s, j)
       case NoBracket(before, after) => s == before + ("![" + after) && ']' !in after
       case NoParen(before, alt, tail) => s == before + ("![" + (alt + ("]" + tail))) && !("(" <= tail)
       case NoEnd(before, alt, round) => s == before + ("![" + (alt + ("](" + round))) && ')' !in round
       case Found(before, alt, url, next) =>
         s == before + ("![" + (alt + ("](" + (url + (")" + next))))) && ')' !in url
  }

  /** The text around the first "![". */
  lemma BangSplit(s: string)
    ensures match FindBang(s)
            case Some(i) => i + 2 <= |s| && s == s[..i] + ("![" + s[i + 2..]) && forall j :: !BangAt(s[..i], j)
            case None => true
  {
    hide FindBang, BangAt;
    match FindBang(s)
    case None =>
    case Some(i) =>
      BangText(s, i);
      NoBangBefore(s, i);
  }

  lemma BangText(s: string, i: nat)
    requires BangAt(s, i)
    ensures i + 2 <= |s| && s == s[..i] + ("![" + s[i + 2..])
  {
  }

  lemma NoBangBefore(s: string, i: nat)
    requires i <= |s| && forall j :: 0 <= j < i ==> !BangAt(s, j)
    ensures forall j :: !BangAt(s[..i], j)
  {
    forall j ensures !BangAt(s[..i], j) {
      assert BangAt(s[..i], j) ==> BangAt(s, j);
    }
  }

  lemma FindSplit(s: string, c: char)
    ensures match Find(s, c)
            case Some(i) => i < |s| && s == s[..i] + ([c] + s[i + 1..]) && c !in s[..i]
            case None => c !in s
  {
    hide Find;
    match Find(s, c)
    case None =>
    case Some(i) => assert s[i..] == [c] + s[i + 1..];
  }

  lemma AltFits(before: string, alt: string, tail: string)
    requires forall j :: !BangAt(before, j)
    requires ']' !in alt
    ensures Fits(before + ("![" + (alt + ("]" + tail))), AfterAlt(before, alt, tail))
  {
    hide Find, BangAt;
    if "(" <= tail {
      var round := tail[1..];
      assert "]" + tail == "](" + round;
      FindSplit(round, ')');
    }
  }

  lemma BangFits(before: string, after: string)
    requires forall j :: !BangAt(before, j)
    ensures Fits(before + ("![" + after), AfterBang(before, after))
  {
    hide Find, BangAt, AfterAlt;
    FindSplit(after, ']');
    match Find(after, ']')
    case None =>
    case Some(close) => AltFits(before, after[..close], after[close + 1..]);
  }

  /** The search finds the shape. */
  lemma NextRefFits(s: string)
    ensures Fits(s, NextRef(s))
  {
    hide FindBang, AfterBang, BangAt;
    BangSplit(s);
    match FindBang(s)
    case None =>
    case Some(i) => BangFits(s[..i], s[i + 2..]);
  }

  lemma BangAfter(before: string, after: string)
    requires forall j :: !BangAt(before, j)
    ensures FindBang(before + ("![" + after)) == Some(|before|)
  {
    var s := before + ("![" + after);
    assert BangAt(s, |before|);
    forall j | 0 <= j < |before| ensures !BangAt(s, j) {
      assert !BangAt(before, j);
    }
  }

  lemma FindAt(before: string, c: char, rest: string)
    requires c !in before
    ensures Find(before + ([c] + rest), c) == Some(|before|)
  {
    hide Find;
    FindAfter(before, c, rest);
    RegroupText(before, [c], rest);
  }

  lemma RegroupText(a: string, b: string, c: string)
    ensures a + b + c == a + (b + c)
  {
  }

  lemma TakeDrop(a: string, b: string, n: nat)
    requires n <= |b|
    ensures (a + b)[..|a|] == a && (a + b)[|a| + n..] == b[n..]
  {
  }

  lemma OnlyFound(before: string, alt: string, url: string, next: string)
    requires ')' !in url
    ensures AfterAlt(before, alt, "(" + (url + (")" + next))) == Found(before, alt, url, next)
  {
    hide Find;
    var round := url + (")" + next);
    assert ("(" + round)[1..] == round;
    FindAt(url, ')', next);
    TakeDrop(url, ")" + next, 1);
    assert (")" + next)[1..] == next;
  }

  lemma OnlyNoParen(before: string, alt: string, tail: string)
    requires !("(" <= tail)
    ensures AfterAlt(before, alt, tail) == NoParen(before, alt, tail)
  {
  }

  lemma OnlyNoEnd(before: string, alt: string, round: string)
    requires ')' !in round
    ensures AfterAlt(before, alt, "(" + round) == NoEnd(before, alt, round)
  {
    hide Find;
    assert ("(" + round)[1..] == round;
    FindSplit(round, ')');
  }

  lemma OnlyAfterBang(before: string, alt: string, tail: string)
    requires ']' !in alt
    ensures AfterBang(before, alt + ("]" + tail)) == AfterAlt(before, alt, tail)
  {
    hide Find, AfterAlt;
    FindAt(alt, ']', tail);
    TakeDrop(alt, "]" + tail, 1);
  }

  lemma OnlyNoBracket(before: string, after: string)
    requires ']' !in after
    ensures AfterBang(before, after) == NoBracket(before, after)
  {
    hide Find;
    FindSplit(after, ']');
  }

  lemma OnlyNextRef(before: string, after: string)
    requires forall j :: !BangAt(before, j)
    ensures NextRef(before + ("![" + after)) == AfterBang(before, after)
  {
    hide FindBang, AfterBang, BangAt;
    BangAfter(before, after);
    TakeDrop(before, "![" + after, 2);
  }

  /** The shape is the only one there is. */
  lemma FitsOnlyNextRef(s: string, c: Cut)
    requires Fits(s, c)
    ensures NextRef(s) == c
  {
    hide FindBang, BangAt, AfterBang, AfterAlt;
    match c
    case Done => hide Find; BangSplit(s);
    case NoBracket(before, after) => OnlyNextRef(before, after); OnlyNoBracket(before, after);
    case NoParen(before, alt, tail) =>
      OnlyNextRef(before, alt + ("]" + tail));
      OnlyAfterBang(before, alt, tail);
      OnlyNoParen(before, alt, tail);
    case NoEnd(before, alt, round) =>
      assert "](" + round == "]" + ("(" + round);
      OnlyNextRef(before, alt + ("](" + round));
      OnlyAfterBang(before, alt, "(" + round);
      OnlyNoEnd(before, alt, round);
    case Found(before, alt, url, next) =>
      var round := url + (")" + next);
      assert "](" + round == "]" + ("(" + round);
      OnlyNextRef(before, alt + ("](" + round));
      OnlyAfterBang(before, alt, "(" + round);
      OnlyFound(before, alt, url, next);
  }

  // ----- whole texts

  datatype Segment = Plain(text: string) | Ref(alt: string, url: string) {
    function Source(): string {
      if Plain? then text else "![" + (alt + ("](" + (url + ")")))
    }
  }

  /** The text cut into plain stretches and references. */
  function Scan(s: string): seq<Segment>
    decreases |s|
  {
    NextRefFits(s);
    match NextRef(s)
    case Done => [Plain(s)]
    case NoBracket(before, after) => [Plain(before + "![")] + Scan(after)
    case NoParen(before, alt, tail) => [Plain(before + ("![" + (alt + "]")))] + Scan(tail)
    case NoEnd(before, alt, round) => [Plain(before + ("![" + (alt + "](")))] + Scan(round)
    case Found(before, alt, url, next) => [Plain(before)] + ([Ref(alt, url)] + Scan(next))
  }

  function Flatten(gs: seq<Segment>): string {
    if gs == [] then "" else gs[0].Source() + Flatten(gs[1..])
  }

  /** The references among the segments, in order. */
  function Refs(gs: seq<Segment>): seq<(string, string)> {
    if gs == [] then [] else (if gs[0].Ref? then [(gs[0].alt, gs[0].url)] else []) + Refs(gs[1..])
  }

  predicate LooksRemote(url: string) {
    "http://" <= url || "https://" <= url || "data:" <= url || "/" <= url || "#" <= url
  }

  /** The resolver may keep state: in a scan of one text its answer is determined by how many questions
      came before. */
  type Resolver = (nat, string, string) -> Option<string>

  function Resolved(g: Segment, resolve: Resolver, k: nat): Segment
    requires g.Ref?
  {
    match resolve(k, g.alt, g.url)
    case Some(url) => g.(url := url)
    case None => g
  }

  /** The segments with every address that resolves replaced; k references came before. */
  function Replaced(gs: seq<Segment>, resolve: Resolver, k: nat): (r: seq<Segment>)
    ensures |r| == |gs|
  {
    if gs == [] then []
    else if gs[0].Plain? then [gs[0]] + Replaced(gs[1..], resolve, k)
    else [Resolved(gs[0], resolve, k)] + Replaced(gs[1..], resolve, k + 1)
  }

  function Rewritten(s: string, resolve: Resolver, k: nat): string {
    Flatten(Replaced(Scan(s), resolve, k))
  }

  datatype Tally = Tally(imported: nat, unresolved: nat, remote: nat) {
    function Total(): nat {
      imported + unresolved + remote
    }
  }

  function Count(gs: seq<Segment>, resolve: Resolver, k: nat): Tally {
    if gs == [] then Tally(0, 0, 0)
    else if gs[0].Plain? then Count(gs[1..], resolve, k)
    else
      var t := Count(gs[1..], resolve, k + 1);
      if resolve(k, gs[0].alt, gs[0].url).Some? then t.(imported := t.imported + 1)
      else if LooksRemote(gs[0].url) then t.(remote := t.remote + 1)
      else t.(unresolved := t.unresolved + 1)
  }

  // ----- putting a segment in front

  lemma FlattenCons(g: Segment, gs: seq<Segment>)
    ensures Flatten([g] + gs) == g.Source() + Flatten(gs)
  {
    assert ([g] + gs)[1..] == gs;
  }

  lemma RefsCons(g: Segment, gs: seq<Segment>)
    ensures Refs([g] + gs) == (if g.Ref? then [(g.alt, g.url)] else []) + Refs(gs)
  {
    assert ([g] + gs)[1..] == gs;
  }

  lemma PlainFirst(g: Segment, gs: seq<Segment>, resolve: Resolver, k: nat)
    requires g.Plain?
    ensures Replaced([g] + gs, resolve, k) == [g] + Replaced(gs, resolve, k)
    ensures Count([g] + gs, resolve, k) == Count(gs, resolve, k)
  {
    hide LooksRemote;
    assert ([g] + gs)[1..] == gs;
  }

  lemma RefFirst(g: Segment, gs: seq<Segment>, resolve: Resolver, k: nat)
    requires g.Ref?
    ensures Replaced([g] + gs, resolve, k) == [Resolved(g, resolve, k)] + Replaced(gs, resolve, k + 1)
    ensures var t := Count(gs, resolve, k + 1);
            Count([g] + gs, resolve, k) ==
            if resolve(k, g.alt, g.url).Some? then t.(imported := t.imported + 1)
            else if LooksRemote(g.url) then t.(remote := t.remote + 1) else t.(unresolved := t.unresolved + 1)
  {
    hide LooksRemote;
    assert ([g] + gs)[1..] == gs;
  }

  /** What stays as it is in front of the next round, and where that round starts. */
  function Skipped(c: Cut): (string, string)
    requires !c.Done? && !c.Found?
  {
    match c
    case NoBracket(before, after) => (before + "![", after)
    case NoParen(before, alt, tail) => (before + ("![" + (alt + "]")), tail)
    case NoEnd(before, alt, round) => (before + ("![" + (alt + "](")), round)
  }

  lemma ScanSkips(s: string, c: Cut)
    requires c == NextRef(s) && !c.Done? && !c.Found?
    ensures var (text, next) := Skipped(c); s == text + next && Scan(s) == [Plain(text)] + Scan(next)
  {
    hide NextRef, BangAt;
    NextRefFits(s);
  }

  lemma Skip(s: string, c: Cut, resolve: Resolver, k: nat)
    requires c == NextRef(s) && !c.Done? && !c.Found?
    ensures var (text, next) := Skipped(c);
            && Rewritten(s, resolve, k) == text + Rewritten(next, resolve, k)
            && Count(Scan(s), resolve, k) == Count(Scan(next), resolve, k)
            && Refs(Scan(s)) == Refs(Scan(next))
  {
    hide NextRef, Scan, Skipped, Count, Refs, Flatten, Replaced;
    ScanSkips(s, c);
    var (text, next) := Skipped(c);
    var g := Plain(text);
    PlainFirst(g, Scan(next), resolve, k);
    FlattenCons(g, Replaced(Scan(next), resolve, k));
    RefsCons(g, Scan(next));
  }

  lemma Take(s: string, c: Cut, resolve: Resolver, k: nat)
    requires c == NextRef(s) && c.Found?
    ensures var t, next := Resolved(Ref(c.alt, c.url), resolve, k), Scan(c.next);
            && Rewritten(s, resolve, k) == c.before + (t.Source() + Rewritten(c.next, resolve, k + 1))
            && Refs(Scan(s)) == [(c.alt, c.url)] + Refs(next)
            && var u, v := Count(Scan(s), resolve, k), Count(next, resolve, k + 1);
               && u.imported == v.imported + (if resolve(k, c.alt, c.url).Some? then 1 else 0)
               && u.unresolved == v.unresolved
                                  + if resolve(k, c.alt, c.url).None? && !LooksRemote(c.url) then 1 else 0
  {
    hide NextRef, Flatten, Replaced, Count, Refs, LooksRemote;
    var g, r, next := Plain(c.before), Ref(c.alt, c.url), Scan(c.next);
    assert Scan(s) == [g] + ([r] + next);
    PlainFirst(g, [r] + next, resolve, k);
    RefFirst(r, next, resolve, k);
    FlattenCons(g, Replaced([r] + next, resolve, k));
    FlattenCons(Resolved(r, resolve, k), Replaced(next, resolve, k + 1));
    RefsCons(g, [r] + next);
    RefsCons(r, next);
  }

  lemma Last(s: string, resolve: Resolver, k: nat)
    requires NextRef(s).Done?
    ensures Rewritten(s, resolve, k) == s && Count(Scan(s), resolve, k) == Tally(0, 0, 0) && Refs(Scan(s)) == []
  {
    hide NextRef, Flatten, Replaced, Count, Refs;
    var g := Plain(s);
    assert Scan(s) == [g] + [];
    PlainFirst(g, [], resolve, k);
    FlattenCons(g, []);
    RefsCons(g, []);
    Empty(resolve, k);
  }

  lemma Empty(resolve: Resolver, k: nat)
    ensures Replaced([], resolve, k) == [] && Count([], resolve, k) == Tally(0, 0, 0) && Refs([]) == []
        && Flatten([]) == ""
  {
  }

  /** Each reference visited is counted once. */
  lemma {:induction false} EveryRefCounted(gs: seq<Segment>, resolve: Resolver, k: nat)
    ensures Count(gs, resolve, k).Total() == |Refs(gs)|
  {
    hide LooksRemote, Count, Refs;
    if gs == [] {
      Empty(resolve, k);
    } else {
      var g, rest := gs[0], gs[1..];
      assert gs == [g] + rest;
      RefsCons(g, rest);
      if g.Plain? {
        EveryRefCounted(rest, resolve, k);
        PlainFirst(g, rest, resolve, k);
      } else {
        EveryRefCounted(rest, resolve, k + 1);
        RefFirst(g, rest, resolve, k);
      }
    }
  }

  // ----- the two loops

  lemma Shift(out: string, text: string, rest: string)
    ensures out + (text + rest) == (out + text) + rest
  {
  }

  lemma DoneAt(s: string)
    requires FindBang(s).None?
    ensures NextRef(s) == Done
  {
  }

  lemma BangInside(s: string)
    ensures FindBang(s).Some? ==> FindBang(s).value + 2 <= |s|
  {
    hide FindBang;
  }

  /** The searches of a loop, one after the other, are those of NextRef. */
  lemma BracketMissing(s: string, i: nat)
    requires FindBang(s) == Some(i) && i + 2 <= |s| && Find(s[i + 2..], ']').None?
    ensures NextRef(s) == NoBracket(s[..i], s[i + 2..]) && ']' !in s[i + 2..]
  {
    hide FindBang, AfterAlt, BangAt;
    FindSplit(s[i + 2..], ']');
  }

  lemma BracketFound(s: string, i: nat, close: nat)
    requires FindBang(s) == Some(i) && i + 2 <= |s| && Find(s[i + 2..], ']') == Some(close)
    ensures var after := s[i + 2..];
            close < |after| && NextRef(s) == AfterAlt(s[..i], after[..close], after[close + 1..])
  {
    hide FindBang, AfterAlt, BangAt;
  }

  lemma EndMissing(before: string, alt: string, tail: string)
    requires "(" <= tail && Find(tail[1..], ')').None?
    ensures AfterAlt(before, alt, tail) == NoEnd(before, alt, tail[1..]) && ')' !in tail[1..]
  {
    FindSplit(tail[1..], ')');
  }

  lemma EndFound(before: string, alt: string, tail: string, end: nat)
    requires "(" <= tail && Find(tail[1..], ')') == Some(end)
    ensures end < |tail[1..]|
    ensures AfterAlt(before, alt, tail) == Found(before, alt, tail[1..][..end], tail[1..][end + 1..])
  {
  }

  /** What is written and counted so far, and what the rest of the text still brings. */
  ghost predicate Ahead(markdown: string, rest: string, out: string, imported: nat, unresolved: nat, resolve: Resolver,
                        k: nat) {
    var whole, left := Count(Scan(markdown), resolve, 0), Count(Scan(rest), resolve, k);
    && out + Rewritten(rest, resolve, k) == Rewritten(markdown, resolve, 0)
    && imported + left.imported == whole.imported
    && unresolved + left.unresolved == whole.unresolved
  }

  lemma SkipStep(markdown: string, s: string, before: string, mark: string, next: string, out: string,
                 imported: nat, unresolved: nat, resolve: Resolver, k: nat)
    requires Ahead(markdown, s, out, imported, unresolved, resolve, k)
    requires var c := NextRef(s); !c.Done? && !c.Found? && Skipped(c) == (before + mark, next)
    ensures |next| < |s|
    ensures Ahead(markdown, next, out + before + mark, imported, unresolved, resolve, k)
  {
    hide NextRef, Rewritten, Count, Refs, Scan, Skipped;
    var c := NextRef(s);
    Skip(s, c, resolve, k);
    SkippedIsShorter(s, c);
    Shift(out, before + mark, Rewritten(next, resolve, k));
    Shift(out, before, mark);
  }

  lemma SkippedIsShorter(s: string, c: Cut)
    requires c == NextRef(s) && !c.Done? && !c.Found?
    ensures |Skipped(c).1| < |s|
  {
    hide NextRef, BangAt;
    NextRefFits(s);
  }

  lemma TakeStep(markdown: string, s: string, out: string, imported: nat, unresolved: nat, resolve: Resolver, k: nat)
    requires Ahead(markdown, s, out, imported, unresolved, resolve, k)
    requires NextRef(s).Found?
    ensures var c := NextRef(s);
            var answer := resolve(k, c.alt, c.url);
            && |c.next| < |s|
            && Ahead(markdown, c.next,
                     out + c.before + Ref(c.alt, if answer.Some? then answer.value else c.url).Source(),
                     imported + (if answer.Some? then 1 else 0),
                     unresolved + (if answer.None? && !LooksRemote(c.url) then 1 else 0), resolve, k + 1)
  {
    hide NextRef, Rewritten, Count, Refs, Scan, LooksRemote;
    var c := NextRef(s);
    ScanTakes(s, c);
    Take(s, c, resolve, k);
    var text, rest := Resolved(Ref(c.alt, c.url), resolve, k).Source(), Rewritten(c.next, resolve, k + 1);
    Shift(out, c.before, text + rest);
    Shift(out + c.before, text, rest);
  }

  /** The rewriting scanner. */
  method RewriteImageRefs(markdown: string, resolve: Resolver) returns (out: string, imported: nat, unresolved: nat)
    ensures out == Rewritten(markdown, resolve, 0)
    ensures var t := Count(Scan(markdown), resolve, 0); imported == t.imported && unresolved == t.unresolved
  {
    hide Find, FindBang, Scan, Rewritten, Count, Refs, LooksRemote, BangAt, Flatten, Replaced, NextRef, AfterBang;
    out, imported, unresolved := "", 0, 0;
    var rest, k := markdown, 0;
    while FindBang(rest).Some?
      invariant Ahead(markdown, rest, out, imported, unresolved, resolve, k)
      decreases |rest|
    {
      hide Ahead;
      ghost var start := out;
      BangInside(rest);
      var i := FindBang(rest).value;
      out := out + rest[..i];
      var after := rest[i + 2..];
      var close := Find(after, ']');
      if close.None? {
        BracketMissing(rest, i);
        SkipStep(markdown, rest, rest[..i], "![", after, start, imported, unresolved, resolve, k);
        out := out + "![";
        rest := after;
        continue;
      }
      BracketFound(rest, i, close.value);
      var alt, tail := after[..close.value], after[close.value + 1..];
      if !("(" <= tail) {
        SkipStep(markdown, rest, rest[..i], "![" + (alt + "]"), tail, start, imported, unresolved, resolve, k);
        out := out + ("![" + (alt + "]"));
        rest := tail;
        continue;
      }
      hide AfterAlt;
      var end := Find(tail[1..], ')');
      if end.None? {
        EndMissing(rest[..i], alt, tail);
        SkipStep(markdown, rest, rest[..i], "![" + (alt + "]("), tail[1..], start, imported, unresolved, resolve, k);
        out := out + ("![" + (alt + "]("));
        rest := tail[1..];
        continue;
      }
      EndFound(rest[..i], alt, tail, end.value);
      var url, next := tail[1..][..end.value], tail[1..][end.value + 1..];
      TakeStep(markdown, rest, start, imported, unresolved, resolve, k);
      match resolve(k, alt, url) {
        case Some(address) =>
          out := out + Ref(alt, address).Source();
          imported := imported + 1;
        case None =>
          out := out + Ref(alt, url).Source();
          if !LooksRemote(url) {
            unresolved := unresolved + 1;
          }
      }
      rest, k := next, k + 1;
    }
    DoneAt(rest);
    Last(rest, resolve, k);
    out := out + rest;
  }

  /** A text without both closing characters holds no reference. */
  lemma {:induction false} NoCloserNoRefs(s: string)
    requires ']' !in s || ')' !in s
    ensures Refs(Scan(s)) == []
    decreases |s|
  {
    hide NextRef, Scan, Refs, BangAt;
    var c, none := NextRef(s), (k: nat, alt: string, url: string) => None;
    NextRefFits(s);
    if c.Done? {
      Last(s, none, 0);
    } else {
      NotFound(s, c);
      Skip(s, c, none, 0);
      ScanSkips(s, c);
      NoCloserNoRefs(Skipped(c).1);
    }
  }

  lemma NotFound(s: string, c: Cut)
    requires Fits(s, c) && (']' !in s || ')' !in s)
    ensures !c.Found?
    ensures !c.Done? ==> ']' !in Skipped(c).1 || ')' !in Skipped(c).1
  {
    hide BangAt;
  }

  /** What was visited so far, and what the rest of the text still brings. */
  ghost predicate Seen(markdown: string, rest: string, visited: seq<(string, string)>) {
    visited + Refs(Scan(rest)) == Refs(Scan(markdown))
  }

  lemma SkipSeen(markdown: string, s: string, visited: seq<(string, string)>)
    requires var c := NextRef(s); !c.Done? && !c.Found?
    requires Seen(markdown, s, visited)
    ensures var next := Skipped(NextRef(s)).1; |next| < |s| && Seen(markdown, next, visited)
    ensures var next := Skipped(NextRef(s)).1; ']' !in next || ')' !in next ==> visited == Refs(Scan(markdown))
  {
    hide NextRef, Scan, Rewritten, Count, Refs, Skipped;
    var c := NextRef(s);
    Skip(s, c, (k: nat, alt: string, url: string) => None, 0);
    SkippedIsShorter(s, c);
    var next := Skipped(c).1;
    if ']' !in next || ')' !in next {
      NoCloserNoRefs(next);
    }
  }

  lemma TakeSeen(markdown: string, s: string, visited: seq<(string, string)>)
    requires NextRef(s).Found?
    requires Seen(markdown, s, visited)
    ensures var c := NextRef(s); |c.next| < |s| && Seen(markdown, c.next, visited + [(c.alt, c.url)])
  {
    hide NextRef, Scan, Rewritten, Count, Refs, Resolved;
    var c := NextRef(s);
    ScanTakes(s, c);
    Take(s, c, (k: nat, alt: string, url: string) => None, 0);
  }

  /** The visiting scanner gives up as soon as a closing character is missing, and still visits
      exactly the references that the rewriting scanner does. */
  method ForEachImageRef(markdown: string) returns (visited: seq<(string, string)>)
    ensures visited == Refs(Scan(markdown))
  {
    hide Find, FindBang, Scan, Refs, BangAt, NextRef, AfterBang;
    visited := [];
    var rest := markdown;
    while FindBang(rest).Some?
      invariant Seen(markdown, rest, visited)
      decreases |rest|
    {
      hide Seen;
      BangInside(rest);
      var i := FindBang(rest).value;
      var after := rest[i + 2..];
      var close := Find(after, ']');
      if close.None? {
        BracketMissing(rest, i);
        SkipSeen(markdown, rest, visited);
        return;
      }
      BracketFound(rest, i, close.value);
      var alt, tail := after[..close.value], after[close.value + 1..];
      if !("(" <= tail) {
        SkipSeen(markdown, rest, visited);
        rest := tail;
        continue;
      }
      hide AfterAlt;
      var end := Find(tail[1..], ')');
      if end.None? {
        EndMissing(rest[..i], alt, tail);
        SkipSeen(markdown, rest, visited);
        return;
      }
      EndFound(rest[..i], alt, tail, end.value);
      TakeSeen(markdown, rest, visited);
      visited := visited + [(alt, tail[1..][..end.value])];
      rest := tail[1..][end.value + 1..];
    }
    DoneAt(rest);
    Last(rest, (k: nat, alt: string, url: string) => None, 0);
  }

  // ----- what rewriting promises

  lemma {:induction false} NothingReplaced(gs: seq<Segment>, resolve: Resolver, k: nat)
    requires forall j, g :: g in gs && g.Ref? ==> resolve(j, g.alt, g.url).None?
    ensures Replaced(gs, resolve, k) == gs
  {
    if gs != [] {
      NothingReplaced(gs[1..], resolve, if gs[0].Plain? then k else k + 1);
    }
  }

  lemma {:induction false} ScanIsLossless(s: string)
    ensures Flatten(Scan(s)) == s
    decreases |s|
  {
    hide NextRef, Scan, Flatten, BangAt, Replaced;
    var c, none := NextRef(s), (k: nat, alt: string, url: string) => None;
    NextRefFits(s);
    NothingReplaced(Scan(s), none, 0);
    if c.Done? {
      Last(s, none, 0);
    } else if c.Found? {
      ScanIsLossless(c.next);
      NothingReplaced(Scan(c.next), none, 1);
      Take(s, c, none, 0);
      TextOfFound(c.before, c.alt, c.url, c.next);
    } else {
      ScanSkips(s, c);
      var next := Skipped(c).1;
      ScanIsLossless(next);
      NothingReplaced(Scan(next), none, 0);
      Skip(s, c, none, 0);
    }
  }

  /** When nothing resolves, the text comes back unchanged. */
  lemma NothingResolvesNothingChanges(s: string, resolve: Resolver)
    requires forall j, g :: g in Scan(s) && g.Ref? ==> resolve(j, g.alt, g.url).None?
    ensures Rewritten(s, resolve, 0) == s
  {
    hide Scan, Flatten, Replaced;
    NothingReplaced(Scan(s), resolve, 0);
    ScanIsLossless(s);
  }

  // ----- scanning what was rewritten

  predicate Closed(gs: seq<Segment>) {
    forall g :: g in gs && g.Ref? ==> ')' !in g.url
  }

  lemma {:induction false} NoRefsUnchanged(gs: seq<Segment>, resolve: Resolver, k: nat)
    requires Refs(gs) == []
    ensures Replaced(gs, resolve, k) == gs
  {
    if gs != [] {
      NoRefsUnchanged(gs[1..], resolve, k);
    }
  }

  lemma NoCloserUnchanged(s: string, resolve: Resolver, k: nat)
    requires ']' !in s || ')' !in s
    ensures Rewritten(s, resolve, k) == s
  {
    hide Scan, Flatten, Replaced, Refs;
    NoCloserNoRefs(s);
    NoRefsUnchanged(Scan(s), resolve, k);
    ScanIsLossless(s);
  }

  /** Rewriting keeps the first character, so no "(" appears after an "]" that had none. */
  lemma FirstCharKept(s: string, resolve: Resolver, k: nat)
    ensures "(" <= Rewritten(s, resolve, k) ==> "(" <= s
  {
    hide NextRef, Scan, Rewritten, Count, Refs, BangAt;
    var c := NextRef(s);
    NextRefFits(s);
    if c.Done? {
      Last(s, resolve, k);
    } else if c.Found? {
      Take(s, c, resolve, k);
    } else {
      Skip(s, c, resolve, k);
      ScanSkips(s, c);
    }
  }

  /** A second scan of the rewritten text sees the same stretches and the same references, at their
      new addresses, exactly when no new address holds a closing parenthesis. */
  lemma RescanIff(s: string, resolve: Resolver, k: nat)
    ensures Scan(Rewritten(s, resolve, k)) == Replaced(Scan(s), resolve, k) <==> Closed(Replaced(Scan(s), resolve, k))
  {
    hide Scan, Replaced;
    var r := Rewritten(s, resolve, k);
    ScanIsClosed(r);
    if Closed(Replaced(Scan(s), resolve, k)) {
      Rescan(s, resolve, k);
    }
  }

  lemma ClosedCons(g: Segment, gs: seq<Segment>)
    ensures Closed([g] + gs) == ((g.Ref? ==> ')' !in g.url) && Closed(gs))
  {
    assert forall h :: h in [g] + gs <==> h == g || h in gs;
  }

  lemma {:induction false} ScanIsClosed(s: string)
    ensures Closed(Scan(s))
    decreases |s|
  {
    hide NextRef, BangAt;
    var c := NextRef(s);
    NextRefFits(s);
    if c.Found? {
      ScanIsClosed(c.next);
      ClosedCons(Ref(c.alt, c.url), Scan(c.next));
      ClosedCons(Plain(c.before), [Ref(c.alt, c.url)] + Scan(c.next));
    } else if !c.Done? {
      ScanSkips(s, c);
      ScanIsClosed(Skipped(c).1);
      ClosedCons(Plain(Skipped(c).0), Scan(Skipped(c).1));
    }
  }

  /** The cut of a rewritten text, piece by piece. */
  function Moved(c: Cut, resolve: Resolver, k: nat): Cut
    requires !c.Done?
  {
    match c
    case NoBracket(before, after) => NoBracket(before, Rewritten(after, resolve, k))
    case NoParen(before, alt, tail) => NoParen(before, alt, Rewritten(tail, resolve, k))
    case NoEnd(before, alt, round) => NoEnd(before, alt, Rewritten(round, resolve, k))
    case Found(before, alt, url, next) =>
      Found(before, alt, Resolved(Ref(alt, url), resolve, k).url, Rewritten(next, resolve, k + 1))
  }

  lemma MovedFits(s: string, c: Cut, resolve: Resolver, k: nat)
    requires c == NextRef(s) && !c.Done?
    requires c.Found? ==> ')' !in Resolved(Ref(c.alt, c.url), resolve, k).url
    ensures NextRef(Rewritten(s, resolve, k)) == Moved(c, resolve, k)
  {
    hide NextRef, Scan, Rewritten, BangAt, Count, Refs;
    NextRefFits(s);
    var d := Moved(c, resolve, k);
    if c.Found? {
      Take(s, c, resolve, k);
      TextOfFound(c.before, d.alt, d.url, d.next);
    } else {
      Skip(s, c, resolve, k);
      match c
      case NoBracket(before, after) => NoCloserUnchanged(after, resolve, k);
      case NoParen(before, alt, tail) =>
        FirstCharKept(tail, resolve, k);
        Regroup(before, alt, "]", d.tail);
      case NoEnd(before, alt, round) =>
        NoCloserUnchanged(round, resolve, k);
        Regroup(before, alt, "](", d.round);
    }
    FitsOnlyNextRef(Rewritten(s, resolve, k), d);
  }

  lemma Regroup(before: string, alt: string, mark: string, rest: string)
    ensures (before + ("![" + (alt + mark))) + rest == before + ("![" + (alt + (mark + rest)))
  {
  }

  lemma TextOfFound(before: string, alt: string, url: string, rest: string)
    ensures before + (Ref(alt, url).Source() + rest) == before + ("![" + (alt + ("](" + (url + (")" + rest)))))
  {
    Shift("![", alt + ("](" + (url + ")")), rest);
    Shift(alt, "](" + (url + ")"), rest);
    Shift("](", url + ")", rest);
    Shift(url, ")", rest);
  }

  lemma {:induction false} Rescan(s: string, resolve: Resolver, k: nat)
    requires Closed(Replaced(Scan(s), resolve, k))
    ensures Scan(Rewritten(s, resolve, k)) == Replaced(Scan(s), resolve, k)
    decreases |s|
  {
    hide NextRef, Rewritten, BangAt, Replaced, Closed, Scan;
    var c := NextRef(s);
    NextRefFits(s);
    if c.Done? {
      RescanLast(s, resolve, k);
    } else if c.Found? {
      var g, r, next := Plain(c.before), Ref(c.alt, c.url), Scan(c.next);
      ScanTakes(s, c);
      PlainFirst(g, [r] + next, resolve, k);
      RefFirst(r, next, resolve, k);
      var t := Resolved(r, resolve, k);
      ClosedCons(g, [t] + Replaced(next, resolve, k + 1));
      ClosedCons(t, Replaced(next, resolve, k + 1));
      MovedFits(s, c, resolve, k);
      Rescan(c.next, resolve, k + 1);
      ScanTakes(Rewritten(s, resolve, k), Moved(c, resolve, k));
    } else {
      ScanSkips(s, c);
      var (text, next) := Skipped(c);
      PlainFirst(Plain(text), Scan(next), resolve, k);
      ClosedCons(Plain(text), Replaced(Scan(next), resolve, k));
      MovedFits(s, c, resolve, k);
      Rescan(next, resolve, k);
      ScanSkips(Rewritten(s, resolve, k), Moved(c, resolve, k));
    }
  }

  lemma RescanLast(s: string, resolve: Resolver, k: nat)
    requires NextRef(s).Done?
    ensures Scan(Rewritten(s, resolve, k)) == Replaced(Scan(s), resolve, k)
  {
    hide NextRef;
    Last(s, resolve, k);
    assert Scan(s) == [Plain(s)] + [];
    PlainFirst(Plain(s), [], resolve, k);
  }

  lemma ScanTakes(s: string, c: Cut)
    requires c == NextRef(s) && c.Found?
    ensures |c.next| < |s|
    ensures Scan(s) == [Plain(c.before)] + ([Ref(c.alt, c.url)] + Scan(c.next))
  {
    hide NextRef, BangAt;
    NextRefFits(s);
  }
}
