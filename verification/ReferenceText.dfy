/** What a rewritten text looks like next to the original, stretch by stretch, without scanning. */
module ReferenceText {
  import opened Options
  import opened ImageRefs

  /** The address that stands in the rewritten text. */
  function AddressIn(resolve: Resolver, k: nat, alt: string, url: string): string {
    match resolve(k, alt, url)
    case Some(address) => address
    case None => url
  }

  /** The text becomes out, and refs are the references in it; k references came before.  An opening "![" whose
      brackets do not close ends the search; one with no parenthesis behind its brackets is passed over together
      with them. */
  ghost predicate Becomes(s: string, out: string, refs: seq<(string, string)>, resolve: Resolver, k: nat)
    decreases |s|
  {
    exists c :: Fits(s, c) &&
      match c
      case Done => refs == [] && out == s
      case NoBracket(before, after) => refs == [] && out == s
      case NoEnd(before, alt, round) => refs == [] && out == s
      case NoParen(before, alt, tail) =>
        |tail| < |s| && exists rest :: Becomes(tail, rest, refs, resolve, k)
                                       && out == before + ("![" + (alt + "]")) + rest
      case Found(before, alt, url, next) =>
        |next| < |s| && refs != [] && refs[0] == (alt, url)
        && exists rest :: Becomes(next, rest, refs[1..], resolve, k + 1)
                          && out == before + ("![" + (alt + ("](" + (AddressIn(resolve, k, alt, url) + ")"))) + rest)
  }

  lemma NothingBehind(s: string, c: Cut, resolve: Resolver, k: nat)
    requires Fits(s, c) && c == NextRef(s) && (c.NoBracket? || c.NoEnd?)
    ensures Rewritten(s, resolve, k) == s && Refs(Scan(s)) == []
  {
    hide Scan, Rewritten, Refs, NextRef, BangAt, Count;
    Skip(s, c, resolve, k);
    ScanSkips(s, c);
    var next := Skipped(c).1;
    NoCloserNoRefs(next);
    NoCloserUnchanged(next, resolve, k);
  }

  lemma PassesOver(s: string, c: Cut, out: string, rest: string, refs: seq<(string, string)>, resolve: Resolver, k: nat)
    requires Fits(s, c) && c.NoParen? && |c.tail| < |s| && Becomes(c.tail, rest, refs, resolve, k)
    requires out == c.before + ("![" + (c.alt + "]")) + rest
    ensures Becomes(s, out, refs, resolve, k)
  {
    hide Fits;
  }

  lemma TakesOne(s: string, c: Cut, out: string, rest: string, refs: seq<(string, string)>, resolve: Resolver, k: nat)
    requires Fits(s, c) && c.Found? && |c.next| < |s| && Becomes(c.next, rest, refs, resolve, k + 1)
    requires out == c.before + ("![" + (c.alt + ("](" + (AddressIn(resolve, k, c.alt, c.url) + ")"))) + rest)
    ensures Becomes(s, out, [(c.alt, c.url)] + refs, resolve, k)
  {
    hide Fits;
    assert ([(c.alt, c.url)] + refs)[1..] == refs;
  }

  lemma EndsHere(s: string, c: Cut, resolve: Resolver, k: nat)
    requires Fits(s, c) && !c.NoParen? && !c.Found?
    ensures Becomes(s, s, [], resolve, k)
  {
    hide Fits;
  }

  lemma ResolvedText(c: Cut, resolve: Resolver, k: nat)
    requires c.Found?
    ensures Resolved(Ref(c.alt, c.url), resolve, k).Source()
         == "![" + (c.alt + ("](" + (AddressIn(resolve, k, c.alt, c.url) + ")")))
  {
  }

  /** The rewriter changes the addresses that resolve, and nothing else. */
  lemma {:induction false} RewritingBecomes(s: string, resolve: Resolver, k: nat)
    ensures Becomes(s, Rewritten(s, resolve, k), Refs(Scan(s)), resolve, k)
    decreases |s|
  {
    hide Scan, Rewritten, Refs, NextRef, BangAt, Becomes, Fits, Count;
    var c := NextRef(s);
    NextRefFits(s);
    if c.Done? {
      Last(s, resolve, k);
      EndsHere(s, c, resolve, k);
    } else if c.Found? {
      ScanTakes(s, c);
      Take(s, c, resolve, k);
      ResolvedText(c, resolve, k);
      RewritingBecomes(c.next, resolve, k + 1);
      TakesOne(s, c, Rewritten(s, resolve, k), Rewritten(c.next, resolve, k + 1), Refs(Scan(c.next)), resolve, k);
    } else if c.NoParen? {
      ScanSkips(s, c);
      Skip(s, c, resolve, k);
      TailShorter(s, c);
      RewritingBecomes(c.tail, resolve, k);
      PassesOver(s, c, Rewritten(s, resolve, k), Rewritten(c.tail, resolve, k), Refs(Scan(c.tail)), resolve, k);
    } else {
      NothingBehind(s, c, resolve, k);
      EndsHere(s, c, resolve, k);
    }
  }

  lemma TailShorter(s: string, c: Cut)
    requires Fits(s, c) && c.NoParen?
    ensures |c.tail| < |s|
  {
    hide BangAt;
  }

  /** There is one outcome only. */
  lemma {:induction false} BecomesOne(s: string, out: string, refs: seq<(string, string)>, resolve: Resolver, k: nat)
    requires Becomes(s, out, refs, resolve, k)
    ensures out == Rewritten(s, resolve, k) && refs == Refs(Scan(s))
    decreases |s|
  {
    hide Scan, Rewritten, Refs, NextRef, Fits, Count;
    var c := NextRef(s);
    OnlyCut(s);
    if c.Done? {
      Last(s, resolve, k);
    } else if c.Found? {
      Take(s, c, resolve, k);
      ResolvedText(c, resolve, k);
      var rest :| Becomes(c.next, rest, refs[1..], resolve, k + 1)
                  && out == c.before + ("![" + (c.alt + ("](" + (AddressIn(resolve, k, c.alt, c.url) + ")"))) + rest);
      BecomesOne(c.next, rest, refs[1..], resolve, k + 1);
      assert refs == [refs[0]] + refs[1..];
    } else if c.NoParen? {
      Skip(s, c, resolve, k);
      var rest :| Becomes(c.tail, rest, refs, resolve, k) && out == c.before + ("![" + (c.alt + "]")) + rest;
      BecomesOne(c.tail, rest, refs, resolve, k);
    } else {
      NextRefFits(s);
      NothingBehind(s, c, resolve, k);
    }
  }

  lemma OnlyCut(s: string)
    ensures forall c :: Fits(s, c) ==> c == NextRef(s)
  {
    forall c | Fits(s, c) ensures c == NextRef(s) {
      FitsOnlyNextRef(s, c);
    }
  }

  // ----- the tallies

  /** How many of the references satisfy p; k references came before. */
  function HowMany(refs: seq<(string, string)>, p: (nat, string, string) -> bool, k: nat): nat {
    if refs == [] then 0 else (if p(k, refs[0].0, refs[0].1) then 1 else 0) + HowMany(refs[1..], p, k + 1)
  }

  /** Addresses that an import leaves as they are: absolute ones, embedded data and places on the page. */
  predicate StaysRemote(url: string) {
    || (|url| >= 7 && url[..7] == "http://") || (|url| >= 8 && url[..8] == "https://")
    || (|url| >= 5 && url[..5] == "data:") || (|url| >= 1 && (url[0] == '/' || url[0] == '#'))
  }

  function Imports(resolve: Resolver): (nat, string, string) -> bool {
    (k: nat, alt, url) => resolve(k, alt, url).Some?
  }

  function LeavesRemote(resolve: Resolver): (nat, string, string) -> bool {
    (k: nat, alt, url) => resolve(k, alt, url).None? && StaysRemote(url)
  }

  function LeavesOpen(resolve: Resolver): (nat, string, string) -> bool {
    (k: nat, alt, url) => resolve(k, alt, url).None? && !StaysRemote(url)
  }

  lemma RemoteIs(url: string)
    ensures LooksRemote(url) <==> StaysRemote(url)
  {
    assert "/" <= url <==> |url| >= 1 && url[0] == '/';
    assert "#" <= url <==> |url| >= 1 && url[0] == '#';
  }

  lemma HowManyCons(ref: (string, string), refs: seq<(string, string)>, p: (nat, string, string) -> bool, k: nat)
    ensures HowMany([ref] + refs, p, k) == (if p(k, ref.0, ref.1) then 1 else 0) + HowMany(refs, p, k + 1)
  {
    assert ([ref] + refs)[1..] == refs;
  }

  /** A reference that resolves is imported; one that does not is remote or unresolved by its first
      characters. */
  lemma {:induction false} TalliesOf(gs: seq<Segment>, resolve: Resolver, k: nat)
    ensures var t, refs := Count(gs, resolve, k), Refs(gs);
            && t.imported == HowMany(refs, Imports(resolve), k)
            && t.remote == HowMany(refs, LeavesRemote(resolve), k)
            && t.unresolved == HowMany(refs, LeavesOpen(resolve), k)
  {
    hide LooksRemote, StaysRemote, Count, Refs, HowMany;
    if gs == [] {
      Empty(resolve, k);
      NoneCounted(resolve, k);
    } else {
      var g, rest := gs[0], gs[1..];
      assert gs == [g] + rest;
      RefsCons(g, rest);
      if g.Plain? {
        TalliesOf(rest, resolve, k);
        PlainFirst(g, rest, resolve, k);
        assert [] + Refs(rest) == Refs(rest);
      } else {
        TalliesOf(rest, resolve, k + 1);
        RefFirst(g, rest, resolve, k);
        RemoteIs(g.url);
        HowManyCons((g.alt, g.url), Refs(rest), Imports(resolve), k);
        HowManyCons((g.alt, g.url), Refs(rest), LeavesRemote(resolve), k);
        HowManyCons((g.alt, g.url), Refs(rest), LeavesOpen(resolve), k);
      }
    }
  }

  lemma NoneCounted(resolve: Resolver, k: nat)
    ensures HowMany([], Imports(resolve), k) == 0 && HowMany([], LeavesRemote(resolve), k) == 0
    ensures HowMany([], LeavesOpen(resolve), k) == 0
  {
  }
}
