/** Merging a freshly parsed block list into the previous state of a document. */
module BlockMerge {
  import opened Options
  import opened Blocks
  import opened BlockDiff

  datatype Merged = Merged(blocks: seq<Block>, versions: seq<BlockVersion>, next: nat)

  function KindsOf(blocks: seq<Block>): Kinds {
    seq(|blocks|, i requires 0 <= i < |blocks| => blocks[i].kind)
  }

  function KindsOfParsed(parsed: seq<ParsedBlock>): Kinds {
    seq(|parsed|, i requires 0 <= i < |parsed| => parsed[i].kind)
  }

  /** The previous index paired with n; a later pair would win. */
  function Lookup(pairs: seq<(nat, nat)>, n: nat): (p: Option<nat>)
    ensures p.Some? ==> (p.value, n) in pairs
    ensures p.None? ==> forall q :: q in pairs ==> q.1 != n
  {
    if pairs == [] then None
    else if pairs[|pairs| - 1].1 == n then Some(pairs[|pairs| - 1].0)
    else Lookup(pairs[..|pairs| - 1], n)
  }

  /** One edit: the previous state, the parsed text, the time, and the next unused id (ids handed out
      by the generator never repeat, so a counter stands for it). */
  datatype Edit = Edit(previous: seq<Block>, versions: seq<BlockVersion>, parsed: seq<ParsedBlock>, now: int,
      next: nat) {

    function Pairs(): (m: seq<(nat, nat)>)
      ensures IsMatching(KindsOf(previous), KindsOfParsed(parsed), m, 0, 0)
    {
      Trace(KindsOf(previous), KindsOfParsed(parsed), 0, 0)
    }

    /** The previous block whose identity the j-th parsed block takes over. */
    function Partner(j: nat): (p: Option<nat>)
      requires j < |parsed|
      ensures p.Some? ==> p.value < |previous| && previous[p.value].kind == parsed[j].kind
    {
      Lookup(Pairs(), j)
    }

    predicate Changed(j: nat)
      requires j < |parsed| && Partner(j).Some?
    {
      var c := CurrentContent(previous[Partner(j).value], versions);
      if parsed[j].kind.Video? then c.None? || VideoIdentity(c.value) != VideoIdentity(parsed[j].content)
      else c != Some(parsed[j].content)
    }

    /** A version is minted for the j-th block. */
    predicate Mints(j: nat)
      requires j < |parsed|
    {
      Partner(j).None? || Changed(j)
    }

    /** The next unused id before the j-th block is handled. */
    function NextAt(j: nat): (n: nat)
      requires j <= |parsed|
      ensures n >= next
    {
      if j == 0 then next
      else NextAt(j - 1) + if Partner(j - 1).None? then 2 else if Changed(j - 1) then 1 else 0
    }

    function BlockAt(j: nat): Block
      requires j < |parsed|
    {
      var n := NextAt(j);
      match Partner(j)
      case Some(p) =>
        if Changed(j) then previous[p].(kind := parsed[j].kind, versionId := n, position := j, updatedAt := now)
        else previous[p].(position := j)
      case None => Block(n, parsed[j].kind, n + 1, j, now, now)
    }

    function VersionAt(j: nat): BlockVersion
      requires j < |parsed| && Mints(j)
    {
      BlockVersion(BlockAt(j).versionId, BlockAt(j).id, parsed[j].content, now)
    }

    function VersionsUpTo(j: nat): seq<BlockVersion>
      requires j <= |parsed|
    {
      if j == 0 then []
      else VersionsUpTo(j - 1) + if Mints(j - 1) then [VersionAt(j - 1)] else []
    }

    function Result(): Merged {
      Merged(seq(|parsed|, j requires 0 <= j < |parsed| => BlockAt(j)), VersionsUpTo(|parsed|), NextAt(|parsed|))
    }

    /** The blocks settled so far, before they are numbered. */
    ghost predicate Drafted(blocks: seq<Block>) {
      && |blocks| <= |parsed|
      && forall i :: 0 <= i < |blocks| ==> blocks[i].(position := i) == BlockAt(i)
    }

    lemma DraftedNext(blocks: seq<Block>, b: Block)
      requires Drafted(blocks) && |blocks| < |parsed| && b.(position := |blocks|) == BlockAt(|blocks|)
      ensures Drafted(blocks + [b])
    {
    }

    // ----- the counter hands out each id once

    lemma {:induction false} NextGrows(i: nat, j: nat)
      requires i <= j <= |parsed|
      ensures NextAt(i) <= NextAt(j)
      decreases j
    {
      hide Partner, Changed;
      if i < j { NextGrows(i, j - 1); }
    }

    lemma PartnersDiffer(i: nat, j: nat)
      requires i < j < |parsed| && Partner(i).Some? && Partner(j).Some?
      ensures Partner(i).value < Partner(j).value
    {
      var m := Pairs();
      var k :| 0 <= k < |m| && m[k] == (Partner(i).value, i);
      var l :| 0 <= l < |m| && m[l] == (Partner(j).value, j);
      assert k < l;
    }

    /** The id of the j-th block is an old one or was handed out for it. */
    lemma IdRange(j: nat)
      requires j < |parsed| && forall b :: b in previous ==> b.id < next
      ensures Partner(j).Some? ==> BlockAt(j).id == previous[Partner(j).value].id < next
      ensures Partner(j).None? ==> BlockAt(j).id == NextAt(j) < NextAt(j + 1)
      ensures Mints(j) ==> NextAt(j) <= BlockAt(j).versionId < NextAt(j + 1)
      ensures !Mints(j) ==> BlockAt(j).versionId == previous[Partner(j).value].versionId
    {
      if Partner(j).Some? { assert previous[Partner(j).value] in previous; }
    }

    lemma IdsDiffer(i: nat, j: nat)
      requires i < j < |parsed| && DistinctBlocks(previous) && forall b :: b in previous ==> b.id < next
      ensures BlockAt(i).id != BlockAt(j).id
    {
      NextGrows(i + 1, j);
      IdRange(i);
      IdRange(j);
      if Partner(i).Some? && Partner(j).Some? {
        PartnersDiffer(i, j);
      }
    }

    ghost predicate IsMinted(v: BlockVersion, j: nat)
      requires j <= |parsed|
    {
      exists k :: 0 <= k < j && Mints(k) && v == VersionAt(k)
    }

    lemma {:induction false} Minted(j: nat)
      requires j <= |parsed| && forall b :: b in previous ==> b.id < next
      ensures forall k :: 0 <= k < j && Mints(k) ==> VersionAt(k) in VersionsUpTo(j)
      ensures forall v :: v in VersionsUpTo(j) ==> IsMinted(v, j) && next <= v.id < NextAt(j) && v.blockId < NextAt(j)
      ensures DistinctVersions(VersionsUpTo(j))
    {
      hide Partner, Changed, Mints, BlockAt;
      if j > 0 {
        var i := j - 1;
        Minted(i);
        NextGrows(0, i);
        NextGrows(i, j);
        IdRange(i);
        forall v | v in VersionsUpTo(j) ensures IsMinted(v, j) && next <= v.id < NextAt(j) && v.blockId < NextAt(j) {
          if v in VersionsUpTo(i) {
            assert IsMinted(v, i);
          } else {
            assert Mints(i) && v == VersionAt(i);
          }
        }
      }
    }

    // ----- what an edit keeps

    /** The stored content of every block is what was parsed, up to video metadata. */
    lemma ContentIsParsed(j: nat)
      requires j < |parsed| && Consistent(previous, versions, next)
      ensures var c := CurrentContent(BlockAt(j), versions + Result().versions);
              c.Some? && SameContent(parsed[j].kind, c.value, parsed[j].content)
      ensures exists v ::
                v in versions + Result().versions && v.id == BlockAt(j).versionId && v.blockId == BlockAt(j).id
    {
      var all := versions + Result().versions;
      AllVersionsDistinct();
      if Mints(j) {
        Minted(|parsed|);
        assert VersionAt(j) in all;
        FindUnique(all, VersionAt(j));
      } else {
        var b := previous[Partner(j).value];
        assert b in previous;
        var v :| v in versions && v.id == b.versionId && v.blockId == b.id;
        assert v in all;
        FindUnique(all, v);
        FindUnique(versions, v);
      }
    }

    lemma AllVersionsDistinct()
      requires Consistent(previous, versions, next)
      ensures DistinctVersions(versions + Result().versions)
      ensures forall v :: v in versions + Result().versions ==> v.id < Result().next && v.blockId < Result().next
    {
      var new_ := Result().versions;
      var all := versions + new_;
      Minted(|parsed|);
      NextGrows(0, |parsed|);
      forall i, j | 0 <= i < j < |all| ensures all[i].id != all[j].id {
        if i < |versions| <= j {
          assert all[i] in versions && all[j] in new_;
        }
      }
    }

    lemma KindAndPosition(j: nat)
      requires j < |parsed|
      ensures BlockAt(j).kind == parsed[j].kind && BlockAt(j).position == j
    {
    }

    /** The document stays consistent, in order, and says what was parsed. */
    lemma EditKeepsDocument()
      requires Consistent(previous, versions, next)
      ensures var r := Result();
              && Consistent(r.blocks, versions + r.versions, r.next)
              && |r.blocks| == |parsed|
              && forall j :: 0 <= j < |parsed| ==>
                   var c := CurrentContent(r.blocks[j], versions + r.versions);
                   && r.blocks[j].position == j
                   && r.blocks[j].kind == parsed[j].kind
                   && c.Some? && SameContent(parsed[j].kind, c.value, parsed[j].content)
    {
      hide BlockAt, VersionsUpTo, NextAt, CurrentContent;
      var r := Result();
      AllVersionsDistinct();
      forall i, j | 0 <= i < j < |r.blocks| ensures r.blocks[i].id != r.blocks[j].id {
        IdsDiffer(i, j);
      }
      forall j | 0 <= j < |parsed|
        ensures r.blocks[j].id < r.next
        ensures exists v :: v in versions + r.versions && v.id == r.blocks[j].versionId && v.blockId == r.blocks[j].id
        ensures var c := CurrentContent(r.blocks[j], versions + r.versions);
                && r.blocks[j].position == j && r.blocks[j].kind == parsed[j].kind
                && c.Some? && SameContent(parsed[j].kind, c.value, parsed[j].content)
      {
        assert r.blocks[j] == BlockAt(j);
        IdRange(j);
        NextGrows(0, |parsed|);
        NextGrows(j + 1, |parsed|);
        ContentIsParsed(j);
        KindAndPosition(j);
      }
    }

    /** A block that keeps an id keeps its kind and age, and gets a new version exactly when its content
        changed; otherwise nothing but its position changes. */
    lemma KeptBlock(j: nat, p: nat)
      requires j < |parsed| && p < |previous| && Consistent(previous, versions, next)
      requires Result().blocks[j].id == previous[p].id
      ensures var b, c := Result().blocks[j], CurrentContent(previous[p], versions);
              && b.kind == previous[p].kind && b.createdAt == previous[p].createdAt && c.Some?
              && if SameContent(parsed[j].kind, c.value, parsed[j].content)
                 then b == previous[p].(position := j)
                 else next <= b.versionId < Result().next && b.updatedAt == now
    {
      hide NextAt, VersionsUpTo, Partner;
      IdRange(j);
      assert previous[p] in previous;
      assert Partner(j).Some? && Partner(j).value == p;
      var v :| v in versions && v.id == previous[p].versionId;
      FindUnique(versions, v);
      NextGrows(j + 1, |parsed|);
    }

    /** A kept video gets a new version exactly when its provider, its id or its address changed. */
    lemma KeptVideo(j: nat, p: nat)
      requires j < |parsed| && p < |previous| && Consistent(previous, versions, next)
      requires Result().blocks[j].id == previous[p].id && parsed[j].kind.Video? && parsed[j].content.Clip?
      requires CurrentContent(previous[p], versions).Some? && CurrentContent(previous[p], versions).value.Clip?
      ensures var c, d := CurrentContent(previous[p], versions).value, parsed[j].content;
              (Result().blocks[j].versionId == previous[p].versionId <==>
                 c.provider == d.provider && c.id == d.id && c.url == d.url)
    {
      hide CurrentContent, Result;
      KeptBlock(j, p);
      assert previous[p] in previous;
    }

    /** A kept block of any other kind gets one exactly when its content changed in any part. */
    lemma KeptOther(j: nat, p: nat)
      requires j < |parsed| && p < |previous| && Consistent(previous, versions, next)
      requires Result().blocks[j].id == previous[p].id && !parsed[j].kind.Video?
      ensures Result().blocks[j].versionId == previous[p].versionId
         <==> CurrentContent(previous[p], versions) == Some(parsed[j].content)
    {
      hide CurrentContent, Result;
      KeptBlock(j, p);
      assert previous[p] in previous;
    }

    /** A block with a new id is dated now and points at a new version of what was parsed. */
    lemma NewBlock(j: nat)
      requires j < |parsed| && Consistent(previous, versions, next)
      requires Result().blocks[j].id !in IdsOf(previous)
      ensures var r, b := Result(), Result().blocks[j];
              && b.createdAt == now && b.updatedAt == now
              && next <= b.id < r.next && next <= b.versionId < r.next && b.versionId != b.id
              && BlockVersion(b.versionId, b.id, parsed[j].content, now) in r.versions
    {
      hide NextAt, VersionsUpTo, Partner, BlockAt;
      IdRange(j);
      NextGrows(0, j);
      NextGrows(j + 1, |parsed|);
      if Partner(j).Some? { PartnerIsOld(j); } else { NewFields(j); }
      NewVersions(BlockVersion(BlockAt(j).versionId, BlockAt(j).id, parsed[j].content, now));
    }

    lemma PartnerIsOld(j: nat)
      requires j < |parsed| && Partner(j).Some?
      ensures previous[Partner(j).value].id in IdsOf(previous)
    {
      assert previous[Partner(j).value] in previous;
    }

    lemma NewFields(j: nat)
      requires j < |parsed| && Partner(j).None?
      ensures BlockAt(j).createdAt == now && BlockAt(j).updatedAt == now && BlockAt(j).versionId == NextAt(j) + 1
    {
    }

    /** The ids that are kept are those of the longest matching that is preferred to all others. */
    lemma KeptAsPreferred(m: seq<(nat, nat)>, i: nat, j: nat)
      requires i < |previous| && j < |parsed| && DistinctBlocks(previous) && forall b :: b in previous ==> b.id < next
      requires IsMatching(KindsOf(previous), KindsOfParsed(parsed), m, 0, 0)
      requires forall t :: IsMatching(KindsOf(previous), KindsOfParsed(parsed), t, 0, 0) ==>
                 |t| <= |m| && (|t| == |m| ==> Preferred(m, t, 0))
      ensures Result().blocks[j].id == previous[i].id <==> (i, j) in m
    {
      hide Trace, Longest, Preferred, IsMatching, NextAt, VersionsUpTo, KindsOf, KindsOfParsed;
      PairsArePreferred(m);
      IdRange(j);
      if (i, j) in m {
        var k :| 0 <= k < |m| && m[k] == (i, j);
        PairOfPartner(k);
      }
      if Partner(j).Some? && Partner(j).value != i {
        var p := Partner(j).value;
        assert previous[p].id != previous[i].id by { if p < i {} }
      }
      assert previous[i] in previous;
    }

    lemma PairOfPartner(k: nat)
      requires k < |Pairs()|
      ensures Pairs()[k].1 < |parsed| && Partner(Pairs()[k].1) == Some(Pairs()[k].0)
    {
      LookupUnique(Pairs(), k);
    }

    lemma PairsArePreferred(m: seq<(nat, nat)>)
      requires IsMatching(KindsOf(previous), KindsOfParsed(parsed), m, 0, 0)
      requires forall t :: IsMatching(KindsOf(previous), KindsOfParsed(parsed), t, 0, 0) ==>
                 |t| <= |m| && (|t| == |m| ==> Preferred(m, t, 0))
      ensures Pairs() == m
    {
      hide Trace, Longest, Preferred, IsMatching, KindsOf, KindsOfParsed;
      LongestBounds(KindsOf(previous), KindsOfParsed(parsed), m, 0, 0);
      assert IsMatching(KindsOf(previous), KindsOfParsed(parsed), Pairs(), 0, 0);
      TraceIsPreferred(KindsOf(previous), KindsOfParsed(parsed), m, 0, 0);
      PreferredIsUnique(Pairs(), m, 0);
    }

    /** The new versions are exactly the current contents of the new and the changed blocks, one each. */
    lemma NewVersions(v: BlockVersion)
      requires Consistent(previous, versions, next)
      ensures v in Result().versions <==>
                exists j :: 0 <= j < |parsed| && Result().blocks[j].versionId >= next
                         && v == BlockVersion(Result().blocks[j].versionId, Result().blocks[j].id, parsed[j].content,
                             now)
      ensures DistinctVersions(Result().versions)
    {
      Minted(|parsed|);
      var r := Result();
      if v in r.versions {
        var k :| 0 <= k < |parsed| && Mints(k) && v == VersionAt(k);
        IdRange(k);
        NextGrows(0, k);
        assert r.blocks[k] == BlockAt(k);
      }
      forall j | 0 <= j < |parsed| && r.blocks[j].versionId >= next
        ensures BlockVersion(r.blocks[j].versionId, r.blocks[j].id, parsed[j].content, now) in r.versions
      {
        MintedFor(j);
        assert r.blocks[j] == BlockAt(j);
      }
    }

    lemma MintedFor(j: nat)
      requires j < |parsed| && Consistent(previous, versions, next)
      ensures Mints(j) <==> BlockAt(j).versionId >= next
    {
      IdRange(j);
      NextGrows(0, j);
      if !Mints(j) {
        var b := previous[Partner(j).value];
        assert b in previous;
        var v :| v in versions && v.id == b.versionId && v.blockId == b.id;
      }
    }

    /** No order-preserving, kind-respecting way to reuse previous blocks keeps more ids. */
    lemma KeepsMostIds(m: seq<(nat, nat)>)
      requires DistinctBlocks(previous) && forall b :: b in previous ==> b.id < next
      requires IsMatching(KindsOf(previous), KindsOfParsed(parsed), m, 0, 0)
      ensures |m| <= |IdsOf(Result().blocks) * IdsOf(previous)|
    {
      var pairs := Pairs();
      LongestBounds(KindsOf(previous), KindsOfParsed(parsed), m, 0, 0);
      var kept := seq(|pairs|, k requires 0 <= k < |pairs| => previous[pairs[k].0].id);
      DistinctCardinality(kept);
      forall id | id in kept ensures id in IdsOf(Result().blocks) * IdsOf(previous) {
        var k :| 0 <= k < |pairs| && kept[k] == id;
        PairKeepsId(k);
      }
      SubsetSmaller(Elements(kept), IdsOf(Result().blocks) * IdsOf(previous));
    }

    /** When every parsed block says what the block at its place already says, nothing but positions
        changes and no id is used up. */
    lemma NothingChanged()
      requires |parsed| == |previous|
      requires forall j :: 0 <= j < |parsed| ==>
                 var c := CurrentContent(previous[j], versions);
                 previous[j].kind == parsed[j].kind && c.Some?
                     && SameContent(parsed[j].kind, c.value, parsed[j].content)
      ensures Result() == Merged(seq(|previous|, j requires 0 <= j < |previous| => previous[j].(position := j)), [],
          next)
    {
      hide CurrentContent, SameContent, Changed, Partner;
      PairsOfSame();
      forall j | 0 <= j < |parsed| ensures Partner(j) == Some(j) && !Changed(j) {
        SameAt(j);
      }
      OnlyPositionsMove();
    }

    lemma PairsOfSame()
      requires |parsed| == |previous| && forall j :: 0 <= j < |parsed| ==> previous[j].kind == parsed[j].kind
      ensures Diagonal(Pairs(), |parsed|)
    {
      hide KindsOf, KindsOfParsed, Trace, Diagonal, IsMatching;
      SameKinds();
      WholeTraceOfSame(KindsOf(previous));
    }

    lemma SameKinds()
      requires |parsed| == |previous| && forall j :: 0 <= j < |parsed| ==> previous[j].kind == parsed[j].kind
      ensures KindsOf(previous) == KindsOfParsed(parsed) && |KindsOf(previous)| == |parsed|
    {
    }

    lemma SameAt(j: nat)
      requires j < |parsed| == |previous| == |Pairs()| && Pairs()[j] == (j, j)
      requires var c := CurrentContent(previous[j], versions);
               previous[j].kind == parsed[j].kind && c.Some? && SameContent(parsed[j].kind, c.value, parsed[j].content)
      ensures Partner(j) == Some(j) && !Changed(j)
    {
      hide CurrentContent;
      LookupUnique(Pairs(), j);
    }

    lemma OnlyPositionsMove()
      requires |parsed| == |previous| && forall j :: 0 <= j < |parsed| ==> Partner(j) == Some(j) && !Changed(j)
      ensures Result() == Merged(seq(|previous|, j requires 0 <= j < |previous| => previous[j].(position := j)), [],
          next)
    {
      hide Partner, Changed;
      NothingMinted(|parsed|);
    }

    lemma {:induction false} NothingMinted(j: nat)
      requires j <= |parsed| && forall i :: 0 <= i < j ==> !Mints(i)
      ensures VersionsUpTo(j) == [] && NextAt(j) == next
    {
      hide Partner, Changed, BlockAt, VersionAt;
      if j > 0 { NothingMinted(j - 1); }
    }

    lemma PairKeepsId(k: nat)
      requires k < |Pairs()|
      ensures var id := previous[Pairs()[k].0].id; id in IdsOf(Result().blocks) && id in IdsOf(previous)
    {
      var (p, j) := Pairs()[k];
      LookupUnique(Pairs(), k);
      assert Partner(j) == Some(p);
      var b := Result().blocks[j];
      assert b == BlockAt(j) && b in Result().blocks && b.id == previous[p].id;
      assert previous[p] in previous;
    }
  }

  function IdsOf(blocks: seq<Block>): set<nat> {
    set b | b in blocks :: b.id
  }

  function Elements(s: seq<nat>): set<nat> {
    set x | x in s
  }

  lemma SubsetSmaller(s: set<nat>, t: set<nat>)
    requires s <= t
    ensures |s| <= |t|
  {
    assert t == s + (t - s);
  }

  lemma {:induction false} DistinctCardinality(s: seq<nat>)
    requires forall i, j :: 0 <= i < j < |s| ==> s[i] != s[j]
    ensures |Elements(s)| == |s|
  {
    if s != [] {
      var front, last := s[..|s| - 1], s[|s| - 1];
      DistinctCardinality(front);
      assert Elements(s) == Elements(front) + {last};
    }
  }

  lemma {:induction false} LookupUnique(pairs: seq<(nat, nat)>, k: nat)
    requires k < |pairs| && forall i, j :: 0 <= i < j < |pairs| ==> pairs[i].1 < pairs[j].1
    ensures Lookup(pairs, pairs[k].1) == Some(pairs[k].0)
  {
    if k < |pairs| - 1 {
      LookupUnique(pairs[..|pairs| - 1], k);
    }
  }

  // ----- the procedure

  method IndexMatches(pairs: seq<(nat, nat)>) returns (matchFor: map<nat, nat>)
    ensures forall n: nat :: Lookup(pairs, n) == if n in matchFor then Some(matchFor[n]) else None
  {
    matchFor := map[];
    for k := 0 to |pairs|
      invariant forall n: nat :: Lookup(pairs[..k], n) == if n in matchFor then Some(matchFor[n]) else None
    {
      assert pairs[..k + 1][..k] == pairs[..k];
      matchFor := matchFor[pairs[k].1 := pairs[k].0];
    }
    assert pairs[..|pairs|] == pairs;
  }

  method Renumber(blocks: seq<Block>) returns (r: seq<Block>)
    ensures |r| == |blocks| && forall i :: 0 <= i < |r| ==> r[i] == blocks[i].(position := i)
  {
    r := blocks;
    for j := 0 to |blocks|
      invariant |r| == |blocks|
      invariant forall i :: 0 <= i < j ==> r[i] == blocks[i].(position := i)
      invariant forall i :: j <= i < |blocks| ==> r[i] == blocks[i]
    {
      r := r[j := r[j].(position := j)];
    }
  }

  /** One round of the merge loop. */
  method SettleBlock(prev: Option<Block>, previousVersions: seq<BlockVersion>, p: ParsedBlock, now: int, id: nat,
                     ghost e: Edit, ghost j: nat)
    returns (block: Block, minted: seq<BlockVersion>, next: nat)
    requires j < |e.parsed| && e.versions == previousVersions && e.parsed[j] == p && e.now == now && e.NextAt(j) == id
    requires prev == if e.Partner(j).Some? then Some(e.previous[e.Partner(j).value]) else None
    ensures block.(position := j) == e.BlockAt(j)
    ensures minted == if e.Mints(j) then [e.VersionAt(j)] else []
    ensures next == e.NextAt(j + 1)
  {
    minted, next := [], id;
    match prev
    case Some(prev) =>
      var current := CurrentContent(prev, previousVersions);
      var changed :=
        if p.kind.Video? then current.None? || VideoIdentity(current.value) != VideoIdentity(p.content)
        else current != Some(p.content);
      if changed {
        minted := [BlockVersion(id, prev.id, p.content, now)];
        block := Block(prev.id, p.kind, id, 0, prev.createdAt, now);
        next := id + 1;
      } else {
        block := Block(prev.id, prev.kind, prev.versionId, 0, prev.createdAt, prev.updatedAt);
      }
    case None =>
      minted := [BlockVersion(id + 1, id, p.content, now)];
      block := Block(id, p.kind, id + 1, 0, now, now);
      next := id + 2;
  }

  method MergeBlocks(previous: seq<Block>, previousVersions: seq<BlockVersion>, parsed: seq<ParsedBlock>, now: int,
      next: nat)
    returns (merged: Merged)
    ensures merged == Edit(previous, previousVersions, parsed, now, next).Result()
  {
    hide Trace, Longest, IsMatching, CurrentContent;
    ghost var edit := Edit(previous, previousVersions, parsed, now, next);
    var pairs := LcsMatches(KindsOf(previous), KindsOfParsed(parsed));
    var matchFor := IndexMatches(pairs);
    var blocks: seq<Block> := [];
    var versions: seq<BlockVersion> := [];
    var id := next;
    for j := 0 to |parsed|
      invariant |blocks| == j && edit.Drafted(blocks)
      invariant versions == edit.VersionsUpTo(j)
      invariant id == edit.NextAt(j)
    {
      assert edit.Partner(j) == if j in matchFor then Some(matchFor[j]) else None;
      var prev := if j in matchFor then Some(previous[matchFor[j]]) else None;
      var block, minted, id' := SettleBlock(prev, previousVersions, parsed[j], now, id, edit, j);
      edit.DraftedNext(blocks, block);
      blocks, versions, id := blocks + [block], versions + minted, id';
    }
    blocks := Renumber(blocks);
    merged := Merged(blocks, versions, id);
  }
}
