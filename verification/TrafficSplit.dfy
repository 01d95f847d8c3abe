/** Deterministic assignment of visitors to variants. */
module TrafficSplit {
  import opened Options
  import opened BetaOdds

  /** The largest 64-bit hash. */
  const MAX_HASH: nat := 0xFFFF_FFFF_FFFF_FFFF

  datatype Candidate = Candidate(id: nat, weight: real)

  function HashUnit(h: nat): (x: real)
    ensures h <= MAX_HASH ==> 0.0 <= x <= 1.0
    ensures h < MAX_HASH ==> x < 1.0
    ensures x * MAX_HASH as real == h as real
  {
    h as real / MAX_HASH as real
  }

  function Unit(x: real): real {
    if x < 0.0 then 0.0 else if x > 1.0 then 1.0 else x
  }

  function TotalWeight(vs: seq<Candidate>): real {
    if vs == [] then 0.0 else TotalWeight(vs[..|vs| - 1]) + vs[|vs| - 1].weight
  }

  /** The accumulated normalized weight of the first i candidates. */
  function Cumulative(vs: seq<Candidate>, i: nat): real
    requires i <= |vs| && TotalWeight(vs) > 0.0
  {
    if i == 0 then 0.0 else Cumulative(vs, i - 1) + vs[i - 1].weight / TotalWeight(vs)
  }

  /** Where the i-th candidate's interval begins; the last edge is the end of the last interval. */
  function Edge(share: real, vs: seq<Candidate>, i: nat): real
    requires i <= |vs| && TotalWeight(vs) > 0.0
  {
    share + Times(1.0 - share, Cumulative(vs, i))
  }

  /** The index of the candidate a visitor sees, from candidate i on; None is control. */
  function SlotFrom(x: real, share: real, vs: seq<Candidate>, i: nat): (s: Option<nat>)
    requires i <= |vs| && TotalWeight(vs) > 0.0
    ensures s.Some? ==> i <= s.value < |vs| && x < Edge(share, vs, s.value + 1)
    ensures s.Some? ==> forall j :: i < j <= s.value ==> Edge(share, vs, j) <= x
    ensures s.None? ==> forall j :: i < j <= |vs| ==> Edge(share, vs, j) <= x
    decreases |vs| - i
  {
    if i == |vs| then None
    else if x < Edge(share, vs, i + 1) then Some(i)
    else SlotFrom(x, share, vs, i + 1)
  }

  function Slot(x: real, share: real, vs: seq<Candidate>): (s: Option<nat>)
    ensures s.Some? ==> s.value < |vs|
  {
    if x < Unit(share) || TotalWeight(vs) <= 0.0 then None else SlotFrom(x, share, vs, 0)
  }

  function Chosen(s: Option<nat>, control: nat, vs: seq<Candidate>): nat
    requires s.Some? ==> s.value < |vs|
  {
    if s.None? then control else vs[s.value].id
  }

  method AssignVariant(h: nat, control: nat, share: real, vs: seq<Candidate>) returns (id: nat)
    ensures id == Chosen(Slot(HashUnit(h), share, vs), control, vs)
  {
    var x := HashUnit(h);
    if x < Unit(share) {
      return control;
    }
    var total := 0.0;
    for i := 0 to |vs|
      invariant total == TotalWeight(vs[..i])
    {
      assert vs[..i + 1][..i] == vs[..i];
      total := total + vs[i].weight;
    }
    assert vs[..|vs|] == vs;
    if total <= 0.0 {
      return control;
    }
    var cum := 0.0;
    for i := 0 to |vs|
      invariant cum == Cumulative(vs, i)
      invariant SlotFrom(x, share, vs, 0) == SlotFrom(x, share, vs, i)
    {
      cum := cum + vs[i].weight / total;
      if x < share + Times(1.0 - share, cum) {
        return vs[i].id;
      }
    }
    id := control;
  }

  // ----- the intervals tile [share, 1)

  ghost predicate Weighted(vs: seq<Candidate>) {
    && (forall v :: v in vs ==> v.weight >= 0.0)
    && TotalWeight(vs) > 0.0
  }

  lemma {:induction false} CumulativeSum(vs: seq<Candidate>, i: nat)
    requires i <= |vs| && TotalWeight(vs) > 0.0
    ensures Times(Cumulative(vs, i), TotalWeight(vs)) == TotalWeight(vs[..i])
  {
    if i > 0 {
      CumulativeSum(vs, i - 1);
      assert vs[..i][..i - 1] == vs[..i - 1];
      var c, t, w := Cumulative(vs, i - 1), TotalWeight(vs), vs[i - 1].weight;
      assert (c + w / t) * t == c * t + w;
    }
  }

  lemma CumulativeEnds(vs: seq<Candidate>)
    requires TotalWeight(vs) > 0.0
    ensures Cumulative(vs, 0) == 0.0 && Cumulative(vs, |vs|) == 1.0
  {
    CumulativeSum(vs, |vs|);
    assert vs[..|vs|] == vs;
    CancelFactor(Cumulative(vs, |vs|), 1.0, TotalWeight(vs));
  }

  lemma {:induction false} CumulativeGrows(vs: seq<Candidate>, i: nat, j: nat)
    requires Weighted(vs) && i <= j <= |vs|
    ensures Cumulative(vs, i) <= Cumulative(vs, j)
    decreases j
  {
    if i < j {
      CumulativeGrows(vs, i, j - 1);
      assert vs[j - 1] in vs && vs[j - 1].weight / TotalWeight(vs) >= 0.0;
    }
  }

  lemma ScaleKeepsOrder(k: real, x: real, y: real)
    requires 0.0 <= k && x <= y
    ensures Times(k, x) <= Times(k, y)
  {
    assert k * (y - x) >= 0.0;
  }

  lemma EdgesInOrder(share: real, vs: seq<Candidate>, i: nat, j: nat)
    requires Weighted(vs) && 0.0 <= share <= 1.0 && i <= j <= |vs|
    ensures share <= Edge(share, vs, i) <= Edge(share, vs, j) <= 1.0
  {
    CumulativeEnds(vs);
    CumulativeGrows(vs, 0, i);
    CumulativeGrows(vs, i, j);
    CumulativeGrows(vs, j, |vs|);
    ScaleKeepsOrder(1.0 - share, 0.0, Cumulative(vs, i));
    ScaleKeepsOrder(1.0 - share, Cumulative(vs, i), Cumulative(vs, j));
    ScaleKeepsOrder(1.0 - share, Cumulative(vs, j), 1.0);
  }

  /** A variant's exact share of the traffic. */
  function ShareOf(share: real, vs: seq<Candidate>, i: nat): real
    requires i < |vs| && TotalWeight(vs) > 0.0
  {
    Times(1.0 - share, vs[i].weight / TotalWeight(vs))
  }

  /** The edges run from the control share to 1, and the i-th interval has exactly its share of the
      experiment's traffic. */
  lemma IntervalsTile(share: real, vs: seq<Candidate>, i: nat)
    requires Weighted(vs) && i < |vs|
    ensures Edge(share, vs, 0) == share && Edge(share, vs, |vs|) == 1.0
    ensures Edge(share, vs, i + 1) - Edge(share, vs, i) == ShareOf(share, vs, i)
  {
    CumulativeEnds(vs);
    TimesOfSum(1.0 - share, Cumulative(vs, i), vs[i].weight / TotalWeight(vs));
  }

  lemma TimesOfSum(k: real, x: real, y: real)
    ensures Times(k, x + y) == Times(k, x) + Times(k, y)
  {
  }

  /** A visitor sees a candidate exactly when the hash falls into that candidate's interval. */
  lemma SplitIsExact(x: real, share: real, vs: seq<Candidate>, i: nat)
    requires Weighted(vs) && 0.0 <= share <= 1.0 && 0.0 <= x && i < |vs|
    ensures Slot(x, share, vs) == Some(i) <==> Edge(share, vs, i) <= x < Edge(share, vs, i + 1)
    ensures Slot(x, share, vs) == None <==> x < share || x >= 1.0
  {
    IntervalsTile(share, vs, i);
    EdgesInOrder(share, vs, 0, i);
    EdgesInOrder(share, vs, i, i + 1);
    EdgesInOrder(share, vs, i + 1, |vs|);
    if x >= share {
      var s := SlotFrom(x, share, vs, 0);
      if s.Some? {
        var k := s.value;
        EdgesInOrder(share, vs, k + 1, |vs|);
        if k < i {
          EdgesInOrder(share, vs, k + 1, i);
        } else if k > i {
          assert Edge(share, vs, i + 1) <= x;
        }
      }
    }
  }

  // ----- more traffic

  lemma EdgeFalls(share: real, share': real, vs: seq<Candidate>, i: nat)
    requires Weighted(vs) && 0.0 <= share' <= share <= 1.0 && i <= |vs|
    ensures Edge(share', vs, i) <= Edge(share, vs, i)
  {
    CumulativeEnds(vs);
    CumulativeGrows(vs, i, |vs|);
    var c := Cumulative(vs, i);
    ScaleKeepsOrder(1.0 - c, share', share);
    assert share + (1.0 - share) * c == c + (1.0 - c) * share;
    assert share' + (1.0 - share') * c == c + (1.0 - c) * share';
  }

  /** Opening an experiment to more traffic never moves a visitor back to control, and never to an
      earlier variant. */
  lemma MoreTrafficMovesForward(x: real, share: real, share': real, vs: seq<Candidate>)
    requires Weighted(vs) && 0.0 <= share' <= share <= 1.0 && 0.0 <= x
    ensures Slot(x, share, vs).Some? ==>
              Slot(x, share', vs).Some? && Slot(x, share', vs).value >= Slot(x, share, vs).value
  {
    var s := Slot(x, share, vs);
    if s.Some? {
      SplitIsExact(x, share, vs, s.value);
      SplitIsExact(x, share', vs, s.value);
      EdgeFalls(share, share', vs, s.value);
      EdgesInOrder(share, vs, s.value + 1, |vs|);
      var t := Slot(x, share', vs);
      SplitIsExact(x, share', vs, t.value);
      if t.value < s.value {
        EdgesInOrder(share', vs, t.value + 1, s.value);
      }
    }
  }

  // ----- how many hash values each candidate gets

  function Ceil(x: real): int {
    -((-x).Floor)
  }

  /** How many of the first n hash values are assigned to candidate i. */
  function HashesFor(i: nat, share: real, vs: seq<Candidate>, n: nat): nat {
    if n == 0 then 0
    else HashesFor(i, share, vs, n - 1) + if Slot(HashUnit(n - 1), share, vs) == Some(i) then 1 else 0
  }

  function Min(x: int, y: int): int {
    if x < y then x else y
  }

  lemma {:induction false} HashesInInterval(i: nat, share: real, vs: seq<Candidate>, n: nat, lo: real, hi: real)
    requires Weighted(vs) && 0.0 <= share <= 1.0 && i < |vs|
    requires lo == Edge(share, vs, i) * MAX_HASH as real && hi == Edge(share, vs, i + 1) * MAX_HASH as real
    requires 0.0 <= lo <= hi
    ensures HashesFor(i, share, vs, n) == Min(n, Ceil(hi)) - Min(n, Ceil(lo))
  {
    hide Edge, Slot, HashUnit;
    if n > 0 {
      HashesInInterval(i, share, vs, n - 1, lo, hi);
      var x := HashUnit(n - 1);
      SplitIsExact(x, share, vs, i);
      InScaledInterval(x, Edge(share, vs, i), Edge(share, vs, i + 1), MAX_HASH as real);
    }
  }

  lemma InScaledInterval(x: real, lo: real, hi: real, k: real)
    requires k > 0.0
    ensures lo <= x < hi <==> lo * k <= x * k < hi * k
  {
    assert lo <= x ==> (x - lo) * k >= 0.0;
    assert x < hi ==> (hi - x) * k > 0.0;
    assert x < lo ==> (lo - x) * k > 0.0;
    assert hi <= x ==> (x - hi) * k >= 0.0;
  }

  lemma HashShareBelowTop(i: nat, share: real, vs: seq<Candidate>)
    requires Weighted(vs) && 0.0 <= share <= 1.0 && i < |vs|
    ensures -1.0 < HashesFor(i, share, vs, MAX_HASH + 1) as real - ShareOf(share, vs, i) * MAX_HASH as real < 1.0
  {
    var k := MAX_HASH as real;
    var u, v := Edge(share, vs, i), Edge(share, vs, i + 1);
    IntervalsTile(share, vs, i);
    EdgesInOrder(share, vs, i, i + 1);
    InScaledInterval(u, 0.0, 2.0, k);
    InScaledInterval(v, u, 2.0, k);
    assert v * k <= k by { assert (1.0 - v) * k >= 0.0; }
    HashesInInterval(i, share, vs, MAX_HASH + 1, u * k, v * k);
    assert (v - u) * k == v * k - u * k;
  }

  lemma ShareOfAll(n: real, s: real, m: real)
    requires -1.0 < n - s * m < 1.0
    ensures -1.0 - s < n - s * (m + 1.0) < 1.0 - s
  {
  }

  /** The number of hash values that lead to a variant differs by less than one from the variant's exact
      share of the 2^64 - 1 values below the top one, which stays on control.  Of all 2^64 values it gets
      its share s up to an error between -1 - s and 1 - s. */
  lemma HashShareIsFair(i: nat, share: real, vs: seq<Candidate>)
    requires Weighted(vs) && 0.0 <= share <= 1.0 && i < |vs|
    ensures var s, n := ShareOf(share, vs, i), HashesFor(i, share, vs, MAX_HASH + 1);
            && -1.0 < n as real - s * MAX_HASH as real < 1.0
            && -1.0 - s < n as real - s * (MAX_HASH + 1) as real < 1.0 - s
  {
    hide HashesFor, ShareOf;
    HashShareBelowTop(i, share, vs);
    ShareOfAll(HashesFor(i, share, vs, MAX_HASH + 1) as real, ShareOf(share, vs, i), MAX_HASH as real);
  }

  /** The top hash value always stays on control. */
  lemma TopHashSeesControl(share: real, vs: seq<Candidate>)
    requires Weighted(vs) && 0.0 <= share <= 1.0
    ensures Slot(HashUnit(MAX_HASH), share, vs) == None
  {
    assert vs != [];
    CancelFactor(HashUnit(MAX_HASH), 1.0, MAX_HASH as real);
    SplitIsExact(HashUnit(MAX_HASH), share, vs, 0);
  }

  /** How many of the first n hash values stay on control. */
  function HashesOnControl(share: real, vs: seq<Candidate>, n: nat): nat {
    if n == 0 then 0
    else HashesOnControl(share, vs, n - 1) + if Slot(HashUnit(n - 1), share, vs) == None then 1 else 0
  }

  lemma {:induction false} ControlBelowShare(share: real, vs: seq<Candidate>, n: nat)
    requires Weighted(vs) && 0.0 <= share <= 1.0 && n <= MAX_HASH
    ensures HashesOnControl(share, vs, n) == Min(n, Ceil(share * MAX_HASH as real))
  {
    hide Slot, HashUnit;
    if n > 0 {
      ControlBelowShare(share, vs, n - 1);
      var x := HashUnit(n - 1);
      assert vs != [];
      SplitIsExact(x, share, vs, 0);
      InScaledInterval(x, 0.0, share, MAX_HASH as real);
    } else {
      assert share * MAX_HASH as real >= 0.0;
    }
  }

  /** Of all 2^64 hash values control gets its exact share of those below the top one, rounded up, and the
      top one. */
  lemma ControlShareIsFair(share: real, vs: seq<Candidate>)
    requires Weighted(vs) && 0.0 <= share <= 1.0
    ensures HashesOnControl(share, vs, MAX_HASH + 1) == Ceil(share * MAX_HASH as real) + 1
  {
    hide Slot, HashUnit;
    ControlBelowShare(share, vs, MAX_HASH);
    TopHashSeesControl(share, vs);
    assert share * MAX_HASH as real <= MAX_HASH as real by { assert (1.0 - share) * MAX_HASH as real >= 0.0; }
  }
}
