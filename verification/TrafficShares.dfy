/** Who sees what in an experiment, counted over all 64-bit hashes and in terms of its own weights. */
module TrafficShares {
  import opened Options
  import opened BetaOdds
  import opened TrafficSplit
  import opened Experiments

  const TOP: nat := 18_446_744_073_709_551_615

  function SumOfWeights(vs: seq<Variant>): real {
    if vs == [] then 0.0 else vs[0].weight + SumOfWeights(vs[1..])
  }

  lemma {:induction false} SumSnoc(vs: seq<Variant>, last: Variant)
    ensures SumOfWeights(vs + [last]) == SumOfWeights(vs) + last.weight
  {
    if vs == [] {
      assert ([] + [last])[1..] == [];
    } else {
      SumSnoc(vs[1..], last);
      assert (vs + [last])[1..] == vs[1..] + [last];
    }
  }

  lemma {:induction false} WeightsAgree(vs: seq<Variant>)
    ensures TotalWeight(Candidates(vs)) == SumOfWeights(vs)
  {
    if vs != [] {
      var front, last := vs[..|vs| - 1], vs[|vs| - 1];
      WeightsAgree(front);
      SumSnoc(front, last);
      assert vs == front + [last];
      assert Candidates(vs)[..|vs| - 1] == Candidates(front);
    }
  }

  /** The hashes below n whose visitors are handed this variant. */
  function HandedOut(exp: Experiment, id: nat, n: nat): nat
    requires FindControl(exp.variants).Some?
  {
    if n == 0 then 0 else HandedOut(exp, id, n - 1) + if AssignedVariant(exp, n - 1) == id then 1 else 0
  }

  lemma {:induction false} HandedToChallenger(exp: Experiment, i: nat, n: nat)
    requires WellFormed(exp) && i < |Others(exp.variants)|
    ensures HandedOut(exp, Others(exp.variants)[i].id, n)
         == HashesFor(i, ControlShare(exp.trafficWeight), Candidates(Others(exp.variants)), n)
  {
    hide WellFormed, FindControl, Others, Slot, HashUnit, AssignedVariant, ControlShare;
    if n > 0 {
      HandedToChallenger(exp, i, n - 1);
      SeesIff(exp, n - 1, i);
    }
  }

  lemma TrafficIsShare(exp: Experiment, i: nat)
    requires WellFormed(exp) && i < |Others(exp.variants)|
    ensures Weighted(Candidates(Others(exp.variants))) && SumOfWeights(Others(exp.variants)) > 0.0
    ensures 0.0 <= ControlShare(exp.trafficWeight) <= 1.0
    ensures ShareOf(ControlShare(exp.trafficWeight), Candidates(Others(exp.variants)), i)
         == exp.trafficWeight / 100.0 * (Others(exp.variants)[i].weight / SumOfWeights(Others(exp.variants)))
  {
    hide FindControl, Others;
    OthersWeighted(exp);
    WeightsAgree(Others(exp.variants));
    assert 0.0 <= exp.trafficWeight / 100.0 <= 1.0;
  }

  /** Of all 64-bit hashes, a challenger gets its weight's share of the experiment's percentage of the values
      below the top one, up to less than one value. */
  lemma ChallengerTraffic(exp: Experiment, i: nat)
    requires WellFormed(exp) && i < |Others(exp.variants)|
    ensures SumOfWeights(Others(exp.variants)) > 0.0
    ensures var others := Others(exp.variants);
            var share := exp.trafficWeight / 100.0 * (others[i].weight / SumOfWeights(others));
            -1.0 < HandedOut(exp, others[i].id, TOP + 1) as real - share * TOP as real < 1.0
  {
    hide WellFormed, FindControl, Others, HashesFor, HandedOut, ShareOf, ControlShare;
    TrafficIsShare(exp, i);
    HandedToChallenger(exp, i, TOP + 1);
    HashShareBelowTop(i, ControlShare(exp.trafficWeight), Candidates(Others(exp.variants)));
  }

  lemma HandedControl(exp: Experiment, hash: nat)
    requires WellFormed(exp)
    ensures AssignedVariant(exp, hash) == FindControl(exp.variants).value.id
       <==> Slot(HashUnit(hash), ControlShare(exp.trafficWeight), Candidates(Others(exp.variants))) == None
  {
    hide FindControl, Others, Slot, HashUnit;
    var s := Slot(HashUnit(hash), ControlShare(exp.trafficWeight), Candidates(Others(exp.variants)));
    if s.Some? { ControlApart(exp.variants, s.value); }
  }

  lemma {:induction false} HandedToControl(exp: Experiment, n: nat)
    requires WellFormed(exp)
    ensures HandedOut(exp, FindControl(exp.variants).value.id, n)
         == HashesOnControl(ControlShare(exp.trafficWeight), Candidates(Others(exp.variants)), n)
  {
    hide FindControl, Others, Slot, HashUnit, AssignedVariant, ControlShare;
    if n > 0 {
      HandedToControl(exp, n - 1);
      HandedControl(exp, n - 1);
    }
  }

  /** Control gets the rest of the values below the top one, rounded up, and the top one. */
  lemma ControlTraffic(exp: Experiment)
    requires WellFormed(exp)
    ensures var control := FindControl(exp.variants).value;
            HandedOut(exp, control.id, TOP + 1) == Ceil((1.0 - exp.trafficWeight / 100.0) * TOP as real) + 1
  {
    hide FindControl, Others, HashesOnControl, HandedOut;
    TrafficIsShare(exp, 0);
    HandedToControl(exp, TOP + 1);
    ControlShareIsFair(ControlShare(exp.trafficWeight), Candidates(Others(exp.variants)));
  }

  /** Without traffic everyone stays on control; with all of it only the top hash does. */
  lemma TrafficEnds(exp: Experiment, hash: nat)
    requires WellFormed(exp) && hash <= TOP
    ensures exp.trafficWeight == 0.0 ==> AssignedVariant(exp, hash) == FindControl(exp.variants).value.id
    ensures exp.trafficWeight == 100.0 ==>
              (AssignedVariant(exp, hash) == FindControl(exp.variants).value.id <==> hash == TOP)
  {
    hide FindControl, Others, Slot, AssignedVariant;
    TrafficIsShare(exp, 0);
    HandedControl(exp, hash);
    var x, vs := HashUnit(hash), Candidates(Others(exp.variants));
    SplitIsExact(x, ControlShare(exp.trafficWeight), vs, 0);
    if hash == TOP { TopHashSeesControl(ControlShare(exp.trafficWeight), vs); }
  }

  /** A weight beyond the percentages counts as the nearest one. */
  lemma TrafficBeyondRange(exp: Experiment, hash: nat)
    requires FindControl(exp.variants).Some?
    ensures exp.trafficWeight > 100.0 ==>
              AssignedVariant(exp, hash) == AssignedVariant(exp.(trafficWeight := 100.0), hash)
    ensures exp.trafficWeight < 0.0 ==> AssignedVariant(exp, hash) == AssignedVariant(exp.(trafficWeight := 0.0), hash)
  {
    hide FindControl, Others, Slot, HashUnit;
    assert 100.0 / 100.0 == 1.0 && 0.0 / 100.0 == 0.0;
    if exp.trafficWeight > 100.0 { assert exp.trafficWeight / 100.0 > 1.0; }
    if exp.trafficWeight < 0.0 { assert exp.trafficWeight / 100.0 < 0.0; }
  }

  /** With one control the challengers are all other variants, in their order. */
  lemma {:induction false} OthersInOrder(variants: seq<Variant>, i: nat)
    requires i < |variants| && variants[i].isControl && forall j :: 0 <= j < i ==> !variants[j].isControl
    requires forall j :: i < j < |variants| ==> !variants[j].isControl
    ensures Others(variants) == variants[..i] + variants[i + 1..]
  {
    var rest := variants[1..];
    if i == 0 {
      OnlyOthers(rest);
      assert variants[..0] == [];
    } else {
      OthersInOrder(rest, i - 1);
      hide Others;
      Regrouped(variants, i);
    }
  }

  lemma Regrouped(variants: seq<Variant>, i: nat)
    requires 0 < i < |variants|
    ensures [variants[0]] + (variants[1..][..i - 1] + variants[1..][i..]) == variants[..i] + variants[i + 1..]
  {
  }

  /** Control is the first variant marked as such. */
  lemma {:induction false} FirstControl(variants: seq<Variant>, i: nat)
    requires i < |variants| && variants[i].isControl && forall j :: 0 <= j < i ==> !variants[j].isControl
    ensures FindControl(variants) == Some(variants[i])
  {
    if i > 0 { FirstControl(variants[1..], i - 1); }
  }

  /** Of two variants with one id the first is found. */
  lemma {:induction false} FirstVariant(variants: seq<Variant>, i: nat)
    requires i < |variants| && forall j :: 0 <= j < i ==> variants[j].id != variants[i].id
    ensures FindVariant(variants, variants[i].id) == Some(variants[i])
  {
    if i > 0 { FirstVariant(variants[1..], i - 1); }
  }

  lemma {:induction false} OnlyOthers(variants: seq<Variant>)
    requires forall v :: v in variants ==> !v.isControl
    ensures Others(variants) == variants
  {
    if variants != [] { OnlyOthers(variants[1..]); }
  }
}
