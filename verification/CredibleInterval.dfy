/** Quantiles of a Beta posterior by sixty halvings of the unit interval. */
module CredibleInterval {
  import opened BetaCdf

  const HALVINGS: nat := 60

  datatype Bracket = Bracket(lo: real, hi: real) {
    function Mid(): real { 0.5 * (lo + hi) }
  }

  /** The bracket after some halvings. */
  function Bisect(a: nat, b: nat, p: real, steps: nat): Bracket
    requires a + b >= 1
  {
    if steps == 0 then Bracket(0.0, 1.0)
    else
      var w := Bisect(a, b, p, steps - 1);
      if Cdf(w.Mid(), a, b) < p then Bracket(w.Mid(), w.hi) else Bracket(w.lo, w.Mid())
  }

  function Quantile(a: nat, b: nat, p: real): real
    requires a + b >= 1
  {
    Bisect(a, b, p, HALVINGS).Mid()
  }

  method Halve(a: nat, b: nat, p: real, steps: nat) returns (w: Bracket)
    requires a + b >= 1
    ensures w == Bisect(a, b, p, steps)
  {
    w := Bracket(0.0, 1.0);
    for i := 0 to steps
      invariant w == Bisect(a, b, p, i)
    {
      var mid := w.Mid();
      var c := ComputeCdf(mid, a, b);
      if c < p {
        w := w.(lo := mid);
      } else {
        w := w.(hi := mid);
      }
    }
  }

  method InvertCdf(a: nat, b: nat, p: real) returns (x: real)
    requires a + b >= 1
    ensures x == Quantile(a, b, p)
  {
    var w := Halve(a, b, p, HALVINGS);
    x := w.Mid();
  }

  /** Every halving keeps the target strictly above the lower end's value and at most the upper
      end's, and halves the width. */
  lemma {:induction false} BracketHolds(a: nat, b: nat, p: real, steps: nat)
    requires a >= 1 && b >= 1 && 0.0 < p <= 1.0
    ensures var w := Bisect(a, b, p, steps);
            && 0.0 <= w.lo < w.hi <= 1.0
            && w.hi - w.lo == Power(0.5, steps)
            && Cdf(w.lo, a, b) < p <= Cdf(w.hi, a, b)
  {
    if steps > 0 {
      BracketHolds(a, b, p, steps - 1);
    }
  }

  /** Any exact p-quantile lies within half a bracket (2^-61) of the returned value. */
  lemma QuantileIsAccurate(a: nat, b: nat, p: real, q: real)
    requires a >= 1 && b >= 1 && 0.0 < p <= 1.0
    requires 0.0 <= q <= 1.0 && Cdf(q, a, b) == p
    ensures -Power(0.5, 61) <= Quantile(a, b, p) - q <= Power(0.5, 61)
  {
    BracketHolds(a, b, p, HALVINGS);
    var w := Bisect(a, b, p, HALVINGS);
    if q < w.lo {
      CdfIncreases(q, w.lo, a, b);
    } else if q > w.hi {
      CdfIncreases(w.hi, q, a, b);
    }
    assert Power(0.5, HALVINGS + 1) == 0.5 * Power(0.5, HALVINGS);
  }

  /** Two searches either share their bracket or have separated in the right order. */
  lemma {:induction false} BracketsOrdered(a: nat, b: nat, p: real, q: real, steps: nat)
    requires a >= 1 && b >= 1 && 0.0 < p <= q <= 1.0
    ensures var v, w := Bisect(a, b, p, steps), Bisect(a, b, q, steps); v == w || v.hi <= w.lo
  {
    hide Cdf, Power;
    if steps > 0 {
      BracketsOrdered(a, b, p, q, steps - 1);
      BracketHolds(a, b, p, steps - 1);
      BracketHolds(a, b, q, steps - 1);
    }
  }

  function Interval(a: nat, b: nat, mass: real): Bracket
    requires a + b >= 1
  {
    Bracket(Quantile(a, b, (1.0 - mass) / 2.0), Quantile(a, b, 1.0 - (1.0 - mass) / 2.0))
  }

  /** The reported interval is ordered and lies inside the unit interval; up to 2^-61 at either end it
      leaves out half of the remaining posterior mass on each side. */
  lemma IntervalCovers(a: nat, b: nat, mass: real)
    requires a >= 1 && b >= 1 && 0.0 <= mass < 1.0
    ensures var i, e := Interval(a, b, mass), Power(0.5, 61);
            && 0.0 < i.lo <= i.hi < 1.0
            && Cdf(i.lo - e, a, b) < (1.0 - mass) / 2.0 <= Cdf(i.lo + e, a, b)
            && Cdf(i.hi - e, a, b) < (1.0 + mass) / 2.0 <= Cdf(i.hi + e, a, b)
            && Cdf(i.hi + e, a, b) - Cdf(i.lo - e, a, b) > mass
            && Cdf(i.hi - e, a, b) - Cdf(i.lo + e, a, b) < mass
  {
    hide Cdf, Bisect;
    var p, q := (1.0 - mass) / 2.0, 1.0 - (1.0 - mass) / 2.0;
    BracketHolds(a, b, p, HALVINGS);
    BracketHolds(a, b, q, HALVINGS);
    BracketsOrdered(a, b, p, q, HALVINGS);
    assert Power(0.5, HALVINGS + 1) == 0.5 * Power(0.5, HALVINGS);
    hide Power;
    var v, w := Bisect(a, b, p, HALVINGS), Bisect(a, b, q, HALVINGS);
    assert v.Mid() + Power(0.5, HALVINGS + 1) == v.hi && v.Mid() - Power(0.5, HALVINGS + 1) == v.lo;
    assert w.Mid() + Power(0.5, HALVINGS + 1) == w.hi && w.Mid() - Power(0.5, HALVINGS + 1) == w.lo;
  }

  method ComputeInterval(a: nat, b: nat, mass: real) returns (i: Bracket)
    requires a + b >= 1
    ensures i == Interval(a, b, mass)
  {
    var lo := InvertCdf(a, b, (1.0 - mass) / 2.0);
    var hi := InvertCdf(a, b, 1.0 - (1.0 - mass) / 2.0);
    i := Bracket(lo, hi);
  }
}
