/** The cumulative distribution of a Beta posterior: the walk from the binomial mode. */
module BetaCdf {
  import opened BetaOdds

  function Power(x: real, k: nat): (p: real)
    ensures x > 0.0 ==> p > 0.0
  {
    if k == 0 then 1.0 else x * Power(x, k - 1)
  }

  function Choose(n: nat, k: nat): (c: real)
    requires k <= n
    ensures c > 0.0
  {
    Quotient(Factorial(n), Times(Factorial(k), Factorial(n - k)))
  }

  /** P(Bin(n, x) = k): what the engine evaluates in log space. */
  function Pmf(n: nat, k: nat, x: real): (p: real)
    ensures 0.0 < x < 1.0 ==> p >= 0.0 && (k <= n ==> p > 0.0)
  {
    if k > n then 0.0 else Times(Choose(n, k), Times(Power(x, k), Power(1.0 - x, n - k)))
  }

  /** The mass strictly below k. */
  function Head(n: nat, k: nat, x: real): real {
    if k == 0 then 0.0 else Head(n, k - 1, x) + Pmf(n, k - 1, x)
  }

  /** An independent definition: the chance of at least k successes in n tosses of a coin with
      success probability x, by the outcome of one toss. */
  function AtLeast(n: nat, k: nat, x: real): (p: real)
    ensures 0.0 <= x <= 1.0 ==> 0.0 <= p <= 1.0
  {
    if k == 0 then 1.0
    else if n == 0 then 0.0
    else Mix(x, AtLeast(n - 1, k - 1, x), AtLeast(n - 1, k, x))
  }

  function Mix(x: real, u: real, v: real): (r: real)
    ensures r == Times(x, u) + Times(1.0 - x, v)
    ensures 0.0 <= x <= 1.0 && 0.0 <= u <= 1.0 && 0.0 <= v <= 1.0 ==> 0.0 <= r <= 1.0
  {
    Shrinks(x, u);
    Shrinks(1.0 - x, v);
    Times(x, u) + Times(1.0 - x, v)
  }

  lemma Shrinks(x: real, u: real)
    ensures 0.0 <= x && 0.0 <= u <= 1.0 ==> 0.0 <= Times(x, u) <= x
  {
    if 0.0 <= x && 0.0 <= u <= 1.0 {
      assert x * (1.0 - u) >= 0.0;
    }
  }

  // ----- Pascal's rule

  lemma ChooseByFactorials(n: nat, k: nat)
    requires k <= n
    ensures Times(Choose(n, k), Times(Factorial(k), Factorial(n - k))) == Factorial(n)
  {
    hide Factorial, Times;
  }

  lemma ChooseUp(n: nat, k: nat)
    requires k <= n
    ensures Scaled(Choose(n + 1, k), Choose(n, k), (n + 1) as real, 1.0, (n + 1 - k) as real, 1.0)
    ensures Scaled(Choose(n + 1, k + 1), Choose(n, k), (n + 1) as real, 1.0, (k + 1) as real, 1.0)
  {
    hide Factorial, Choose, Times, Scaled;
    ChooseByFactorials(n, k);
    ChooseByFactorials(n + 1, k);
    ChooseByFactorials(n + 1, k + 1);
    FactorialStep(n + 1);
    FactorialStep(k + 1);
    FactorialStep(n + 1 - k);
    assert n + 1 - (k + 1) == n - k == n + 1 - k - 1;
    var g, h := Factorial(k), Factorial(n - k);
    ChooseUpStep(Choose(n + 1, k), Choose(n, k), g, h, (n + 1) as real, (n + 1 - k) as real, Factorial(n),
                 Times(g, Times((n + 1 - k) as real, h)));
    ChooseUpStep(Choose(n + 1, k + 1), Choose(n, k), g, h, (n + 1) as real, (k + 1) as real, Factorial(n),
                 Times(Times((k + 1) as real, g), h));
  }

  lemma ChooseUpStep(c': real, c: real, g: real, h: real, u: real, v: real, f: real, p': real)
    requires g > 0.0 && h > 0.0 && Times(c, Times(g, h)) == f && Times(c', p') == Times(u, f)
    requires p' == Times(g, Times(v, h)) || p' == Times(Times(v, g), h)
    ensures Scaled(c', c, u, 1.0, v, 1.0)
  {
    var p := g * h;
    assert p > 0.0;
    assert p' == v * p;
    assert (c' * v) * p == c' * (v * p) == u * (c * p) == (c * u) * p;
    CancelFactor(c' * v, c * u, p);
  }

  lemma Pascal(n: nat, k: nat)
    requires k + 1 <= n
    ensures Choose(n + 1, k + 1) == Choose(n, k) + Choose(n, k + 1)
    ensures Scaled(Choose(n, k + 1), Choose(n, k), (n - k) as real, 1.0, (k + 1) as real, 1.0)
  {
    ChooseUp(n, k);
    ChooseUp(n, k + 1);
    assert n + 1 - (k + 1) == n - k;
    PascalReals(Choose(n + 1, k + 1), Choose(n, k), Choose(n, k + 1), (k + 1) as real, (n - k) as real,
        (n + 1) as real);
  }

  lemma PascalReals(c: real, c0: real, c1: real, u: real, v: real, s: real)
    requires s > 0.0 && u + v == s && Scaled(c, c0, s, 1.0, u, 1.0) && Scaled(c, c1, s, 1.0, v, 1.0)
    ensures c == c0 + c1
    ensures Scaled(c1, c0, v, 1.0, u, 1.0)
  {
    assert c * s == c * u + c * v == (c0 + c1) * s;
    CancelFactor(c, c0 + c1, s);
    assert (c1 * u) * s == (c1 * s) * u == (c * v) * u == (c * u) * v == (c0 * s) * v == (c0 * v) * s;
    CancelFactor(c1 * u, c0 * v, s);
  }

  lemma ChooseEdges(n: nat)
    ensures Choose(n, 0) == 1.0 && Choose(n, n) == 1.0
  {
    var f := Factorial(n);
    assert Factorial(0) == 1.0;
    CancelFactor(Choose(n, 0), 1.0, f);
    CancelFactor(Choose(n, n), 1.0, f);
  }

  lemma PmfEdges(n: nat, x: real)
    ensures Pmf(n, 0, x) == Power(1.0 - x, n) && Pmf(n, n, x) == Power(x, n)
  {
    ChooseEdges(n);
    hide Choose;
  }

  lemma PowerStep(x: real, n: nat)
    ensures Power(x, n + 1) == Times(x, Power(x, n))
  {
  }

  lemma PmfPascal(n: nat, k: nat, x: real)
    ensures Pmf(n + 1, k + 1, x) == Times(x, Pmf(n, k, x)) + Times(1.0 - x, Pmf(n, k + 1, x))
    ensures Pmf(n + 1, 0, x) == Times(1.0 - x, Pmf(n, 0, x))
  {
    hide Choose, Times, Power;
    PmfEdges(n, x);
    PmfEdges(n + 1, x);
    PowerStep(1.0 - x, n);
    PowerStep(x, k);
    TimesZero(x);
    TimesZero(1.0 - x);
    if k < n {
      Pascal(n, k);
      assert n + 1 - (k + 1) == n - k == n - (k + 1) + 1;
      PowerStep(1.0 - x, n - (k + 1));
      PascalStep(Choose(n, k), Choose(n, k + 1), x, Power(x, k), 1.0 - x, Power(1.0 - x, n - (k + 1)));
    }
  }

  lemma PascalStep(c: real, d: real, x: real, p: real, y: real, q: real)
    ensures Times(c + d, Times(Times(x, p), Times(y, q)))
         == Times(x, Times(c, Times(p, Times(y, q)))) + Times(y, Times(d, Times(Times(x, p), q)))
  {
    hide Times;
    var r := Times(Times(x, p), Times(y, q));
    TimesRegroup(x, p, Times(y, q));
    TimesPull(Times(x, p), y, q);
    TimesPull(c, x, Times(p, Times(y, q)));
    TimesPull(d, y, Times(Times(x, p), q));
    TimesOfSum(c, d, r);
  }

  lemma TimesRegroup(a: real, b: real, c: real)
    ensures Times(Times(a, b), c) == Times(a, Times(b, c))
  {
  }

  lemma TimesPull(a: real, b: real, c: real)
    ensures Times(a, Times(b, c)) == Times(b, Times(a, c))
  {
  }

  lemma TimesOfSum(a: real, b: real, c: real)
    ensures Times(a + b, c) == Times(a, c) + Times(b, c)
  {
  }

  lemma {:induction false} HeadPascal(n: nat, k: nat, x: real)
    ensures Head(n + 1, k + 1, x) == Times(x, Head(n, k, x)) + Times(1.0 - x, Head(n, k + 1, x))
  {
    hide Times, Pmf;
    if k == 0 {
      PmfPascal(n, 0, x);
      HeadOfOne(n, x);
      HeadOfOne(n + 1, x);
      TimesZero(x);
    } else {
      HeadPascal(n, k - 1, x);
      PmfPascal(n, k - 1, x);
      Distribute(x, Head(n, k - 1, x), Pmf(n, k - 1, x));
      Distribute(1.0 - x, Head(n, k, x), Pmf(n, k, x));
    }
  }

  lemma HeadOfOne(n: nat, x: real)
    ensures Head(n, 0, x) == 0.0 && Head(n, 1, x) == Pmf(n, 0, x)
  {
    assert Head(n, 0, x) == 0.0;
  }

  lemma TimesZero(x: real)
    ensures Times(x, 0.0) == 0.0
  {
  }

  lemma Distribute(x: real, u: real, v: real)
    ensures Times(x, u + v) == Times(x, u) + Times(x, v)
  {
  }

  lemma NoToss(x: real)
    ensures Pmf(0, 0, x) == 1.0
  {
    ChooseEdges(0);
  }

  /** The binomial theorem, in the form the engine relies on: head and tail make up 1. */
  lemma {:induction false} HeadAndTail(n: nat, k: nat, x: real)
    ensures Head(n, k, x) + AtLeast(n, k, x) == 1.0
  {
    hide Times, Pmf, Mix;
    if k == 0 {
    } else if n == 0 {
      NoToss(x);
      HeadOfNoToss(k, x);
    } else {
      HeadAndTail(n - 1, k - 1, x);
      HeadAndTail(n - 1, k, x);
      HeadPascal(n - 1, k - 1, x);
      HeadAndTailStep(x, AtLeast(n - 1, k - 1, x), AtLeast(n - 1, k, x));
    }
  }

  lemma HeadAndTailStep(x: real, u: real, v: real)
    ensures Times(x, 1.0 - u) + Times(1.0 - x, 1.0 - v) + Mix(x, u, v) == 1.0
  {
    assert x * (1.0 - u) == x - x * u;
    assert (1.0 - x) * (1.0 - v) == (1.0 - x) - (1.0 - x) * v;
  }

  lemma {:induction false} HeadOfNoToss(k: nat, x: real)
    requires k >= 1
    ensures Head(0, k, x) == Pmf(0, 0, x)
  {
    if k > 1 { HeadOfNoToss(k - 1, x); }
    assert Head(0, 0, x) == 0.0;
  }

  lemma {:induction false} TooMany(n: nat, k: nat, x: real)
    requires k > n
    ensures AtLeast(n, k, x) == 0.0
  {
    if n > 0 {
      TooMany(n - 1, k - 1, x);
      TooMany(n - 1, k, x);
    }
  }

  // ----- monotonicity

  lemma {:induction false} FewerIsLikelier(n: nat, k: nat, x: real)
    requires 0.0 < x < 1.0 && k >= 1
    ensures AtLeast(n, k - 1, x) == AtLeast(n, k, x) + Pmf(n, k - 1, x)
  {
    HeadAndTail(n, k - 1, x);
    HeadAndTail(n, k, x);
  }

  /** The tail strictly grows with the success probability. */
  lemma {:induction false} TailIncreases(n: nat, k: nat, x: real, y: real)
    requires 0.0 < x < y < 1.0
    ensures AtLeast(n, k, x) <= AtLeast(n, k, y)
    ensures 1 <= k <= n ==> AtLeast(n, k, x) < AtLeast(n, k, y)
  {
    hide Pmf, Mix, Times;
    if k > 0 && n > 0 {
      TailIncreases(n - 1, k - 1, x, y);
      TailIncreases(n - 1, k, x, y);
      FewerIsLikelier(n - 1, k, x);
      TailStep(AtLeast(n - 1, k - 1, x), AtLeast(n - 1, k, x), AtLeast(n - 1, k - 1, y), AtLeast(n - 1, k, y), x, y);
    }
  }

  lemma TailStep(u: real, v: real, u': real, v': real, x: real, y: real)
    requires 0.0 < x < y < 1.0 && u <= u' && v <= v' && v <= u
    ensures Mix(x, u, v) <= Mix(y, u', v')
    ensures v < u ==> Mix(x, u, v) < Mix(y, u', v')
  {
    MixRises(y, u, v, u', v');
    MixAsStep(x, u, v);
    MixAsStep(y, u, v);
    Positive(y - x, u - v);
    assert Times(y, u - v) - Times(x, u - v) == Times(y - x, u - v);
  }

  lemma MixRises(x: real, u: real, v: real, u': real, v': real)
    requires 0.0 <= x <= 1.0 && u <= u' && v <= v'
    ensures Mix(x, u, v) <= Mix(x, u', v')
  {
    Positive(x, u' - u);
    Positive(1.0 - x, v' - v);
    assert Times(x, u' - u) == Times(x, u') - Times(x, u);
    assert Times(1.0 - x, v' - v) == Times(1.0 - x, v') - Times(1.0 - x, v);
  }

  lemma MixAsStep(x: real, u: real, v: real)
    ensures Mix(x, u, v) == v + Times(x, u - v)
  {
  }

  lemma Positive(x: real, y: real)
    requires 0.0 <= x && 0.0 <= y
    ensures 0.0 <= Times(x, y)
    ensures 0.0 < x && 0.0 < y ==> 0.0 < Times(x, y)
  {
  }

  // ----- the distribution function

  /** The distribution function of Beta(a, b) at x. */
  function Cdf(x: real, a: nat, b: nat): (p: real)
    requires a + b >= 1
    ensures 0.0 <= p <= 1.0
  {
    if x <= 0.0 then 0.0 else if x >= 1.0 then 1.0 else AtLeast(a + b - 1, a, x)
  }

  lemma InnerTail(n: nat, k: nat, x: real)
    requires 1 <= k <= n && 0.0 < x < 1.0
    ensures 0.0 < AtLeast(n, k, x) < 1.0
  {
    HeadAndTail(n, k, x);
    HeadPositive(n, k, x);
    FewerIsLikelier(n, k + 1, x);
  }

  lemma {:induction false} HeadPositive(n: nat, k: nat, x: real)
    requires 1 <= k <= n && 0.0 < x < 1.0
    ensures Head(n, k, x) > 0.0
  {
    if k > 1 { HeadPositive(n, k - 1, x); }
    assert Head(n, 0, x) == 0.0;
  }

  /** A proper posterior has a strictly increasing distribution function on the unit interval. */
  lemma CdfIncreases(x: real, y: real, a: nat, b: nat)
    requires a >= 1 && b >= 1 && 0.0 <= x < y <= 1.0
    ensures Cdf(x, a, b) < Cdf(y, a, b)
  {
    var n := a + b - 1;
    if 0.0 < x { InnerTail(n, a, x); }
    if y < 1.0 { InnerTail(n, a, y); }
    if 0.0 < x && y < 1.0 { TailIncreases(n, a, x, y); }
  }

  /** At least k successes, or at least n + 1 - k failures: never both, and always one. */
  lemma {:induction false} TailMirror(n: nat, k: nat, x: real)
    requires k <= n + 1
    ensures AtLeast(n, k, x) + AtLeast(n, n + 1 - k, 1.0 - x) == 1.0
  {
    hide Times, Mix;
    if k == 0 {
      TooMany(n, n + 1, 1.0 - x);
    } else if k == n + 1 {
      TooMany(n, n + 1, x);
    } else {
      TailMirror(n - 1, k - 1, x);
      TailMirror(n - 1, k, x);
      TailMirrorStep(x, AtLeast(n - 1, k - 1, x), AtLeast(n - 1, k, x));
    }
  }

  lemma TailMirrorStep(x: real, u: real, v: real)
    ensures Mix(x, u, v) + Mix(1.0 - x, 1.0 - v, 1.0 - u) == 1.0
  {
    assert x * (1.0 - u) == x - x * u;
    assert (1.0 - x) * (1.0 - v) == (1.0 - x) - (1.0 - x) * v;
  }

  /** Exchanging conversions and non-conversions reflects the distribution. */
  lemma CdfMirror(x: real, a: nat, b: nat)
    requires a >= 1 && b >= 1
    ensures Cdf(x, a, b) + Cdf(1.0 - x, b, a) == 1.0
  {
    if 0.0 < x < 1.0 { TailMirror(a + b - 1, a, x); }
  }

  // ----- the engine's walk from the mode

  // The factors of the engine's recurrences.

  function DownFactor(n: nat, k: nat, x: real): real
    requires 1 <= k <= n && 0.0 < x < 1.0
  {
    WalkRatio(k as real, (n - k + 1) as real, 1.0 - x, x)
  }

  function UpFactor(n: nat, k: nat, x: real): real
    requires k < n && 0.0 < x < 1.0
  {
    WalkRatio((n - k) as real, k as real + 1.0, x, 1.0 - x)
  }

  function WalkRatio(u: real, v: real, y: real, x: real): real
    requires v != 0.0 && x != 0.0
  {
    u / v * y / x
  }

  lemma PmfWalk(n: nat, k: nat, x: real)
    requires k < n && 0.0 < x < 1.0
    ensures Times(Pmf(n, k + 1, x), DownFactor(n, k + 1, x)) == Pmf(n, k, x)
    ensures Times(Pmf(n, k, x), UpFactor(n, k, x)) == Pmf(n, k + 1, x)
  {
    Pascal(n, k);
    var j := n - (k + 1);
    assert Power(x, k + 1) == Times(x, Power(x, k));
    assert Power(1.0 - x, n - k) == Times(1.0 - x, Power(1.0 - x, j));
    var s, t := Pmf(n, k + 1, x), Pmf(n, k, x);
    var u, v := (k + 1) as real, (n - k) as real;
    WalkStep(Choose(n, k), Choose(n, k + 1), u, v, x, 1.0 - x, Power(x, k), Power(1.0 - x, j), s, t);
    assert n - (k + 1) + 1 == n - k && k as real + 1.0 == u;
    WalkFactor(s, t, u, v, x, 1.0 - x);
    WalkFactor(t, s, v, u, 1.0 - x, x);
  }

  lemma WalkStep(c0: real, c1: real, u: real, v: real, x: real, y: real, p: real, q: real, s: real, t: real)
    requires Scaled(c1, c0, v, 1.0, u, 1.0)
    requires s == Times(c1, Times(Times(x, p), q)) && t == Times(c0, Times(p, Times(y, q)))
    ensures Times(s, Times(u, y)) == Times(t, Times(v, x))
  {
    var g, h := Times(Times(x, p), q), Times(p, Times(y, q));
    PairUp(c1, g, u, y);
    PairUp(c0, h, v, x);
    SameMass(x, y, p, q);
    assert Times(c1, u) == Times(c0, v);
  }

  lemma PairUp(a: real, b: real, c: real, d: real)
    ensures Times(Times(a, b), Times(c, d)) == Times(Times(a, c), Times(b, d))
  {
    assert (a * b) * (c * d) == (a * c) * (b * d);
  }

  lemma SameMass(x: real, y: real, p: real, q: real)
    ensures Times(Times(Times(x, p), q), y) == Times(Times(p, Times(y, q)), x)
  {
  }

  lemma WalkFactor(s: real, t: real, u: real, v: real, x: real, y: real)
    requires v > 0.0 && x > 0.0 && Times(s, Times(u, y)) == Times(t, Times(v, x))
    ensures Times(s, WalkRatio(u, v, y, x)) == t
  {
    var k := v * x;
    var d := WalkRatio(u, v, y, x);
    assert k > 0.0;
    assert d * k == u * y by {
      assert d * x == u / v * y;
      assert u / v * v == u;
      assert d * k == (d * x) * v == (u / v * v) * y;
    }
    assert (s * d) * k == s * (d * k) == t * k;
    CancelFactor(s * d, t, k);
  }

  method ComputeCdf(x: real, a: nat, b: nat) returns (p: real)
    requires a + b >= 1
    ensures p == Cdf(x, a, b)
  {
    hide Pmf, Times, Mix, DownFactor, UpFactor;
    if x <= 0.0 {
      return 0.0;
    }
    if x >= 1.0 {
      return 1.0;
    }
    var n := a + b - 1;
    ModeInRange(n, x);
    var mode := ((n as real + 1.0) * x).Floor;
    var t := Pmf(n, mode, x);
    var total := t;
    var k := mode;
    while k > 0
      invariant 0 <= k <= mode
      invariant t == Pmf(n, k, x)
      invariant total == Head(n, mode + 1, x) - Head(n, k, x)
    {
      PmfWalk(n, k - 1, x);
      t := Times(t, DownFactor(n, k, x));
      total := total + t;
      k := k - 1;
    }
    t := Pmf(n, mode, x);
    for k := mode to n
      invariant t == Pmf(n, k, x)
      invariant total == Head(n, k + 1, x)
    {
      PmfWalk(n, k, x);
      t := Times(t, UpFactor(n, k, x));
      total := total + t;
    }
    HeadAndTail(n, n + 1, x);
    TooMany(n, n + 1, x);
    HeadAndTail(n, a, x);
    var below := 0.0;
    for k := 0 to a
      invariant below == Head(n, k, x)
    {
      below := below + Pmf(n, k, x);
    }
    p := if total - below < 0.0 then 0.0 else if total - below > 1.0 then 1.0 else total - below;
  }

  lemma ModeInRange(n: nat, x: real)
    requires 0.0 < x < 1.0
    ensures 0 <= ((n as real + 1.0) * x).Floor <= n
  {
    var s := n as real + 1.0;
    assert 0.0 < s * x < s;
  }
}
