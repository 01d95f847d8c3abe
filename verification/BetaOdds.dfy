/** The closed-form comparison of two Beta posteriors, in exact arithmetic.

The engine evaluates every Beta function as exp(log_beta(..)); here a Beta function of positive
integers is the rational number it stands for. */
module BetaOdds {

  function Factorial(n: nat): (f: real)
    ensures f > 0.0
  {
    if n == 0 then 1.0 else n as real * Factorial(n - 1)
  }

  /** B(a, b) = (a-1)! (b-1)! / (a+b-1)!. */
  function Beta(a: nat, b: nat): (r: real)
    requires a >= 1 && b >= 1
    ensures r > 0.0
  {
    Quotient(Times(Factorial(a - 1), Factorial(b - 1)), Factorial(a + b - 1))
  }

  /** The j-th summand of the engine's loop. */
  function Term(a: nat, b: nat, d: nat, j: nat): (r: real)
    requires a >= 1 && b >= 1 && d >= 1
    ensures r > 0.0
  {
    Quotient(Beta(a + j, b + d), Times(Times((d + j) as real, Beta(1 + j, d)), Beta(a, b)))
  }

  // Products and quotients of computed values are named: equals may then be substituted in them
  // without any reasoning about multiplication, and `hide Times` takes that reasoning out of a proof.

  function Times(x: real, y: real): (p: real)
    ensures x > 0.0 && y > 0.0 ==> p > 0.0
  {
    x * y
  }

  function Quotient(x: real, y: real): (q: real)
    requires x > 0.0 && y > 0.0
    ensures q > 0.0 && Times(q, y) == x
  {
    x / y
  }

  lemma TimesSwap(x: real, y: real)
    ensures Times(x, y) == Times(y, x)
  {
  }

  lemma TimesOne(x: real)
    ensures Times(1.0, x) == x
  {
  }

  /** P(X < Y) for X ~ Beta(a, b), Y ~ Beta(c, d), as the engine sums it. */
  function Odds(a: nat, b: nat, c: nat, d: nat): (r: real)
    requires a >= 1 && b >= 1 && d >= 1
    ensures r >= 0.0
    ensures c > 0 ==> r > 0.0
  {
    if c == 0 then 0.0 else Odds(a, b, c - 1, d) + Term(a, b, d, c - 1)
  }

  /** The size of one unit step in any parameter, up to a divisor. */
  function Density(a: nat, b: nat, c: nat, d: nat): (h: real)
    requires a >= 1 && b >= 1 && c >= 1 && d >= 1
    ensures h > 0.0
  {
    Quotient(Beta(a + c, b + d), Times(Beta(a, b), Beta(c, d)))
  }

  // ----- one step of a Beta function, and of a ratio of them

  /** x' : x = (u * w) : (n * v).  A predicate, so that the solver substitutes equals in it. */
  ghost predicate Scaled(x': real, x: real, u: real, w: real, n: real, v: real) {
    x' * (n * v) == x * (u * w)
  }

  lemma BetaStep(a: nat, b: nat)
    requires a >= 1 && b >= 1
    ensures Scaled(Beta(a + 1, b), Beta(a, b), a as real, 1.0, (a + b) as real, 1.0)
  {
    hide Times, Factorial, Beta, Scaled;
    BetaByFactorials(a, b);
    BetaByFactorials(a + 1, b);
    FactorialStep(a);
    FactorialStep(a + b);
    assert a + 1 + b - 1 == a + b;
    BetaStepCore(Beta(a + 1, b), Beta(a, b), Factorial(a - 1), Factorial(b - 1), Factorial(a + b - 1),
                 a as real, (a + b) as real);
  }

  lemma FactorialStep(n: nat)
    requires n >= 1
    ensures Factorial(n) == Times(n as real, Factorial(n - 1))
  {
  }

  lemma BetaByFactorials(a: nat, b: nat)
    requires a >= 1 && b >= 1
    ensures Times(Beta(a, b), Factorial(a + b - 1)) == Times(Factorial(a - 1), Factorial(b - 1))
  {
    hide Factorial, Times;
  }

  lemma BetaSymmetric(a: nat, b: nat)
    requires a >= 1 && b >= 1
    ensures Beta(a, b) == Beta(b, a)
  {
    assert a + b == b + a;
  }

  lemma BetaStepCore(p': real, p: real, f: real, g: real, k: real, u: real, n: real)
    requires k > 0.0
    requires Times(p', Times(n, k)) == Times(Times(u, f), g) && Times(p, k) == Times(f, g)
    ensures Scaled(p', p, u, 1.0, n, 1.0)
  {
    assert (p' * n) * k == u * (f * g) == u * (p * k) == (p * u) * k;
    CancelFactor(p' * n, p * u, k);
  }

  lemma CombineSteps(h: real, h': real, p: real, p': real, q: real, q': real, r: real,
                     n: real, u: real, v: real, w: real)
    requires p > 0.0 && q > 0.0 && q' > 0.0 && r > 0.0
    requires h == Quotient(p, Times(q, r)) && p' > 0.0 && h' == Quotient(p', Times(q', r))
    requires Scaled(p', p, u, 1.0, n, 1.0) && Scaled(q', q, v, 1.0, w, 1.0)
    ensures Scaled(h', h, u, w, n, v)
  {
    var k := q * r;
    assert k > 0.0;
    calc {
      h' * (n * v) * k;
      h' * n * r * (v * q);
      h' * n * r * (q' * w);
      (h' * (q' * r)) * n * w;
      (p' * n) * w;
      (h * k) * u * w;
      h * (u * w) * k;
    }
    CancelFactor(h' * (n * v), h * (u * w), k);
  }

  lemma CancelFactor(x: real, y: real, k: real)
    requires k > 0.0 && x * k == y * k
    ensures x == y
  {
    assert (x - y) * k == 0.0;
  }

  lemma DensityStepA(a: nat, b: nat, c: nat, d: nat)
    requires a >= 1 && b >= 1 && c >= 1 && d >= 1
    ensures Scaled(Density(a + 1, b, c, d), Density(a, b, c, d),
                   (a + c) as real, (a + b) as real, (a + b + c + d) as real, a as real)
  {
    BetaStep(a, b);
    BetaStep(a + c, b + d);
    assert a + 1 + c == a + c + 1 && a + c + (b + d) == a + b + c + d;
    CombineSteps(Density(a, b, c, d), Density(a + 1, b, c, d),
                 Beta(a + c, b + d), Beta(a + c + 1, b + d), Beta(a, b), Beta(a + 1, b), Beta(c, d),
                 (a + b + c + d) as real, (a + c) as real, a as real, (a + b) as real);
  }

  lemma DensitySwap(a: nat, b: nat, c: nat, d: nat)
    requires a >= 1 && b >= 1 && c >= 1 && d >= 1
    ensures Density(a, b, c, d) == Density(c, d, a, b)
  {
  }

  lemma DensityMirror(a: nat, b: nat, c: nat, d: nat)
    requires a >= 1 && b >= 1 && c >= 1 && d >= 1
    ensures Density(a, b, c, d) == Density(b, a, d, c)
  {
    assert Beta(a, b) == Beta(b, a) && Beta(c, d) == Beta(d, c) && Beta(a + c, b + d) == Beta(b + d, a + c);
  }

  // ----- the loop's summands are density steps

  lemma BetaOne(d: nat)
    requires d >= 1
    ensures Times(Beta(1, d), d as real) == 1.0
  {
    var f, g := Factorial(d), Factorial(d - 1);
    BetaByFactorials(1, d);
    FactorialStep(d);
    assert Factorial(0) == 1.0;
    hide Factorial, Beta;
    BetaOneCore(Beta(1, d), f, g, d as real);
  }

  lemma BetaOneCore(p: real, f: real, g: real, d: real)
    requires g > 0.0 && f == Times(d, g) && Times(p, f) == Times(1.0, g)
    ensures Times(p, d) == 1.0
  {
    Regroup(p, d, g, f);
    CancelFactor(Times(p, d), 1.0, g);
  }

  lemma FirstTerm(a: nat, b: nat, d: nat)
    requires a >= 1 && b >= 1 && d >= 1
    ensures Odds(a, b, 1, d) == Quotient(Beta(a, b + d), Beta(a, b))
  {
    BetaOne(d);
    hide Beta, Quotient, Times;
    assert d + 0 == d && 1 + 0 == 1;
    TimesSwap(Beta(1, d), d as real);
    TimesOne(Beta(a, b));
    assert Odds(a, b, 0, d) == 0.0;
  }

  lemma QuotientOfScaled(x: real, q: real, r: real, r': real, c: real, e: real)
    requires x > 0.0 && q > 0.0 && r > 0.0 && r' > 0.0 && c > 0.0 && e > 0.0
    requires Scaled(r', r, c, 1.0, e, 1.0)
    ensures Quotient(x, Times(Times(e, r'), q)) == Quotient(Quotient(x, Times(q, r)), c)
  {
    assert e * r' * q == c * (q * r);
    var k := q * r;
    assert x / (c * k) == (x / k) / c;
  }

  lemma StepC(a: nat, b: nat, c: nat, d: nat)
    requires a >= 1 && b >= 1 && c >= 1 && d >= 1
    ensures Odds(a, b, c + 1, d) == Odds(a, b, c, d) + Quotient(Density(a, b, c, d), c as real)
  {
    BetaStep(c, d);
    assert c + 1 == 1 + c && c + d == d + c;
    QuotientOfScaled(Beta(a + c, b + d), Beta(a, b), Beta(c, d), Beta(1 + c, d), c as real, (d + c) as real);
  }

  // ----- unit steps in the other parameters, by induction over the sum

  lemma StepCore(h: real, h1: real, h2: real, p: real, q: real, r: real, s: real, n: real, x: real, c: real)
    requires h > 0.0 && h1 > 0.0 && h2 > 0.0 && n > 0.0 && x > 0.0 && c > 0.0
    requires Scaled(h1, h, p, q, n, x) && Scaled(h2, h, r, s, n, c)
    requires (r + p == n && s == q == x + c) || (s + q == n && r == p == x + c)
    ensures Quotient(h2, x) == Quotient(h, x) + Quotient(h, c) - Quotient(h1, c)
  {
    hide Times, Scaled, Quotient;
    var u, v, w, t := Times(n, c), Times(n, x), Times(p, q), Times(r, s);
    ScaledProducts(h1, h, p, q, n, x);
    ScaledProducts(h2, h, r, s, n, c);
    SumOfProducts(p, q, r, s, n, x, c);
    ThreeFactors(n, x, c);
    StepParts(h, h1, h2, x, c, u, v, w, t, Times(x, u));
  }

  lemma ScaledProducts(x': real, x: real, u: real, w: real, n: real, v: real)
    requires Scaled(x', x, u, w, n, v)
    ensures Times(x', Times(n, v)) == Times(x, Times(u, w))
  {
  }

  lemma SumOfProducts(p: real, q: real, r: real, s: real, n: real, x: real, c: real)
    requires (r + p == n && s == q == x + c) || (s + q == n && r == p == x + c)
    ensures Times(r, s) + Times(p, q) == Times(n, c) + Times(n, x)
  {
    if s == q == x + c && r + p == n {
      assert (r + p) * q == n * (x + c);
    } else {
      assert p * (s + q) == (x + c) * n;
    }
  }

  lemma ThreeFactors(n: real, x: real, c: real)
    ensures Times(x, Times(n, c)) == Times(c, Times(n, x))
  {
    assert x * (n * c) == c * (n * x);
  }

  lemma StepParts(h: real, h1: real, h2: real, x: real, c: real, u: real, v: real, w: real, t: real, k: real)
    requires h > 0.0 && h1 > 0.0 && h2 > 0.0 && x > 0.0 && c > 0.0 && k > 0.0
    requires k == Times(x, u) == Times(c, v) && t + w == u + v
    requires Times(h1, v) == Times(h, w) && Times(h2, u) == Times(h, t)
    ensures Quotient(h2, x) == Quotient(h, x) + Quotient(h, c) - Quotient(h1, c)
  {
    hide Times, Quotient;
    Regroup(Quotient(h, x), x, u, k);
    Regroup(Quotient(h, c), c, v, k);
    Regroup(Quotient(h1, c), c, v, k);
    Regroup(Quotient(h2, x), x, u, k);
    Spread(h, u, v, w, t);
    CancelSum(Quotient(h2, x), Quotient(h, x), Quotient(h, c), Quotient(h1, c), k);
  }

  lemma Regroup(y: real, x: real, w: real, k: real)
    requires k == Times(x, w)
    ensures Times(y, k) == Times(Times(y, x), w)
  {
    assert y * (x * w) == (y * x) * w;
  }

  lemma Spread(h: real, u: real, v: real, w: real, t: real)
    requires t + w == u + v
    ensures Times(h, u) + Times(h, v) - Times(h, w) == Times(h, t)
  {
    assert t == u + v - w;
    assert h * u + h * v - h * w == h * (u + v - w);
  }

  lemma CancelSum(y: real, u: real, v: real, w: real, k: real)
    requires k > 0.0 && Times(y, k) == Times(u, k) + Times(v, k) - Times(w, k)
    ensures y == u + v - w
  {
    assert y * k == (u + v - w) * k;
    CancelFactor(y, u + v - w, k);
  }

  lemma FirstStep(f: real, f': real, g: real, u: real, v: real, n: real)
    requires n > 0.0 && Scaled(f', f, u, 1.0, n, 1.0) && Scaled(g, f, v, 1.0, n, 1.0) && n == u + v
    ensures f' == f - g
  {
    assert f' * n == f * u && g * n == f * v;
    assert (f' + g) * n == f * n;
    CancelFactor(f' + g, f, n);
  }

  lemma {:induction false} StepA(a: nat, b: nat, c: nat, d: nat)
    requires a >= 1 && b >= 1 && c >= 1 && d >= 1
    ensures Odds(a + 1, b, c, d) == Odds(a, b, c, d) - Quotient(Density(a, b, c, d), a as real)
  {
    if c == 1 {
      FirstStepA(a, b, d);
    } else {
      var e := c - 1;
      StepA(a, b, e, d);
      StepC(a, b, e, d);
      StepC(a + 1, b, e, d);
      DensityStepA(a, b, e, d);
      DensityStepC(a, b, e, d);
      StepCore(Density(a, b, e, d), Density(a + 1, b, e, d), Density(a, b, e + 1, d),
               (a + e) as real, (a + b) as real, (a + e) as real, (e + d) as real,
               (a + b + e + d) as real, a as real, e as real);
    }
  }

  lemma DensityStepC(a: nat, b: nat, c: nat, d: nat)
    requires a >= 1 && b >= 1 && c >= 1 && d >= 1
    ensures Scaled(Density(a, b, c + 1, d), Density(a, b, c, d),
                   (a + c) as real, (c + d) as real, (a + b + c + d) as real, c as real)
  {
    DensityStepA(c, d, a, b);
    DensitySwap(a, b, c, d);
    DensitySwap(a, b, c + 1, d);
    assert c + a == a + c && c + d + a + b == a + b + c + d;
  }

  lemma DensityStepD(a: nat, b: nat, c: nat, d: nat)
    requires a >= 1 && b >= 1 && c >= 1 && d >= 1
    ensures Scaled(Density(a, b, c, d + 1), Density(a, b, c, d),
                   (b + d) as real, (c + d) as real, (a + b + c + d) as real, d as real)
  {
    DensityStepC(b, a, d, c);
    DensityMirror(a, b, c, d);
    DensityMirror(a, b, c, d + 1);
    assert d + c == c + d && b + a + d + c == a + b + c + d;
  }

  lemma FirstStepA(a: nat, b: nat, d: nat)
    requires a >= 1 && b >= 1 && d >= 1
    ensures Odds(a + 1, b, 1, d) == Odds(a, b, 1, d) - Quotient(Density(a, b, 1, d), a as real)
  {
    hide Times, Quotient, Beta, Odds, Scaled;
    FirstTerm(a, b, d);
    FirstTerm(a + 1, b, d);
    assert Density(a, b, 1, d) == Quotient(Beta(a + 1, b + d), Times(Beta(a, b), Beta(1, d)));
    hide Density;
    BetaStep(a, b);
    BetaStep(a, b + d);
    BetaOne(d);
    FirstStepACore(Beta(a, b + d), Beta(a + 1, b + d), Beta(a, b), Beta(a + 1, b), Beta(1, d),
                   a as real, b as real, d as real, (a + b) as real, (a + b + d) as real);
  }

  lemma FirstStepACore(p: real, p': real, q: real, q': real, r: real, a: real, b: real, d: real, m: real, n: real)
    requires p > 0.0 && p' > 0.0 && q > 0.0 && q' > 0.0 && r > 0.0 && a > 0.0 && b > 0.0 && d > 0.0
    requires m == a + b && n == m + d && Times(r, d) == 1.0
    requires Scaled(p', p, a, 1.0, n, 1.0) && Scaled(q', q, a, 1.0, m, 1.0)
    ensures Quotient(p', q') == Quotient(p, q) - Quotient(Quotient(p', Times(q, r)), a)
  {
    hide Times, Quotient, Scaled;
    var f, f', h := Quotient(p, q), Quotient(p', q'), Quotient(p', Times(q, r));
    RatioStep(p, p', q, q', f, f', a, m, n);
    SliceStep(p, p', q, r, f, h, Quotient(h, a), a, d, n);
    FirstStep(f, f', Quotient(h, a), m, d, n);
  }

  lemma RatioStep(p: real, p': real, q: real, q': real, f: real, f': real, a: real, m: real, n: real)
    requires q > 0.0 && a > 0.0 && p == Times(f, q) && p' == Times(f', q')
    requires Scaled(p', p, a, 1.0, n, 1.0) && Scaled(q', q, a, 1.0, m, 1.0)
    ensures Scaled(f', f, m, 1.0, n, 1.0)
  {
    var k := a * q;
    assert k > 0.0;
    calc { f' * n * k; f' * n * (q' * m); (f' * q') * n * m; p' * n * m; a * p * m; a * (f * q) * m; f * m * k; }
    CancelFactor(f' * n, f * m, k);
  }

  lemma SliceStep(p: real, p': real, q: real, r: real, f: real, h: real, g: real, a: real, d: real, n: real)
    requires q > 0.0 && r > 0.0 && a > 0.0 && Times(r, d) == 1.0
    requires p == Times(f, q) && p' == Times(h, Times(q, r)) && h == Times(g, a)
    requires Scaled(p', p, a, 1.0, n, 1.0)
    ensures Scaled(g, f, d, 1.0, n, 1.0)
  {
    var k := a * q * r;
    assert q * r > 0.0 && k > 0.0;
    calc { g * n * k; (g * a) * (q * r) * n; h * (q * r) * n; p' * n; a * p; a * (f * q) * (r * d); f * d * k; }
    CancelFactor(g * n, f * d, k);
  }

  lemma FirstStepD(a: nat, b: nat, d: nat)
    requires a >= 1 && b >= 1 && d >= 1
    ensures Odds(a, b, 1, d + 1) == Odds(a, b, 1, d) - Quotient(Density(a, b, 1, d), d as real)
  {
    hide Times, Quotient, Beta, Odds, Scaled;
    FirstTerm(a, b, d);
    FirstTerm(a, b, d + 1);
    assert Density(a, b, 1, d) == Quotient(Beta(a + 1, b + d), Times(Beta(a, b), Beta(1, d)));
    hide Density;
    BetaStep(a, b + d);
    BetaStep(b + d, a);
    BetaOne(d);
    BetaSymmetric(b + d + 1, a);
    BetaSymmetric(b + d, a);
    assert b + d + 1 == b + (d + 1) && b + d + a == a + (b + d) && a + 1 + (b + d) == a + (b + d) + 1;
    FirstStepDCore(Beta(a, b + d), Beta(a + 1, b + d), Beta(a, b + (d + 1)), Beta(a, b), Beta(1, d),
                   a as real, (b + d) as real, d as real, (a + (b + d)) as real);
  }

  lemma FirstStepDCore(p: real, p': real, p1: real, q: real, r: real, a: real, m: real, d: real, n: real)
    requires p > 0.0 && p' > 0.0 && p1 > 0.0 && q > 0.0 && r > 0.0 && a > 0.0 && m > 0.0 && d > 0.0
    requires n == m + a && Times(r, d) == 1.0
    requires Scaled(p', p, a, 1.0, n, 1.0) && Scaled(p1, p, m, 1.0, n, 1.0)
    ensures Quotient(p1, q) == Quotient(p, q) - Quotient(Quotient(p', Times(q, r)), d)
  {
    var f, f', h := Quotient(p, q), Quotient(p1, q), Quotient(p', Times(q, r));
    var g := Quotient(h, d);
    assert Scaled(f', f, m, 1.0, n, 1.0) by {
      calc { f' * n * q; p1 * n; m * p; f * m * q; }
      CancelFactor(f' * n, f * m, q);
    }
    assert Scaled(g, f, a, 1.0, n, 1.0) by {
      calc { g * n * q; g * n * q * (r * d); (g * d) * (q * r) * n; p' * n; a * p; f * a * q; }
      CancelFactor(g * n, f * a, q);
    }
    FirstStep(f, f', g, m, a, n);
  }

  lemma {:induction false} StepD(a: nat, b: nat, c: nat, d: nat)
    requires a >= 1 && b >= 1 && c >= 1 && d >= 1
    ensures Odds(a, b, c, d + 1) == Odds(a, b, c, d) - Quotient(Density(a, b, c, d), d as real)
  {
    if c == 1 {
      FirstStepD(a, b, d);
    } else {
      var e := c - 1;
      StepD(a, b, e, d);
      StepC(a, b, e, d);
      StepC(a, b, e, d + 1);
      DensityStepD(a, b, e, d);
      DensityStepC(a, b, e, d);
      StepCore(Density(a, b, e, d), Density(a, b, e, d + 1), Density(a, b, e + 1, d),
               (b + d) as real, (e + d) as real, (a + e) as real, (e + d) as real,
               (a + b + e + d) as real, d as real, e as real);
    }
  }
}
