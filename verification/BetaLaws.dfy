/** Laws of the posterior comparison: complement, mirror, monotonicity, and its agreement with an
independent combinatorial definition. */
module BetaLaws {
  import opened BetaOdds

  // ----- complement

  /** P(X < Y) + P(Y < X) = 1 for every choice of the four parameters. */
  lemma {:induction false} Complement(a: nat, b: nat, c: nat, d: nat)
    requires a >= 1 && b >= 1 && c >= 1 && d >= 1
    ensures Odds(a, b, c, d) + Odds(c, d, a, b) == 1.0
    decreases a + c
  {
    hide Times, Quotient, Beta, Odds, Density;
    if a > 1 {
      Complement(a - 1, b, c, d);
      StepA(a - 1, b, c, d);
      StepC(c, d, a - 1, b);
      DensitySwap(a - 1, b, c, d);
    } else if c > 1 {
      Complement(a, b, c - 1, d);
      StepC(a, b, c - 1, d);
      StepA(c - 1, d, a, b);
      DensitySwap(a, b, c - 1, d);
    } else {
      FirstTerm(1, b, d);
      FirstTerm(1, d, b);
      BetaOne(b);
      BetaOne(d);
      BetaOne(b + d);
      assert d + b == b + d;
      ComplementBase(Beta(1, b), Beta(1, d), Beta(1, b + d), b as real, d as real);
    }
  }

  lemma ComplementBase(x: real, y: real, z: real, b: real, d: real)
    requires x > 0.0 && y > 0.0 && z > 0.0 && b > 0.0 && d > 0.0
    requires Times(x, b) == 1.0 && Times(y, d) == 1.0 && Times(z, b + d) == 1.0
    ensures Quotient(z, x) + Quotient(z, y) == 1.0
  {
    assert Quotient(z, x) == z * b by { CancelFactor(Quotient(z, x), z * b, x); }
    assert Quotient(z, y) == z * d by { CancelFactor(Quotient(z, y), z * d, y); }
  }

  /** The engine's clamp to the unit interval never changes anything. */
  lemma OddsAreProbability(a: nat, b: nat, c: nat, d: nat)
    requires a >= 1 && b >= 1 && c >= 1 && d >= 1
    ensures 0.0 < Odds(a, b, c, d) < 1.0
  {
    Complement(a, b, c, d);
  }

  // ----- the mirror image

  lemma StepB(a: nat, b: nat, c: nat, d: nat)
    requires a >= 1 && b >= 1 && c >= 1 && d >= 1
    ensures Odds(a, b + 1, c, d) == Odds(a, b, c, d) + Quotient(Density(a, b, c, d), b as real)
  {
    Complement(a, b, c, d);
    Complement(a, b + 1, c, d);
    StepD(c, d, a, b);
    DensitySwap(a, b, c, d);
  }

  /** Counting non-conversions instead of conversions turns the comparison around:
      1 - Y is below 1 - X exactly when X is below Y. */
  lemma {:induction false} Mirror(a: nat, b: nat, c: nat, d: nat)
    requires a >= 1 && b >= 1 && c >= 1 && d >= 1
    ensures Odds(a, b, c, d) == Odds(d, c, b, a)
    decreases a + b + c + d
  {
    if a > 1 {
      Mirror(a - 1, b, c, d);
      StepA(a - 1, b, c, d);
      StepD(d, c, b, a - 1);
      DensityTurn(a - 1, b, c, d);
    } else if b > 1 {
      Mirror(a, b - 1, c, d);
      StepB(a, b - 1, c, d);
      StepC(d, c, b - 1, a);
      DensityTurn(a, b - 1, c, d);
    } else if c > 1 {
      Mirror(a, b, c - 1, d);
      StepC(a, b, c - 1, d);
      StepB(d, c - 1, b, a);
      DensityTurn(a, b, c - 1, d);
    } else if d > 1 {
      Mirror(a, b, c, d - 1);
      StepD(a, b, c, d - 1);
      StepA(d - 1, c, b, a);
      DensityTurn(a, b, c, d - 1);
    }
  }

  lemma DensityTurn(a: nat, b: nat, c: nat, d: nat)
    requires a >= 1 && b >= 1 && c >= 1 && d >= 1
    ensures Density(a, b, c, d) == Density(d, c, b, a)
  {
    DensitySwap(a, b, c, d);
    DensityMirror(c, d, a, b);
  }

  // ----- monotonicity in the data

  /** A variant that turns one non-conversion into a conversion strictly gains on control, and a
      control that does so strictly lowers every variant. */
  lemma ConversionMovesOdds(a: nat, b: nat, c: nat, d: nat)
    requires a >= 1 && b >= 1 && c >= 1 && d >= 1
    ensures d >= 2 ==> Odds(a, b, c + 1, d - 1) > Odds(a, b, c, d)
    ensures b >= 2 ==> Odds(a + 1, b - 1, c, d) < Odds(a, b, c, d)
  {
    hide Odds, Density, Quotient, Times;
    if d >= 2 {
      StepD(a, b, c, d - 1);
      StepC(a, b, c, d - 1);
    }
    if b >= 2 {
      StepB(a, b - 1, c, d);
      StepA(a, b - 1, c, d);
    }
  }

  // ----- an independent definition: a race of order statistics

  /** The number of ways to shuffle n X cards into m Y cards. */
  function Shuffles(n: nat, m: nat): nat {
    if n == 0 || m == 0 then 1 else Shuffles(n - 1, m) + Shuffles(n, m - 1)
  }

  /** The number of those shuffles of a+b-1 X cards and c+d-1 Y cards in which the a-th X comes
      before the c-th Y, counted by the top card.  Beta(a, b) is the law of the a-th smallest of
      a+b-1 uniform numbers, so this is the event X < Y. */
  function RaceWins(a: nat, b: nat, c: nat, d: nat): nat
    requires b >= 1 && d >= 1
    decreases a + c
  {
    if a == 0 then Shuffles(b - 1, c + d - 1)
    else if c == 0 then 0
    else RaceWins(a - 1, b, c, d) + RaceWins(a, b, c - 1, d)
  }

  function FullOdds(a: nat, b: nat, c: nat, d: nat): real
    requires b >= 1 && d >= 1
  {
    if a == 0 then 1.0 else Odds(a, b, c, d)
  }

  lemma {:induction false} ShufflesClosed(n: nat, m: nat)
    ensures Times(Shuffles(n, m) as real, Times(Factorial(n), Factorial(m))) == Factorial(n + m)
  {
    if n > 0 && m > 0 {
      ShufflesClosed(n - 1, m);
      ShufflesClosed(n, m - 1);
      FactorialStep(n);
      FactorialStep(m);
      FactorialStep(n + m);
      assert n - 1 + m == n + (m - 1) == n + m - 1;
      ShufflesClosedStep(Shuffles(n - 1, m) as real, Shuffles(n, m - 1) as real, Factorial(n - 1), Factorial(m - 1),
                         n as real, m as real, Factorial(n + m - 1));
      assert Shuffles(n, m) as real == Shuffles(n - 1, m) as real + Shuffles(n, m - 1) as real;
      assert (n + m) as real == n as real + m as real;
    }
  }

  lemma ShufflesClosedStep(u: real, v: real, f: real, g: real, n: real, m: real, k: real)
    requires Times(u, Times(f, Times(m, g))) == k && Times(v, Times(Times(n, f), g)) == k
    ensures Times(u + v, Times(Times(n, f), Times(m, g))) == Times(n + m, k)
  {
    assert u * ((n * f) * (m * g)) == n * (u * (f * (m * g)));
    assert v * ((n * f) * (m * g)) == m * (v * ((n * f) * g));
  }

  lemma ShufflesRatio(n: nat, m: nat)
    requires n >= 1
    ensures Times(Shuffles(n, m) as real, n as real) == Times(Shuffles(n - 1, m) as real, (n + m) as real)
  {
    ShufflesClosed(n, m);
    ShufflesClosed(n - 1, m);
    FactorialStep(n);
    FactorialStep(n + m);
    assert n - 1 + m == n + m - 1;
    ShufflesRatioStep(Shuffles(n, m) as real, Shuffles(n - 1, m) as real, Factorial(n - 1), Factorial(m),
                      n as real, (n + m) as real, Factorial(n + m - 1));
  }

  lemma ShufflesRatioStep(w: real, u: real, f: real, g: real, n: real, s: real, k: real)
    requires f > 0.0 && g > 0.0 && Times(w, Times(Times(n, f), g)) == Times(s, k) && Times(u, Times(f, g)) == k
    ensures Times(w, n) == Times(u, s)
  {
    var p := f * g;
    assert p > 0.0;
    assert (w * n) * p == w * ((n * f) * g) == s * (u * p) == (u * s) * p;
    CancelFactor(w * n, u * s, p);
  }

  lemma {:induction false} ShufflesSymmetric(n: nat, m: nat)
    ensures Shuffles(n, m) == Shuffles(m, n)
  {
    if n > 0 && m > 0 {
      ShufflesSymmetric(n - 1, m);
      ShufflesSymmetric(n, m - 1);
    }
  }

  /** How much the race gains when the top card is an X. */
  lemma TopCardX(a: nat, b: nat, c: nat, d: nat)
    requires a >= 1 && b >= 1 && c >= 1 && d >= 1
    ensures Times(Times((a + b - 1) as real, FullOdds(a - 1, b, c, d) - Odds(a, b, c, d)), (a + c - 1) as real)
         == Times(Density(a, b, c, d), (a + b + c + d - 1) as real)
  {
    hide Times, Quotient, Odds, Density, Scaled;
    if a > 1 {
      var e := a - 1;
      StepA(e, b, c, d);
      DensityStepA(e, b, c, d);
      assert FullOdds(e, b, c, d) - Odds(a, b, c, d) == Quotient(Density(e, b, c, d), e as real);
      assert e + b == a + b - 1 && e + c == a + c - 1 && e + b + c + d == a + b + c + d - 1;
      TopCardXStep(Density(e, b, c, d), Density(a, b, c, d), e as real, (a + b - 1) as real,
                   (a + c - 1) as real, (a + b + c + d - 1) as real);
    } else {
      TopCardFirstX(b, c, d);
    }
  }

  lemma TopCardFirstX(b: nat, c: nat, d: nat)
    requires b >= 1 && c >= 1 && d >= 1
    ensures Times(Times(b as real, 1.0 - Odds(1, b, c, d)), c as real)
        == Times(Density(1, b, c, d), (b + c + d) as real)
  {
    hide Times, Quotient, Beta, Odds, Scaled;
    Complement(1, b, c, d);
    FirstTerm(c, d, b);
    assert Density(1, b, c, d) == Quotient(Beta(1 + c, b + d), Times(Beta(1, b), Beta(c, d)));
    hide Density;
    BetaOne(b);
    BetaStep(c, b + d);
    assert d + b == b + d && 1 + c == c + 1 && c + (b + d) == b + c + d;
    TopCardXBase(Beta(c, b + d), Beta(c + 1, b + d), Beta(c, d), Beta(1, b), b as real, c as real,
                 (b + c + d) as real);
  }

  lemma TopCardXStep(h: real, h': real, a: real, n: real, u: real, s: real)
    requires h > 0.0 && h' > 0.0 && a > 0.0 && Scaled(h', h, u, n, s, a)
    ensures Times(Times(n, Quotient(h, a)), u) == Times(h', s)
  {
    var q := Quotient(h, a);
    assert ((n * q) * u) * a == (h' * s) * a by {
      calc { ((n * q) * u) * a; (q * a) * (u * n); h * (u * n); h' * (s * a); (h' * s) * a; }
    }
    CancelFactor((n * q) * u, h' * s, a);
  }

  lemma TopCardXBase(p: real, p': real, q: real, r: real, b: real, c: real, s: real)
    requires p > 0.0 && p' > 0.0 && q > 0.0 && r > 0.0 && Times(r, b) == 1.0
    requires Scaled(p', p, c, 1.0, s, 1.0)
    ensures Times(Times(b, Quotient(p, q)), c) == Times(Quotient(p', Times(r, q)), s)
  {
    var f, h := Quotient(p, q), Quotient(p', Times(r, q));
    var k := r * q;
    assert k > 0.0;
    calc { ((b * f) * c) * k; (r * b) * (f * q) * c; p * c; p' * s; (h * k) * s; (h * s) * k; }
    CancelFactor((b * f) * c, h * s, k);
  }

  /** Conditioning on the top card of the shuffled deck. */
  lemma TopCard(a: nat, b: nat, c: nat, d: nat)
    requires a >= 1 && b >= 1 && c >= 1 && d >= 1
    ensures Times((a + b + c + d - 2) as real, Odds(a, b, c, d))
         == Times((a + b - 1) as real, FullOdds(a - 1, b, c, d)) + Times((c + d - 1) as real, Odds(a, b, c - 1, d))
  {
    hide Times, Odds, Density;
    TopCardX(a, b, c, d);
    TopCardX(c, d, a, b);
    DensitySwap(a, b, c, d);
    Complement(a, b, c, d);
    assert FullOdds(c - 1, d, a, b) - Odds(c, d, a, b) == Odds(a, b, c, d) - Odds(a, b, c - 1, d) by {
      if c > 1 { Complement(a, b, c - 1, d); } else { OddsOfNone(a, b, d); }
    }
    assert c + a - 1 == a + c - 1 && c + d + a + b - 1 == a + b + c + d - 1;
    TopCardStep(FullOdds(a - 1, b, c, d), Odds(a, b, c - 1, d), Odds(a, b, c, d),
                (a + b - 1) as real, (c + d - 1) as real, (a + c - 1) as real);
    assert (a + b + c + d - 2) as real == (a + b - 1) as real + (c + d - 1) as real;
  }

  lemma OddsOfNone(a: nat, b: nat, d: nat)
    requires a >= 1 && b >= 1 && d >= 1
    ensures Odds(a, b, 0, d) == 0.0
  {
  }

  lemma TopCardStep(p: real, q: real, r: real, n: real, m: real, u: real)
    requires u > 0.0 && Times(Times(n, p - r), u) == Times(Times(m, r - q), u)
    ensures Times(n + m, r) == Times(n, p) + Times(m, q)
  {
    CancelFactor(n * (p - r), m * (r - q), u);
  }

  /** The closed sum is the exact winning fraction of the race. */
  lemma {:induction false} OddsCountTheRace(a: nat, b: nat, c: nat, d: nat)
    requires b >= 1 && d >= 1
    ensures Times(FullOdds(a, b, c, d), Shuffles(a + b - 1, c + d - 1) as real) == RaceWins(a, b, c, d) as real
    decreases a + c
  {
    if a > 0 && c > 0 {
      OddsCountTheRace(a - 1, b, c, d);
      OddsCountTheRace(a, b, c - 1, d);
      RaceRound(a, b, c, d);
    }
  }

  lemma RaceRound(a: nat, b: nat, c: nat, d: nat)
    requires a >= 1 && b >= 1 && c >= 1 && d >= 1
    requires Times(FullOdds(a - 1, b, c, d), Shuffles(a + b - 2, c + d - 1) as real) == RaceWins(a - 1, b, c, d) as real
    requires Times(FullOdds(a, b, c - 1, d), Shuffles(a + b - 1, c + d - 2) as real) == RaceWins(a, b, c - 1, d) as real
    ensures Times(FullOdds(a, b, c, d), Shuffles(a + b - 1, c + d - 1) as real) == RaceWins(a, b, c, d) as real
  {
    hide Times, Odds, Shuffles;
    TopCard(a, b, c, d);
    var n, m := a + b - 1, c + d - 1;
    ShufflesRatio(n, m);
    ShufflesRatio(m, n);
    ShufflesSymmetric(n, m - 1);
    ShufflesSymmetric(n, m);
    assert m + n == n + m == a + b + c + d - 2;
    RaceStep(FullOdds(a - 1, b, c, d), Odds(a, b, c - 1, d), Odds(a, b, c, d),
             Shuffles(n - 1, m) as real, Shuffles(n, m - 1) as real, Shuffles(n, m) as real,
             n as real, m as real);
  }

  lemma RaceStep(p: real, q: real, r: real, u: real, v: real, w: real, n: real, m: real)
    requires n + m > 0.0 && Times(n + m, r) == Times(n, p) + Times(m, q)
    requires Times(w, n) == Times(u, n + m) && Times(w, m) == Times(v, n + m)
    ensures Times(r, w) == Times(p, u) + Times(q, v)
  {
    var s := n + m;
    calc {
      (r * w) * s;
      w * (s * r);
      w * (n * p + m * q);
      (w * n) * p + (w * m) * q;
      (u * s) * p + (v * s) * q;
      (p * u + q * v) * s;
    }
    CancelFactor(r * w, p * u + q * v, s);
  }

  // ----- the engine's loop

  function Clamp(x: real, lo: real, hi: real): real
    requires lo <= hi
  {
    if x < lo then lo else if x > hi then hi else x
  }

  /** The result of the engine's comparison, its answer for degenerate parameters included. */
  function ProbBetaLt(alphaX: nat, betaX: nat, alphaY: nat, betaY: nat): (p: real)
    ensures 0.0 <= p < 1.0
    ensures p > 0.0 <==> alphaX >= 1 && betaX >= 1 && alphaY >= 1 && betaY >= 1
  {
    if alphaX == 0 || betaX == 0 || alphaY == 0 || betaY == 0 then 0.0
    else
      OddsAreProbability(alphaX, betaX, alphaY, betaY);
      Odds(alphaX, betaX, alphaY, betaY)
  }

  method ComputeProbBetaLt(alphaX: nat, betaX: nat, alphaY: nat, betaY: nat) returns (p: real)
    ensures p == ProbBetaLt(alphaX, betaX, alphaY, betaY)
  {
    if alphaX == 0 || betaX == 0 || alphaY == 0 || betaY == 0 {
      return 0.0;
    }
    var total := 0.0;
    for j := 0 to alphaY
      invariant total == Odds(alphaX, betaX, j, betaY)
    {
      total := total + Term(alphaX, betaX, betaY, j);
    }
    OddsAreProbability(alphaX, betaX, alphaY, betaY);
    p := Clamp(total, 0.0, 1.0);
  }
}
