/** Two posteriors seen by a control that gets better: the one with the larger sample can fall behind
the other but never overtake it. */
module SingleCrossing {
  import opened BetaOdds
  import opened BetaLaws
  import opened BetaCdf

  /** P(X < Y) for X the j-th smallest of m uniform numbers and Y ~ Beta(c, d), the ends included. */
  function Survival(m: nat, c: nat, d: nat, j: nat): real
    requires c >= 1 && d >= 1
  {
    if j == 0 then 1.0 else if j > m then 0.0 else Odds(j, m + 1 - j, c, d)
  }

  /** The chance that exactly j of m uniform numbers lie below Y ~ Beta(c, d). */
  function Gap(m: nat, c: nat, d: nat, j: nat): (q: real)
    requires c >= 1 && d >= 1 && j <= m
    ensures q > 0.0
  {
    Times(Choose(m, j), Quotient(Beta(c + j, d + (m - j)), Beta(c, d)))
  }

  // ----- neighbouring survival values differ by a gap

  lemma ChooseBeta(m: nat, j: nat)
    requires 1 <= j < m
    ensures Times(Times(Choose(m, j), Beta(j, m - j)), Times(j as real, (m - j) as real)) == m as real
  {
    hide Factorial, Beta, Choose;
    FactorialStep(m);
    FactorialStep(j);
    FactorialStep(m - j);
    BetaByFactorials(j, m - j);
    ChooseByFactorials(m, j);
    assert j + (m - j) - 1 == m - 1;
    ChooseBetaCore(Choose(m, j), Beta(j, m - j), Factorial(m - 1), Factorial(j - 1), Factorial(m - j - 1),
                   j as real, (m - j) as real, m as real);
  }

  lemma ChooseBetaCore(x: real, q: real, f: real, g: real, h: real, u: real, v: real, n: real)
    requires f > 0.0 && g > 0.0 && h > 0.0
    requires Times(x, Times(Times(u, g), Times(v, h))) == Times(n, f) && Times(q, f) == Times(g, h)
    ensures Times(Times(x, q), Times(u, v)) == n
  {
    var k := g * h;
    assert (x * (u * v)) * k == n * f;
    assert ((x * (u * v)) * q) * f == (x * (u * v)) * k;
    CancelFactor((x * (u * v)) * q, n, f);
  }

  lemma InnerGapCore(y: real, q: real, r: real, x: real, u: real, v: real)
    requires y > 0.0 && q > 0.0 && r > 0.0 && u > 0.0 && v > 0.0
    requires Times(Times(x, q), Times(u, v)) == u + v
    ensures var h := Quotient(y, Times(q, r)); Quotient(h, v) + Quotient(h, u) == Times(x, Quotient(y, r))
  {
    var h, w := Quotient(y, Times(q, r)), Quotient(y, r);
    assert (h * q) * r == w * r;
    CancelFactor(h * q, w, r);
    var s, t := Quotient(h, v), Quotient(h, u);
    SumOverProduct(s, t, h, u, v);
    assert Times(x, w) * (u * v) == h * (Times(Times(x, q), Times(u, v)));
    assert u * v > 0.0;
    CancelFactor(s + t, Times(x, w), u * v);
  }

  lemma SumOverProduct(s: real, t: real, h: real, u: real, v: real)
    requires s * v == h && t * u == h
    ensures (s + t) * (u * v) == h * (u + v)
  {
    assert s * (u * v) == (s * v) * u && t * (u * v) == (t * u) * v;
  }

  lemma SurvivalFalls(m: nat, c: nat, d: nat, j: nat)
    requires c >= 1 && d >= 1 && j <= m && m >= 1
    ensures Survival(m, c, d, j) - Survival(m, c, d, j + 1) == Gap(m, c, d, j)
  {
    hide Choose, Beta, Odds;
    ChooseEdges(m);
    if j == 0 {
      Complement(1, m, c, d);
      FirstTerm(c, d, m);
    } else if j == m {
      Mirror(m, 1, c, d);
      FirstTerm(d, c, m);
      BetaSymmetric(c, d);
      BetaSymmetric(c + m, d);
    } else {
      var u, v := j, m - j;
      StepB(u, v, c, d);
      StepA(u, v, c, d);
      ChooseBeta(m, u);
      assert u + c == c + u && v + d == d + v && u as real + v as real == m as real;
      InnerGapCore(Beta(u + c, v + d), Beta(u, v), Beta(c, d), Choose(m, u), u as real, v as real);
    }
  }

  // ----- the ratio of two posteriors' gaps rises, then falls

  function Up(m: nat, c: nat, j: nat): int
    requires j <= m
  {
    (m - j) * (c + j)
  }

  function Down(m: nat, d: nat, j: nat): int
    requires j < m
  {
    (j + 1) * (d + (m - j - 1))
  }

  lemma GapStep(m: nat, c: nat, d: nat, j: nat)
    requires c >= 1 && d >= 1 && j < m
    ensures Times(Gap(m, c, d, j + 1), Down(m, d, j) as real) == Times(Gap(m, c, d, j), Up(m, c, j) as real)
    ensures Down(m, d, j) > 0 && Up(m, c, j) > 0
  {
    hide Choose, Beta;
    var x, y := c + j, d + (m - j - 1);
    assert c + (j + 1) == x + 1 && d + (m - (j + 1)) == y && d + (m - j) == y + 1;
    Pascal(m, j);
    BetaStep(x, y);
    BetaStep(y, x);
    BetaSymmetric(x, y);
    BetaSymmetric(x, y + 1);
    GapStepCore(Choose(m, j + 1), Choose(m, j), Beta(x + 1, y), Beta(x, y + 1), Beta(x, y), Beta(c, d),
                (m - j) as real, (j + 1) as real, x as real, y as real);
    ProductsAsReals(m, c, d, j);
  }

  lemma ProductsAsReals(m: nat, c: nat, d: nat, j: nat)
    requires c >= 1 && d >= 1 && j < m
    ensures Down(m, d, j) as real == (j + 1) as real * (d + (m - j - 1)) as real && Down(m, d, j) > 0
    ensures Up(m, c, j) as real == (m - j) as real * (c + j) as real && Up(m, c, j) > 0
  {
    PositiveProduct(j + 1, d + (m - j - 1));
    PositiveProduct(m - j, c + j);
  }

  lemma PositiveProduct(x: int, y: int)
    requires x > 0 && y > 0
    ensures x * y > 0 && (x * y) as real == x as real * y as real
  {
  }

  lemma GapStepCore(c1: real, c0: real, p1: real, p0: real, p: real, r: real, v: real, u: real, x: real, y: real)
    requires p1 > 0.0 && p0 > 0.0 && p > 0.0 && r > 0.0 && x > 0.0 && y > 0.0
    requires Scaled(c1, c0, v, 1.0, u, 1.0)
    requires Scaled(p1, p, x, 1.0, x + y, 1.0) && Scaled(p0, p, y, 1.0, x + y, 1.0)
    ensures Times(c1, Quotient(p1, r)) * (u * y) == Times(c0, Quotient(p0, r)) * (v * x)
  {
    SwapParts(p1, p0, p, x, y);
    var g, h := Quotient(p1, r), Quotient(p0, r);
    assert (g * y) * r == (h * x) * r;
    CancelFactor(g * y, h * x, r);
    assert (c1 * g) * (u * y) == (c1 * u) * (g * y);
    assert (c0 * h) * (v * x) == (c0 * v) * (h * x);
  }

  lemma SwapParts(p1: real, p0: real, p: real, x: real, y: real)
    requires x > 0.0 && y > 0.0
    requires Scaled(p1, p, x, 1.0, x + y, 1.0) && Scaled(p0, p, y, 1.0, x + y, 1.0)
    ensures p1 * y == p0 * x
  {
    var n := x + y;
    assert p1 * n == p * x && p0 * n == p * y;
    assert (p1 * y) * n == (p1 * n) * y == (p * x) * y == (p * y) * x == (p0 * n) * x == (p0 * x) * n;
    CancelFactor(p1 * y, p0 * x, n);
  }

  /** Above zero while the ratio of the second gaps to the first ones rises, below while it falls. */
  function Slope(m: nat, c: nat, d: nat, c': nat, d': nat, j: nat): int {
    (c' - c) * (d + (m - 1 - j)) - (d' - d) * (c + j)
  }

  lemma SlopeFalls(m: nat, c: nat, d: nat, c': nat, d': nat, j: nat)
    requires c <= c' && d <= d' && c + d < c' + d'
    ensures Slope(m, c, d, c', d', j + 1) < Slope(m, c, d, c', d', j)
  {
    assert (c' - c) * (d + (m - 1 - j)) == (c' - c) * (d + (m - 1 - (j + 1))) + (c' - c);
    assert (d' - d) * (c + (j + 1)) == (d' - d) * (c + j) + (d' - d);
  }

  lemma SlopeIsRatio(m: nat, c: nat, d: nat, c': nat, d': nat, j: nat)
    requires j < m
    ensures Slope(m, c, d, c', d', j) < 0 ==> Up(m, c', j) * Down(m, d, j) < Up(m, c, j) * Down(m, d', j)
    ensures Slope(m, c, d, c', d', j) > 0 ==> Up(m, c', j) * Down(m, d, j) > Up(m, c, j) * Down(m, d', j)
  {
    var k := (m - j) * (j + 1);
    assert k > 0;
    var e := m - j - 1;
    assert Up(m, c', j) * Down(m, d, j) == k * ((c' + j) * (d + e)) by {
      FourFactors(m - j, c' + j, j + 1, d + e);
    }
    assert Up(m, c, j) * Down(m, d', j) == k * ((c + j) * (d' + e)) by {
      FourFactors(m - j, c + j, j + 1, d' + e);
    }
    assert (c' + j) * (d + e) - (c + j) * (d' + e) == Slope(m, c, d, c', d', j) by {
      CrossDifference(c' - c, d' - d, c + j, d + e);
    }
    OrderScaled(k, (c' + j) * (d + e), (c + j) * (d' + e));
  }

  lemma FourFactors(a: int, b: int, c: int, d: int)
    ensures (a * b) * (c * d) == (a * c) * (b * d)
  {
    assert (a * b) * (c * d) == a * (b * c) * d == a * (c * b) * d;
  }

  lemma CrossDifference(u: int, v: int, x: int, y: int)
    ensures (x + u) * y - x * (y + v) == u * y - v * x
  {
  }

  lemma OrderScaled(k: int, x: int, y: int)
    requires k > 0
    ensures x < y ==> k * x < k * y
    ensures x > y ==> k * x > k * y
  {
  }

  /** A smaller start and a smaller growth lead to a smaller value. */
  lemma GrowsLess(x: real, x': real, y: real, y': real, up: int, up': int, down: int, down': int)
    requires 0.0 < x' <= x && y > 0.0 && up > 0 && up' > 0 && down > 0 && down' > 0
    requires Times(y, down as real) == Times(x, up as real) && Times(y', down' as real) == Times(x', up' as real)
    requires up' * down < up * down'
    ensures y' < y
  {
    var s, s', t, t' := up as real, up' as real, down as real, down' as real;
    assert s' * t < s * t' by { assert (up' * down) as real == s' * t && (up * down') as real == s * t'; }
    GrowsLessReals(x, x', y, y', s, s', t, t');
  }

  lemma GrowsLessReals(x: real, x': real, y: real, y': real, s: real, s': real, t: real, t': real)
    requires 0.0 < x' <= x && s > 0.0 && t > 0.0 && t' > 0.0
    requires y * t == x * s && y' * t' == x' * s' && s' * t < s * t'
    ensures y' < y
  {
    var k := t * t';
    assert k > 0.0;
    assert y' * k == (y' * t') * t == x' * (s' * t);
    assert y * k == (y * t) * t' == x * (s * t');
    assert x' * (s' * t) < x' * (s * t');
    assert s * t' > 0.0 && x' * (s * t') <= x * (s * t');
    SmallerFactor(y', y, k);
  }

  lemma SmallerFactor(x: real, y: real, k: real)
    requires k > 0.0 && x * k < y * k
    ensures x < y
  {
    assert x >= y ==> (x - y) * k >= 0.0;
  }

  // ----- one crossing

  /** How much the second posterior's survival exceeds the first one's. */
  function Lead(m: nat, c: nat, d: nat, c': nat, d': nat, j: nat): real
    requires c >= 1 && d >= 1 && c' >= 1 && d' >= 1
  {
    Survival(m, c', d', j) - Survival(m, c, d, j)
  }

  lemma LeadStep(m: nat, c: nat, d: nat, c': nat, d': nat, j: nat)
    requires c >= 1 && d >= 1 && c' >= 1 && d' >= 1 && j <= m && m >= 1
    ensures Lead(m, c, d, c', d', j) - Lead(m, c, d, c', d', j + 1) == Gap(m, c', d', j) - Gap(m, c, d, j)
  {
    hide Survival, Gap;
    SurvivalFalls(m, c, d, j);
    SurvivalFalls(m, c', d', j);
  }

  lemma GapFallsBehind(m: nat, c: nat, d: nat, c': nat, d': nat, j: nat)
    requires c >= 1 && d >= 1 && c' >= 1 && d' >= 1 && j < m
    ensures Gap(m, c', d', j) <= Gap(m, c, d, j) && Slope(m, c, d, c', d', j) < 0 ==>
        Gap(m, c', d', j + 1) < Gap(m, c, d, j + 1)
    ensures Gap(m, c', d', j) >= Gap(m, c, d, j) && Slope(m, c, d, c', d', j) > 0 ==>
        Gap(m, c', d', j + 1) > Gap(m, c, d, j + 1)
  {
    hide Gap, Up, Down, Slope, Times;
    GapStep(m, c, d, j);
    GapStep(m, c', d', j);
    SlopeIsRatio(m, c, d, c', d', j);
    var x, x', y, y' := Gap(m, c, d, j), Gap(m, c', d', j), Gap(m, c, d, j + 1), Gap(m, c', d', j + 1);
    if x' <= x && Slope(m, c, d, c', d', j) < 0 {
      GrowsLess(x, x', y, y', Up(m, c, j), Up(m, c', j), Down(m, d, j), Down(m, d', j));
    }
    if x' >= x && Slope(m, c, d, c', d', j) > 0 {
      GrowsLess(x', x, y', y, Up(m, c', j), Up(m, c, j), Down(m, d', j), Down(m, d, j));
    }
  }

  /** Once the ratio falls and the gap is behind, every later lead is negative. */
  lemma {:induction false} StaysBehind(m: nat, c: nat, d: nat, c': nat, d': nat, j: nat)
    requires 1 <= c <= c' && 1 <= d <= d' && c + d < c' + d' && j <= m && m >= 1
    requires Gap(m, c', d', j) <= Gap(m, c, d, j) && Slope(m, c, d, c', d', j) < 0
    ensures Lead(m, c, d, c', d', j + 1) <= 0.0
    ensures j < m ==> Lead(m, c, d, c', d', j + 1) < 0.0
    decreases m - j
  {
    hide Gap, Slope;
    if j < m {
      hide Lead;
      GapFallsBehind(m, c, d, c', d', j);
      SlopeFalls(m, c, d, c', d', j);
      StaysBehind(m, c, d, c', d', j + 1);
      LeadStep(m, c, d, c', d', j + 1);
    }
  }

  /** While the ratio rises, a gap that is ahead stays ahead. */
  lemma {:induction false} StaysAhead(m: nat, c: nat, d: nat, c': nat, d': nat, j: nat, n: nat)
    requires 1 <= c <= c' && 1 <= d <= d' && c + d < c' + d' && j < n <= m
    requires Gap(m, c', d', j) >= Gap(m, c, d, j) && Slope(m, c, d, c', d', n - 1) > 0
    ensures Gap(m, c', d', n) > Gap(m, c, d, n)
    decreases n
  {
    hide Gap, Slope;
    if j < n - 1 {
      SlopeFalls(m, c, d, c', d', n - 2);
      StaysAhead(m, c, d, c', d', j, n - 1);
    }
    GapFallsBehind(m, c, d, c', d', n - 1);
  }

  /** Before a gap that is behind while the ratio still rises, every lead is positive. */
  lemma {:induction false} LeadsBefore(m: nat, c: nat, d: nat, c': nat, d': nat, j: nat, n: nat)
    requires 1 <= c <= c' && 1 <= d <= d' && c + d < c' + d' && j <= n <= m && 1 <= n
    requires Gap(m, c', d', n) <= Gap(m, c, d, n) && Slope(m, c, d, c', d', n - 1) > 0
    ensures Lead(m, c, d, c', d', j) >= 0.0 && (j > 0 ==> Lead(m, c, d, c', d', j) > 0.0)
    decreases j
  {
    hide Gap, Slope;
    if j > 0 {
      hide Lead;
      LeadsBefore(m, c, d, c', d', j - 1, n);
      if Gap(m, c', d', j - 1) >= Gap(m, c, d, j - 1) {
        StaysAhead(m, c, d, c', d', j - 1, n);
      }
      LeadStep(m, c, d, c', d', j - 1);
    }
  }

  /** The posterior with more of both counts, once not ahead, is behind after control's next step. */
  lemma CrossesOnce(m: nat, c: nat, d: nat, c': nat, d': nat, n: nat)
    requires 1 <= c <= c' && 1 <= d <= d' && c + d < c' + d' && 1 <= n < m
    requires Lead(m, c, d, c', d', n) <= 0.0
    ensures Lead(m, c, d, c', d', n + 1) < 0.0
  {
    hide Gap, Slope, Lead;
    LeadStep(m, c, d, c', d', n);
    if Gap(m, c', d', n) <= Gap(m, c, d, n) {
      if Slope(m, c, d, c', d', n - 1) > 0 {
        LeadsBefore(m, c, d, c', d', n, n);
      } else {
        SlopeFalls(m, c, d, c', d', n - 1);
        StaysBehind(m, c, d, c', d', n);
      }
    }
  }

  lemma {:induction false} MoreConversionsWin(a: nat, b: nat, c: nat, d: nat, c': nat, d': nat)
    requires a >= 1 && b >= 1 && 1 <= c <= c' && d >= d' >= 1
    ensures Odds(a, b, c, d) <= Odds(a, b, c', d')
    ensures c < c' || d > d' ==> Odds(a, b, c, d) < Odds(a, b, c', d')
    decreases c' - c + d - d'
  {
    hide Odds, Density;
    if c < c' {
      StepC(a, b, c, d);
      MoreConversionsWin(a, b, c + 1, d, c', d');
    } else if d > d' {
      StepD(a, b, c, d - 1);
      MoreConversionsWin(a, b, c, d - 1, c', d');
    }
  }

  /** Of two variants, the one with the larger sample never overtakes the other because control turned
      a non-conversion into a conversion. */
  lemma LargerSampleNeverOvertakes(a: nat, b: nat, c: nat, d: nat, c': nat, d': nat)
    requires a >= 1 && b >= 2 && c >= 1 && d >= 1 && c' >= 1 && d' >= 1 && c + d < c' + d'
    requires Odds(a, b, c', d') <= Odds(a, b, c, d)
    ensures Odds(a + 1, b - 1, c', d') < Odds(a + 1, b - 1, c, d)
  {
    hide Odds;
    if c <= c' && d <= d' {
      CrossesOnce(a + b - 1, c, d, c', d', a);
    } else if c' < c {
      MoreConversionsWin(a + 1, b - 1, c', d', c, d);
    } else {
      MoreConversionsWin(a, b, c, d, c', d');
    }
  }
}
