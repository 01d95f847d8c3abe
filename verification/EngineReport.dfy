/** What a report says, field by field, in terms of the counts it was made from. */
module EngineReport {
  import opened Options
  import opened BetaOdds
  import opened BetaLaws
  import opened BetaCdf
  import opened CredibleInterval
  import opened Verdict

  function AllImpressions(stats: seq<VariantStats>): nat {
    if stats == [] then 0 else stats[0].impressions + AllImpressions(stats[1..])
  }

  lemma {:induction false} ImpressionsSnoc(stats: seq<VariantStats>, last: VariantStats)
    ensures AllImpressions(stats + [last]) == AllImpressions(stats) + last.impressions
  {
    if stats == [] {
      assert ([] + [last])[1..] == [];
    } else {
      ImpressionsSnoc(stats[1..], last);
      assert (stats + [last])[1..] == stats[1..] + [last];
    }
  }

  lemma {:induction false} TotalIsAll(control: VariantStats, variants: seq<VariantStats>)
    ensures Total(variants) + control.impressions == AllImpressions([control] + variants)
  {
    if variants == [] {
      assert [control] + [] == [] + [control];
      ImpressionsSnoc([], control);
    } else {
      var front, last := variants[..|variants| - 1], variants[|variants| - 1];
      TotalIsAll(control, front);
      ImpressionsSnoc([control] + front, last);
      assert [control] + variants == [control] + front + [last];
    }
  }

  /** The looks are the full minimum samples among all observations, control's included, but at least one; the
      remaining doubt that the threshold allows is shared out evenly among them. */
  lemma LooksAreShared(control: VariantStats, variants: seq<VariantStats>, config: EngineConfig, elapsedMs: int)
    requires Computable(control, variants)
    ensures var r, s := Analyze(control, variants, config, elapsedMs), AllImpressions([control] + variants);
            var n, m := r.nLooks, config.minSample;
            && n >= 1 && r.elapsedMs == elapsedMs
            && (m == 0 ==> n == 1)
            && (m > 0 ==> s < (n + 1) * m && (n == 1 || n * m <= s))
            && n as real * (1.0 - r.adjusted) == 1.0 - config.confidenceThreshold
  {
    hide Reports, Decide, Looks, Adjusted, Total;
    TotalIsAll(control, variants);
    var s := Total(variants) + control.impressions;
    LooksDivide(s, config.minSample);
    AdjustedShares(config.confidenceThreshold, Looks(s, config.minSample));
  }

  lemma LooksDivide(s: nat, m: nat)
    ensures var n := Looks(s, m);
            && (m == 0 ==> n == 1) && (m > 0 ==> s < (n + 1) * m && (n == 1 || n * m <= s))
  {
    if m > 0 {
      var q := s / m;
      assert q * m <= s < (q + 1) * m;
      if q == 0 { assert (1 + 1) * m >= m; }
    }
  }

  lemma AdjustedShares(threshold: real, looks: nat)
    requires looks >= 1
    ensures looks as real * (1.0 - Adjusted(threshold, looks)) == 1.0 - threshold
  {
    var n := looks as real;
    assert (1.0 - threshold) / n * n == 1.0 - threshold;
  }

  /** The posterior's second parameter. */
  function Misses(v: VariantStats): nat {
    if v.conversions < v.impressions then v.impressions - v.conversions else 0
  }

  /** One entry of a report: the counts, the rate, the mean of the posterior under a uniform prior, and its
      equal-tailed 95% interval up to 2^-61 at either end. */
  ghost predicate Describes(r: VariantReport, v: VariantStats) {
    var a, b, e := v.conversions + 1, Misses(v) + 1, Power(0.5, 61);
    && r.variantId == v.variantId && r.impressions == v.impressions && r.conversions == v.conversions
    && (v.impressions == 0 ==> r.conversionRate == 0.0)
    && (v.impressions > 0 ==> r.conversionRate * v.impressions as real == v.conversions as real)
    && r.posteriorMean * (a + b) as real == a as real
    && 0.0 < r.interval.lo <= r.interval.hi < 1.0
    && Cdf(r.interval.lo - e, a, b) < 0.025 <= Cdf(r.interval.lo + e, a, b)
    && Cdf(r.interval.hi - e, a, b) < 0.975 <= Cdf(r.interval.hi + e, a, b)
  }

  lemma EntryDescribes(v: VariantStats, isControl: bool)
    ensures var r := BuildReport(v, isControl); Describes(r, v) && r.isControl == isControl && r.prob == None
  {
    hide Interval, Cdf, Power;
    var a, b := v.conversions + 1, Misses(v) + 1;
    IntervalCovers(a, b, 0.95);
    Share(a as real, (a + b) as real);
    if v.impressions > 0 { Share(v.conversions as real, v.impressions as real); }
  }

  lemma Share(x: real, y: real)
    requires y > 0.0
    ensures x / y * y == x
  {
  }

  /** The chance that the challenger is better, as the fraction of card shuffles that it wins; 0 when one of
      the two converted once more than it was shown. */
  ghost predicate Compares(p: real, control: VariantStats, v: VariantStats) {
    if control.conversions > control.impressions || v.conversions > v.impressions then p == 0.0
    else
      Times(p, Shuffles(control.impressions + 1, v.impressions + 1) as real)
      == RaceWins(control.conversions + 1, control.impressions - control.conversions + 1,
                  v.conversions + 1, v.impressions - v.conversions + 1) as real
  }

  lemma ProbCompares(control: VariantStats, v: VariantStats)
    requires InRange(control) && InRange(v)
    ensures Compares(ProbBeats(control, v), control, v)
  {
    hide Times, Shuffles, RaceWins, Odds;
    if control.conversions <= control.impressions && v.conversions <= v.impressions {
      ProbBeatsIsOdds(control, v);
      OddsCountTheRace(control.conversions + 1, control.impressions - control.conversions + 1,
                       v.conversions + 1, v.impressions - v.conversions + 1);
    }
  }

  lemma {:induction false} ReportsDescribe(control: VariantStats, variants: seq<VariantStats>, k: nat)
    requires Computable(control, variants) && k <= |variants|
    ensures var rs, v := Reports(control, variants), ([control] + variants)[k];
            && |rs| == |variants| + 1 && Describes(rs[k], v) && rs[k].isControl == (k == 0)
            && (k == 0 ==> rs[k].prob == None)
            && (k > 0 ==> rs[k].prob.Some? && Compares(rs[k].prob.value, control, v))
  {
    hide Describes, BuildReport, ProbBeats, Compares;
    if variants == [] {
      EntryDescribes(control, true);
    } else {
      var n := |variants| - 1;
      if k <= n {
        ReportsDescribe(control, variants[..n], k);
      } else {
        ReportsDescribe(control, variants[..n], 0);
        EntryDescribes(variants[n], false);
        ProbKept(BuildReport(variants[n], false), variants[n], ProbBeats(control, variants[n]));
        ProbCompares(control, variants[n]);
      }
    }
  }

  lemma ProbKept(r: VariantReport, v: VariantStats, p: real)
    requires Describes(r, v)
    ensures Describes(r.(prob := Some(p)), v)
  {
    hide Cdf, Power;
  }

  /** The report lists control and then every variant, each with its own numbers and its chance against
      control. */
  lemma EveryEntryDescribed(control: VariantStats, variants: seq<VariantStats>, config: EngineConfig, elapsedMs: int,
                            k: nat)
    requires Computable(control, variants) && k <= |variants|
    ensures var rs, v := Analyze(control, variants, config, elapsedMs).variants, ([control] + variants)[k];
            && |rs| == |variants| + 1 && Describes(rs[k], v) && rs[k].isControl == (k == 0)
            && (k == 0 ==> rs[k].prob == None)
            && (k > 0 ==> rs[k].prob.Some? && Compares(rs[k].prob.value, control, v))
  {
    hide Describes, Compares, Reports, Decide, Looks, Adjusted, Total;
    ReportsDescribe(control, variants, k);
  }
}
