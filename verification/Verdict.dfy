/** The engine's report on an experiment and its recommendation. */
module Verdict {
  import opened Options
  import opened BetaOdds
  import opened BetaLaws
  import opened CredibleInterval
  import opened SingleCrossing

  const PRIOR_ALPHA: nat := 1
  const PRIOR_BETA: nat := 1

  datatype VariantStats = VariantStats(variantId: nat, impressions: nat, conversions: nat)

  datatype EngineConfig = EngineConfig(
    confidenceThreshold: real, minSample: nat, noWinnerProb: real, maxDurationMs: int)

  datatype Recommendation = Continue | Promote(variantId: nat, confidence: real) | NoWinner

  datatype VariantReport = VariantReport(
    variantId: nat, isControl: bool, impressions: nat, conversions: nat,
    conversionRate: real, posteriorMean: real, interval: Bracket, prob: Option<real>)

  datatype ExperimentReport = ExperimentReport(
    variants: seq<VariantReport>, recommendation: Recommendation, nLooks: nat, adjusted: real, elapsedMs: int)

  /** The unsigned subtraction in the engine stays in range: at most one conversion more than there
      are impressions. */
  predicate InRange(v: VariantStats) {
    v.conversions <= PRIOR_BETA + v.impressions
  }

  /** P(variant beats control) under the two posteriors. */
  function ProbBeats(control: VariantStats, v: VariantStats): (p: real)
    requires InRange(control) && InRange(v)
    ensures 0.0 <= p < 1.0
    ensures p > 0.0 <==> control.conversions <= control.impressions && v.conversions <= v.impressions
  {
    ProbBetaLt(PRIOR_ALPHA + control.conversions, PRIOR_BETA + control.impressions - control.conversions,
               PRIOR_ALPHA + v.conversions, PRIOR_BETA + v.impressions - v.conversions)
  }

  function BuildReport(v: VariantStats, isControl: bool): VariantReport {
    var alpha := PRIOR_ALPHA + v.conversions;
    var beta := PRIOR_BETA + if v.impressions <= v.conversions then 0 else v.impressions - v.conversions;
    VariantReport(v.variantId, isControl, v.impressions, v.conversions,
                  if v.impressions == 0 then 0.0 else v.conversions as real / v.impressions as real,
                  alpha as real / (alpha + beta) as real,
                  Interval(alpha, beta, 0.95), None)
  }

  function Total(variants: seq<VariantStats>): nat {
    if variants == [] then 0 else Total(variants[..|variants| - 1]) + variants[|variants| - 1].impressions
  }

  function Looks(total: nat, minSample: nat): (n: nat)
    ensures n >= 1
  {
    var n := if minSample == 0 then 1 else total / minSample;
    if n < 1 then 1 else n
  }

  /** The confidence threshold after the correction for repeated looks. */
  function Adjusted(threshold: real, looks: nat): real
    requires looks >= 1
  {
    1.0 - (1.0 - threshold) / looks as real
  }

  function Below(x: Option<real>, y: Option<real>): bool {
    y.Some? && (x.None? || x.value < y.value)
  }

  /** The last of the largest probabilities among the non-control reports. */
  function Best(reports: seq<VariantReport>): Option<VariantReport> {
    if reports == [] then None
    else
      var rest, r := Best(reports[..|reports| - 1]), reports[|reports| - 1];
      if r.isControl then rest
      else if rest.Some? && Below(r.prob, rest.value.prob) then rest
      else Some(r)
  }

  predicate TooFewSamples(best: VariantReport, controlImpressions: nat, config: EngineConfig) {
    config.minSample > 0 && best.impressions < config.minSample && controlImpressions < config.minSample
  }

  function Decide(reports: seq<VariantReport>, controlImpressions: nat, config: EngineConfig,
                  adjusted: real, elapsedMs: int): Recommendation
  {
    match Best(reports)
    case None => Continue
    case Some(best) =>
      var prob := if best.prob.Some? then best.prob.value else 0.0;
      if TooFewSamples(best, controlImpressions, config) then
        if elapsedMs > config.maxDurationMs then NoWinner else Continue
      else if prob >= adjusted then Promote(best.variantId, prob)
      else if elapsedMs > config.maxDurationMs then NoWinner
      else if prob < config.noWinnerProb then NoWinner
      else Continue
  }

  function VariantReportOf(control: VariantStats, v: VariantStats): VariantReport
    requires InRange(control) && InRange(v)
  {
    BuildReport(v, false).(prob := Some(ProbBeats(control, v)))
  }

  /** No unsigned subtraction of an analysis leaves its range; without variants there is none. */
  ghost predicate Computable(control: VariantStats, variants: seq<VariantStats>) {
    variants == [] || (InRange(control) && forall v :: v in variants ==> InRange(v))
  }

  function Reports(control: VariantStats, variants: seq<VariantStats>): seq<VariantReport>
    requires Computable(control, variants)
  {
    if variants == [] then [BuildReport(control, true)]
    else Reports(control, variants[..|variants| - 1]) + [VariantReportOf(control, variants[|variants| - 1])]
  }

  function Analyze(control: VariantStats, variants: seq<VariantStats>, config: EngineConfig,
      elapsedMs: int): ExperimentReport
    requires Computable(control, variants)
  {
    var looks := Looks(Total(variants) + control.impressions, config.minSample);
    var adjusted := Adjusted(config.confidenceThreshold, looks);
    var reports := Reports(control, variants);
    ExperimentReport(reports, Decide(reports, control.impressions, config, adjusted, elapsedMs), looks, adjusted,
        elapsedMs)
  }

  method ComputeBuildReport(v: VariantStats, isControl: bool) returns (r: VariantReport)
    ensures r == BuildReport(v, isControl)
  {
    var alpha := PRIOR_ALPHA + v.conversions;
    var beta := PRIOR_BETA + if v.impressions <= v.conversions then 0 else v.impressions - v.conversions;
    var interval := ComputeInterval(alpha, beta, 0.95);
    r := VariantReport(v.variantId, isControl, v.impressions, v.conversions,
                       if v.impressions == 0 then 0.0 else v.conversions as real / v.impressions as real,
                       alpha as real / (alpha + beta) as real, interval, None);
  }

  lemma BeforeFirst(control: VariantStats)
    ensures Total([]) == 0 && Reports(control, []) == [BuildReport(control, true)]
  {
  }

  lemma TotalNext(variants: seq<VariantStats>, i: nat)
    requires i < |variants|
    ensures Total(variants[..i + 1]) == Total(variants[..i]) + variants[i].impressions
  {
    assert variants[..i + 1][..i] == variants[..i];
  }

  lemma ReportsNext(control: VariantStats, variants: seq<VariantStats>, i: nat)
    requires i < |variants| && Computable(control, variants[..i]) && InRange(control) && InRange(variants[i])
    ensures Computable(control, variants[..i + 1])
    ensures Reports(control, variants[..i + 1])
         == Reports(control, variants[..i]) + [VariantReportOf(control, variants[i])]
  {
    assert variants[..i + 1] == variants[..i] + [variants[i]];
    assert variants[..i + 1][..i] == variants[..i];
  }

  /** None stands for the stop of a build with overflow checks. */
  method ComputeAnalyze(control: VariantStats, variants: seq<VariantStats>, config: EngineConfig, elapsedMs: int)
    returns (report: Option<ExperimentReport>)
    ensures report == if Computable(control, variants) then Some(Analyze(control, variants, config, elapsedMs))
                      else None
  {
    hide Adjusted, Looks, Decide, BuildReport, Total, Reports, ProbBetaLt, Interval;
    BeforeFirst(control);
    assert variants[..0] == [];
    var total := 0;
    for i := 0 to |variants|
      invariant total == Total(variants[..i])
    {
      TotalNext(variants, i);
      total := total + variants[i].impressions;
    }
    assert variants[..|variants|] == variants;
    var looks := Looks(total + control.impressions, config.minSample);
    var adjusted := Adjusted(config.confidenceThreshold, looks);
    var first := ComputeBuildReport(control, true);
    var reports := [first];
    for i := 0 to |variants|
      invariant Computable(control, variants[..i]) && reports == Reports(control, variants[..i])
    {
      var v := variants[i];
      if !InRange(control) || !InRange(v) {
        return None;
      }
      var rep := ComputeBuildReport(v, false);
      var prob := ComputeProbBetaLt(PRIOR_ALPHA + control.conversions,
          PRIOR_BETA + control.impressions - control.conversions,
                                    PRIOR_ALPHA + v.conversions, PRIOR_BETA + v.impressions - v.conversions);
      ReportsNext(control, variants, i);
      reports := reports + [rep.(prob := Some(prob))];
    }
    report := Some(ExperimentReport(reports, Decide(reports, control.impressions, config, adjusted, elapsedMs), looks,
        adjusted, elapsedMs));
  }

  // ----- what the verdict says

  function Probs(control: VariantStats, variants: seq<VariantStats>): (ps: seq<real>)
    requires InRange(control) && forall v :: v in variants ==> InRange(v)
    ensures |ps| == |variants|
  {
    seq(|variants|, i requires 0 <= i < |variants| => ProbBeats(control, variants[i]))
  }

  /** i is the index of the last of the largest values: the variant the engine picks. */
  ghost predicate IsBest(ps: seq<real>, i: nat) {
    && i < |ps|
    && (forall j :: 0 <= j < |ps| ==> ps[j] <= ps[i])
    && (forall j :: i < j < |ps| ==> ps[j] < ps[i])
  }

  lemma {:induction false} BestExists(ps: seq<real>) returns (i: nat)
    requires ps != []
    ensures IsBest(ps, i)
  {
    var n := |ps| - 1;
    if n == 0 {
      i := 0;
    } else {
      i := BestExists(ps[..n]);
      assert forall j :: 0 <= j < n ==> ps[..n][j] == ps[j];
      if ps[n] >= ps[i] { i := n; }
    }
  }

  /** The fold over the reports finds it. */
  lemma {:induction false} BestFound(reports: seq<VariantReport>, ps: seq<real>, i: nat)
    requires |reports| == |ps| + 1 && reports[0].isControl
    requires forall j :: 1 <= j <= |ps| ==> !reports[j].isControl && reports[j].prob == Some(ps[j - 1])
    requires IsBest(ps, i)
    ensures Best(reports) == Some(reports[i + 1])
  {
    var n := |ps| - 1;
    var rest := reports[..n + 1];
    assert rest == reports[..|reports| - 1];
    if n == 0 {
      assert Best(rest[..0]) == None;
      assert Best(rest) == None;
    } else {
      var k := BestExists(ps[..n]);
      BestFound(rest, ps[..n], k);
      assert ps[k] <= ps[i] && k < n;
      if i < n {
        assert ps[..n][i] == ps[i] && ps[..n][k] == ps[k];
        assert k == i;
      }
    }
  }

  lemma {:induction false} ReportsAt(control: VariantStats, variants: seq<VariantStats>)
    requires InRange(control) && forall v :: v in variants ==> InRange(v)
    ensures var r := Reports(control, variants);
            && |r| == |variants| + 1 && r[0].isControl
            && forall j :: 1 <= j <= |variants| ==>
                 && !r[j].isControl && r[j].variantId == variants[j - 1].variantId
                 && r[j].impressions == variants[j - 1].impressions
                 && r[j].prob == Some(ProbBeats(control, variants[j - 1]))
  {
    if variants != [] {
      ReportsAt(control, variants[..|variants| - 1]);
    }
  }

  function Threshold(control: VariantStats, variants: seq<VariantStats>, config: EngineConfig): real {
    Adjusted(config.confidenceThreshold, Looks(Total(variants) + control.impressions, config.minSample))
  }

  lemma DecisionParts(control: VariantStats, variants: seq<VariantStats>, config: EngineConfig, elapsedMs: int, i: nat)
    requires InRange(control) && forall v :: v in variants ==> InRange(v)
    requires IsBest(Probs(control, variants), i)
    ensures var r, v, p := Analyze(control, variants, config, elapsedMs).recommendation, variants[i],
        Probs(control, variants)[i];
            var sampled := Sampled(control, v, config);
            && (r.Promote? <==> sampled && p >= Threshold(control, variants, config))
            && (r.Promote? ==> r == Promote(v.variantId, p))
            && (r.NoWinner? <==>
                  !r.Promote? && (elapsedMs > config.maxDurationMs || (sampled && p < config.noWinnerProb)))
  {
    hide Reports, Best, BuildReport, ProbBeats, Adjusted, Looks, Total;
    ReportsAt(control, variants);
    BestFound(Reports(control, variants), Probs(control, variants), i);
  }

  /** Exactly when, and with what, the engine promotes, in terms of its report: the best variant must reach
      the reported threshold, and it or control must have the minimum sample.  And exactly when it gives up. */
  lemma PromotesIff(control: VariantStats, variants: seq<VariantStats>, config: EngineConfig, elapsedMs: int, i: nat)
    requires InRange(control) && forall v :: v in variants ==> InRange(v)
    requires IsBest(Probs(control, variants), i)
    ensures var report, v := Analyze(control, variants, config, elapsedMs), variants[i];
            var r, p := report.recommendation, Probs(control, variants)[i];
            var sampled := v.impressions >= config.minSample || control.impressions >= config.minSample;
            && |report.variants| == |variants| + 1 && report.variants[i + 1].prob == Some(p)
            && (r.Promote? <==> sampled && p >= report.adjusted)
            && (r.Promote? ==> r == Promote(v.variantId, p))
            && (r.NoWinner? <==>
                  !r.Promote? && (elapsedMs > config.maxDurationMs || (sampled && p < config.noWinnerProb)))
  {
    hide Reports, Best, BuildReport, ProbBeats, Adjusted, Looks, Total, Decide;
    ReportsAt(control, variants);
    DecisionParts(control, variants, config, elapsedMs, i);
  }

  /** More looks only tighten the threshold, and it never leaves [threshold, 1]. */
  lemma CorrectionTightens(threshold: real, looks: nat, more: nat)
    requires threshold <= 1.0 && 1 <= looks <= more
    ensures threshold <= Adjusted(threshold, looks) <= Adjusted(threshold, more) <= 1.0
  {
    QuotientFalls(1.0 - threshold, looks as real, more as real);
  }

  lemma QuotientFalls(g: real, n: real, m: real)
    requires 0.0 <= g && 1.0 <= n <= m
    ensures 0.0 <= g / m <= g / n <= g
  {
    var q, r := g / n, g / m;
    assert q * n == g && r * m == g;
    DivideOrder(0.0, q, n);
    DivideOrder(0.0, r, m);
    assert r * (m - n) >= 0.0;
    DivideOrder(r, q, n);
    assert g * (n - 1.0) >= 0.0;
    DivideOrder(q, g, n);
  }

  lemma DivideOrder(x: real, y: real, k: real)
    requires k > 0.0 && x * k <= y * k
    ensures x <= y
  {
    assert y < x ==> (x - y) * k > 0.0;
  }

  // ----- one more conversion

  lemma ProbBeatsIsOdds(control: VariantStats, v: VariantStats)
    requires control.conversions <= control.impressions && v.conversions <= v.impressions
    ensures ProbBeats(control, v)
         == Odds(PRIOR_ALPHA + control.conversions, PRIOR_BETA + control.impressions - control.conversions,
                 PRIOR_ALPHA + v.conversions, PRIOR_BETA + v.impressions - v.conversions)
  {
    hide Odds;
    OddsAreProbability(PRIOR_ALPHA + control.conversions, PRIOR_BETA + control.impressions - control.conversions,
                       PRIOR_ALPHA + v.conversions, PRIOR_BETA + v.impressions - v.conversions);
  }

  lemma ConversionMovesProb(control: VariantStats, v: VariantStats)
    requires control.conversions <= control.impressions && v.conversions <= v.impressions
    ensures v.conversions < v.impressions ==>
              ProbBeats(control, v.(conversions := v.conversions + 1)) > ProbBeats(control, v)
    ensures control.conversions < control.impressions ==>
              ProbBeats(control.(conversions := control.conversions + 1), v) < ProbBeats(control, v)
  {
    hide Odds, ProbBeats;
    ConversionMovesOdds(PRIOR_ALPHA + control.conversions, PRIOR_BETA + control.impressions - control.conversions,
                        PRIOR_ALPHA + v.conversions, PRIOR_BETA + v.impressions - v.conversions);
    ProbBeatsIsOdds(control, v);
    if v.conversions < v.impressions {
      ProbBeatsIsOdds(control, v.(conversions := v.conversions + 1));
    }
    if control.conversions < control.impressions {
      ProbBeatsIsOdds(control.(conversions := control.conversions + 1), v);
    }
  }

  lemma {:induction false} TotalUpdate(variants: seq<VariantStats>, i: nat, v: VariantStats)
    requires i < |variants| && v.impressions == variants[i].impressions
    ensures Total(variants[i := v]) == Total(variants)
  {
    var n := |variants| - 1;
    if i == n {
      assert variants[i := v][..n] == variants[..n];
    } else {
      assert variants[i := v][..n] == variants[..n][i := v];
      TotalUpdate(variants[..n], i, v);
    }
  }

  /** A promotion survives one more conversion of the promoted variant, at equal impressions, exactly
      when that conversion is one of its impressions: for any number of variants, and with strictly
      more confidence (under a positive threshold, which a probability of 0 misses).  The other case is
      reachable, because a conversion is recorded without asking for an impression; it drops the
      variant's probability to 0. */
  lemma PromotionSurvivesConversion(control: VariantStats, variants: seq<VariantStats>, config: EngineConfig,
                                    elapsedMs: int, i: nat)
    requires control.conversions <= control.impressions
    requires forall v :: v in variants ==> v.conversions <= v.impressions
    requires IsBest(Probs(control, variants), i)
    requires Analyze(control, variants, config, elapsedMs).recommendation.Promote?
    requires forall j, k :: 0 <= j < k < |variants| ==> variants[j].variantId != variants[k].variantId
    ensures var v' := variants[i].(conversions := variants[i].conversions + 1);
            var r := Analyze(control, variants, config, elapsedMs).recommendation;
            var r' := Analyze(control, variants[i := v'], config, elapsedMs).recommendation;
            if variants[i].conversions < variants[i].impressions
            then r' == Promote(r.variantId, ProbBeats(control, v')) && r'.confidence > r.confidence
            else config.confidenceThreshold > 0.0 ==> !(r'.Promote? && r'.variantId == r.variantId)
  {
    hide Analyze, ProbBeats;
    var v := variants[i];
    var v' := v.(conversions := v.conversions + 1);
    var variants' := variants[i := v'];
    var ps, ps' := Probs(control, variants), Probs(control, variants');
    DecisionParts(control, variants, config, elapsedMs, i);
    assert ps' == ps[i := ProbBeats(control, v')];
    if v.conversions < v.impressions {
      ThresholdKept(control, variants, config, i, v');
      hide Probs, Threshold;
      ConversionMovesProb(control, v);
      assert IsBest(ps', i);
      DecisionParts(control, variants', config, elapsedMs, i);
    } else if config.confidenceThreshold > 0.0 {
      ThresholdPositive(control, variants', config);
      var k := BestExists(ps');
      DecisionParts(control, variants', config, elapsedMs, k);
      assert k != i ==> variants'[k] == variants[k];
    }
  }

  lemma ThresholdKept(control: VariantStats, variants: seq<VariantStats>, config: EngineConfig, i: nat, v: VariantStats)
    requires i < |variants| && v.impressions == variants[i].impressions
    ensures Threshold(control, variants[i := v], config) == Threshold(control, variants, config)
  {
    TotalUpdate(variants, i, v);
  }

  lemma ThresholdPositive(control: VariantStats, variants: seq<VariantStats>, config: EngineConfig)
    requires config.confidenceThreshold > 0.0
    ensures Threshold(control, variants, config) > 0.0
  {
    if config.confidenceThreshold <= 1.0 {
      ThresholdHolds(control, variants, config);
    }
  }

  /** The corrected threshold is never below the configured one. */
  lemma ThresholdHolds(control: VariantStats, variants: seq<VariantStats>, config: EngineConfig)
    requires config.confidenceThreshold <= 1.0
    ensures config.confidenceThreshold <= Threshold(control, variants, config) <= 1.0
  {
    var looks := Looks(Total(variants) + control.impressions, config.minSample);
    CorrectionTightens(config.confidenceThreshold, 1, looks);
  }

  /** What both arms of the sample gate leave: the variant or control has the minimum sample. */
  predicate Sampled(control: VariantStats, v: VariantStats, config: EngineConfig) {
    config.minSample == 0 || v.impressions >= config.minSample || control.impressions >= config.minSample
  }

  /** A variant below the minimum sample that leads one above it keeps leading when control converts. */
  lemma SmallSampleKeepsLead(control: VariantStats, v: VariantStats, w: VariantStats)
    requires control.conversions < control.impressions
    requires v.conversions <= v.impressions && w.conversions <= w.impressions && v.impressions < w.impressions
    requires ProbBeats(control, w) <= ProbBeats(control, v)
    ensures var control' := control.(conversions := control.conversions + 1);
            ProbBeats(control', w) < ProbBeats(control', v)
  {
    hide Odds, ProbBeats;
    ProbBeatsIsOdds(control, v);
    ProbBeatsIsOdds(control, w);
    LargerSampleNeverOvertakes(PRIOR_ALPHA + control.conversions,
        PRIOR_BETA + control.impressions - control.conversions,
                               PRIOR_ALPHA + v.conversions, PRIOR_BETA + v.impressions - v.conversions,
                               PRIOR_ALPHA + w.conversions, PRIOR_BETA + w.impressions - w.conversions);
    ProbBeatsIsOdds(control.(conversions := control.conversions + 1), v);
    ProbBeatsIsOdds(control.(conversions := control.conversions + 1), w);
  }

  lemma NothingToPromote(control: VariantStats, config: EngineConfig, elapsedMs: int)
    ensures Analyze(control, [], config, elapsedMs).recommendation == Continue
  {
    assert Best(Reports(control, [])[..0]) == None;
  }

  lemma SameThreshold(control: VariantStats, variants: seq<VariantStats>, config: EngineConfig)
    ensures Threshold(control.(conversions := control.conversions + 1), variants, config)
         == Threshold(control, variants, config)
  {
  }

  /** One more conversion of control at equal impressions never creates a promotion, for any number of
      variants: not even through the sample gate, which looks only at the best variant and at control. */
  lemma ControlConversionNeverPromotes(control: VariantStats, variants: seq<VariantStats>, config: EngineConfig,
      elapsedMs: int)
    requires control.conversions < control.impressions
    requires forall v :: v in variants ==> v.conversions <= v.impressions
    ensures var control' := control.(conversions := control.conversions + 1);
            Analyze(control', variants, config, elapsedMs).recommendation.Promote? ==>
              Analyze(control, variants, config, elapsedMs).recommendation.Promote?
  {
    hide Analyze, ProbBeats, Threshold;
    var control' := control.(conversions := control.conversions + 1);
    if variants == [] {
      NothingToPromote(control', config, elapsedMs);
    } else {
      var i := BestExists(Probs(control, variants));
      var k := BestExists(Probs(control', variants));
      DecisionParts(control, variants, config, elapsedMs, i);
      DecisionParts(control', variants, config, elapsedMs, k);
      ConversionMovesProb(control, variants[k]);
      assert Probs(control', variants)[k] < Probs(control, variants)[k] <= Probs(control, variants)[i];
      assert Probs(control', variants)[i] <= Probs(control', variants)[k];
      SameThreshold(control, variants, config);
      if Sampled(control', variants[k], config) && !Sampled(control, variants[i], config) {
        SmallSampleKeepsLead(control, variants[i], variants[k]);
      }
    }
  }
}
