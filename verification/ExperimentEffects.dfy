/** What each step of the experiment protocol does when it takes effect, table by table and field by field. */
module ExperimentEffects {
  import opened Options
  import opened EngineReport
  import opened Verdict
  import opened Experiments
  import opened ExperimentProtocol

  /** The same tables, but for one experiment. */
  ghost predicate OnlyExperiment(t: Tables, t': Tables, e: nat) {
    && t'.experiments.Keys == t.experiments.Keys + {e}
    && (forall x :: x in t.experiments && x != e ==> t'.experiments[x] == t.experiments[x])
    && t'.decisions == t.decisions && t'.pointers == t.pointers && t'.events == t.events
  }

  /** What creation fixed stays. */
  ghost predicate SameSetup(exp: Experiment, exp': Experiment) {
    && exp'.blockId == exp.blockId && exp'.variants == exp.variants
    && exp'.trafficWeight == exp.trafficWeight && exp'.config == exp.config
  }

  /** What is created: a draft with a control that shows what its block shows, and challengers behind it. */
  function NewDraft(block: nat, version: nat, control: nat, challengers: seq<Variant>, traffic: real,
                    config: EngineConfig): Experiment {
    Experiment(block, [Variant(control, version, traffic, true)] + challengers, traffic, config, Draft, None, "", None)
  }

  /** The service's own checks suffice: such a draft is stored as it is. */
  lemma DraftIsStored(s: State, e: nat, block: nat, control: nat, challengers: seq<Variant>, traffic: real,
                      config: EngineConfig, hash: Hash)
    requires e !in s.tables.experiments && block in s.tables.pointers
    requires challengers != [] && forall v: Variant :: v in challengers ==>
               !v.isControl && v.weight > 0.0 && v.id != control
    requires forall i, j :: 0 <= i < j < |challengers| ==> challengers[i].id != challengers[j].id
    requires 0.0 <= traffic <= 100.0
    ensures var exp := NewDraft(block, s.tables.pointers[block], control, challengers, traffic, config);
            var t, t' := s.tables, Next(s, Create(e, exp), hash).tables;
            WellFormed(exp) && OnlyExperiment(t, t', e) && t'.experiments[e] == exp
  {
    var exp := NewDraft(block, s.tables.pointers[block], control, challengers, traffic, config);
    DraftIsWellFormed(exp.variants, challengers);
    hide FindControl, Others;
  }

  lemma DraftIsWellFormed(vs: seq<Variant>, challengers: seq<Variant>)
    requires |vs| > 0 && vs == [vs[0]] + challengers && vs[0].isControl && challengers != []
    requires forall v :: v in challengers ==> !v.isControl && v.weight > 0.0 && v.id != vs[0].id
    requires DistinctIds(challengers)
    ensures FindControl(vs) == Some(vs[0]) && Others(vs) != [] && DistinctIds(vs)
    ensures forall v :: v in Others(vs) ==> v.weight > 0.0
  {
    assert challengers[0] in vs && challengers[0] in Others(vs);
    hide FindControl, Others;
    forall i, j | 0 <= i < j < |vs| ensures vs[i].id != vs[j].id {
      assert vs[j] == challengers[j - 1] && (i > 0 ==> vs[i] == challengers[i - 1]);
    }
  }

  /** Whatever is stored passed these checks, for the block's current version. */
  lemma StoredPassed(s: State, e: nat, exp: Experiment, hash: Hash)
    ensures var t, s' := s.tables, Next(s, Create(e, exp), hash);
            s' == s || (&& e !in t.experiments && OnlyExperiment(t, s'.tables, e) && s'.tables.experiments[e] == exp
                        && exp.status == Draft && exp.blockId in t.pointers && 0.0 <= exp.trafficWeight <= 100.0
                        && (exists v :: v in exp.variants && !v.isControl)
                        && (forall v :: v in exp.variants && !v.isControl ==> v.weight > 0.0)
                        && exists v :: v in exp.variants && v.isControl && v.versionId == t.pointers[exp.blockId])
  {
    hide FindControl, Others;
    if CanCreate(s.tables, e, exp) { assert Others(exp.variants)[0] in Others(exp.variants); }
  }

  /** A draft, and nothing else runs on its block. */
  predicate MayStart(t: Tables, e: nat) {
    && e in t.experiments && t.experiments[e].status == Draft
    && forall x :: x in t.experiments && x != e && t.experiments[x].blockId == t.experiments[e].blockId ==>
         t.experiments[x].status != Running
  }

  lemma StartsIff(t: Tables, e: nat, now: int)
    ensures Started(t, e, now).Some? <==> MayStart(t, e)
  {
  }

  /** A draft starts exactly when no other experiment runs on its block; otherwise the request does nothing. */
  lemma StartRuns(s: State, e: nat, now: int, hash: Hash)
    ensures var t, s' := s.tables, Next(s, Start(e, now), hash);
            if MayStart(t, e)
            then
              && OnlyExperiment(t, s'.tables, e) && SameSetup(t.experiments[e], s'.tables.experiments[e])
              && s'.tables.experiments[e].status == Running && s'.tables.experiments[e].startedAt == Some(now)
              && s'.tables.experiments[e].decision == "" && s'.tables.experiments[e].winner == None
            else s' == s
  {
    StartsIff(s.tables, e, now);
  }

  /** Stopping leaves the winner of a decided experiment in place. */
  lemma StopStops(s: State, e: nat, hash: Hash)
    ensures var t, s' := s.tables, Next(s, Stop(e), hash);
            if e in t.experiments
            then
              && OnlyExperiment(t, s'.tables, e) && SameSetup(t.experiments[e], s'.tables.experiments[e])
              && s'.tables.experiments[e].status == Stopped && s'.tables.experiments[e].decision == "stopped"
              && s'.tables.experiments[e].winner == t.experiments[e].winner
              && s'.tables.experiments[e].startedAt == t.experiments[e].startedAt
            else s' == s
  {
  }

  /** A commit for a running experiment adds the row, names the outcome, and repoints the block if there is a
      winner. */
  lemma CommitDecides(s: State, actor: nat, hash: Hash)
    requires actor in s.readers && Runs(s.tables, s.readers[actor].experiment)
    ensures var t, s', d := s.tables, Next(s, Commit(actor), hash), s.readers[actor];
            var t', e := s'.tables, d.experiment;
            && t'.decisions == t.decisions + [d] && t'.events == t.events && s'.readers == s.readers - {actor}
            && t'.experiments.Keys == t.experiments.Keys
            && (forall x :: x in t.experiments && x != e ==> t'.experiments[x] == t.experiments[x])
            && SameSetup(t.experiments[e], t'.experiments[e])
            && t'.experiments[e].status == Decided && t'.experiments[e].winner == d.winner
            && t'.experiments[e].decision == (if d.winner.Some? then "winner" else "no_improvement")
            && t'.pointers == if d.promoted.Some? then t.pointers[t.experiments[e].blockId := d.promoted.value]
                              else t.pointers
  {
  }

  lemma EditPoints(s: State, block: nat, version: nat, hash: Hash)
    requires block in s.tables.pointers
    ensures Next(s, Edit(block, version), hash)
         == s.(tables := s.tables.(pointers := s.tables.pointers[block := version]))
  {
  }

  // ----- deciding

  ghost function LookAndRead(s: State, hash: Hash, actor: nat, e: nat, reader: Reader, elapsedMs: int,
                             guess: Guess): State {
    Next(Next(s, Look(actor, e), hash), Read(actor, e, reader, elapsedMs, guess), hash)
  }

  /** What is held afterwards is the decision reached on the events of that time. */
  lemma HoldsOutcome(s: State, hash: Hash, actor: nat, e: nat, reader: Reader, elapsedMs: int, guess: Guess)
    requires Runs(s.tables, e) && FindControl(s.tables.experiments[e].variants).Some?
    ensures var d := Outcome(s.tables.events, e, s.tables.experiments[e], reader, elapsedMs, guess);
            LookAndRead(s, hash, actor, e, reader, elapsedMs, guess).readers
              == if d.Some? then s.readers[actor := d.value] else s.readers - {actor}
  {
    hide FindControl, Outcome;
  }

  /** The decision that names this challenger, with the version it stands for. */
  ghost predicate Promotes(d: Decision, e: nat, exp: Experiment, v: Variant, confidence: Option<real>, reader: Reader,
                           seen: nat) {
    v in exp.variants && !v.isControl
    && d == Decision(e, Some(v.id), Some(v.versionId), confidence, reader, seen)
  }

  /** Nothing is decided about an experiment that does not run. */
  lemma IdleUndecided(s: State, hash: Hash, actor: nat, e: nat, reader: Reader, elapsedMs: int, guess: Guess)
    requires !Runs(s.tables, e)
    ensures actor !in LookAndRead(s, hash, actor, e, reader, elapsedMs, guess).readers
  {
    hide Choice;
  }

  /** Whoever concludes a running experiment by hand holds a decision without a winner. */
  lemma ConcludeHolds(s: State, hash: Hash, actor: nat, e: nat, elapsedMs: int, guess: Guess)
    requires Runs(s.tables, e) && WellFormed(s.tables.experiments[e])
    ensures var s' := LookAndRead(s, hash, actor, e, ManualConclude, elapsedMs, guess);
            actor in s'.readers
            && s'.readers[actor] == Decision(e, None, None, None, ManualConclude, |s.tables.events|)
  {
    hide FindControl, Others, Countable, ReportedOutcome, GuessedOutcome;
  }

  /** The auto-decider does what the report recommends. */
  lemma AutoFollowsReport(s: State, hash: Hash, actor: nat, e: nat, elapsedMs: int, guess: Guess)
    requires Runs(s.tables, e) && WellFormed(s.tables.experiments[e])
    requires Countable(s.tables.events, e, s.tables.experiments[e])
    ensures var events, exp := s.tables.events, s.tables.experiments[e];
            var s' := LookAndRead(s, hash, actor, e, AutoDecider, elapsedMs, guess);
            match LiveReport(events, e, exp, elapsedMs).recommendation
            case Continue => actor !in s'.readers
            case NoWinner =>
              actor in s'.readers && s'.readers[actor] == Decision(e, None, None, None, AutoDecider, |events|)
            case Promote(id, confidence) =>
              actor in s'.readers
              && exists v: Variant :: v.id == id
                             && Promotes(s'.readers[actor], e, exp, v, Some(confidence), AutoDecider, |events|)
  {
    hide LookAndRead, FindControl, Others, Countable, GuessedOutcome, LiveReport, WellFormed;
    ControlIsThere(s.tables.experiments[e]);
    HoldsOutcome(s, hash, actor, e, AutoDecider, elapsedMs, guess);
    var events, exp := s.tables.events, s.tables.experiments[e];
    var report := LiveReport(events, e, exp, elapsedMs);
    if report.recommendation.Promote? {
      var i := BestOfReport(events, e, exp, elapsedMs);
      var v := Others(exp.variants)[i];
      NamesVersion(exp, v, report.recommendation.confidence);
    }
  }

  lemma ControlIsThere(exp: Experiment)
    requires WellFormed(exp)
    ensures FindControl(exp.variants).Some?
  {
  }

  lemma NamesVersion(exp: Experiment, v: Variant, confidence: real)
    requires WellFormed(exp) && v in Others(exp.variants)
    ensures v in exp.variants && !v.isControl && FindVariant(exp.variants, v.id) == Some(v)
  {
    hide FindControl;
    OthersAreNotControl(exp.variants, v.id);
    SameIdSameVariant(exp.variants, v, FindVariant(exp.variants, v.id).value);
  }

  /** Promoting by hand takes the last challenger with the largest reported probability. */
  lemma PromoteTakesBest(s: State, hash: Hash, actor: nat, e: nat, elapsedMs: int, guess: Guess)
    requires Runs(s.tables, e) && WellFormed(s.tables.experiments[e])
    requires Countable(s.tables.events, e, s.tables.experiments[e])
    ensures var events, exp := s.tables.events, s.tables.experiments[e];
            var s' := LookAndRead(s, hash, actor, e, ManualPromote, elapsedMs, guess);
            var rs := LiveReport(events, e, exp, elapsedMs).variants;
            actor in s'.readers
            && exists i, v: Variant ::
                 && 1 <= i < |rs| && rs[i].variantId == v.id && IsLastBest(rs, i)
                 && Promotes(s'.readers[actor], e, exp, v, rs[i].prob, ManualPromote, |events|)
  {
    hide LookAndRead, FindControl, Others, Countable, GuessedOutcome, LiveReport, Best, IsLastBest, WellFormed;
    ControlIsThere(s.tables.experiments[e]);
    HoldsOutcome(s, hash, actor, e, ManualPromote, elapsedMs, guess);
    var events, exp := s.tables.events, s.tables.experiments[e];
    var i := BestInReport(events, e, exp, elapsedMs);
    var v := Others(exp.variants)[i - 1];
    NamesVersion(exp, v, 0.0);
  }

  ghost predicate IsLastBest(rs: seq<VariantReport>, i: nat) {
    && i < |rs| && rs[i].prob.Some?
    && forall j :: 1 <= j < |rs| ==>
         rs[j].prob.Some? && rs[j].prob.value <= rs[i].prob.value && (i < j ==> rs[j].prob.value < rs[i].prob.value)
  }

  lemma BestInReport(events: seq<Event>, e: nat, exp: Experiment, elapsedMs: int) returns (i: nat)
    requires WellFormed(exp) && Countable(events, e, exp)
    ensures var rs, others := LiveReport(events, e, exp, elapsedMs).variants, Others(exp.variants);
            && |rs| == |others| + 1 && 1 <= i <= |others| && IsLastBest(rs, i)
            && rs[i].variantId == others[i - 1].id && Best(rs) == Some(rs[i])
  {
    hide VisitorsOf, ProbBeats, BuildReport, FindControl, Best, Decide, Threshold;
    var others := Others(exp.variants);
    var control, stats := Stats(events, e, FindControl(exp.variants).value.id), StatsOfAll(events, e, others);
    forall v | v in stats ensures InRange(v) {
      var k :| 0 <= k < |others| && stats[k] == v;
      assert others[k] in exp.variants;
    }
    var ps := Probs(control, stats);
    var k := BestExists(ps);
    ReportsAt(control, stats);
    BestFound(Reports(control, stats), ps, k);
    i := k + 1;
    LastOf(Reports(control, stats), ps, k);
  }

  lemma LastOf(rs: seq<VariantReport>, ps: seq<real>, k: nat)
    requires |rs| == |ps| + 1 && IsBest(ps, k)
    requires forall j :: 1 <= j <= |ps| ==> rs[j].prob == Some(ps[j - 1])
    ensures IsLastBest(rs, k + 1)
  {
  }

  /** What a live report recommends, in terms of the visitors counted for control and for the challenger that
      leads. */
  lemma LiveRecommendation(events: seq<Event>, e: nat, exp: Experiment, elapsedMs: int) returns (i: nat)
    requires WellFormed(exp) && Countable(events, e, exp)
    ensures var r, others := LiveReport(events, e, exp, elapsedMs), Others(exp.variants);
            && |r.variants| == |others| + 1 && 1 <= i <= |others| && IsLastBest(r.variants, i)
            && var leader, control := others[i - 1].id, FindControl(exp.variants).value.id;
               var p, least := r.variants[i].prob.value, exp.config.minSample;
               var sampled := |VisitorsOf(events, e, leader, Impression)| >= least
                              || |VisitorsOf(events, e, control, Impression)| >= least;
               && r.elapsedMs == elapsedMs
               && r.recommendation ==
                    if sampled && p >= r.adjusted then Promote(leader, p)
                    else if elapsedMs > exp.config.maxDurationMs || (sampled && p < exp.config.noWinnerProb)
                    then NoWinner else Continue
  {
    hide VisitorsOf, ProbBeats, BuildReport, FindControl, Best, Decide, Reports, Adjusted, Looks, Total;
    var others := Others(exp.variants);
    var control, stats := Stats(events, e, FindControl(exp.variants).value.id), StatsOfAll(events, e, others);
    forall v | v in stats ensures InRange(v) {
      var k :| 0 <= k < |others| && stats[k] == v;
      assert others[k] in exp.variants;
    }
    var ps := Probs(control, stats);
    var k := BestExists(ps);
    PromotesIff(control, stats, exp.config, elapsedMs, k);
    ReportsAt(control, stats);
    i := k + 1;
    LastOf(Reports(control, stats), ps, k);
  }

  /** A live report's own numbers: the distinct visitors of control and of each challenger, in their order. */
  lemma LiveCounts(events: seq<Event>, e: nat, exp: Experiment, elapsedMs: int, k: nat)
    requires WellFormed(exp) && Countable(events, e, exp) && k <= |Others(exp.variants)|
    ensures var rs := LiveReport(events, e, exp, elapsedMs).variants;
            var v := ([FindControl(exp.variants).value] + Others(exp.variants))[k].id;
            && |rs| == |Others(exp.variants)| + 1
            && rs[k].variantId == v && rs[k].isControl == (k == 0)
            && rs[k].impressions == |VisitorsOf(events, e, v, Impression)|
            && rs[k].conversions == |VisitorsOf(events, e, v, Conversion)|
  {
    hide VisitorsOf, ProbBeats, FindControl, Others, Compares, Analyze, InRange;
    var others, first := Others(exp.variants), FindControl(exp.variants).value;
    var control, stats := Stats(events, e, first.id), StatsOfAll(events, e, others);
    forall v | v in stats ensures InRange(v) {
      var j :| 0 <= j < |others| && stats[j] == v;
      assert others[j] in exp.variants;
    }
    EveryEntryDescribed(control, stats, exp.config, elapsedMs, k);
    assert ([control] + stats)[k] == Stats(events, e, ([first] + others)[k].id);
  }

  /** When a report's arithmetic leaves its range, whoever acts on one may end up with any challenger, and the
      auto-decider also with none. */
  lemma AnythingGoes(s: State, hash: Hash, actor: nat, e: nat, reader: Reader, elapsedMs: int, v: Variant,
                     confidence: Option<real>)
    requires Runs(s.tables, e) && WellFormed(s.tables.experiments[e]) && !reader.ManualConclude?
    requires !Countable(s.tables.events, e, s.tables.experiments[e]) && v in Others(s.tables.experiments[e].variants)
    ensures var exp, n := s.tables.experiments[e], |s.tables.events|;
            var named := LookAndRead(s, hash, actor, e, reader, elapsedMs, Challenger(v.id, confidence));
            var none := LookAndRead(s, hash, actor, e, reader, elapsedMs, Nobody);
            && actor in named.readers && Promotes(named.readers[actor], e, exp, v, confidence, reader, n)
            && (actor in none.readers <==> reader.AutoDecider?)
            && (actor in none.readers ==> none.readers[actor] == Decision(e, None, None, None, reader, n))
            && actor !in LookAndRead(s, hash, actor, e, reader, elapsedMs, Nothing).readers
  {
    hide LookAndRead, FindControl, Others, Countable, ReportedOutcome, WellFormed;
    ControlIsThere(s.tables.experiments[e]);
    HoldsOutcome(s, hash, actor, e, reader, elapsedMs, Challenger(v.id, confidence));
    HoldsOutcome(s, hash, actor, e, reader, elapsedMs, Nobody);
    HoldsOutcome(s, hash, actor, e, reader, elapsedMs, Nothing);
    NamesVersion(s.tables.experiments[e], v, 0.0);
  }

  // ----- recording

  /** An event about the variant its visitor is shown, in a running experiment. */
  ghost predicate Accepted(s: State, hash: Hash, e: nat, visitor: nat, submitted: nat) {
    && Runs(s.tables, e) && WellFormed(s.tables.experiments[e])
    && submitted == AssignedVariant(s.tables.experiments[e], hash(e, visitor))
  }

  ghost function CheckThenInsert(s: State, hash: Hash, actor: nat, e: nat, visitor: nat, kind: EventKind,
                                 submitted: nat): State {
    Next(Next(s, Check(actor, e, visitor, kind, submitted), hash), Insert(actor), hash)
  }

  /** The row of an accepted event: it names the version of the variant that was shown. */
  ghost predicate RowOf(x: Event, s: State, e: nat, visitor: nat, kind: EventKind, submitted: nat)
    requires e in s.tables.experiments
  {
    && x.experiment == e && x.visitor == visitor && x.kind == kind && x.variant == submitted
    && exists v :: v in s.tables.experiments[e].variants && v.id == submitted && v.versionId == x.version
  }

  lemma CheckAdmits(s: State, hash: Hash, actor: nat, e: nat, visitor: nat, kind: EventKind, submitted: nat)
    requires Accepted(s, hash, e, visitor, submitted)
    ensures var s' := Next(s, Check(actor, e, visitor, kind, submitted), hash);
            && actor in s'.writers && RowOf(s'.writers[actor], s, e, visitor, kind, submitted)
            && s' == s.(writers := s'.writers) && s'.writers - {actor} == s.writers - {actor}
  {
    hide FindControl, Others, AssignedVariant;
  }

  /** Anything else is refused: nothing is stored. */
  lemma RefusedStoresNothing(s: State, hash: Hash, actor: nat, e: nat, visitor: nat, kind: EventKind, submitted: nat)
    requires Runs(s.tables, e) ==> WellFormed(s.tables.experiments[e])
    requires !Accepted(s, hash, e, visitor, submitted)
    ensures CheckThenInsert(s, hash, actor, e, visitor, kind, submitted).tables == s.tables
  {
    hide FindControl, Others, AssignedVariant, Recorded;
  }

  /** An accepted impression always adds exactly its row, an accepted conversion exactly when its visitor has
      none yet; nothing else changes. */
  lemma AcceptedIsStored(s: State, hash: Hash, actor: nat, e: nat, visitor: nat, kind: EventKind, submitted: nat)
    requires Accepted(s, hash, e, visitor, submitted)
    ensures var t, t' := s.tables, CheckThenInsert(s, hash, actor, e, visitor, kind, submitted).tables;
            && t'.experiments == t.experiments && t'.decisions == t.decisions && t'.pointers == t.pointers
            && if kind == Conversion && HasConverted(t.events, e, visitor) then t'.events == t.events
               else exists x :: RowOf(x, s, e, visitor, kind, submitted) && t'.events == t.events + [x]
  {
    hide Next, WellFormed, AssignedVariant, RowOf;
    CheckAdmits(s, hash, actor, e, visitor, kind, submitted);
    var s1 := Next(s, Check(actor, e, visitor, kind, submitted), hash);
    InsertStores(s1, hash, actor);
    var x := s1.writers[actor];
    RowFields(x, s, e, visitor, kind, submitted);
  }

  lemma RowFields(x: Event, s: State, e: nat, visitor: nat, kind: EventKind, submitted: nat)
    requires e in s.tables.experiments && RowOf(x, s, e, visitor, kind, submitted)
    ensures x.experiment == e && x.visitor == visitor && x.kind == kind && x.variant == submitted
  {
  }

  predicate HasConverted(events: seq<Event>, e: nat, visitor: nat) {
    exists x :: x in events && x.kind == Conversion && x.experiment == e && x.visitor == visitor
  }

  lemma InsertStores(s: State, hash: Hash, actor: nat)
    requires actor in s.writers
    ensures var t, t', x := s.tables, Next(s, Insert(actor), hash).tables, s.writers[actor];
            && t'.experiments == t.experiments && t'.decisions == t.decisions && t'.pointers == t.pointers
            && t'.events == if x.kind == Conversion && HasConverted(t.events, x.experiment, x.visitor) then t.events
                            else t.events + [x]
  {
  }

  /** This sample gains the visitor, if it did not hold the visitor before, and no other sample changes. */
  ghost predicate Gains(events: seq<Event>, events': seq<Event>, e: nat, variant: nat, kind: EventKind, visitor: nat) {
    && VisitorsOf(events', e, variant, kind) == VisitorsOf(events, e, variant, kind) + {visitor}
    && forall x: nat, v: nat, k ::
         (x == e && v == variant && k == kind) || VisitorsOf(events', x, v, k) == VisitorsOf(events, x, v, k)
  }

  /** So every accepted event counts. */
  lemma AcceptedCounts(s: State, hash: Hash, actor: nat, e: nat, visitor: nat, kind: EventKind, submitted: nat)
    requires Inv(s, hash) && Accepted(s, hash, e, visitor, submitted)
    ensures Gains(s.tables.events, CheckThenInsert(s, hash, actor, e, visitor, kind, submitted).tables.events,
                  e, submitted, kind, visitor)
  {
    hide Inv, CheckThenInsert, WellFormed, AssignedVariant, Gains, RowOf;
    AcceptedIsStored(s, hash, actor, e, visitor, kind, submitted);
    var events := s.tables.events;
    if kind == Conversion && HasConverted(events, e, visitor) {
      var x :| x in events && x.kind == Conversion && x.experiment == e && x.visitor == visitor;
      ShownIsCredited(s, hash, x);
      AlreadyIn(events, x);
    } else {
      var x :| RowOf(x, s, e, visitor, kind, submitted)
               && CheckThenInsert(s, hash, actor, e, visitor, kind, submitted).tables.events == events + [x];
      RowFields(x, s, e, visitor, kind, submitted);
      OneMoreEvent(events, x);
    }
  }

  lemma AlreadyIn(events: seq<Event>, x: Event)
    requires x in events
    ensures Gains(events, events, x.experiment, x.variant, x.kind, x.visitor)
  {
    assert x.visitor in VisitorsOf(events, x.experiment, x.variant, x.kind);
  }

  lemma ShownIsCredited(s: State, hash: Hash, x: Event)
    requires Inv(s, hash) && x in s.tables.events
    ensures x.experiment in s.tables.experiments && FindControl(s.tables.experiments[x.experiment].variants).Some?
    ensures x.variant == AssignedVariant(s.tables.experiments[x.experiment], hash(x.experiment, x.visitor))
  {
    hide FindControl, Others, AssignedVariant, ValidDecision;
    assert ValidEvent(s.tables, x, hash);
  }

  lemma OneMoreEvent(events: seq<Event>, x: Event)
    ensures Gains(events, events + [x], x.experiment, x.variant, x.kind, x.visitor)
  {
  }
}
