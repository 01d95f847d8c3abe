/** Every interleaving of creating, starting, stopping, deciding and recording.

A reader first sees that an experiment runs, then reads the counts and works out a decision; the commit
comes later still, and anything may happen in between.  Likewise an event is checked first and inserted
later. */
module ExperimentProtocol {
  import opened Options
  import opened Verdict
  import opened TrafficSplit
  import opened Experiments

  datatype State = State(tables: Tables, looks: map<nat, nat>, readers: map<nat, Decision>, writers: map<nat, Event>)

  datatype Step =
    | Create(e: nat, exp: Experiment)
    | Start(e: nat, now: int)
    | Stop(e: nat)
    | Look(actor: nat, e: nat)
    | Read(actor: nat, e: nat, reader: Reader, elapsedMs: int, guess: Guess)
    | Commit(actor: nat)
    | Check(actor: nat, e: nat, visitor: nat, kind: EventKind, submitted: nat)
    | Insert(actor: nat)
    | Edit(block: nat, version: nat)

  type Hash = (nat, nat) -> nat

  ghost predicate CanCreate(t: Tables, e: nat, exp: Experiment) {
    && e !in t.experiments && WellFormed(exp) && exp.status == Draft
    && exp.blockId in t.pointers && FindControl(exp.variants).value.versionId == t.pointers[exp.blockId]
  }

  function Choice(t: Tables, e: nat, reader: Reader, elapsedMs: int, guess: Guess): Option<Decision> {
    if e in t.experiments && FindControl(t.experiments[e].variants).Some?
    then Outcome(t.events, e, t.experiments[e], reader, elapsedMs, guess)
    else None
  }

  ghost function Next(s: State, step: Step, hash: Hash): State {
    var t := s.tables;
    match step
    case Create(e, exp) =>
      if CanCreate(t, e, exp) then s.(tables := t.(experiments := t.experiments[e := exp])) else s
    case Start(e, now) =>
      if Started(t, e, now).Some? then s.(tables := Started(t, e, now).value) else s
    case Stop(e) =>
      if HaltedTables(t, e).Some? then s.(tables := HaltedTables(t, e).value) else s
    case Look(actor, e) =>
      s.(looks := if Runs(t, e) then s.looks[actor := e] else s.looks - {actor})
    case Read(actor, e, reader, elapsedMs, guess) =>
      var saw := actor in s.looks && s.looks[actor] == e;
      var d := if saw then Choice(t, e, reader, elapsedMs, guess) else None;
      s.(readers := if d.Some? then s.readers[actor := d.value] else s.readers - {actor})
    case Commit(actor) =>
      if actor !in s.readers then s
      else
        var t' := Concluded(t, s.readers[actor]);
        s.(tables := if t'.Some? then t'.value else t, readers := s.readers - {actor})
    case Check(actor, e, visitor, kind, submitted) =>
      var ev := Admitted(t, hash, e, visitor, kind, submitted);
      s.(writers := if ev.Some? then s.writers[actor := ev.value] else s.writers - {actor})
    case Insert(actor) =>
      if actor in s.writers
      then s.(tables := Recorded(t, s.writers[actor]), writers := s.writers - {actor})
      else s
    case Edit(block, version) =>
      if block in t.pointers then s.(tables := t.(pointers := t.pointers[block := version])) else s
  }

  // ----- the invariant

  /** A variant's chance of beating control on the first n events. */
  ghost predicate Backed(t: Tables, d: Decision, v: Variant)
    requires d.experiment in t.experiments && FindControl(t.experiments[d.experiment].variants).Some?
  {
    var exp := t.experiments[d.experiment];
    var control := FindControl(exp.variants).value;
    && d.seen <= |t.events|
    && var events := t.events[..d.seen];
       var c, w := Stats(events, d.experiment, control.id), Stats(events, d.experiment, v.id);
       && InRange(c) && InRange(w)
       && d.confidence == Some(ProbBeats(c, w))
       && Convincing(events, d.experiment, exp, c, w)
  }

  /** The probability reaches the threshold corrected for the looks taken, which is never below a configured
      one that is at most 1, and the variant or control has the minimum sample. */
  ghost predicate Convincing(events: seq<Event>, e: nat, exp: Experiment, c: VariantStats, w: VariantStats)
    requires InRange(c) && InRange(w)
  {
    var threshold := Threshold(c, StatsOfAll(events, e, Others(exp.variants)), exp.config);
    && ProbBeats(c, w) >= threshold
    && (exp.config.confidenceThreshold <= 1.0 ==> threshold >= exp.config.confidenceThreshold)
    && Sampled(c, w, exp.config)
  }

  /** The events the reader had seen kept the engine's arithmetic in range. */
  predicate ReadInRange(t: Tables, d: Decision)
    requires d.experiment in t.experiments
  {
    d.seen <= |t.events| && Countable(t.events[..d.seen], d.experiment, t.experiments[d.experiment])
  }

  /** A decision names a challenger of its experiment and that challenger's version, or nothing; one the
      auto-decider took within the engine's range is backed by the events it read. */
  ghost predicate ValidDecision(t: Tables, d: Decision) {
    && d.experiment in t.experiments
    && d.seen <= |t.events|
    && WellFormed(t.experiments[d.experiment])
    && d.winner.Some? == d.promoted.Some?
    && (d.winner.Some? ==> exists v ::
          && v in Others(t.experiments[d.experiment].variants)
          && d.winner == Some(v.id) && d.promoted == Some(v.versionId)
          && (d.reader.AutoDecider? && ReadInRange(t, d) ==> Backed(t, d, v)))
  }

  /** An event credits the variant its visitor was assigned, with that variant's version. */
  ghost predicate ValidEvent(t: Tables, ev: Event, hash: Hash) {
    && ev.experiment in t.experiments
    && WellFormed(t.experiments[ev.experiment])
    && ev.variant == AssignedVariant(t.experiments[ev.experiment], hash(ev.experiment, ev.visitor))
    && exists v :: v in t.experiments[ev.experiment].variants && v.id == ev.variant && v.versionId == ev.version
  }

  ghost predicate OncePerExperiment(decisions: seq<Decision>) {
    forall i, j :: 0 <= i < j < |decisions| ==> decisions[i].experiment != decisions[j].experiment
  }

  ghost predicate OneConversion(events: seq<Event>) {
    forall i, j :: 0 <= i < j < |events| && events[i].kind == events[j].kind == Conversion ==>
      events[i].experiment != events[j].experiment || events[i].visitor != events[j].visitor
  }

  ghost predicate DecisionsMatchStatus(t: Tables) {
    && (forall d :: d in t.decisions ==>
          d.experiment in t.experiments && t.experiments[d.experiment].status in {Decided, Stopped})
    && (forall e :: e in t.experiments && t.experiments[e].status == Decided ==>
          exists d :: d in t.decisions && d.experiment == e)
  }

  predicate Runs(t: Tables, e: nat) {
    e in t.experiments && t.experiments[e].status == Running
  }

  ghost predicate OneRunningPerBlock(t: Tables) {
    forall x, y :: Runs(t, x) && Runs(t, y) && x != y ==> t.experiments[x].blockId != t.experiments[y].blockId
  }

  ghost predicate Inv(s: State, hash: Hash) {
    var t := s.tables;
    && (forall e :: e in t.experiments ==> WellFormed(t.experiments[e]))
    && OncePerExperiment(t.decisions)
    && DecisionsMatchStatus(t)
    && OneRunningPerBlock(t)
    && OneConversion(t.events)
    && (forall d :: d in t.decisions ==> ValidDecision(t, d))
    && (forall a :: a in s.readers ==> ValidDecision(t, s.readers[a]))
    && (forall ev :: ev in t.events ==> ValidEvent(t, ev, hash))
    && (forall a :: a in s.writers ==> ValidEvent(t, s.writers[a], hash))
  }

  // ----- what never changes

  /** Experiments stay, with everything creation fixed; events are only appended. */
  ghost predicate Extends(t: Tables, t': Tables) {
    && t.events <= t'.events
    && t.decisions <= t'.decisions
    && forall e :: e in t.experiments ==>
         && e in t'.experiments
         && t'.experiments[e].blockId == t.experiments[e].blockId
         && t'.experiments[e].variants == t.experiments[e].variants
         && t'.experiments[e].trafficWeight == t.experiments[e].trafficWeight
         && t'.experiments[e].config == t.experiments[e].config
         && Rank(t'.experiments[e].status) >= Rank(t.experiments[e].status)
  }

  function Rank(status: Status): nat {
    match status
    case Draft => 0
    case Running => 1
    case Decided => 2
    case Stopped => 2
  }

  lemma NextExtends(s: State, step: Step, hash: Hash)
    ensures Extends(s.tables, Next(s, step, hash).tables)
  {
    hide Outcome, Countable, AssignedVariant, WellFormed, FindControl, FindVariant, Choice, Admitted, Started,
         Concluded, HaltedTables;
    match step
    case Start(e, now) => StartExtends(s.tables, e, now);
    case Stop(e) => HaltExtends(s.tables, e);
    case Commit(actor) => if actor in s.readers { ConcludeExtends(s.tables, s.readers[actor]); }
    case _ =>
  }

  lemma StartExtends(t: Tables, e: nat, now: int)
    ensures Started(t, e, now).Some? ==> Extends(t, Started(t, e, now).value)
  {
  }

  lemma HaltExtends(t: Tables, e: nat)
    ensures HaltedTables(t, e).Some? ==> Extends(t, HaltedTables(t, e).value)
  {
  }

  lemma ConcludeExtends(t: Tables, d: Decision)
    ensures Concluded(t, d).Some? ==> Extends(t, Concluded(t, d).value)
  {
  }

  lemma ValidDecisionStays(t: Tables, t': Tables, d: Decision)
    requires ValidDecision(t, d) && Extends(t, t')
    ensures ValidDecision(t', d)
  {
    hide Stats, ProbBeats, FindControl, Others;
    if d.winner.Some? {
      var v :| v in Others(t.experiments[d.experiment].variants) && d.winner == Some(v.id)
            && d.promoted == Some(v.versionId) && (d.reader.AutoDecider? && ReadInRange(t, d) ==> Backed(t, d, v));
      if d.reader.AutoDecider? && ReadInRange(t', d) {
        assert t'.events[..d.seen] == t.events[..d.seen];
        assert Backed(t', d, v);
      }
      assert v in Others(t'.experiments[d.experiment].variants);
    }
  }

  lemma ValidEventStays(t: Tables, t': Tables, ev: Event, hash: Hash)
    requires ValidEvent(t, ev, hash) && Extends(t, t')
    ensures ValidEvent(t', ev, hash)
  {
    hide FindControl, Others, Slot;
  }

  // ----- what a reader may come up with

  lemma OthersAreNotControl(variants: seq<Variant>, id: nat)
    requires DistinctIds(variants)
    requires exists v :: v in Others(variants) && v.id == id
    ensures FindVariant(variants, id).Some? && FindVariant(variants, id).value in Others(variants)
  {
    var v :| v in Others(variants) && v.id == id;
    var w := FindVariant(variants, id);
    var i :| 0 <= i < |variants| && variants[i] == v;
    var j :| 0 <= j < |variants| && variants[j] == w.value;
    assert i == j;
  }

  /** The variant a report ranks highest, and the probability it reports. */
  lemma BestOfReport(events: seq<Event>, e: nat, exp: Experiment, elapsedMs: int) returns (i: nat)
    requires WellFormed(exp) && Countable(events, e, exp)
    ensures i < |Others(exp.variants)|
    ensures var v := Others(exp.variants)[i];
            var c, w := Stats(events, e, FindControl(exp.variants).value.id), Stats(events, e, v.id);
            var report := LiveReport(events, e, exp, elapsedMs);
            && InRange(c) && InRange(w)
            && Best(report.variants).Some? && Best(report.variants).value.variantId == v.id
            && Best(report.variants).value.prob == Some(ProbBeats(c, w))
            && (report.recommendation.Promote? ==>
                  && report.recommendation == Promote(v.id, ProbBeats(c, w))
                  && Convincing(events, e, exp, c, w))
  {
    hide VisitorsOf, ProbBeats, BuildReport, FindControl, Best, Decide, Threshold;
    var others := Others(exp.variants);
    var control, stats := Stats(events, e, FindControl(exp.variants).value.id), StatsOfAll(events, e, others);
    forall v | v in stats ensures InRange(v) {
      var k :| 0 <= k < |others| && stats[k] == v;
      assert others[k] in exp.variants;
    }
    var ps := Probs(control, stats);
    i := BestExists(ps);
    ReportsAt(control, stats);
    BestFound(Reports(control, stats), ps, i);
    DecisionParts(control, stats, exp.config, elapsedMs, i);
    if exp.config.confidenceThreshold <= 1.0 {
      ThresholdHolds(control, stats, exp.config);
    }
    assert others[i] in exp.variants;
  }

  lemma ChoiceIsValid(t: Tables, e: nat, reader: Reader, elapsedMs: int, guess: Guess)
    requires e in t.experiments && WellFormed(t.experiments[e])
    ensures Choice(t, e, reader, elapsedMs, guess).Some? ==>
        ValidDecision(t, Choice(t, e, reader, elapsedMs, guess).value)
  {
    hide Countable, ReportedOutcome, GuessedOutcome, ValidDecision, WellFormed, FindControl;
    var exp := t.experiments[e];
    if reader.ManualConclude? {
      NobodyIsValid(t, e, reader);
    } else if Countable(t.events, e, exp) {
      ReportedIsValid(t, e, reader, elapsedMs);
    } else {
      GuessedIsValid(t, e, reader, guess);
    }
  }

  lemma NobodyIsValid(t: Tables, e: nat, reader: Reader)
    requires e in t.experiments && WellFormed(t.experiments[e])
    ensures ValidDecision(t, Decision(e, None, None, None, reader, |t.events|))
  {
    hide WellFormed;
  }

  lemma ReportedIsValid(t: Tables, e: nat, reader: Reader, elapsedMs: int)
    requires e in t.experiments && WellFormed(t.experiments[e]) && Countable(t.events, e, t.experiments[e])
    ensures var d := ReportedOutcome(t.events, e, t.experiments[e], reader, elapsedMs);
            d.Some? ==> ValidDecision(t, d.value)
  {
    hide LiveReport, Best, ProbBeats, Stats, FindControl;
    var exp := t.experiments[e];
    var d := ReportedOutcome(t.events, e, exp, reader, elapsedMs);
    assert t.events[..|t.events|] == t.events;
    var i := BestOfReport(t.events, e, exp, elapsedMs);
    var v := Others(exp.variants)[i];
    OthersAreNotControl(exp.variants, v.id);
    var found := FindVariant(exp.variants, v.id).value;
    if d.Some? && d.value.winner.Some? {
      assert d.value.winner == Some(found.id) && d.value.promoted == Some(found.versionId);
      assert reader.AutoDecider? ==> Backed(t, d.value, found);
    }
  }

  /** Outside the engine's range nothing is promised about the report. */
  lemma GuessedIsValid(t: Tables, e: nat, reader: Reader, guess: Guess)
    requires e in t.experiments && WellFormed(t.experiments[e]) && !Countable(t.events, e, t.experiments[e])
    ensures var d := GuessedOutcome(e, t.experiments[e], reader, guess, |t.events|);
            d.Some? ==> ValidDecision(t, d.value)
  {
    hide Countable, Backed;
    var exp := t.experiments[e];
    var d := GuessedOutcome(e, exp, reader, guess, |t.events|);
    assert t.events[..|t.events|] == t.events;
    if d.Some? && d.value.winner.Some? {
      OthersAreNotControl(exp.variants, guess.id);
      var found := FindVariant(exp.variants, guess.id).value;
      assert d.value.winner == Some(found.id) && d.value.promoted == Some(found.versionId);
    }
  }

  // ----- every step keeps the invariant

  ghost predicate Valid(s: State, hash: Hash) {
    var t := s.tables;
    && (forall e :: e in t.experiments ==> WellFormed(t.experiments[e]))
    && (forall d :: d in t.decisions ==> ValidDecision(t, d))
    && (forall a :: a in s.readers ==> ValidDecision(t, s.readers[a]))
    && (forall ev :: ev in t.events ==> ValidEvent(t, ev, hash))
    && (forall a :: a in s.writers ==> ValidEvent(t, s.writers[a], hash))
  }

  /** Rows and plans that were valid stay valid in any extension of the tables. */
  lemma ValidStays(s: State, t': Tables, hash: Hash)
    requires Valid(s, hash) && Extends(s.tables, t')
    ensures forall d :: d in s.tables.decisions ==> ValidDecision(t', d)
    ensures forall a :: a in s.readers ==> ValidDecision(t', s.readers[a])
    ensures forall ev :: ev in s.tables.events ==> ValidEvent(t', ev, hash)
    ensures forall a :: a in s.writers ==> ValidEvent(t', s.writers[a], hash)
  {
    hide ValidDecision, ValidEvent, Extends, WellFormed;
    forall d | ValidDecision(s.tables, d) ensures ValidDecision(t', d) {
      ValidDecisionStays(s.tables, t', d);
    }
    forall ev | ValidEvent(s.tables, ev, hash) ensures ValidEvent(t', ev, hash) {
      ValidEventStays(s.tables, t', ev, hash);
    }
  }

  lemma AdmittedIsValid(t: Tables, hash: Hash, e: nat, visitor: nat, kind: EventKind, submitted: nat)
    requires e in t.experiments ==> WellFormed(t.experiments[e])
    ensures var ev := Admitted(t, hash, e, visitor, kind, submitted); ev.Some? ==> ValidEvent(t, ev.value, hash)
  {
    hide AssignedVariant, FindControl, Others;
  }

  lemma StepKeepsWellFormed(s: State, step: Step, hash: Hash)
    requires forall e :: e in s.tables.experiments ==> WellFormed(s.tables.experiments[e])
    ensures var t := Next(s, step, hash).tables; forall e :: e in t.experiments ==> WellFormed(t.experiments[e])
  {
    hide Next, FindControl, Others, DistinctIds;
    NextExtends(s, step, hash);
    OnlyCreateAdds(s, step, hash);
  }

  lemma OnlyCreateAdds(s: State, step: Step, hash: Hash)
    ensures var t, t' := s.tables, Next(s, step, hash).tables;
            forall e :: e in t'.experiments && e !in t.experiments ==>
              step.Create? && t'.experiments[e] == step.exp && CanCreate(t, e, step.exp)
  {
    hide Choice, Admitted, CanCreate, Concluded;
    ConcludedKeepsKeys(s, step);
  }

  lemma ConcludedKeepsKeys(s: State, step: Step)
    ensures step.Commit? && step.actor in s.readers && Concluded(s.tables, s.readers[step.actor]).Some? ==>
              Concluded(s.tables, s.readers[step.actor]).value.experiments.Keys == s.tables.experiments.Keys
  {
  }

  lemma StepKeepsValid(s: State, step: Step, hash: Hash)
    requires Valid(s, hash)
    ensures Valid(Next(s, step, hash), hash)
  {
    hide ValidDecision, ValidEvent, WellFormed, Choice, Admitted, Extends, CanCreate;
    var s' := Next(s, step, hash);
    NextExtends(s, step, hash);
    ValidStays(s, s'.tables, hash);
    StepKeepsWellFormed(s, step, hash);
    if step.Read? && step.e in s.tables.experiments {
      ChoiceIsValid(s.tables, step.e, step.reader, step.elapsedMs, step.guess);
    } else if step.Read? {
      NoExperimentNoChoice(s.tables, step.e, step.reader, step.elapsedMs, step.guess);
    } else if step.Check? {
      AdmittedIsValid(s.tables, hash, step.e, step.visitor, step.kind, step.submitted);
    }
  }

  lemma NoExperimentNoChoice(t: Tables, e: nat, reader: Reader, elapsedMs: int, guess: Guess)
    requires e !in t.experiments
    ensures Choice(t, e, reader, elapsedMs, guess).None?
  {
  }

  /** What a step can do to an experiment's status, next to a decision row. */
  ghost predicate StatusMoved(t: Tables, t': Tables) {
    if t'.decisions == t.decisions
    then forall e :: e in t'.experiments && t'.experiments[e].status != Stopped ==>
           (e in t.experiments && t'.experiments[e].status == t.experiments[e].status)
           || (t'.experiments[e].status != Decided && (e in t.experiments ==> t.experiments[e].status == Draft))
    else exists d :: DecidedBy(t, t', d)
  }

  ghost predicate DecidedBy(t: Tables, t': Tables, d: Decision) {
    && t'.decisions == t.decisions + [d] && Runs(t, d.experiment) && d.experiment in t'.experiments
    && t'.experiments == t.experiments[d.experiment := t'.experiments[d.experiment]]
    && t'.experiments[d.experiment].status == Decided
  }

  lemma StatusMoves(s: State, step: Step, hash: Hash)
    ensures StatusMoved(s.tables, Next(s, step, hash).tables)
  {
    hide StatusMoved, Choice, Admitted, Started, HaltedTables, Concluded, Recorded, CanCreate;
    NoMove(s.tables);
    match step
    case Create(e, exp) => CreateMoves(s.tables, e, exp);
    case Start(e, now) => StartMoves(s.tables, e, now);
    case Stop(e) => HaltMoves(s.tables, e);
    case Commit(actor) => if actor in s.readers { ConcludeMoves(s.tables, s.readers[actor]); }
    case Insert(actor) => if actor in s.writers { RecordMoves(s.tables, s.writers[actor]); }
    case _ => OthersStand(s, step, hash);
  }

  lemma NoMove(t: Tables)
    ensures StatusMoved(t, t)
  {
  }

  lemma CreateMoves(t: Tables, e: nat, exp: Experiment)
    ensures CanCreate(t, e, exp) ==> StatusMoved(t, t.(experiments := t.experiments[e := exp]))
  {
    hide WellFormed;
  }

  lemma StartMoves(t: Tables, e: nat, now: int)
    ensures Started(t, e, now).Some? ==> StatusMoved(t, Started(t, e, now).value)
  {
  }

  lemma HaltMoves(t: Tables, e: nat)
    ensures HaltedTables(t, e).Some? ==> StatusMoved(t, HaltedTables(t, e).value)
  {
  }

  lemma ConcludeMoves(t: Tables, d: Decision)
    ensures Concluded(t, d).Some? ==> StatusMoved(t, Concluded(t, d).value)
  {
    if Concluded(t, d).Some? {
      assert DecidedBy(t, Concluded(t, d).value, d);
    }
  }

  lemma RecordMoves(t: Tables, ev: Event)
    ensures StatusMoved(t, Recorded(t, ev))
  {
  }

  lemma OthersStand(s: State, step: Step, hash: Hash)
    requires step.Look? || step.Read? || step.Check? || step.Edit?
    ensures StatusMoved(s.tables, Next(s, step, hash).tables)
  {
    hide Choice, Admitted;
  }

  lemma StepKeepsDecisions(s: State, step: Step, hash: Hash)
    requires OncePerExperiment(s.tables.decisions) && DecisionsMatchStatus(s.tables)
    ensures OncePerExperiment(Next(s, step, hash).tables.decisions) && DecisionsMatchStatus(Next(s, step, hash).tables)
  {
    hide Next, OncePerExperiment, DecisionsMatchStatus, DecidedBy, Extends;
    NextExtends(s, step, hash);
    StatusMoves(s, step, hash);
    var t, t' := s.tables, Next(s, step, hash).tables;
    if t'.decisions == t.decisions {
      RowsStand(t, t');
    } else {
      var d :| DecidedBy(t, t', d);
      RowAdded(t, t', d);
    }
  }

  lemma RowsStand(t: Tables, t': Tables)
    requires DecisionsMatchStatus(t) && Extends(t, t') && StatusMoved(t, t') && t'.decisions == t.decisions
    ensures DecisionsMatchStatus(t')
  {
  }

  lemma RowAdded(t: Tables, t': Tables, d: Decision)
    requires OncePerExperiment(t.decisions) && DecisionsMatchStatus(t) && DecidedBy(t, t', d)
    ensures OncePerExperiment(t'.decisions) && DecisionsMatchStatus(t')
  {
    assert d in t'.decisions;
    forall i | 0 <= i < |t.decisions| ensures t.decisions[i].experiment != d.experiment {
      assert t.decisions[i] in t.decisions;
    }
    DecidedHaveRows(t, t', d);
  }

  lemma DecidedHaveRows(t: Tables, t': Tables, d: Decision)
    requires DecisionsMatchStatus(t) && t'.decisions == t.decisions + [d] && d.experiment in t'.experiments
    requires t'.experiments == t.experiments[d.experiment := t'.experiments[d.experiment]]
    requires t'.experiments[d.experiment].status == Decided
    ensures DecisionsMatchStatus(t')
  {
    forall e | e in t'.experiments && t'.experiments[e].status == Decided
      ensures exists c :: c in t'.decisions && c.experiment == e
    {
      if e == d.experiment {
        assert d in t'.decisions;
      } else {
        var c :| c in t.decisions && c.experiment == e;
        assert c in t'.decisions;
      }
    }
  }

  lemma StepKeepsRunning(s: State, step: Step, hash: Hash)
    requires OneRunningPerBlock(s.tables)
    ensures OneRunningPerBlock(Next(s, step, hash).tables)
  {
    hide Choice, Admitted, WellFormed, FindControl, Started, HaltedTables, Concluded, OneRunningPerBlock;
    match step
    case Start(e, now) => StartKeepsRunning(s.tables, e, now);
    case Commit(actor) => if actor in s.readers { ConcludeKeepsRunning(s.tables, s.readers[actor]); }
    case Stop(e) => HaltKeepsRunning(s.tables, e);
    case _ => OthersKeepRunning(s, step, hash);
  }

  lemma StartKeepsRunning(t: Tables, e: nat, now: int)
    requires OneRunningPerBlock(t)
    ensures Started(t, e, now).Some? ==> OneRunningPerBlock(Started(t, e, now).value)
  {
  }

  lemma ConcludeKeepsRunning(t: Tables, d: Decision)
    requires OneRunningPerBlock(t)
    ensures Concluded(t, d).Some? ==> OneRunningPerBlock(Concluded(t, d).value)
  {
  }

  lemma HaltKeepsRunning(t: Tables, e: nat)
    requires OneRunningPerBlock(t)
    ensures HaltedTables(t, e).Some? ==> OneRunningPerBlock(HaltedTables(t, e).value)
  {
  }

  lemma OthersKeepRunning(s: State, step: Step, hash: Hash)
    requires OneRunningPerBlock(s.tables) && !step.Start? && !step.Commit? && !step.Stop?
    ensures OneRunningPerBlock(Next(s, step, hash).tables)
  {
    hide Choice, Admitted, WellFormed, FindControl;
  }

  lemma StepKeepsConversions(s: State, step: Step, hash: Hash)
    requires OneConversion(s.tables.events)
    ensures OneConversion(Next(s, step, hash).tables.events)
  {
    hide Choice, Admitted, WellFormed, FindControl, Started, Concluded, HaltedTables;
    if step.Start? || step.Commit? || step.Stop? {
      OnlyInsertRecords(s, step, hash);
    }
  }

  lemma OnlyInsertRecords(s: State, step: Step, hash: Hash)
    ensures !step.Insert? ==> Next(s, step, hash).tables.events == s.tables.events
  {
    hide Choice, Admitted, WellFormed, FindControl;
  }

  /** Every step of every actor keeps the invariant. */
  lemma StepKeepsInv(s: State, step: Step, hash: Hash)
    requires Inv(s, hash)
    ensures Inv(Next(s, step, hash), hash)
  {
    hide Next, OncePerExperiment, DecisionsMatchStatus, OneRunningPerBlock, OneConversion, ValidDecision, ValidEvent,
        WellFormed;
    StepKeepsValid(s, step, hash);
    StepKeepsDecisions(s, step, hash);
    StepKeepsRunning(s, step, hash);
    StepKeepsConversions(s, step, hash);
  }

  // ----- runs

  ghost predicate IsRun(run: seq<State>, steps: seq<Step>, hash: Hash) {
    && |run| == |steps| + 1
    && run[0].tables.experiments == map[] && run[0].tables.decisions == [] && run[0].tables.events == []
    && run[0].looks == map[] && run[0].readers == map[] && run[0].writers == map[]
    && forall i :: 0 <= i < |steps| ==> run[i + 1] == Next(run[i], steps[i], hash)
  }

  lemma EmptyKeepsInv(s: State, hash: Hash)
    requires s.tables.experiments == map[] && s.tables.decisions == [] && s.tables.events == []
    requires s.readers == map[] && s.writers == map[]
    ensures Inv(s, hash)
  {
  }

  /** The invariant holds in every reachable state. */
  lemma {:induction false} RunKeepsInv(run: seq<State>, steps: seq<Step>, hash: Hash, n: nat)
    requires IsRun(run, steps, hash) && n <= |steps|
    ensures Inv(run[n], hash)
  {
    hide Next, Inv;
    if n == 0 {
      EmptyKeepsInv(run[0], hash);
    } else {
      RunKeepsInv(run, steps, hash, n - 1);
      StepKeepsInv(run[n - 1], steps[n - 1], hash);
    }
  }

  lemma ExtendsTransitive(t: Tables, t': Tables, t'': Tables)
    requires Extends(t, t') && Extends(t', t'')
    ensures Extends(t, t'')
  {
  }

  lemma {:induction false} RunExtends(run: seq<State>, steps: seq<Step>, hash: Hash, i: nat, j: nat)
    requires IsRun(run, steps, hash) && i <= j <= |steps|
    ensures Extends(run[i].tables, run[j].tables)
    decreases j
  {
    if i < j {
      RunExtends(run, steps, hash, i, j - 1);
      NextExtends(run[j - 1], steps[j - 1], hash);
      ExtendsTransitive(run[i].tables, run[j - 1].tables, run[j].tables);
    }
  }

  ghost predicate Enters(run: seq<State>, i: nat, e: nat) {
    && i + 1 < |run|
    && e in run[i + 1].tables.experiments && run[i + 1].tables.experiments[e].status == Running
    && (e in run[i].tables.experiments ==> run[i].tables.experiments[e].status != Running)
  }

  lemma EntersFromDraft(s: State, step: Step, hash: Hash, e: nat)
    requires Runs(Next(s, step, hash).tables, e) && !Runs(s.tables, e)
    ensures e in s.tables.experiments && s.tables.experiments[e].status == Draft
  {
    hide Choice, Admitted, WellFormed, FindControl;
  }

  /** In any run, an experiment enters running at most once and is decided at most once. */
  lemma RunsOnceDecidedOnce(run: seq<State>, steps: seq<Step>, hash: Hash, i: nat, j: nat, e: nat)
    requires IsRun(run, steps, hash) && Enters(run, i, e) && Enters(run, j, e)
    ensures i == j
    ensures OncePerExperiment(run[|steps|].tables.decisions)
  {
    hide Next, Inv, Extends;
    RunKeepsInv(run, steps, hash, |steps|);
    InvDecisions(run[|steps|], hash);
    var k, l := if i < j then i else j, if i < j then j else i;
    if k < l {
      EntersFromDraft(run[l], steps[l], hash, e);
      RunExtends(run, steps, hash, k + 1, l);
      ExtendsRank(run[k + 1].tables, run[l].tables, e);
    }
  }

  lemma InvDecisions(s: State, hash: Hash)
    requires Inv(s, hash)
    ensures OncePerExperiment(s.tables.decisions)
  {
  }

  lemma ExtendsRank(t: Tables, t': Tables, e: nat)
    requires Extends(t, t') && e in t.experiments
    ensures e in t'.experiments && Rank(t.experiments[e].status) <= Rank(t'.experiments[e].status)
  {
  }

  // ----- commits

  /** A commit that comes too late leaves every table as it is. */
  lemma LateCommitChangesNothing(s: State, actor: nat, hash: Hash)
    requires actor in s.readers && !Runs(s.tables, s.readers[actor].experiment)
    ensures Next(s, Commit(actor), hash).tables == s.tables
  {
  }

  /** Of two commits for one experiment at most one changes any table: after one took effect, no later
      one does. */
  lemma OneCommitTakesEffect(run: seq<State>, steps: seq<Step>, hash: Hash, i: nat, j: nat, e: nat)
    requires IsRun(run, steps, hash) && i < j < |steps|
    requires steps[i].Commit? && steps[i].actor in run[i].readers && run[i].readers[steps[i].actor].experiment == e
    requires steps[j].Commit? && steps[j].actor in run[j].readers && run[j].readers[steps[j].actor].experiment == e
    requires run[i + 1].tables != run[i].tables
    ensures run[j + 1].tables == run[j].tables
  {
    hide Next, Extends;
    if !Runs(run[i].tables, e) {
      LateCommitChangesNothing(run[i], steps[i].actor, hash);
    }
    CommitRuns(run[i], steps[i].actor, hash);
    RunExtends(run, steps, hash, i + 1, j);
    ExtendsRank(run[i + 1].tables, run[j].tables, e);
    LateCommitChangesNothing(run[j], steps[j].actor, hash);
  }

  /** The row d is the one new decision; it concludes the running experiment on this block, and the
      block now points at the version of the challenger that d names. */
  ghost predicate RepointedBy(t: Tables, t': Tables, block: nat, d: Decision) {
    && t'.decisions == t.decisions + [d]
    && Runs(t, d.experiment) && t.experiments[d.experiment].blockId == block
    && d.experiment in t'.experiments && t'.experiments[d.experiment].status == Decided
    && t'.experiments[d.experiment].winner == d.winner
    && block in t'.pointers
    && exists v :: v in t.experiments[d.experiment].variants && !v.isControl && d.winner == Some(v.id)
        && t'.pointers[block] == v.versionId
  }

  /** Of all protocol steps only a commit moves a block's pointer, and then it moves only the block of a
      running experiment, to the version of the winner in the row written by the same step. */
  lemma OnlyWinnersRepoint(s: State, step: Step, hash: Hash, block: nat)
    requires Inv(s, hash) && !step.Edit? && block in s.tables.pointers
    ensures var t, t' := s.tables, Next(s, step, hash).tables;
            block in t'.pointers
                && (t'.pointers[block] != t.pointers[block] ==> exists d :: RepointedBy(t, t', block, d))
  {
    hide Next, ValidDecision, ValidEvent, WellFormed, OncePerExperiment, DecisionsMatchStatus, OneRunningPerBlock,
        OneConversion, RepointedBy;
    if step.Commit? && step.actor in s.readers && Runs(s.tables, s.readers[step.actor].experiment) {
      CommitRepoints(s, step.actor, hash, block);
    } else {
      PointersMove(s, step, hash);
    }
  }

  lemma CommitRepoints(s: State, actor: nat, hash: Hash, block: nat)
    requires actor in s.readers && Runs(s.tables, s.readers[actor].experiment)
        && ValidDecision(s.tables, s.readers[actor])
    requires block in s.tables.pointers
    ensures var t, t' := s.tables, Next(s, Commit(actor), hash).tables;
            block in t'.pointers
                && (t'.pointers[block] != t.pointers[block] ==> RepointedBy(t, t', block, s.readers[actor]))
  {
    hide Next, ValidDecision;
    CommitRuns(s, actor, hash);
    WinnerIsChallenger(s.tables, s.readers[actor]);
  }

  lemma WinnerIsChallenger(t: Tables, d: Decision)
    requires ValidDecision(t, d)
    ensures d.experiment in t.experiments && d.winner.Some? == d.promoted.Some?
    ensures d.winner.Some? ==> exists v :: v in t.experiments[d.experiment].variants && !v.isControl
                                        && d.winner == Some(v.id) && d.promoted == Some(v.versionId)
  {
    hide Backed, WellFormed;
  }

  lemma PointersMove(s: State, step: Step, hash: Hash)
    requires !step.Edit?
    requires step.Commit? && step.actor in s.readers ==> !Runs(s.tables, s.readers[step.actor].experiment)
    ensures Next(s, step, hash).tables.pointers == s.tables.pointers
  {
    hide Choice, Admitted, WellFormed, FindControl;
  }

  lemma CommitRuns(s: State, actor: nat, hash: Hash)
    requires actor in s.readers && Runs(s.tables, s.readers[actor].experiment)
    ensures var t, t', d := s.tables, Next(s, Commit(actor), hash).tables, s.readers[actor];
            && t'.decisions == t.decisions + [d]
            && d.experiment in t'.experiments && t'.experiments[d.experiment].status == Decided
                && t'.experiments[d.experiment].winner == d.winner
            && t'.pointers == if d.promoted.Some?
                then t.pointers[t.experiments[d.experiment].blockId := d.promoted.value] else t.pointers
  {
  }

  /** Every winner the auto-decider recorded, in any reachable state, had on the events it had read a
      probability of beating control at or above the threshold corrected for the looks taken, and the minimum
      sample (its own or control's), if those events kept the engine's arithmetic in range. */
  lemma AutoWinnersAreBacked(run: seq<State>, steps: seq<Step>, hash: Hash, n: nat, d: Decision)
    requires IsRun(run, steps, hash) && n <= |steps| && d in run[n].tables.decisions
    requires d.reader.AutoDecider? && d.winner.Some?
    ensures var t := run[n].tables;
            && d.experiment in t.experiments
            && var exp := t.experiments[d.experiment];
               && FindControl(exp.variants).Some? && d.seen <= |t.events|
               && (Countable(t.events[..d.seen], d.experiment, exp) ==>
                     var c := Stats(t.events[..d.seen], d.experiment, FindControl(exp.variants).value.id);
                     var w := Stats(t.events[..d.seen], d.experiment, d.winner.value);
                     var threshold := LiveReport(t.events[..d.seen], d.experiment, exp, 0).adjusted;
                     && InRange(c) && InRange(w) && d.confidence == Some(ProbBeats(c, w))
                     && ProbBeats(c, w) >= threshold
                     && (w.impressions >= exp.config.minSample || c.impressions >= exp.config.minSample)
                     && (exp.config.confidenceThreshold <= 1.0 ==> threshold >= exp.config.confidenceThreshold))
  {
    hide Next, Stats, ProbBeats, FindControl, Others, Countable;
    RunKeepsInv(run, steps, hash, n);
    assert ValidDecision(run[n].tables, d);
  }

  // ----- the samples partition the visitors

  lemma SameIdSameVariant(variants: seq<Variant>, v: Variant, w: Variant)
    requires DistinctIds(variants)
    requires v in variants && w in variants && v.id == w.id
    ensures v == w
  {
    var i :| 0 <= i < |variants| && variants[i] == v;
    var j :| 0 <= j < |variants| && variants[j] == w;
    assert i == j;
  }

  /** All events of one visitor in one experiment carry one variant and one version. */
  lemma OneVariantPerVisitor(s: State, hash: Hash, x: Event, y: Event)
    requires Inv(s, hash) && x in s.tables.events && y in s.tables.events
    requires x.experiment == y.experiment && x.visitor == y.visitor
    ensures x.variant == y.variant && x.version == y.version
  {
    hide FindControl, Others, AssignedVariant;
    assert ValidEvent(s.tables, x, hash) && ValidEvent(s.tables, y, hash);
    var variants := s.tables.experiments[x.experiment].variants;
    var v :| v in variants && v.id == x.variant && v.versionId == x.version;
    var w :| w in variants && w.id == y.variant && w.versionId == y.version;
    SameIdSameVariant(variants, v, w);
  }

  function SumOfCounts(events: seq<Event>, e: nat, kind: EventKind, vs: seq<Variant>): nat {
    if vs == [] then 0 else |VisitorsOf(events, e, vs[0].id, kind)| + SumOfCounts(events, e, kind, vs[1..])
  }

  ghost predicate Listed(vs: seq<Variant>, id: nat) {
    exists v :: v in vs && v.id == id
  }

  ghost function VisitorsAmong(events: seq<Event>, e: nat, kind: EventKind, vs: seq<Variant>): set<nat> {
    set ev | ev in events && ev.experiment == e && ev.kind == kind && Listed(vs, ev.variant) :: ev.visitor
  }

  ghost predicate OneVariantEach(events: seq<Event>) {
    forall x, y :: x in events && y in events && x.experiment == y.experiment && x.visitor == y.visitor ==>
        x.variant == y.variant
  }

  lemma ListedCons(vs: seq<Variant>, id: nat)
    requires vs != []
    ensures Listed(vs, id) <==> id == vs[0].id || Listed(vs[1..], id)
  {
    if Listed(vs, id) {
      var v :| v in vs && v.id == id;
      assert v == vs[0] || v in vs[1..];
    }
    if Listed(vs[1..], id) {
      var v :| v in vs[1..] && v.id == id;
      assert v in vs;
    }
    assert vs[0] in vs;
  }

  lemma AmongCons(events: seq<Event>, e: nat, kind: EventKind, vs: seq<Variant>)
    requires OneVariantEach(events) && vs != [] && DistinctIds(vs)
    ensures var first, others := VisitorsOf(events, e, vs[0].id, kind), VisitorsAmong(events, e, kind, vs[1..]);
            VisitorsAmong(events, e, kind, vs) == first + others && first !! others
  {
    hide Listed;
    forall id: nat ensures Listed(vs, id) <==> id == vs[0].id || Listed(vs[1..], id) {
      ListedCons(vs, id);
    }
    NotListedAgain(vs);
  }

  lemma NotListedAgain(vs: seq<Variant>)
    requires vs != [] && DistinctIds(vs)
    ensures !Listed(vs[1..], vs[0].id)
  {
  }

  lemma {:induction false} SumCountsVisitors(events: seq<Event>, e: nat, kind: EventKind, vs: seq<Variant>)
    requires OneVariantEach(events) && DistinctIds(vs)
    ensures SumOfCounts(events, e, kind, vs) == |VisitorsAmong(events, e, kind, vs)|
  {
    if vs == [] {
      assert VisitorsAmong(events, e, kind, vs) == {};
    } else {
      SumCountsVisitors(events, e, kind, vs[1..]);
      AmongCons(events, e, kind, vs);
    }
  }

  /** The per-variant sample counts of an experiment add up to its distinct visitors, and a variant's
      sample only holds visitors who were assigned to it. */
  lemma SamplesPartitionVisitors(s: State, hash: Hash, e: nat, kind: EventKind)
    requires Inv(s, hash) && e in s.tables.experiments
    ensures var exp, events := s.tables.experiments[e], s.tables.events;
            && SumOfCounts(events, e, kind, exp.variants) == |Visitors(events, e, kind)|
            && FindControl(exp.variants).Some?
            && forall id, u :: u in VisitorsOf(events, e, id, kind) ==> AssignedVariant(exp, hash(e, u)) == id
  {
    hide FindControl, Others, AssignedVariant;
    var exp, events := s.tables.experiments[e], s.tables.events;
    forall x, y | x in events && y in events && x.experiment == y.experiment && x.visitor == y.visitor
      ensures x.variant == y.variant
    {
      OneVariantPerVisitor(s, hash, x, y);
    }
    assert WellFormed(exp);
    SumCountsVisitors(events, e, kind, exp.variants);
    forall ev | ev in events && ev.experiment == e ensures Listed(exp.variants, ev.variant) {
      assert ValidEvent(s.tables, ev, hash);
    }
    assert VisitorsAmong(events, e, kind, exp.variants) == Visitors(events, e, kind);
  }

  function ConversionRows(events: seq<Event>, e: nat): nat {
    if events == [] then 0
    else
      var last := events[|events| - 1];
      ConversionRows(events[..|events| - 1], e) + if last.experiment == e && last.kind == Conversion then 1 else 0
  }

  lemma NewConverter(front: seq<Event>, last: Event, e: nat)
    requires OneConversion(front + [last]) && last.experiment == e && last.kind == Conversion
    ensures last.visitor !in Visitors(front, e, Conversion)
    ensures Visitors(front + [last], e, Conversion) == Visitors(front, e, Conversion) + {last.visitor}
  {
    var events := front + [last];
    forall i | 0 <= i < |front|
      ensures front[i].experiment != e || front[i].kind != Conversion || front[i].visitor != last.visitor
    {
      assert events[i] == front[i] && events[|front|] == last;
    }
  }

  lemma OtherEvent(front: seq<Event>, last: Event, e: nat)
    requires last.experiment != e || last.kind != Conversion
    ensures Visitors(front + [last], e, Conversion) == Visitors(front, e, Conversion)
  {
  }

  /** Each converting visitor has exactly one conversion row. */
  lemma {:induction false} OneRowPerConvert(events: seq<Event>, e: nat)
    requires OneConversion(events)
    ensures ConversionRows(events, e) == |Visitors(events, e, Conversion)|
  {
    if events == [] {
      assert Visitors(events, e, Conversion) == {};
    } else {
      var front, last := events[..|events| - 1], events[|events| - 1];
      assert events == front + [last];
      OneRowPerConvert(front, e);
      hide Visitors;
      if last.experiment == e && last.kind == Conversion {
        NewConverter(front, last, e);
      } else {
        OtherEvent(front, last, e);
      }
    }
  }

  ghost function CheckAndInsert(s: State, hash: Hash, e: nat, visitor: nat, kind: EventKind, submitted: nat): State {
    Next(Next(s, Check(0, e, visitor, kind, submitted), hash), Insert(0), hash)
  }

  /** A conversion is recorded without asking for an impression: two visitors of one variant who only
      convert leave a sample on which the engine's unsigned subtraction leaves its range. */
  lemma ConversionsNeedNoImpression(s: State, hash: Hash, e: nat, u: nat, w: nat)
    requires Runs(s.tables, e) && WellFormed(s.tables.experiments[e]) && s.tables.events == [] && u != w
    requires AssignedVariant(s.tables.experiments[e], hash(e, u))
        == AssignedVariant(s.tables.experiments[e], hash(e, w))
    ensures var id := AssignedVariant(s.tables.experiments[e], hash(e, u));
            var s' := CheckAndInsert(CheckAndInsert(s, hash, e, u, Conversion, id), hash, e, w, Conversion, id);
            Stats(s'.tables.events, e, id) == VariantStats(id, 0, 2) && !InRange(Stats(s'.tables.events, e, id))
  {
    hide FindControl, FindVariant, Others, AssignedVariant, CheckAndInsert;
    var exp := s.tables.experiments[e];
    var id := AssignedVariant(exp, hash(e, u));
    var s1 := CheckAndInsert(s, hash, e, u, Conversion, id);
    InsertsOne(s, hash, e, u);
    InsertsOne(s1, hash, e, w);
    var version := FindVariant(exp.variants, id).value.versionId;
    var x, y := Event(e, u, Conversion, id, version), Event(e, w, Conversion, id, version);
    assert s.tables.events + [x] + [y] == [x, y];
    TwoConverters(e, id, version, u, w);
  }

  /** A first conversion that credits the assigned variant gets in. */
  lemma InsertsOne(s: State, hash: Hash, e: nat, u: nat)
    requires Runs(s.tables, e) && WellFormed(s.tables.experiments[e])
    requires u !in Visitors(s.tables.events, e, Conversion)
    ensures var variants, id := s.tables.experiments[e].variants,
                                AssignedVariant(s.tables.experiments[e], hash(e, u));
            && FindVariant(variants, id).Some?
            && var x := Event(e, u, Conversion, id, FindVariant(variants, id).value.versionId);
               CheckAndInsert(s, hash, e, u, Conversion, id).tables == s.tables.(events := s.tables.events + [x])
  {
    hide FindControl, FindVariant, Others, AssignedVariant;
  }

  lemma TwoConverters(e: nat, id: nat, version: nat, u: nat, w: nat)
    requires u != w
    ensures var events := [Event(e, u, Conversion, id, version), Event(e, w, Conversion, id, version)];
            Stats(events, e, id) == VariantStats(id, 0, 2)
  {
    var events := [Event(e, u, Conversion, id, version), Event(e, w, Conversion, id, version)];
    assert VisitorsOf(events, e, id, Impression) == {};
    assert events[0] in events && events[1] in events;
    assert VisitorsOf(events, e, id, Conversion) == {u, w};
  }

  // ----- when the engine's arithmetic stays in range

  lemma SplitCount(s: set<nat>, r: set<nat>)
    ensures |s| == |s * r| + |s - r|
  {
    assert s == s * r + (s - r);
  }

  /** A variant's sample keeps the engine in range exactly when the visitors who only converted
      outnumber those who only looked by one at most. */
  lemma RangeIff(events: seq<Event>, e: nat, variant: nat)
    ensures var i, c := VisitorsOf(events, e, variant, Impression), VisitorsOf(events, e, variant, Conversion);
            InRange(Stats(events, e, variant)) <==> |c - i| <= 1 + |i - c|
  {
    var i, c := VisitorsOf(events, e, variant, Impression), VisitorsOf(events, e, variant, Conversion);
    SplitCount(i, c);
    SplitCount(c, i);
    assert i * c == c * i;
  }

  /** The visitor of an event had an impression in that experiment. */
  ghost predicate Impressed(events: seq<Event>, ev: Event) {
    exists x :: x in events && x.kind == Impression && x.experiment == ev.experiment && x.visitor == ev.visitor
  }

  ghost predicate AllImpressed(events: seq<Event>) {
    forall ev :: ev in events && ev.kind == Conversion ==> Impressed(events, ev)
  }

  /** No step of the run inserts a conversion whose visitor has no impression yet. */
  ghost predicate AsksForImpressions(run: seq<State>, steps: seq<Step>) {
    && |run| == |steps| + 1
    && forall i :: 0 <= i < |steps| && steps[i].Insert? && steps[i].actor in run[i].writers
                   && run[i].writers[steps[i].actor].kind == Conversion ==>
         Impressed(run[i].tables.events, run[i].writers[steps[i].actor])
  }

  lemma InsertKeepsImpressed(s: State, step: Step, hash: Hash)
    requires AllImpressed(s.tables.events)
    requires step.Insert? && step.actor in s.writers && s.writers[step.actor].kind == Conversion ==>
               Impressed(s.tables.events, s.writers[step.actor])
    ensures AllImpressed(Next(s, step, hash).tables.events)
  {
    hide Next;
    var events, events' := s.tables.events, Next(s, step, hash).tables.events;
    InsertAppends(s, step, hash);
    forall ev | ev in events' && ev.kind == Conversion ensures Impressed(events', ev) {
      assert Impressed(events, ev);
      var x :| x in events && x.kind == Impression && x.experiment == ev.experiment && x.visitor == ev.visitor;
      assert x in events';
    }
  }

  lemma InsertAppends(s: State, step: Step, hash: Hash)
    ensures var events, events' := s.tables.events, Next(s, step, hash).tables.events;
            events' == events
            || (step.Insert? && step.actor in s.writers && events' == events + [s.writers[step.actor]])
  {
    hide Next;
    OnlyInsertRecords(s, step, hash);
    if step.Insert? { InsertRecords(s, step.actor, hash); }
  }

  lemma InsertRecords(s: State, actor: nat, hash: Hash)
    ensures Next(s, Insert(actor), hash).tables ==
            if actor in s.writers then Recorded(s.tables, s.writers[actor]) else s.tables
  {
  }

  lemma {:induction false} RunKeepsImpressed(run: seq<State>, steps: seq<Step>, hash: Hash, n: nat)
    requires IsRun(run, steps, hash) && AsksForImpressions(run, steps) && n <= |steps|
    ensures AllImpressed(run[n].tables.events)
  {
    hide Next, Impressed;
    if n > 0 {
      RunKeepsImpressed(run, steps, hash, n - 1);
      InsertKeepsImpressed(run[n - 1], steps[n - 1], hash);
    }
  }

  /** If a conversion were only accepted after an impression, every reachable state would keep the
      engine's arithmetic in range. */
  lemma ImpressionsFirstKeepRange(run: seq<State>, steps: seq<Step>, hash: Hash, n: nat, e: nat)
    requires IsRun(run, steps, hash) && AsksForImpressions(run, steps) && n <= |steps|
    requires e in run[n].tables.experiments
    ensures Countable(run[n].tables.events, e, run[n].tables.experiments[e])
  {
    hide Next, Inv, IsRun;
    RunKeepsImpressed(run, steps, hash, n);
    RunKeepsInv(run, steps, hash, n);
    var events := run[n].tables.events;
    forall v | v in run[n].tables.experiments[e].variants ensures InRange(Stats(events, e, v.id)) {
      ConvertersLooked(run[n], hash, e, v.id);
      RangeIff(events, e, v.id);
    }
  }

  lemma ConvertersLooked(s: State, hash: Hash, e: nat, variant: nat)
    requires Inv(s, hash) && AllImpressed(s.tables.events)
    ensures VisitorsOf(s.tables.events, e, variant, Conversion) - VisitorsOf(s.tables.events, e, variant, Impression)
        == {}
  {
    hide Inv;
    var events := s.tables.events;
    forall ev | ev in events && ev.experiment == e && ev.kind == Conversion && ev.variant == variant
      ensures ev.visitor in VisitorsOf(events, e, variant, Impression)
    {
      assert Impressed(events, ev);
      var x :| x in events && x.kind == Impression && x.experiment == ev.experiment && x.visitor == ev.visitor;
      OneVariantPerVisitor(s, hash, x, ev);
    }
  }
}
