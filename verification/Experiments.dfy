/** The tables of the experiment protocol, and the transactions on them. */
module Experiments {
  import opened Options
  import opened Verdict
  import opened TrafficSplit

  datatype Status = Draft | Running | Decided | Stopped

  datatype Variant = Variant(id: nat, versionId: nat, weight: real, isControl: bool)

  datatype Experiment = Experiment(
    blockId: nat, variants: seq<Variant>, trafficWeight: real, config: EngineConfig,
    status: Status, startedAt: Option<int>, decision: string, winner: Option<nat>)

  /** Who asks for a decision. */
  datatype Reader = AutoDecider | ManualPromote | ManualConclude

  /** A conclusion.  The reader, and how many events had been recorded when the reader looked, are
      bookkeeping of the model. */
  datatype Decision = Decision(experiment: nat, winner: Option<nat>, promoted: Option<nat>, confidence: Option<real>,
                               reader: Reader, seen: nat)

  datatype EventKind = Impression | Conversion

  datatype Event = Event(experiment: nat, visitor: nat, kind: EventKind, variant: nat, version: nat)

  datatype Tables = Tables(experiments: map<nat, Experiment>, decisions: seq<Decision>, pointers: map<nat, nat>,
      events: seq<Event>)

  // ----- assignment

  function FindControl(variants: seq<Variant>): (c: Option<Variant>)
    ensures c.Some? ==> c.value in variants && c.value.isControl
    ensures c.None? ==> forall v :: v in variants ==> !v.isControl
  {
    if variants == [] then None
    else if variants[0].isControl then Some(variants[0])
    else FindControl(variants[1..])
  }

  function FindVariant(variants: seq<Variant>, id: nat): (c: Option<Variant>)
    ensures c.Some? ==> c.value in variants && c.value.id == id
    ensures c.None? ==> forall v :: v in variants ==> v.id != id
  {
    if variants == [] then None
    else if variants[0].id == id then Some(variants[0])
    else FindVariant(variants[1..], id)
  }

  function Others(variants: seq<Variant>): (vs: seq<Variant>)
    ensures forall v :: v in vs <==> v in variants && !v.isControl
  {
    if variants == [] then []
    else (if variants[0].isControl then [] else [variants[0]]) + Others(variants[1..])
  }

  function Candidates(vs: seq<Variant>): (cs: seq<Candidate>)
    ensures |cs| == |vs|
    ensures forall i :: 0 <= i < |vs| ==> cs[i] == Candidate(vs[i].id, vs[i].weight)
  {
    seq(|vs|, i requires 0 <= i < |vs| => Candidate(vs[i].id, vs[i].weight))
  }

  ghost predicate DistinctIds(vs: seq<Variant>) {
    forall i, j :: 0 <= i < j < |vs| ==> vs[i].id != vs[j].id
  }

  /** What creation guarantees and nothing changes later. */
  ghost predicate WellFormed(exp: Experiment) {
    && FindControl(exp.variants).Some?
    && Others(exp.variants) != []
    && DistinctIds(exp.variants)
    && (forall v :: v in Others(exp.variants) ==> v.weight > 0.0)
    && 0.0 <= exp.trafficWeight <= 100.0
  }

  function ControlShare(trafficWeight: real): real {
    1.0 - Unit(trafficWeight / 100.0)
  }

  /** The variant a visitor with the given hash is handed. */
  function AssignedVariant(exp: Experiment, hash: nat): (id: nat)
    requires FindControl(exp.variants).Some?
    ensures exists v :: v in exp.variants && v.id == id
  {
    var others := Others(exp.variants);
    var slot := Slot(HashUnit(hash), ControlShare(exp.trafficWeight), Candidates(others));
    var control := FindControl(exp.variants).value;
    if slot.Some? then assert others[slot.value] in exp.variants; others[slot.value].id else control.id
  }

  method ComputeAssignedVariant(exp: Experiment, hash: nat) returns (id: nat)
    requires FindControl(exp.variants).Some?
    ensures id == AssignedVariant(exp, hash)
  {
    id := AssignVariant(hash, FindControl(exp.variants).value.id, ControlShare(exp.trafficWeight),
        Candidates(Others(exp.variants)));
  }

  // ----- more traffic

  lemma {:induction false} OthersDistinct(variants: seq<Variant>)
    requires DistinctIds(variants)
    ensures DistinctIds(Others(variants))
  {
    if variants != [] {
      var tail := variants[1..];
      OthersDistinct(tail);
      forall v | v in Others(tail) ensures v.id != variants[0].id {
        var k :| 0 <= k < |tail| && tail[k] == v;
        assert variants[k + 1] == v;
      }
      hide Others;
      ConsDistinct(variants[0], Others(tail));
    }
  }

  lemma ConsDistinct(v: Variant, vs: seq<Variant>)
    requires DistinctIds(vs) && forall w :: w in vs ==> w.id != v.id
    ensures DistinctIds([v] + vs)
  {
  }

  lemma ControlApart(variants: seq<Variant>, i: nat)
    requires DistinctIds(variants)
    requires FindControl(variants).Some? && i < |Others(variants)|
    ensures Others(variants)[i].id != FindControl(variants).value.id
  {
    hide FindControl, Others;
    var v, w := Others(variants)[i], FindControl(variants).value;
    assert v in Others(variants);
    var j :| 0 <= j < |variants| && variants[j] == v;
    var k :| 0 <= k < |variants| && variants[k] == w;
    assert j != k;
  }

  lemma {:induction false} PositiveTotal(vs: seq<Candidate>)
    requires forall v :: v in vs ==> v.weight > 0.0
    ensures TotalWeight(vs) >= 0.0 && (vs != [] ==> TotalWeight(vs) > 0.0)
  {
    if vs != [] {
      PositiveTotal(vs[..|vs| - 1]);
      assert vs[|vs| - 1] in vs;
    }
  }

  lemma OthersWeighted(exp: Experiment)
    requires WellFormed(exp)
    ensures Weighted(Candidates(Others(exp.variants)))
  {
    hide FindControl, Others, TotalWeight;
    var others := Others(exp.variants);
    var vs := Candidates(others);
    forall v | v in vs ensures v.weight > 0.0 {
      var i :| 0 <= i < |vs| && vs[i] == v;
      assert others[i] in others;
    }
    PositiveTotal(vs);
  }

  lemma ShareFalls(w: real, w': real)
    requires 0.0 <= w <= w' <= 100.0
    ensures 0.0 <= ControlShare(w') <= ControlShare(w) <= 1.0
  {
    assert 0.0 <= w / 100.0 <= w' / 100.0 <= 1.0;
  }

  /** A visitor sees the i-th challenger exactly when that is the slot of the visitor's hash. */
  lemma SeesIff(exp: Experiment, hash: nat, i: nat)
    requires WellFormed(exp) && i < |Others(exp.variants)|
    ensures AssignedVariant(exp, hash) == Others(exp.variants)[i].id
       <==> Slot(HashUnit(hash), ControlShare(exp.trafficWeight), Candidates(Others(exp.variants))) == Some(i)
  {
    hide FindControl, Others, Slot, HashUnit;
    OthersDistinct(exp.variants);
    ControlApart(exp.variants, i);
  }

  /** Raising an experiment's traffic weight never moves a visitor of a challenger back to control or to an
      earlier challenger. */
  lemma MoreTrafficKeepsChallengers(exp: Experiment, weight: real, hash: nat, i: nat)
    requires WellFormed(exp) && exp.trafficWeight <= weight <= 100.0
    requires i < |Others(exp.variants)| && AssignedVariant(exp, hash) == Others(exp.variants)[i].id
    ensures exists j ::
              && i <= j < |Others(exp.variants)|
              && AssignedVariant(exp.(trafficWeight := weight), hash) == Others(exp.variants)[j].id
  {
    hide FindControl, Others, Slot, AssignedVariant, ControlShare, Weighted;
    var others, exp' := Others(exp.variants), exp.(trafficWeight := weight);
    var vs := Candidates(others);
    OthersWeighted(exp);
    ShareFalls(exp.trafficWeight, weight);
    MoreTrafficMovesForward(HashUnit(hash), ControlShare(exp.trafficWeight), ControlShare(weight), vs);
    SeesIff(exp, hash, i);
    var j := Slot(HashUnit(hash), ControlShare(weight), vs).value;
    SeesIff(exp', hash, j);
  }

  // ----- samples

  function Visitors(events: seq<Event>, e: nat, kind: EventKind): set<nat> {
    set ev | ev in events && ev.experiment == e && ev.kind == kind :: ev.visitor
  }

  /** The distinct visitors of one variant: what the grouped count counts. */
  function VisitorsOf(events: seq<Event>, e: nat, variant: nat, kind: EventKind): set<nat> {
    set ev | ev in events && ev.experiment == e && ev.kind == kind && ev.variant == variant :: ev.visitor
  }

  function Stats(events: seq<Event>, e: nat, variant: nat): VariantStats {
    VariantStats(variant, |VisitorsOf(events, e, variant, Impression)|, |VisitorsOf(events, e, variant, Conversion)|)
  }

  function StatsOfAll(events: seq<Event>, e: nat, vs: seq<Variant>): (ss: seq<VariantStats>)
    ensures |ss| == |vs|
    ensures forall i :: 0 <= i < |vs| ==> ss[i] == Stats(events, e, vs[i].id)
  {
    seq(|vs|, i requires 0 <= i < |vs| => Stats(events, e, vs[i].id))
  }

  /** The engine's unsigned arithmetic stays in range for every variant. */
  predicate Countable(events: seq<Event>, e: nat, exp: Experiment) {
    forall v :: v in exp.variants ==> InRange(Stats(events, e, v.id))
  }

  function LiveReport(events: seq<Event>, e: nat, exp: Experiment, elapsedMs: int): ExperimentReport
    requires FindControl(exp.variants).Some? && Countable(events, e, exp)
  {
    Analyze(Stats(events, e, FindControl(exp.variants).value.id), StatsOfAll(events, e, Others(exp.variants)),
        exp.config, elapsedMs)
  }

  /** What a report says when the engine's unsigned arithmetic leaves its range: nothing is promised
      about it, except that a challenger it names is one of the experiment's. */
  datatype Guess = Nothing | Nobody | Challenger(id: nat, confidence: Option<real>)

  /** The decision a reader arrives at from what it reads; None is to keep collecting, or to fail. */
  function Outcome(events: seq<Event>, e: nat, exp: Experiment, reader: Reader, elapsedMs: int,
      guess: Guess): Option<Decision>
    requires FindControl(exp.variants).Some?
  {
    if reader.ManualConclude? then Some(Decision(e, None, None, None, reader, |events|))
    else if Countable(events, e, exp) then ReportedOutcome(events, e, exp, reader, elapsedMs)
    else GuessedOutcome(e, exp, reader, guess, |events|)
  }

  function ReportedOutcome(events: seq<Event>, e: nat, exp: Experiment, reader: Reader,
      elapsedMs: int): Option<Decision>
    requires FindControl(exp.variants).Some? && Countable(events, e, exp)
  {
    var report := LiveReport(events, e, exp, elapsedMs);
    if reader.ManualPromote? then
      match Best(report.variants)
      case Some(best) => WinnerOutcome(e, exp, best.variantId, best.prob, reader, |events|)
      case None => None
    else
      match report.recommendation
      case Promote(id, confidence) => WinnerOutcome(e, exp, id, Some(confidence), reader, |events|)
      case NoWinner => Some(Decision(e, None, None, None, reader, |events|))
      case Continue => None
  }

  function GuessedOutcome(e: nat, exp: Experiment, reader: Reader, guess: Guess, seen: nat): Option<Decision> {
    match guess
    case Nothing => None
    case Nobody => if reader.AutoDecider? then Some(Decision(e, None, None, None, reader, seen)) else None
    case Challenger(id, confidence) =>
      if exists v :: v in Others(exp.variants) && v.id == id
      then WinnerOutcome(e, exp, id, confidence, reader, seen)
      else None
  }

  function WinnerOutcome(e: nat, exp: Experiment, id: nat, confidence: Option<real>, reader: Reader,
      seen: nat): Option<Decision> {
    match FindVariant(exp.variants, id)
    case Some(v) => Some(Decision(e, Some(id), Some(v.versionId), confidence, reader, seen))
    case None => None
  }

  // ----- transactions

  function Started(t: Tables, e: nat, now: int): Option<Tables> {
    if e in t.experiments && t.experiments[e].status == Draft
       && forall x :: x in t.experiments && x != e ==>
            t.experiments[x].status != Running || t.experiments[x].blockId != t.experiments[e].blockId
    then
      var exp := t.experiments[e].(status := Running, startedAt := Some(now), decision := "", winner := None);
      Some(t.(experiments := t.experiments[e := exp]))
    else None
  }

  function WithStatus(t: Tables, e: nat, status: Status, decision: string, winner: Option<nat>): Tables
    requires e in t.experiments
  {
    t.(experiments := t.experiments[e := t.experiments[e].(status := status, decision := decision, winner := winner)])
  }

  function HaltedTables(t: Tables, e: nat): Option<Tables> {
    if e in t.experiments then Some(WithStatus(t, e, Stopped, "stopped", t.experiments[e].winner)) else None
  }

  function DecisionName(d: Decision): string {
    if d.winner.Some? then "winner" else "no_improvement"
  }

  function Concluded(t: Tables, d: Decision): Option<Tables> {
    if d.experiment in t.experiments && t.experiments[d.experiment].status == Running
    then
      var t' := WithStatus(t, d.experiment, Decided, DecisionName(d), d.winner).(decisions := t.decisions + [d]);
      Some(if d.promoted.Some?
          then t'.(pointers := t.pointers[t.experiments[d.experiment].blockId := d.promoted.value]) else t')
    else None
  }

  /** One row per converting visitor: a second conversion is ignored. */
  function Recorded(t: Tables, ev: Event): Tables {
    if ev.kind == Conversion && exists x ::
         x in t.events && x.kind == Conversion && x.experiment == ev.experiment && x.visitor == ev.visitor
    then t
    else t.(events := t.events + [ev])
  }

  /** The attribution check in front of an insert. */
  function Admitted(t: Tables, hash: (nat, nat) -> nat, e: nat, visitor: nat, kind: EventKind,
      submitted: nat): Option<Event> {
    if e in t.experiments && t.experiments[e].status == Running && FindControl(t.experiments[e].variants).Some?
       && AssignedVariant(t.experiments[e], hash(e, visitor)) == submitted
           && FindVariant(t.experiments[e].variants, submitted).Some?
    then Some(Event(e, visitor, kind, submitted, FindVariant(t.experiments[e].variants, submitted).value.versionId))
    else None
  }

  class Repository {
    var tables: Tables

    /** UPDATE .. WHERE id = e AND status = 'draft', under one running experiment per block. */
    method StartExperiment(e: nat, now: int) returns (ok: bool)
      modifies this
      ensures ok <==> Started(old(tables), e, now).Some?
      ensures tables == if ok then Started(old(tables), e, now).value else old(tables)
    {
      if e !in tables.experiments || tables.experiments[e].status != Draft {
        return false;
      }
      var exp := tables.experiments[e].(status := Running, startedAt := Some(now), decision := "", winner := None);
      if exists x :: x in tables.experiments && x != e && tables.experiments[x].status == Running
          && tables.experiments[x].blockId == exp.blockId {
        return false;
      }
      tables := tables.(experiments := tables.experiments[e := exp]);
      ok := true;
    }

    /** UPDATE .. WHERE id = e: no guard on the status. */
    method StopExperiment(e: nat) returns (ok: bool)
      modifies this
      ensures ok <==> HaltedTables(old(tables), e).Some?
      ensures tables == if ok then HaltedTables(old(tables), e).value else old(tables)
    {
      ok := e in tables.experiments;
      if ok {
        var exp := tables.experiments[e];
        tables := tables.(experiments := tables.experiments[e := exp.(status := Stopped, decision := "stopped")]);
      }
    }

    /** Insert the row, flip the status if it is still running, roll back if it is not, repoint. */
    method ConcludeExperiment(d: Decision) returns (ok: bool)
      modifies this
      ensures ok <==> Concluded(old(tables), d).Some?
      ensures tables == if ok then Concluded(old(tables), d).value else old(tables)
    {
      var before := tables;
      tables := tables.(decisions := tables.decisions + [d]);
      var marked := d.experiment in tables.experiments && tables.experiments[d.experiment].status == Running;
      if !marked {
        tables := before;
        return false;
      }
      var exp := tables.experiments[d.experiment];
      tables := tables.(experiments := tables.experiments[d.experiment := exp.(status := Decided,
          decision := DecisionName(d), winner := d.winner)]);
      if d.promoted.Some? {
        tables := tables.(pointers := tables.pointers[exp.blockId := d.promoted.value]);
      }
      ok := true;
    }

    /** INSERT .. ON CONFLICT DO NOTHING. */
    method RecordAnalyticsEvent(ev: Event)
      modifies this
      ensures tables == Recorded(old(tables), ev)
    {
      if ev.kind == Conversion {
        if exists x :: x in tables.events && x.kind == Conversion && x.experiment == ev.experiment
            && x.visitor == ev.visitor {
          return;
        }
      }
      tables := tables.(events := tables.events + [ev]);
    }
  }

  // ----- the article overlay

  datatype Shown = Shown(experiment: nat, variant: nat)

  /** What the first k running experiments put on the page. */
  function Overlay(running: seq<(nat, Experiment)>, k: nat, hash: (nat, nat) -> nat, visitor: nat): map<nat, Shown>
    requires k <= |running| && forall p :: p in running ==> FindControl(p.1.variants).Some?
  {
    if k == 0 then map[]
    else
      var before, (e, exp) := Overlay(running, k - 1, hash, visitor), running[k - 1];
      if exp.blockId in before then before
      else before[exp.blockId := Shown(e, AssignedVariant(exp, hash(e, visitor)))]
  }

  lemma {:induction false} OverlayCovers(running: seq<(nat, Experiment)>, k: nat, hash: (nat, nat) -> nat,
                                         visitor: nat, b: nat)
    requires k <= |running| && forall p :: p in running ==> FindControl(p.1.variants).Some?
    ensures b in Overlay(running, k, hash, visitor) <==> exists p :: p in running[..k] && p.1.blockId == b
  {
    hide AssignedVariant, FindControl;
    if k > 0 {
      OverlayCovers(running, k - 1, hash, visitor, b);
      assert running[..k] == running[..k - 1] + [running[k - 1]];
    }
  }

  /** The first experiment on a block stays. */
  lemma {:induction false} FirstStays(running: seq<(nat, Experiment)>, k: nat, hash: (nat, nat) -> nat, visitor: nat,
                                      i: nat)
    requires i < k <= |running| && forall p :: p in running ==> FindControl(p.1.variants).Some?
    requires forall j :: 0 <= j < i ==> running[j].1.blockId != running[i].1.blockId
    ensures var b, overlay := running[i].1.blockId, Overlay(running, k, hash, visitor);
            b in overlay
                && overlay[b] == Shown(running[i].0, AssignedVariant(running[i].1, hash(running[i].0, visitor)))
  {
    hide AssignedVariant, FindControl;
    if k == i + 1 {
      OverlayCovers(running, i, hash, visitor, running[i].1.blockId);
    } else {
      FirstStays(running, k - 1, hash, visitor, i);
    }
  }

  lemma OverlayOfAll(running: seq<(nat, Experiment)>, hash: (nat, nat) -> nat, visitor: nat)
    requires forall p :: p in running ==> FindControl(p.1.variants).Some?
    ensures var overlay := Overlay(running, |running|, hash, visitor);
            && (forall b :: b in overlay <==> exists p :: p in running && p.1.blockId == b)
            && forall i ::
                 && 0 <= i < |running|
                 && (forall j :: 0 <= j < i ==> running[j].1.blockId != running[i].1.blockId) ==>
                 && running[i].1.blockId in overlay
                 && overlay[running[i].1.blockId]
                     == Shown(running[i].0, AssignedVariant(running[i].1, hash(running[i].0, visitor)))
  {
    hide AssignedVariant, FindControl, Overlay;
    var overlay := Overlay(running, |running|, hash, visitor);
    forall b ensures b in overlay <==> exists p :: p in running && p.1.blockId == b {
      OverlayCovers(running, |running|, hash, visitor, b);
      assert running[..|running|] == running;
    }
    forall i | 0 <= i < |running| && (forall j :: 0 <= j < i ==> running[j].1.blockId != running[i].1.blockId)
      ensures running[i].1.blockId in overlay
      ensures overlay[running[i].1.blockId]
           == Shown(running[i].0, AssignedVariant(running[i].1, hash(running[i].0, visitor)))
    {
      FirstStays(running, |running|, hash, visitor, i);
    }
  }

  /** The first experiment on each block decides what its visitor sees. */
  method AssignedVariants(running: seq<(nat, Experiment)>, hash: (nat, nat) -> nat, visitor: nat)
      returns (overlay: map<nat, Shown>)
    requires forall p :: p in running ==> FindControl(p.1.variants).Some?
    ensures forall b :: b in overlay <==> exists p :: p in running && p.1.blockId == b
    ensures forall i ::
              && 0 <= i < |running|
              && (forall j :: 0 <= j < i ==> running[j].1.blockId != running[i].1.blockId) ==>
              overlay[running[i].1.blockId]
                  == Shown(running[i].0, AssignedVariant(running[i].1, hash(running[i].0, visitor)))
  {
    hide AssignedVariant, FindControl;
    overlay := map[];
    for k := 0 to |running|
      invariant overlay == Overlay(running, k, hash, visitor)
    {
      var (e, exp) := running[k];
      assert running[k] in running;
      var chosen := ComputeAssignedVariant(exp, hash(e, visitor));
      if exp.blockId !in overlay {
        overlay := overlay[exp.blockId := Shown(e, chosen)];
      }
    }
    OverlayOfAll(running, hash, visitor);
  }
}
