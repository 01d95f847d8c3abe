/** The fixed-window rate limiter. */
module RateLimiter {
  const WINDOW_MS: int := 60_000

  datatype Window = Window(start: int, count: nat)

  type Windows = map<string, Window>

  datatype Operation = Allow(key: string, now: int) | Peek(key: string, now: int) | Record(key: string, now: int)

  /** The window of a key, opened or reset at need.  Saturating the subtraction at the ends of the 64-bit
      range does not change the comparison. */
  function Current(w: Windows, key: string, now: int): Window {
    if key in w && now - w[key].start < WINDOW_MS then w[key] else Window(now, 0)
  }

  /** The windows after an operation, and its answer (a record answers nothing). */
  function Perform(w: Windows, max: nat, op: Operation): (Windows, bool) {
    var c := Current(w, op.key, op.now);
    match op
    case Allow(key, now) => (w[key := if c.count < max then c.(count := c.count + 1) else c], c.count < max)
    case Peek(key, now) => (w[key := c], c.count < max)
    case Record(key, now) => (w[key := c.(count := if c.count + 1 < max then c.count + 1 else max)], false)
  }

  class Limiter {
    var windows: Windows
    const max: nat

    constructor (max: nat)
      ensures this.max == max && windows == map[]
    {
      this.max, windows := max, map[];
    }

    /** Finds or opens the window of the key, and resets it when it has run out. */
    method OpenWindow(key: string, now: int) returns (window: Window)
      modifies this
      ensures window == Current(old(windows), key, now) && windows == old(windows)[key := window]
    {
      if key !in windows {
        windows := windows[key := Window(now, 0)];
      }
      if now - windows[key].start >= WINDOW_MS {
        windows := windows[key := Window(now, 0)];
      }
      window := windows[key];
    }

    method AllowRequest(key: string, now: int) returns (allowed: bool)
      modifies this
      ensures (windows, allowed) == Perform(old(windows), max, Allow(key, now))
    {
      var window := OpenWindow(key, now);
      if window.count >= max {
        return false;
      }
      windows := windows[key := window.(count := window.count + 1)];
      allowed := true;
      assert windows == old(windows)[key := window.(count := window.count + 1)];
    }

    method PeekRequest(key: string, now: int) returns (allowed: bool)
      modifies this
      ensures (windows, allowed) == Perform(old(windows), max, Peek(key, now))
    {
      var window := OpenWindow(key, now);
      allowed := window.count < max;
    }

    method RecordFailure(key: string, now: int)
      modifies this
      ensures windows == Perform(old(windows), max, Record(key, now)).0
    {
      var window := OpenWindow(key, now);
      var count := window.count + 1;
      windows := windows[key := window.(count := if count < max then count else max)];
      assert windows == old(windows)[key := window.(count := if count < max then count else max)];
    }
  }

  // ----- whole runs

  function Run(w: Windows, max: nat, ops: seq<Operation>): Windows {
    if ops == [] then w else Perform(Run(w, max, ops[..|ops| - 1]), max, ops[|ops| - 1]).0
  }

  /** The answer to the i-th operation of a run from an empty limiter. */
  function Answer(max: nat, ops: seq<Operation>, i: nat): bool
    requires i < |ops|
  {
    Perform(Run(map[], max, ops[..i]), max, ops[i]).1
  }

  ghost predicate ClockRuns(ops: seq<Operation>) {
    forall i, j :: 0 <= i < j < |ops| ==> ops[i].now <= ops[j].now
  }

  /** What an operation leaves in the key's window. */
  function Left(c: Window, max: nat, op: Operation): Window {
    match op
    case Allow(_, _) => if c.count < max then c.(count := c.count + 1) else c
    case Peek(_, _) => c
    case Record(_, _) => c.(count := if c.count + 1 < max then c.count + 1 else max)
  }

  lemma PerformAt(w: Windows, max: nat, op: Operation)
    ensures Perform(w, max, op).0 == w[op.key := Left(Current(w, op.key, op.now), max, op)]
    ensures Perform(w, max, op).1 == (!op.Record? && Current(w, op.key, op.now).count < max)
  {
  }

  lemma RunSnoc(w: Windows, max: nat, ops: seq<Operation>, n: nat)
    requires n < |ops|
    ensures Run(w, max, ops[..n + 1]) == Perform(Run(w, max, ops[..n]), max, ops[n]).0
  {
    assert ops[..n + 1][..n] == ops[..n];
  }

  ghost predicate Bounded(w: Windows, max: nat) {
    forall key :: key in w ==> w[key].count <= max
  }

  /** No count ever exceeds the limit, whatever the clock does. */
  lemma {:induction false} CountsBounded(max: nat, ops: seq<Operation>)
    ensures Bounded(Run(map[], max, ops), max)
  {
    if ops != [] {
      var front, last := Run(map[], max, ops[..|ops| - 1]), ops[|ops| - 1];
      CountsBounded(max, ops[..|ops| - 1]);
      PerformAt(front, max, last);
      assert Current(front, last.key, last.now).count <= max;
    }
  }

  /** How many requests of a key were let through at times in [from, from + 60 s). */
  function Admitted(max: nat, ops: seq<Operation>, key: string, from: int, n: nat): nat
    requires n <= |ops|
  {
    if n == 0 then 0
    else
      var op := ops[n - 1];
      Admitted(max, ops, key, from, n - 1) +
      if op.Allow? && op.key == key && from <= op.now < from + 60_000 && Answer(max, ops, n - 1) then 1 else 0
  }

  /** Admitted requests of the interval are those of the window that was open when it began, and those of at
      most one window opened inside it: a of them after an operation at time last. */
  ghost predicate Explained(w: Windows, a: nat, max: nat, key: string, from: int, last: int) {
    && (key !in w || last < from ==> a == 0)
    && (key in w ==>
          && w[key].count <= max && w[key].start <= last
          && a <= if w[key].start < from then w[key].count else max + w[key].count)
  }

  lemma ExplainedNext(w: Windows, a: nat, max: nat, key: string, from: int, last: int, op: Operation)
    requires Explained(w, a, max, key, from, last) && last <= op.now < from + WINDOW_MS
    ensures var (w', allowed) := Perform(w, max, op);
            var one := if op.Allow? && op.key == key && from <= op.now && allowed then 1 else 0;
            Explained(w', a + one, max, key, from, op.now)
  {
    hide Perform;
    PerformAt(w, max, op);
  }

  lemma {:induction false} AdmittedByWindow(max: nat, ops: seq<Operation>, key: string, from: int, n: nat, last: int)
    requires ClockRuns(ops) && n <= |ops| && (n > 0 ==> ops[n - 1].now == last < from + WINDOW_MS)
    ensures Explained(Run(map[], max, ops[..n]), Admitted(max, ops, key, from, n), max, key, from, last)
  {
    hide Perform, Explained;
    if n == 0 {
      NothingAdmitted(max, ops, key, from, last);
    } else {
      var op, before := ops[n - 1], Run(map[], max, ops[..n - 1]);
      var earlier := if n > 1 then ops[n - 2].now else last;
      AdmittedByWindow(max, ops, key, from, n - 1, earlier);
      RunSnoc(map[], max, ops, n - 1);
      ExplainedNext(before, Admitted(max, ops, key, from, n - 1), max, key, from, earlier, op);
    }
  }

  lemma NothingAdmitted(max: nat, ops: seq<Operation>, key: string, from: int, last: int)
    ensures Explained(Run(map[], max, ops[..0]), Admitted(max, ops, key, from, 0), max, key, from, last)
  {
    assert ops[..0] == [];
  }

  lemma {:induction false} AdmittedStops(max: nat, ops: seq<Operation>, key: string, from: int, n: nat)
    requires ClockRuns(ops) && n <= |ops|
    ensures Admitted(max, ops, key, from, n) <= 2 * max
  {
    if n > 0 && ops[n - 1].now >= from + 60_000 {
      AdmittedStops(max, ops, key, from, n - 1);
    } else {
      AdmittedByWindow(max, ops, key, from, n, if n > 0 then ops[n - 1].now else from);
    }
  }

  /** With a clock that does not run backwards, no interval of one window's length lets through more than
      twice the limit for a key, under any mix of operations. */
  lemma TwoWindowBound(max: nat, ops: seq<Operation>, key: string, from: int)
    requires ClockRuns(ops)
    ensures Admitted(max, ops, key, from, |ops|) <= 2 * max
  {
    AdmittedStops(max, ops, key, from, |ops|);
  }

  // A key that asks the limit's worth of times at the end of its window, and as often when the next one opens.

  function Burst(max: nat, key: string): (ops: seq<Operation>)
    ensures |ops| == 2 * max + 1
  {
    seq(2 * max + 1, i =>
      if i == 0 then Peek(key, 0) else Allow(key, if i <= max then WINDOW_MS - 1 else WINDOW_MS))
  }

  lemma {:induction false} BurstAdmits(max: nat, key: string, n: nat)
    requires 1 <= n <= 2 * max + 1
    ensures var ops := Burst(max, key);
            var w := Run(map[], max, ops[..n]);
            && key in w && w[key] == (if n <= max + 1 then Window(0, n - 1) else Window(WINDOW_MS, n - 1 - max))
            && Admitted(max, ops, key, 1, n) == n - 1
  {
    hide Perform;
    var ops := Burst(max, key);
    RunSnoc(map[], max, ops, n - 1);
    PerformAt(Run(map[], max, ops[..n - 1]), max, ops[n - 1]);
    if n == 1 {
      assert ops[..0] == [];
      assert Run(map[], max, []) == map[] && Admitted(max, ops, key, 1, 0) == 0;
    } else {
      BurstAdmits(max, key, n - 1);
    }
  }

  /** The bound is reached: for every limit and key some run lets through exactly twice the limit in less
      than a window's length. */
  lemma TwoWindowBoundIsTight(max: nat, key: string) returns (ops: seq<Operation>, from: int)
    ensures ClockRuns(ops) && Admitted(max, ops, key, from, |ops|) == 2 * max
  {
    hide Run;
    ops, from := Burst(max, key), 1;
    BurstAdmits(max, key, |ops|);
  }

  // ----- what takes a slot

  /** The requests and recorded failures of a key; a peek takes no slot. */
  function Slots(ops: seq<Operation>, key: string): nat {
    if ops == [] then 0
    else Slots(ops[..|ops| - 1], key) + if ops[|ops| - 1].key == key && !ops[|ops| - 1].Peek? then 1 else 0
  }

  /** The run begins with an operation that opens a window of its key, and stays within that minute. */
  ghost predicate InOneWindow(w: Windows, ops: seq<Operation>, key: string) {
    && ops != [] && ops[0].key == key
    && (key in w ==> ops[0].now >= w[key].start + 60_000)
    && forall i :: 0 <= i < |ops| && ops[i].key == key ==> ops[i].now < ops[0].now + 60_000
  }

  /** Every request and every failure takes a slot until none is left. */
  lemma {:induction false} SlotsAreTaken(w: Windows, max: nat, ops: seq<Operation>, key: string)
    requires InOneWindow(w, ops, key)
    ensures var w', n := Run(w, max, ops), Slots(ops, key);
            key in w' && w'[key] == Window(ops[0].now, if n < max then n else max)
  {
    hide Perform;
    var front, op := ops[..|ops| - 1], ops[|ops| - 1];
    PerformAt(Run(w, max, front), max, op);
    if front == [] {
      assert Slots(front, key) == 0 && Run(w, max, front) == w;
    } else {
      assert front[0] == ops[0] && forall i :: 0 <= i < |front| ==> front[i] == ops[i];
      SlotsAreTaken(w, max, front, key);
    }
  }

  /** Within the window that such a run opened, a request is let through exactly while a slot is left; a minute
      after it opened, exactly when the limit allows any. */
  lemma LetThroughIff(w: Windows, max: nat, ops: seq<Operation>, op: Operation)
    requires InOneWindow(w, ops, op.key) && !op.Record?
    ensures Perform(Run(w, max, ops), max, op).1
       <==> if op.now < ops[0].now + 60_000 then Slots(ops, op.key) < max else max > 0
  {
    hide Perform;
    SlotsAreTaken(w, max, ops, op.key);
    PerformAt(Run(w, max, ops), max, op);
  }

  // ----- keys do not disturb each other

  function Only(ops: seq<Operation>, key: string): seq<Operation> {
    if ops == [] then []
    else Only(ops[..|ops| - 1], key) + if ops[|ops| - 1].key == key then [ops[|ops| - 1]] else []
  }

  lemma {:induction false} KeyRunsAlone(max: nat, ops: seq<Operation>, key: string)
    ensures var w, v := Run(map[], max, ops), Run(map[], max, Only(ops, key));
            (key in w <==> key in v) && (key in w ==> w[key] == v[key])
  {
    if ops != [] {
      var front, last := ops[..|ops| - 1], ops[|ops| - 1];
      KeyRunsAlone(max, front, key);
      PerformAt(Run(map[], max, front), max, last);
      PerformAt(Run(map[], max, Only(front, key)), max, last);
      if last.key == key {
        var only := Only(ops, key);
        assert only[..|only| - 1] == Only(front, key) && only[|only| - 1] == last;
      } else {
        assert Only(ops, key) == Only(front, key);
      }
    }
  }

  /** A key is answered as by a fresh limiter that only ever saw that key's operations. */
  lemma KeyIsIsolated(max: nat, ops: seq<Operation>, i: nat)
    requires i < |ops|
    ensures var alone := Only(ops[..i + 1], ops[i].key);
            |alone| > 0 && alone[|alone| - 1] == ops[i] && Answer(max, ops, i) == Answer(max, alone, |alone| - 1)
  {
    var key := ops[i].key;
    KeyRunsAlone(max, ops[..i], key);
    assert ops[..i + 1][..i] == ops[..i];
    var alone := Only(ops[..i + 1], key);
    assert alone[..|alone| - 1] == Only(ops[..i], key);
  }
}
