/** The bulkhead (pkg/resilience/bulkhead/bulkhead.go). `Do` touches shared state only through the semaphore
    channel and the atomic counter, so a call is a sequence of atomic steps, between which any steps of other
    calls may come. */
module Bulkhead {
  import opened Results

  datatype Config = Config(maxConcurrent: int, maxQueue: int, acquireTimeout: int)

  predicate ValidConfig(cfg: Config) {
    cfg.maxConcurrent > 0 && cfg.maxQueue >= 0 && cfg.acquireTimeout >= 0
  }

  datatype Outcome = Ran | Full | Cancelled

  /** Distinguishes one call of `Do` from another. */
  datatype Caller = Caller(number: nat)

  /** Where a call is between two of its steps. */
  datatype Phase =
    | FastRunning            // got a slot at once, operation running
    | Missed                 // found no free slot, about to increment the counter
    | Surplus                // the increment went past MaxQueue, about to roll back
    | Queued                 // waiting for a slot, the time limit or cancellation
    | QueuedRunning          // got a slot after queueing, operation running
    | Leaving(why: Outcome)  // only the deferred decrement is left
    | Done(why: Outcome)

  /** len(sem), the counter, and the calls that have begun. */
  datatype World = World(sem: nat, waiting: int, calls: map<Caller, Phase>)

  const EMPTY: World := World(0, 0, map[])

  datatype Step =
    | Enter(c: Caller)
    | Join(c: Caller)
    | RollBack(c: Caller)
    | Acquire(c: Caller)
    | TimeOut(c: Caller)
    | Cancel(c: Caller)
    | Finish(c: Caller)
    | Leave(c: Caller)

  predicate At(w: World, c: Caller, p: Phase) {
    c in w.calls && w.calls[c] == p
  }

  /** The calls that hold a slot; those whose increment was at most MaxQueue and whose deferred decrement is
      still to come; those that are to roll their increment back. */
  datatype Group = Running | Charged | Over

  predicate Is(p: Phase, g: Group) {
    match g
    case Running => p == FastRunning || p == QueuedRunning
    case Charged => p == Queued || p == QueuedRunning || p.Leaving?
    case Over => p == Surplus
  }

  /** The channel operations block: a send while the channel is full, a receive while it is empty. */
  predicate Enabled(cfg: Config, w: World, s: Step) {
    match s
    case Enter(c) => c !in w.calls
    case Join(c) => At(w, c, Missed)
    case RollBack(c) => At(w, c, Surplus)
    case Acquire(c) => At(w, c, Queued) && w.sem < cfg.maxConcurrent
    case TimeOut(c) => At(w, c, Queued) && cfg.acquireTimeout > 0
    case Cancel(c) => At(w, c, Queued)
    case Finish(c) => c in w.calls && Is(w.calls[c], Running) && w.sem > 0
    case Leave(c) => c in w.calls && w.calls[c].Leaving?
  }

  function Put(w: World, c: Caller, p: Phase): World {
    w.(calls := w.calls[c := p])
  }

  function Next(cfg: Config, w: World, s: Step): World
    requires Enabled(cfg, w, s)
  {
    match s
    case Enter(c) =>
      if w.sem < cfg.maxConcurrent then Put(w.(sem := w.sem + 1), c, FastRunning) else Put(w, c, Missed)
    case Join(c) =>
      var v := w.(waiting := w.waiting + 1);
      if v.waiting > cfg.maxQueue then Put(v, c, Surplus) else Put(v, c, Queued)
    case RollBack(c) => Put(w.(waiting := w.waiting - 1), c, Done(Full))
    case Acquire(c) => Put(w.(sem := w.sem + 1), c, QueuedRunning)
    case TimeOut(c) => Put(w, c, Leaving(Full))
    case Cancel(c) => Put(w, c, Leaving(Cancelled))
    case Finish(c) => Put(w.(sem := w.sem - 1), c, if w.calls[c] == FastRunning then Done(Ran) else Leaving(Ran))
    case Leave(c) => Put(w.(waiting := w.waiting - 1), c, Done(w.calls[c].why))
  }

  // ---- The object ----

  class Semaphore {
    const cfg: Config
    var sem: nat
    var waiting: int
    ghost var calls: map<Caller, Phase>

    ghost function Value(): World
      reads this
    {
      World(sem, waiting, calls)
    }

    constructor (cfg: Config)
      ensures this.cfg == cfg && Value() == EMPTY
    {
      this.cfg := cfg;
      sem, waiting, calls := 0, 0, map[];
    }

    static method New(cfg: Config) returns (b: Option<Semaphore>)
      ensures b.Some? <==> cfg.maxConcurrent > 0 && cfg.maxQueue >= 0 && cfg.acquireTimeout >= 0
      ensures b.Some? ==> fresh(b.value) && b.value.cfg == cfg && b.value.Value() == EMPTY
    {
      if cfg.maxConcurrent <= 0 { return None; }
      if cfg.maxQueue < 0 { return None; }
      if cfg.acquireTimeout < 0 { return None; }
      var semaphore := new Semaphore(cfg);
      return Some(semaphore);
    }

    /** The fast path: take a slot if one is free, without blocking. */
    method TryEnter(ghost c: Caller) returns (entered: bool)
      requires Enabled(cfg, Value(), Enter(c))
      modifies this
      ensures Value() == Next(cfg, old(Value()), Enter(c))
      ensures entered <==> At(Value(), c, FastRunning)
    {
      if sem < cfg.maxConcurrent {
        sem := sem + 1;
        calls := calls[c := FastRunning];
        entered := true;
      } else {
        calls := calls[c := Missed];
        entered := false;
      }
    }

    /** The optimistic increment; the comparison that follows reads only its result. */
    method AddWaiter(ghost c: Caller) returns (queued: bool)
      requires Enabled(cfg, Value(), Join(c))
      modifies this
      ensures Value() == Next(cfg, old(Value()), Join(c))
      ensures queued <==> At(Value(), c, Queued)
    {
      waiting := waiting + 1;
      var w := waiting;
      if w > cfg.maxQueue {
        calls := calls[c := Surplus];
        queued := false;
      } else {
        calls := calls[c := Queued];
        queued := true;
      }
    }

    method RollBackWaiter(ghost c: Caller)
      requires Enabled(cfg, Value(), RollBack(c))
      modifies this
      ensures Value() == Next(cfg, old(Value()), RollBack(c))
    {
      waiting := waiting - 1;
      calls := calls[c := Done(Full)];
    }

    method AcquireQueued(ghost c: Caller)
      requires Enabled(cfg, Value(), Acquire(c))
      modifies this
      ensures Value() == Next(cfg, old(Value()), Acquire(c))
    {
      sem := sem + 1;
      calls := calls[c := QueuedRunning];
    }

    /** The operation has returned: the first deferred call frees the slot. */
    method Release(ghost c: Caller)
      requires Enabled(cfg, Value(), Finish(c))
      modifies this
      ensures Value() == Next(cfg, old(Value()), Finish(c))
    {
      sem := sem - 1;
      calls := calls[c := if calls[c] == FastRunning then Done(Ran) else Leaving(Ran)];
    }

    /** The second deferred call. */
    method RemoveWaiter(ghost c: Caller)
      requires Enabled(cfg, Value(), Leave(c))
      modifies this
      ensures Value() == Next(cfg, old(Value()), Leave(c))
    {
      waiting := waiting - 1;
      calls := calls[c := Done(calls[c].why)];
    }

    method InFlight() returns (n: nat)
      requires Inv(cfg, Value())
      ensures n == Count(calls, Running) <= cfg.maxConcurrent
    {
      n := sem;
    }
  }

  // ---- Any interleaving ----

  function Where(calls: map<Caller, Phase>, g: Group): set<Caller> {
    set c | c in calls && Is(calls[c], g)
  }

  function Count(calls: map<Caller, Phase>, g: Group): nat {
    |Where(calls, g)|
  }

  function One(b: bool): nat { if b then 1 else 0 }

  lemma WherePut(calls: map<Caller, Phase>, c: Caller, q: Phase, g: Group)
    ensures Where(calls[c := q], g) == Where(calls, g) - {c} + if Is(q, g) then {c} else {}
  {
    var after := Where(calls, g) - {c} + if Is(q, g) then {c} else {};
    forall d
      ensures d in Where(calls[c := q], g) <==> d in after
    {
      InWhere(calls[c := q], g, d);
      InWhere(calls, g, d);
    }
    assert Where(calls[c := q], g) == after;
  }

  lemma CountPut(calls: map<Caller, Phase>, c: Caller, q: Phase, g: Group)
    ensures Count(calls[c := q], g) == Count(calls, g) - One(c in calls && Is(calls[c], g)) + One(Is(q, g))
  {
    WherePut(calls, c, q, g);
    InWhere(calls, g, c);
    hide Where, Is;
    PutSize(Where(calls, g), c, Is(q, g));
  }

  lemma PutSize(members: set<Caller>, c: Caller, put: bool)
    ensures |members - {c} + if put then {c} else {}| == |members| - One(c in members) + One(put)
  {
    var rest := members - {c};
    if c in members {
      assert members == rest + {c};
    } else {
      assert members == rest;
    }
    assert rest + {} == rest;
  }

  lemma InWhere(calls: map<Caller, Phase>, g: Group, d: Caller)
    ensures d in Where(calls, g) <==> d in calls && Is(calls[d], g)
  {}

  lemma SomeMember(calls: map<Caller, Phase>, g: Group) returns (c: Caller)
    requires Count(calls, g) > 0
    ensures c in calls && Is(calls[c], g)
  {
    var members := Where(calls, g);
    assert members != {};
    c :| c in members;
    InWhere(calls, g, c);
  }

  lemma NoneLeft(calls: map<Caller, Phase>, g: Group)
    requires forall c :: c in calls ==> !Is(calls[c], g)
    ensures Count(calls, g) == 0
  {
    forall d ensures d !in Where(calls, g) {
      InWhere(calls, g, d);
    }
    assert Where(calls, g) == {};
  }

  lemma CountPositive(calls: map<Caller, Phase>, c: Caller, g: Group)
    requires c in calls && Is(calls[c], g)
    ensures Count(calls, g) >= 1
  {
    assert c in Where(calls, g);
  }

  /** What every interleaving keeps: slots in use are running operations, never more than MaxConcurrent; the
      counter is the charged calls and those yet to roll back; the charged never exceed MaxQueue. */
  predicate Inv(cfg: Config, w: World) {
    && w.sem == Count(w.calls, Running) <= cfg.maxConcurrent
    && w.waiting == Count(w.calls, Charged) + Count(w.calls, Over)
    && Count(w.calls, Charged) <= cfg.maxQueue
  }

  lemma StepKeepsInv(cfg: Config, w: World, s: Step)
    requires ValidConfig(cfg) && Inv(cfg, w) && Enabled(cfg, w, s)
    ensures Inv(cfg, Next(cfg, w, s))
  {
    hide Count;
    var q := Next(cfg, w, s).calls[s.c];
    CountPut(w.calls, s.c, q, Running);
    CountPut(w.calls, s.c, q, Charged);
    CountPut(w.calls, s.c, q, Over);
  }

  /** The state after the steps, if each was possible when it was taken. */
  function Run(cfg: Config, steps: seq<Step>): Option<World> {
    if steps == [] then Some(EMPTY)
    else
      var s := steps[|steps| - 1];
      match Run(cfg, steps[..|steps| - 1])
      case None => None
      case Some(w) => if Enabled(cfg, w, s) then Some(Next(cfg, w, s)) else None
  }

  lemma {:induction false} RunKeepsInv(cfg: Config, steps: seq<Step>)
    requires ValidConfig(cfg) && Run(cfg, steps).Some?
    ensures Inv(cfg, Run(cfg, steps).value)
  {
    hide Next, Enabled;
    if steps == [] {
      assert Where(EMPTY.calls, Running) == Where(EMPTY.calls, Charged) == Where(EMPTY.calls, Over) == {};
    } else {
      RunKeepsInv(cfg, steps[..|steps| - 1]);
      StepKeepsInv(cfg, Run(cfg, steps[..|steps| - 1]).value, steps[|steps| - 1]);
    }
  }

  predicate Quiet(w: World) {
    forall c :: c in w.calls ==> w.calls[c].Done?
  }

  /** When every call has returned, both counts are back at zero. */
  lemma QuietIsEmpty(cfg: Config, steps: seq<Step>)
    requires ValidConfig(cfg) && Run(cfg, steps).Some?
    requires Quiet(Run(cfg, steps).value)
    ensures Run(cfg, steps).value.sem == 0 && Run(cfg, steps).value.waiting == 0
  {
    RunKeepsInv(cfg, steps);
    var calls := Run(cfg, steps).value.calls;
    NoneLeft(calls, Running);
    NoneLeft(calls, Charged);
    NoneLeft(calls, Over);
  }

  lemma SlotHeld(cfg: Config, steps: seq<Step>, c: Caller)
    requires ValidConfig(cfg) && Run(cfg, steps).Some?
    requires var w := Run(cfg, steps).value; c in w.calls && Is(w.calls[c], Running)
    ensures Run(cfg, steps).value.sem > 0
  {
    RunKeepsInv(cfg, steps);
    CountPositive(Run(cfg, steps).value.calls, c, Running);
  }

  /** No deadlock, whatever the settings: while some call has not returned, some call already begun can take
      its next step. In particular freeing a slot never blocks. */
  lemma SomeoneCanMove(cfg: Config, steps: seq<Step>) returns (s: Step)
    requires ValidConfig(cfg) && Run(cfg, steps).Some? && !Quiet(Run(cfg, steps).value)
    ensures !s.Enter? && !s.Cancel? && !s.TimeOut? && Enabled(cfg, Run(cfg, steps).value, s)
  {
    var w := Run(cfg, steps).value;
    RunKeepsInv(cfg, steps);
    var c :| c in w.calls && !w.calls[c].Done?;
    match w.calls[c] {
      case Missed => s := Join(c);
      case Surplus => s := RollBack(c);
      case Leaving(_) => s := Leave(c);
      case FastRunning => SlotHeld(cfg, steps, c); s := Finish(c);
      case QueuedRunning => SlotHeld(cfg, steps, c); s := Finish(c);
      case Queued =>
        if w.sem < cfg.maxConcurrent {
          s := Acquire(c);
        } else {
          var d := SomeMember(w.calls, Running);
          s := Finish(d);
        }
    }
  }

  function StepsOf(steps: seq<Step>, c: Caller): nat {
    if steps == [] then 0
    else StepsOf(steps[..|steps| - 1], c) + One(steps[|steps| - 1].c == c)
  }

  /** How often the operation of call c was started. */
  function Starts(cfg: Config, steps: seq<Step>, c: Caller): nat {
    if steps == [] then 0
    else
      var before := Starts(cfg, steps[..|steps| - 1], c);
      match Run(cfg, steps)
      case None => before
      case Some(w) =>
        var s := steps[|steps| - 1];
        before + One(s.c == c && (s.Enter? || s.Acquire?) && c in w.calls && Is(w.calls[c], Running))
  }

  predicate HasRun(p: Phase) {
    Is(p, Running) || p == Leaving(Ran) || p == Done(Ran)
  }

  function Budget(p: Phase): nat {
    match p
    case FastRunning => 1
    case Missed => 1
    case Surplus => 2
    case Queued => 2
    case QueuedRunning => 3
    case Leaving(_) => 4
    case Done(_) => 5
  }

  /** A call returns after at most five steps of its own, so with SomeoneCanMove every call returns once no
      new ones arrive; and its operation was started once if `Do` returns the operation's result, never if
      `Do` returns ErrFull or the context's error. */
  lemma {:induction false} CallHistory(cfg: Config, steps: seq<Step>, c: Caller)
    requires ValidConfig(cfg) && Run(cfg, steps).Some?
    ensures var w := Run(cfg, steps).value;
            if c in w.calls
            then StepsOf(steps, c) <= Budget(w.calls[c]) <= 5 && Starts(cfg, steps, c) == One(HasRun(w.calls[c]))
            else StepsOf(steps, c) == 0 && Starts(cfg, steps, c) == 0
  {
    if steps != [] {
      CallHistory(cfg, steps[..|steps| - 1], c);
    }
  }

  /** Why a call ends: with the context's error exactly if it was cancelled while queued, with ErrFull exactly
      if it rolled back or its time limit passed, and a limit passes only if one is set. */
  lemma {:induction false} WhyEnded(cfg: Config, steps: seq<Step>, c: Caller)
    requires Run(cfg, steps).Some? && c in Run(cfg, steps).value.calls
    ensures var p := Run(cfg, steps).value.calls[c];
            && (p == Leaving(Cancelled) || p == Done(Cancelled) <==> Cancel(c) in steps)
            && (p == Leaving(Full) || p == Done(Full) <==> RollBack(c) in steps || TimeOut(c) in steps)
    ensures TimeOut(c) in steps ==> cfg.acquireTimeout > 0
  {
    if steps != [] {
      var n := |steps| - 1;
      assert steps == steps[..n] + [steps[n]];
      StepWhy(cfg, Run(cfg, steps[..n]).value, steps[n], c);
      if c in Run(cfg, steps[..n]).value.calls {
        WhyEnded(cfg, steps[..n], c);
      } else {
        NotBegun(cfg, steps[..n], c);
      }
      hide Enabled, Next;
    }
  }

  predicate GaveUp(p: Phase) { p == Leaving(Cancelled) || p == Done(Cancelled) }

  predicate WasFull(p: Phase) { p == Leaving(Full) || p == Done(Full) }

  /** What one step does to the reason why a call ends. */
  lemma StepWhy(cfg: Config, w: World, s: Step, c: Caller)
    requires Enabled(cfg, w, s)
    ensures var t := Next(cfg, w, s);
            && (c in t.calls <==> c in w.calls || s == Enter(c))
            && (c in t.calls ==>
                  (GaveUp(t.calls[c]) <==> s == Cancel(c) || (c in w.calls && GaveUp(w.calls[c])))
                  && (WasFull(t.calls[c]) <==>
                        s == RollBack(c) || s == TimeOut(c) || (c in w.calls && WasFull(w.calls[c]))))
    ensures s == TimeOut(c) ==> cfg.acquireTimeout > 0
    ensures s.c == c && s != Enter(c) ==> c in w.calls
  {}

  /** A call that has not begun has taken no step. */
  lemma {:induction false} NotBegun(cfg: Config, steps: seq<Step>, c: Caller)
    requires Run(cfg, steps).Some? && c !in Run(cfg, steps).value.calls
    ensures forall s :: s in steps ==> s.c != c
  {
    if steps != [] {
      var n := |steps| - 1;
      assert steps == steps[..n] + [steps[n]];
      NotBegun(cfg, steps[..n], c);
    }
  }

  /** When a call gets a slot: on arrival, and likewise from the queue, exactly if fewer than MaxConcurrent
      operations are running then. */
  lemma EntersIff(cfg: Config, steps: seq<Step>, c: Caller)
    requires ValidConfig(cfg) && Run(cfg, steps).Some?
    ensures var w := Run(cfg, steps).value;
            && (c !in w.calls ==>
                  At(Next(cfg, w, Enter(c)), c,
                     if Count(w.calls, Running) < cfg.maxConcurrent then FastRunning else Missed))
            && (At(w, c, Queued) ==> (Enabled(cfg, w, Acquire(c)) <==> Count(w.calls, Running) < cfg.maxConcurrent))
  {
    RunKeepsInv(cfg, steps);
    hide Count, Run;
  }

  /** When the slow path refuses a call. The counter also holds the calls that queued and now run, those on
      their way out, and those yet to roll back, so MaxQueue bounds all of these together. */
  lemma RefusedIff(cfg: Config, steps: seq<Step>, c: Caller)
    requires ValidConfig(cfg) && Run(cfg, steps).Some?
    requires At(Run(cfg, steps).value, c, Missed)
    ensures var w := Run(cfg, steps).value;
            At(Next(cfg, w, Join(c)), c, Surplus) <==> Count(w.calls, Charged) + Count(w.calls, Over) >= cfg.maxQueue
  {
    RunKeepsInv(cfg, steps);
  }

  /** Refusal although nobody waits: with one slot and a queue of one, call b queued, got the slot when call a
      finished, and still fills the queue while it runs. */
  lemma RefusedWithEmptyQueue(a: Caller, b: Caller, c: Caller)
    requires a != b && b != c && a != c
    ensures var run := Run(Config(1, 1, 0), [Enter(a), Enter(b), Join(b), Finish(a), Acquire(b), Enter(c), Join(c)]);
            && run.Some? && At(run.value, c, Surplus)
            && (forall d :: d in run.value.calls ==> run.value.calls[d] != Queued)
  {
    var cfg := Config(1, 1, 0);
    var steps := [Enter(a), Enter(b), Join(b), Finish(a), Acquire(b)];
    RunsAfterQueueing(a, b);
    hide Run;
    var w6 := RunStep(cfg, steps, Enter(c));
    assert w6 == World(1, 1, map[a := Done(Ran), b := QueuedRunning, c := Missed]);
    var w7 := RunStep(cfg, steps + [Enter(c)], Join(c));
    assert w7 == World(1, 2, w6.calls[c := Surplus]);
    assert steps + [Enter(c)] + [Join(c)]
        == [Enter(a), Enter(b), Join(b), Finish(a), Acquire(b), Enter(c), Join(c)];
  }

  lemma RunsAfterQueueing(a: Caller, b: Caller)
    requires a != b
    ensures Run(Config(1, 1, 0), [Enter(a), Enter(b), Join(b), Finish(a), Acquire(b)])
         == Some(World(1, 1, map[a := Done(Ran), b := QueuedRunning]))
  {
    var cfg := Config(1, 1, 0);
    assert Run(cfg, []) == Some(EMPTY);
    hide Run;
    var w1 := RunStep(cfg, [], Enter(a));
    assert w1 == World(1, 0, map[a := FastRunning]);
    var w2 := RunStep(cfg, [] + [Enter(a)], Enter(b));
    assert w2 == World(1, 0, w1.calls[b := Missed]);
    var w3 := RunStep(cfg, [] + [Enter(a)] + [Enter(b)], Join(b));
    assert w3 == World(1, 1, w2.calls[b := Queued]);
    var w4 := RunStep(cfg, [] + [Enter(a)] + [Enter(b)] + [Join(b)], Finish(a));
    assert w4 == World(0, 1, w3.calls[a := Done(Ran)]);
    var w5 := RunStep(cfg, [] + [Enter(a)] + [Enter(b)] + [Join(b)] + [Finish(a)], Acquire(b));
    assert w5 == World(1, 1, w4.calls[b := QueuedRunning]);
    assert w5.calls == map[a := Done(Ran), b := QueuedRunning];
    assert [] + [Enter(a)] + [Enter(b)] + [Join(b)] + [Finish(a)] + [Acquire(b)]
        == [Enter(a), Enter(b), Join(b), Finish(a), Acquire(b)];
  }

  lemma RunStep(cfg: Config, steps: seq<Step>, s: Step) returns (w: World)
    requires Run(cfg, steps).Some? && Enabled(cfg, Run(cfg, steps).value, s)
    ensures w == Next(cfg, Run(cfg, steps).value, s)
    ensures Run(cfg, steps + [s]) == Some(w)
  {
    assert (steps + [s])[..|steps|] == steps;
    w := Next(cfg, Run(cfg, steps).value, s);
  }
}
