/** The generation-counter fork/join pool: one caller, workers that spin and then sleep, a shared index counter.
    barra_pool hands out single indices (chunk 1), pfor hands out chunks; every atomic access is one step. */
module Pool {

  /** Where a thread stands. Thread 0 is the caller of run. */
  datatype Phase =
    | Idle                        // outside run
    | Direct(i: nat)              // one thread or less than two indices: plain loop
    | SetJob | ResetNext | ResetDone | Publish | Notify   // the next assignment of run
    | Await                       // waiting for all workers
    | Spin                        // a worker looking for a new generation
    | Waiting                     // asleep on the condition variable
    | Awake                       // has seen a new generation, about to record it
    | Finish                      // out of indices, about to increment done
    | Claim                       // about to take indices
    | Busy(lo: nat, hi: nat)      // about to run index lo of [lo, hi)

  datatype Thread = Thread(seen: nat, at: Phase)

  /** `sizes` and `ran` record the history: the size of every job so far, and which (job, index) pairs ran. */
  datatype State = State(ts: seq<Thread>, gen: nat, next: nat, done: nat, n: nat, chunk: nat, fn: nat,
                         sizes: seq<nat>, ran: multiset<(nat, nat)>)

  datatype Action =
    | Start(size: nat, step: nat) | RunDirect | ReturnDirect
    | StoreJob | StoreNext | StoreDone | BumpGen | NotifyAll | Return
    | Take(t: nat) | RunIndex(t: nat) | ChunkDone(t: nat)
    | See(t: nat) | Sleep(t: nat) | Wake(t: nat) | Record(t: nat) | CountIn(t: nat)

  function Init(nt: nat): State
    requires nt >= 1
  {
    State(seq(nt, i => if i == 0 then Thread(0, Idle) else Thread(0, Spin)), 0, 0, 0, 0, 1, 0, [], multiset{})
  }

  predicate Caller(p: Phase) {
    p.Idle? || p.Direct? || p.SetJob? || p.ResetNext? || p.ResetDone? || p.Publish? || p.Notify? || p.Await?
      || p.Claim? || p.Busy?
  }

  predicate Worker(p: Phase) {
    p.Spin? || p.Waiting? || p.Awake? || p.Finish? || p.Claim? || p.Busy?
  }

  predicate Shape(s: State) {
    |s.ts| >= 1 && Caller(s.ts[0].at) && s.chunk >= 1 && forall t :: 1 <= t < |s.ts| ==> Worker(s.ts[t].at)
  }

  /** Workers move only when they are at the right place; the caller's steps need it at the right place. */
  predicate Enabled(s: State, a: Action)
    requires Shape(s)
  {
    var c := s.ts[0].at;
    match a
    case Start(_, step) => c.Idle? && step >= 1
    case RunDirect => c.Direct? && s.sizes != [] && c.i < s.sizes[|s.sizes| - 1]
    case ReturnDirect => c.Direct? && s.sizes != [] && c.i >= s.sizes[|s.sizes| - 1]
    case StoreJob => c.SetJob? && s.sizes != []
    case StoreNext => c.ResetNext?
    case StoreDone => c.ResetDone?
    case BumpGen => c.Publish?
    case NotifyAll => c.Notify?
    case Return => c.Await? && s.done >= |s.ts| - 1
    case Take(t) => t < |s.ts| && s.ts[t].at.Claim?
    case RunIndex(t) => t < |s.ts| && s.ts[t].at.Busy? && s.ts[t].at.lo < s.ts[t].at.hi
    case ChunkDone(t) => t < |s.ts| && s.ts[t].at.Busy? && s.ts[t].at.lo >= s.ts[t].at.hi
    case See(t) => 1 <= t < |s.ts| && s.ts[t].at.Spin? && s.gen != s.ts[t].seen
    case Sleep(t) => 1 <= t < |s.ts| && s.ts[t].at.Spin? && s.gen == s.ts[t].seen
    case Wake(t) => 1 <= t < |s.ts| && s.ts[t].at.Waiting?
    case Record(t) => 1 <= t < |s.ts| && s.ts[t].at.Awake?
    case CountIn(t) => 1 <= t < |s.ts| && s.ts[t].at.Finish?
  }

  function Go(s: State, t: nat, p: Phase): State
    requires t < |s.ts|
  {
    s.(ts := s.ts[t := s.ts[t].(at := p)])
  }

  /** Everybody asleep goes back to checking. */
  function Woken(th: Thread): Thread {
    if th.at.Waiting? then th.(at := Spin) else th
  }

  function WakeAll(ts: seq<Thread>): (r: seq<Thread>)
    ensures |r| == |ts|
  {
    seq(|ts|, i requires 0 <= i < |ts| => Woken(ts[i]))
  }

  function Min(a: nat, b: nat): nat {
    if a < b then a else b
  }

  function Do(s: State, a: Action): State
    requires Shape(s) && Enabled(s, a)
  {
    match a
    case Start(size, step) =>
      var s1 := s.(sizes := s.sizes + [size]);
      if |s.ts| == 1 || size < 2 then Go(s1, 0, Direct(0)) else Go(s1.(n := size, chunk := step), 0, SetJob)
    case RunDirect =>
      var i := s.ts[0].at.i;
      Go(s.(ran := s.ran + multiset{(|s.sizes| - 1, i)}), 0, Direct(i + 1))
    case ReturnDirect => Go(s, 0, Idle)
    case StoreJob => Go(s.(fn := |s.sizes| - 1), 0, ResetNext)
    case StoreNext => Go(s.(next := 0), 0, ResetDone)
    case StoreDone => Go(s.(done := 0), 0, Publish)
    case BumpGen => Go(s.(gen := s.gen + 1), 0, Notify)
    case NotifyAll => Go(s.(ts := WakeAll(s.ts)), 0, Claim)
    case Return => Go(s, 0, Idle)
    case Take(t) =>
      var s1 := s.(next := s.next + s.chunk);
      if s.next >= s.n then Go(s1, t, if t == 0 then Await else Finish)
          else Go(s1, t, Busy(s.next, Min(s.next + s.chunk, s.n)))
    case RunIndex(t) =>
      Go(s.(ran := s.ran + multiset{(s.fn, s.ts[t].at.lo)}), t, Busy(s.ts[t].at.lo + 1, s.ts[t].at.hi))
    case ChunkDone(t) => Go(s, t, Claim)
    case See(t) => Go(s, t, Awake)
    case Sleep(t) => Go(s, t, Waiting)
    case Wake(t) => Go(s, t, Spin)
    case Record(t) => s.(ts := s.ts[t := Thread(s.gen, Claim)])
    case CountIn(t) => Go(s.(done := s.done + 1), t, Spin)
  }

  /** A run of the whole system, in any interleaving. */
  predicate Exec(s: State, acts: seq<Action>, s': State)
    decreases |acts|
  {
    if acts == [] then s == s'
    else Shape(s) && Enabled(s, acts[0]) && Exec(Do(s, acts[0]), acts[1..], s')
  }

  // ------------------------------------------------------------------ counting threads

  function Total(ts: seq<Thread>, f: Thread -> nat): nat {
    if ts == [] then 0 else Total(ts[..|ts| - 1], f) + f(ts[|ts| - 1])
  }

  lemma {:induction false} TotalUpdate(ts: seq<Thread>, f: Thread -> nat, t: nat, th: Thread)
    requires t < |ts|
    ensures Total(ts[t := th], f) + f(ts[t]) == Total(ts, f) + f(th)
  {
    var n := |ts| - 1;
    if t < n {
      TotalUpdate(ts[..n], f, t, th);
      assert ts[t := th][..n] == ts[..n][t := th];
    } else {
      assert ts[t := th][..n] == ts[..n];
    }
  }

  lemma {:induction false} TotalBounds(ts: seq<Thread>, f: Thread -> nat, t: nat)
    requires t < |ts|
    ensures f(ts[t]) <= Total(ts, f)
  {
    if t < |ts| - 1 { TotalBounds(ts[..|ts| - 1], f, t); }
  }

  lemma {:induction false} TotalZero(ts: seq<Thread>, f: Thread -> nat)
    requires forall t :: 0 <= t < |ts| ==> f(ts[t]) == 0
    ensures Total(ts, f) == 0
  {
    if ts != [] { TotalZero(ts[..|ts| - 1], f); }
  }

  lemma {:induction false} TotalAtMost(ts: seq<Thread>, f: Thread -> nat)
    requires forall th :: f(th) <= 1
    ensures Total(ts, f) <= |ts|
    ensures forall t :: 0 <= t < |ts| && f(ts[t]) == 0 ==> Total(ts, f) < |ts|
    ensures forall t, u :: 0 <= t < u < |ts| && f(ts[t]) == 0 && f(ts[u]) == 0 ==> Total(ts, f) < |ts| - 1
  {
    if ts != [] { TotalAtMost(ts[..|ts| - 1], f); }
  }

  lemma {:induction false} TotalSame(ts: seq<Thread>, us: seq<Thread>, f: Thread -> nat, g: Thread -> nat)
    requires |ts| == |us| && forall t :: 0 <= t < |ts| ==> f(ts[t]) == g(us[t])
    ensures Total(ts, f) == Total(us, g)
  {
    if ts != [] { TotalSame(ts[..|ts| - 1], us[..|us| - 1], f, g); }
  }

  /** Whether index i has been taken by this thread but not yet run. */
  function Holds(i: nat): Thread -> nat {
    (th: Thread) => if th.at.Busy? && th.at.lo <= i < th.at.hi then 1 else 0
  }

  /** Whether this worker has finished generation gen. */
  function Rests(gen: nat): Thread -> nat {
    (th: Thread) => if th.seen == gen && (th.at.Spin? || th.at.Waiting?) then 1 else 0
  }

  // ------------------------------------------------------------------ the invariant

  predicate Published(p: Phase) {
    p.Notify? || p.Claim? || p.Busy? || p.Await?
  }

  /** Between runs all workers rest. During a run each either rests after this generation, works on it, or has
      not noticed it yet; one that is asleep without having noticed is about to be notified. */
  predicate WorkerOk(th: Thread, gen: nat, caller: Phase) {
    if !Published(caller) then th.seen == gen && (th.at.Spin? || th.at.Waiting?)
    else if th.seen == gen then !th.at.Awake?
    else th.seen + 1 == gen && (th.at.Spin? || th.at.Awake? || (th.at.Waiting? && caller.Notify?))
  }

  ghost predicate Gens(s: State)
    requires Shape(s)
  {
    forall t :: 1 <= t < |s.ts| ==> WorkerOk(s.ts[t], s.gen, s.ts[0].at)
  }

  /** The counters belong to the current job. */
  predicate Counters(s: State)
    requires Shape(s)
  {
    var c := s.ts[0].at;
    && (!c.Idle? ==> s.sizes != [])
    && (c.SetJob? || c.ResetNext? || c.ResetDone? || c.Publish? || Published(c) ==> s.n == s.sizes[|s.sizes| - 1])
    && (c.ResetNext? || c.ResetDone? || c.Publish? || Published(c) ==> s.fn == |s.sizes| - 1)
    && (c.Direct? ==> c.i <= s.sizes[|s.sizes| - 1])
    && (c.ResetDone? || c.Publish? ==> s.next == 0)
    && (c.Publish? ==> s.done == 0)
    && (c.Await? ==> s.next >= s.n)
    && (Published(c) ==> s.done == Total(s.ts, Rests(s.gen)))
  }

  /** How often (current job, i) must have run by now. */
  function Due(s: State, i: nat): int
    requires Shape(s) && s.sizes != []
  {
    var c := s.ts[0].at;
    if c.Idle? then (if i < s.sizes[|s.sizes| - 1] then 1 else 0)
    else if c.Direct? then (if i < c.i then 1 else 0)
    else if Published(c) then (if i < s.n && i < s.next then 1 else 0) - Total(s.ts, Holds(i))
    else 0
  }

  /** Finished jobs ran every index once, the current one those that are due, later ones nothing. */
  ghost predicate Work(s: State)
    requires Shape(s)
  {
    forall j: nat, i: nat :: s.ran[(j, i)] ==
      if j + 1 < |s.sizes| then (if i < s.sizes[j] then 1 else 0)
      else if j + 1 == |s.sizes| then Due(s, i)
      else 0
  }

  ghost predicate Inv(s: State) {
    Shape(s) && Gens(s) && Counters(s) && Work(s)
  }

  // ------------------------------------------------------------------ every step keeps it

  lemma ShapeStep(s: State, a: Action)
    requires Inv(s) && Enabled(s, a)
    ensures Shape(Do(s, a))
  {
    hide Work, Counters, Total, Gens;
  }

  lemma GensStep(s: State, a: Action)
    requires Inv(s) && Enabled(s, a) && Shape(Do(s, a))
    requires a.Return? ==> forall t :: 1 <= t < |s.ts| ==> Rests(s.gen)(s.ts[t]) == 1
    ensures Gens(Do(s, a))
  {
    hide Work, Total, Counters;
  }

  /** When the caller has counted all workers in, none of them holds work any more. */
  lemma AllRest(s: State)
    requires Shape(s) && Counters(s) && s.ts[0].at.Await? && s.done >= |s.ts| - 1
    ensures forall t :: 1 <= t < |s.ts| ==> Rests(s.gen)(s.ts[t]) == 1
  {
    TotalAtMost(s.ts, Rests(s.gen));
    assert Rests(s.gen)(s.ts[0]) == 0;
    forall t | 1 <= t < |s.ts| ensures Rests(s.gen)(s.ts[t]) == 1 {
      assert Rests(s.gen)(s.ts[t]) == 0 ==> Total(s.ts, Rests(s.gen)) < |s.ts| - 1;
    }
  }

  lemma NobodyRestsYet(s: State)
    requires Inv(s) && s.ts[0].at.Publish?
    ensures Total(s.ts, Rests(s.gen + 1)) == 0
  {
    hide Work, Counters;
    TotalZero(s.ts, Rests(s.gen + 1));
  }

  lemma WakingKeeps(s: State, i: nat)
    requires Shape(s)
    ensures Total(WakeAll(s.ts), Rests(s.gen)) == Total(s.ts, Rests(s.gen))
    ensures Total(WakeAll(s.ts), Holds(i)) == Total(s.ts, Holds(i))
  {
    TotalSame(WakeAll(s.ts), s.ts, Rests(s.gen), Rests(s.gen));
    TotalSame(WakeAll(s.ts), s.ts, Holds(i), Holds(i));
  }

  /** The thread an action moves. */
  function Actor(a: Action): nat {
    match a
    case Take(t) => t
    case RunIndex(t) => t
    case ChunkDone(t) => t
    case See(t) => t
    case Sleep(t) => t
    case Wake(t) => t
    case Record(t) => t
    case CountIn(t) => t
    case _ => 0
  }

  /** An action moves one thread, except that NotifyAll first wakes the sleepers. */
  lemma OneMoves(s: State, a: Action)
    requires Shape(s) && Enabled(s, a)
    ensures Actor(a) < |s.ts| == |Do(s, a).ts|
    ensures var before := if a.NotifyAll? then WakeAll(s.ts) else s.ts;
            Do(s, a).ts == before[Actor(a) := Do(s, a).ts[Actor(a)]]
  {
  }

  lemma TotalsStep(s: State, a: Action, i: nat)
    requires Shape(s) && Enabled(s, a) && Actor(a) < |Do(s, a).ts|
    ensures var s', t := Do(s, a), Actor(a);
            && Total(s'.ts, Rests(s.gen)) + Rests(s.gen)(s.ts[t]) == Total(s.ts, Rests(s.gen)) + Rests(s.gen)(s'.ts[t])
            && Total(s'.ts, Holds(i)) + Holds(i)(s.ts[t]) == Total(s.ts, Holds(i)) + Holds(i)(s'.ts[t])
  {
    hide Do, Enabled, Total;
    OneMoves(s, a);
    WakingKeeps(s, i);
    var before := if a.NotifyAll? then WakeAll(s.ts) else s.ts;
    TotalUpdate(before, Rests(s.gen), Actor(a), Do(s, a).ts[Actor(a)]);
    TotalUpdate(before, Holds(i), Actor(a), Do(s, a).ts[Actor(a)]);
    assert a.NotifyAll? ==> before[0] == s.ts[0];
  }

  lemma CountersStep(s: State, a: Action)
    requires Inv(s) && Enabled(s, a) && Shape(Do(s, a))
    ensures Counters(Do(s, a))
  {
    hide Work, Total, Gens, Counters, Enabled, Do;
    if a.BumpGen? {
      CountersBump(s, a);
    } else if Actor(a) == 0 {
      CountersCaller(s, a);
    } else {
      CountersWorker(s, a);
    }
  }

  lemma CountersBump(s: State, a: Action)
    requires Inv(s) && Enabled(s, a) && Shape(Do(s, a)) && a.BumpGen?
    ensures Counters(Do(s, a))
  {
    hide Work, Total, Gens;
    NobodyRestsYet(s);
    TotalUpdate(s.ts, Rests(s.gen + 1), 0, Do(s, a).ts[0]);
  }

  lemma CountersCaller(s: State, a: Action)
    requires Inv(s) && Enabled(s, a) && Shape(Do(s, a)) && !a.BumpGen? && Actor(a) == 0
    ensures Counters(Do(s, a))
  {
    hide Work, Total, Gens, WakeAll, Woken;
    OneMoves(s, a);
    TotalsStep(s, a, 0);
  }

  lemma CountersWorker(s: State, a: Action)
    requires Inv(s) && Enabled(s, a) && Shape(Do(s, a)) && Actor(a) > 0
    ensures Counters(Do(s, a))
  {
    hide Work, Total;
    OneMoves(s, a);
    TotalsStep(s, a, 0);
  }

  /** A thread about to run index i of the current job holds it: it is due, and has not run. */
  lemma HeldIsFresh(s: State, t: nat)
    requires Inv(s) && t < |s.ts| && s.ts[t].at.Busy? && s.ts[t].at.lo < s.ts[t].at.hi
    ensures var i := s.ts[t].at.lo;
            && Published(s.ts[0].at) && s.sizes != [] && s.fn == |s.sizes| - 1
            && i < s.sizes[s.fn] && s.ran[(s.fn, i)] == 0 && Total(s.ts, Holds(i)) == 1
  {
    hide Total, Gens;
    var i := s.ts[t].at.lo;
    assert Published(s.ts[0].at) by {
      if t > 0 { BusyIsPublished(s, t); }
    }
    TotalBounds(s.ts, Holds(i), t);
    assert s.ran[(s.fn, i)] == Due(s, i);
  }

  lemma BusyIsPublished(s: State, t: nat)
    requires Shape(s) && Gens(s) && 1 <= t < |s.ts| && s.ts[t].at.Busy?
    ensures Published(s.ts[0].at)
  {
    assert WorkerOk(s.ts[t], s.gen, s.ts[0].at);
  }

  /** Outside a published run nobody holds an index. */
  lemma NobodyHolds(s: State, i: nat)
    requires Shape(s) && Gens(s) && !s.ts[0].at.Busy?
    requires !Published(s.ts[0].at) || forall t :: 1 <= t < |s.ts| ==> Rests(s.gen)(s.ts[t]) == 1
    ensures Total(s.ts, Holds(i)) == 0
  {
    forall t | 0 <= t < |s.ts| ensures Holds(i)(s.ts[t]) == 0 {
      assert t >= 1 ==> WorkerOk(s.ts[t], s.gen, s.ts[0].at);
    }
    TotalZero(s.ts, Holds(i));
  }

  /** What one step does to the due counts of the current job. */
  lemma DueStep(s: State, a: Action, i: nat)
    requires Inv(s) && Enabled(s, a) && Shape(Do(s, a)) && s.sizes != [] && !a.Start?
    ensures Do(s, a).sizes == s.sizes
    ensures Due(Do(s, a), i) == Due(s, i) + if (a.RunDirect? && i == s.ts[0].at.i)
      || (a.RunIndex? && i == s.ts[a.t].at.lo) then 1 else 0
  {
    hide Total, Gens, Work, Counters, Enabled, Do, Due;
    if Actor(a) == 0 {
      DueCaller(s, a, i);
    } else {
      DueWorker(s, a, i);
    }
  }

  lemma DueCaller(s: State, a: Action, i: nat)
    requires Inv(s) && Enabled(s, a) && Shape(Do(s, a)) && s.sizes != [] && !a.Start? && Actor(a) == 0
    ensures Do(s, a).sizes == s.sizes
    ensures Due(Do(s, a), i) == Due(s, i) + if (a.RunDirect? && i == s.ts[0].at.i)
      || (a.RunIndex? && i == s.ts[a.t].at.lo) then 1 else 0
  {
    hide Total, Gens, Work;
    OneMoves(s, a);
    TotalsStep(s, a, i);
    if a.Return? {
      AllRest(s);
      NobodyHolds(s, i);
    }
    if a.BumpGen? {
      NobodyHolds(s, i);
    }
  }

  lemma DueWorker(s: State, a: Action, i: nat)
    requires Inv(s) && Enabled(s, a) && Shape(Do(s, a)) && s.sizes != [] && !a.Start? && Actor(a) > 0
    ensures Do(s, a).sizes == s.sizes
    ensures Due(Do(s, a), i) == Due(s, i) + if a.RunIndex? && i == s.ts[a.t].at.lo then 1 else 0
  {
    hide Total, Gens, Work;
    OneMoves(s, a);
    TotalsStep(s, a, i);
    if a.RunIndex? {
      BusyIsPublished(s, a.t);
    }
  }

  lemma RanStep(s: State, a: Action)
    requires Inv(s) && Enabled(s, a)
    ensures Do(s, a).ran == if a.RunDirect? then s.ran + multiset{(|s.sizes| - 1, s.ts[0].at.i)}
                            else if a.RunIndex? then s.ran + multiset{(|s.sizes| - 1, s.ts[a.t].at.lo)}
                            else s.ran
  {
    hide Total, Gens, Work;
    if a.RunIndex? && a.t > 0 { BusyIsPublished(s, a.t); }
  }

  lemma WorkStart(s: State, a: Action)
    requires Inv(s) && Enabled(s, a) && a.Start? && Shape(Do(s, a))
    ensures Work(Do(s, a))
  {
    hide Total, Gens;
    var s' := Do(s, a);
    forall j: nat, i: nat ensures s'.ran[(j, i)] ==
      if j + 1 < |s'.sizes| then (if i < s'.sizes[j] then 1 else 0) else if j + 1 == |s'.sizes| then Due(s', i) else 0
    {
      assert s.ran[(j, i)] == s'.ran[(j, i)];
    }
  }

  lemma WorkStep(s: State, a: Action)
    requires Inv(s) && Enabled(s, a) && Shape(Do(s, a))
    ensures Work(Do(s, a))
  {
    if a.Start? {
      WorkStart(s, a);
    } else {
      hide Total, Gens, Do, Due, Enabled;
      var s' := Do(s, a);
      RanStep(s, a);
      SizesStep(s, a);
      forall j: nat, i: nat ensures s'.ran[(j, i)] ==
        if j + 1 < |s'.sizes| then (if i < s'.sizes[j] then 1 else 0) else if j + 1 == |s'.sizes| then Due(s', i) else 0
      {
        if s.sizes != [] { DueStep(s, a, i); }
      }
    }
  }

  lemma SizesStep(s: State, a: Action)
    requires Inv(s) && Enabled(s, a) && !a.Start?
    ensures Do(s, a).sizes == s.sizes
    ensures a.RunDirect? || a.RunIndex? ==> s.sizes != []
    ensures a.RunIndex? ==> a.t < |s.ts| && s.ts[a.t].at.Busy?
    ensures a.RunDirect? ==> s.ts[0].at.Direct?
  {
    hide Total, Gens, Work;
    if a.RunIndex? && a.t > 0 { BusyIsPublished(s, a.t); }
  }

  /** Every step of every thread keeps the invariant. */
  lemma InvStep(s: State, a: Action)
    requires Inv(s) && Enabled(s, a)
    ensures Inv(Do(s, a))
  {
    hide Total, Gens, Work, Counters, Do;
    ShapeStep(s, a);
    if a.Return? {
      ReturnRests(s, a);
    }
    GensStep(s, a);
    CountersStep(s, a);
    WorkStep(s, a);
  }

  lemma ReturnRests(s: State, a: Action)
    requires Inv(s) && Enabled(s, a) && a.Return?
    ensures forall t :: 1 <= t < |s.ts| ==> Rests(s.gen)(s.ts[t]) == 1
  {
    AllRest(s);
  }

  lemma InitInv(nt: nat)
    requires nt >= 1
    ensures Inv(Init(nt))
  {
  }

  lemma {:induction false} ExecInv(s: State, acts: seq<Action>, s': State)
    requires Inv(s) && Exec(s, acts, s')
    ensures Inv(s')
    decreases |acts|
  {
    if acts != [] {
      InvStep(s, acts[0]);
      ExecInv(Do(s, acts[0]), acts[1..], s');
    }
  }

  // ------------------------------------------------------------------ what the pool promises

  /** After any run of the system: whenever run has returned, every index of every job so far has run
      exactly once, and nothing else has run. */
  lemma EachIndexOnce(nt: nat, acts: seq<Action>, s: State)
    requires nt >= 1 && Exec(Init(nt), acts, s) && Shape(s) && s.ts[0].at.Idle?
    ensures forall j: nat, i: nat :: s.ran[(j, i)] == if j < |s.sizes| && i < s.sizes[j] then 1 else 0
  {
    InitInv(nt);
    ExecInv(Init(nt), acts, s);
  }

  /** No worker runs, takes or holds an index outside a run, and inside one it works on that run's job. */
  lemma NoStaleJob(nt: nat, acts: seq<Action>, s: State, t: nat)
    requires nt >= 1 && Exec(Init(nt), acts, s) && Shape(s)
    requires 1 <= t < |s.ts| && (s.ts[t].at.Busy? || s.ts[t].at.Claim? || s.ts[t].at.Finish? || s.ts[t].at.Awake?)
    ensures Published(s.ts[0].at) && s.fn == |s.sizes| - 1 && s.n == s.sizes[s.fn]
    ensures s.ts[t].at.Busy? && s.ts[t].at.lo < s.ts[t].at.hi ==>
        s.ts[t].at.lo < s.n && s.ran[(s.fn, s.ts[t].at.lo)] == 0
  {
    InitInv(nt);
    ExecInv(Init(nt), acts, s);
    hide Total, Work;
    assert WorkerOk(s.ts[t], s.gen, s.ts[0].at);
    if s.ts[t].at.Busy? && s.ts[t].at.lo < s.ts[t].at.hi { HeldIsFresh(s, t); }
  }

  /** No wakeup is lost: a worker asleep past the current generation is about to be notified. */
  lemma NoLostWakeup(nt: nat, acts: seq<Action>, s: State, t: nat)
    requires nt >= 1 && Exec(Init(nt), acts, s) && Shape(s)
    requires 1 <= t < |s.ts| && s.ts[t].at.Waiting? && s.ts[t].seen != s.gen
    ensures s.ts[0].at.Notify?
  {
    InitInv(nt);
    ExecInv(Init(nt), acts, s);
    assert WorkerOk(s.ts[t], s.gen, s.ts[0].at);
  }

  // ------------------------------------------------------------------ every run ends

  /** How many steps a thread may still take in this run. */
  function Weight(gen: nat): Thread -> nat {
    (th: Thread) =>
      match th.at
      case Waiting => if th.seen == gen then 0 else 6
      case Spin => if th.seen == gen then 0 else 5
      case Awake => 4
      case Busy(lo, hi) => 3 + if lo < hi then hi - lo else 0
      case Claim => 2
      case Finish => 1
      case Notify => 3
      case Await => 1
      case _ => 0
  }

  function Rank(s: State): nat {
    3 * (if s.next < s.n then s.n - s.next else 0) + Total(s.ts, Weight(s.gen))
  }

  /** All steps but going to sleep, and waking up, after having worked on this generation. */
  predicate Productive(s: State, a: Action)
    requires Shape(s) && Enabled(s, a)
  {
    match a
    case Sleep(t) => false
    case Wake(t) => s.ts[t].seen != s.gen
    case _ => true
  }

  lemma {:induction false} WakingLightens(ts: seq<Thread>, gen: nat)
    ensures Total(WakeAll(ts), Weight(gen)) <= Total(ts, Weight(gen))
  {
    if ts != [] {
      WakingLightens(ts[..|ts| - 1], gen);
      assert WakeAll(ts)[..|ts| - 1] == WakeAll(ts[..|ts| - 1]);
    }
  }

  lemma WeightStep(s: State, a: Action)
    requires Shape(s) && Enabled(s, a) && Actor(a) < |Do(s, a).ts|
    ensures var s', t := Do(s, a), Actor(a);
            Total(s'.ts, Weight(s.gen)) + Weight(s.gen)(s.ts[t]) <= Total(s.ts, Weight(s.gen)) + Weight(s.gen)(s'.ts[t])
  {
    hide Do, Enabled, Total;
    OneMoves(s, a);
    WakingLightens(s.ts, s.gen);
    var before := if a.NotifyAll? then WakeAll(s.ts) else s.ts;
    TotalUpdate(before, Weight(s.gen), Actor(a), Do(s, a).ts[Actor(a)]);
    assert a.NotifyAll? ==> before[0] == s.ts[0];
  }

  /** Inside a run no step adds work, and every productive step removes some. */
  lemma RankStep(s: State, a: Action)
    requires Inv(s) && Published(s.ts[0].at) && Enabled(s, a)
    ensures Rank(Do(s, a)) <= Rank(s)
    ensures Productive(s, a) ==> Rank(Do(s, a)) < Rank(s)
  {
    hide Total, Work, Counters;
    OneMoves(s, a);
    WeightStep(s, a);
  }

  lemma {:induction false} AllResting(ts: seq<Thread>, gen: nat)
    requires forall t :: 1 <= t < |ts| ==> Rests(gen)(ts[t]) == 1
    ensures Total(ts, Rests(gen)) >= |ts| - 1
  {
    if ts != [] { AllResting(ts[..|ts| - 1], gen); }
  }

  /** The pool never gets stuck: until run returns, some thread has a productive step. */
  lemma NeverStuck(s: State) returns (a: Action)
    requires Inv(s) && Published(s.ts[0].at)
    ensures Enabled(s, a) && Productive(s, a)
  {
    hide Total, Work;
    var c := s.ts[0].at;
    if c.Notify? {
      a := NotifyAll;
    } else if c.Claim? {
      a := Take(0);
    } else if c.Busy? {
      a := if c.lo < c.hi then RunIndex(0) else ChunkDone(0);
    } else if s.done >= |s.ts| - 1 {
      a := Return;
    } else {
      var t := SomeoneWorks(s);
      a := WorkerStep(s, t);
    }
  }

  lemma SomeoneWorks(s: State) returns (t: nat)
    requires Shape(s) && Counters(s) && s.ts[0].at.Await? && s.done < |s.ts| - 1
    ensures 1 <= t < |s.ts| && Rests(s.gen)(s.ts[t]) == 0
  {
    if forall u :: 1 <= u < |s.ts| ==> Rests(s.gen)(s.ts[u]) == 1 {
      AllResting(s.ts, s.gen);
    }
    t :| 1 <= t < |s.ts| && Rests(s.gen)(s.ts[t]) != 1;
  }

  lemma WorkerStep(s: State, t: nat) returns (a: Action)
    requires Shape(s) && Gens(s) && s.ts[0].at.Await? && 1 <= t < |s.ts| && Rests(s.gen)(s.ts[t]) == 0
    ensures Enabled(s, a) && Productive(s, a)
  {
    var th := s.ts[t];
    assert WorkerOk(th, s.gen, s.ts[0].at);
    if th.at.Spin? {
      a := See(t);
    } else if th.at.Awake? {
      a := Record(t);
    } else if th.at.Claim? {
      a := Take(t);
    } else if th.at.Finish? {
      a := CountIn(t);
    } else {
      a := if th.at.lo < th.at.hi then RunIndex(t) else ChunkDone(t);
    }
  }

  /** How many productive steps a run of the system takes. */
  function ProductiveSteps(s: State, acts: seq<Action>, s': State): nat
    requires Exec(s, acts, s')
    decreases |acts|
  {
    if acts == [] then 0
    else (if Productive(s, acts[0]) then 1 else 0) + ProductiveSteps(Do(s, acts[0]), acts[1..], s')
  }

  lemma StaysPublished(s: State, a: Action)
    requires Inv(s) && Published(s.ts[0].at) && Enabled(s, a) && !a.Return?
    ensures Shape(Do(s, a)) && Published(Do(s, a).ts[0].at)
  {
    hide Total, Work, Counters;
    ShapeStep(s, a);
  }

  /** However the threads are scheduled, only boundedly many productive steps pass before run returns. */
  lemma {:induction false} RunsEnd(s: State, acts: seq<Action>, s': State)
    requires Inv(s) && Published(s.ts[0].at) && Exec(s, acts, s')
    requires forall k :: 0 <= k < |acts| ==> !acts[k].Return?
    ensures ProductiveSteps(s, acts, s') + Rank(s') <= Rank(s)
    decreases |acts|
  {
    hide Total, Work, Counters, Gens, Do, Rank, Productive, Enabled;
    if acts != [] {
      InvStep(s, acts[0]);
      StaysPublished(s, acts[0]);
      RankStep(s, acts[0]);
      RunsEnd(Do(s, acts[0]), acts[1..], s');
    }
  }
}
