/** The daemon's execution of one batch (run_stages3): the command buffer it records, and
    every way the device may execute it.

    The device is a step system. A dispatch that no barrier holds back may load any part of
    its footprint, then store any part of its output, in any number of pieces, interleaved
    with every other dispatch; it may finish once all of its output is stored. A barrier
    holds back everything after it until everything before it has finished. */
module Daemon {
  import opened GpuMemory

  datatype Cmd = Barrier | Dispatch(s: Stage)

  /** Is a barrier recorded in front of stage `i`? `sessionFlags` bit 0 is the measuring
      mode that drops every barrier. */
  predicate BarrierBefore(st: seq<Stage>, noBarriers: bool, i: nat)
    requires i < |st|
  {
    i > 0 && !noBarriers && !st[i].skipBarrier
  }

  function Commands(st: seq<Stage>, noBarriers: bool): seq<Cmd> {
    if st == [] then [] else
      var n := |st| - 1;
      Commands(st[..n], noBarriers)
      + (if BarrierBefore(st, noBarriers, n) then [Barrier] else [])
      + [Dispatch(st[n])]
  }

  /** run_stages3's recording loop. */
  method Record(st: seq<Stage>, noBarriers: bool) returns (cmds: seq<Cmd>)
    ensures cmds == Commands(st, noBarriers)
  {
    cmds := [];
    for i := 0 to |st|
      invariant cmds == Commands(st[..i], noBarriers)
    {
      assert st[..i + 1][..i] == st[..i];
      if i > 0 && !noBarriers && !st[i].skipBarrier {
        cmds := cmds + [Barrier];
      }
      cmds := cmds + [Dispatch(st[i])];
    }
    assert st[..|st|] == st;
  }

  // ------------------------------------------------------------------ the device

  /** A step of dispatch number `p`; `at` says which bytes it moves. */
  datatype Event =
    | Load(p: nat, at: set<int>)
    | Store(p: nat, at: set<int>)
    | Finish(p: nat)

  /** Per command: the bytes loaded so far, the addresses stored so far, and whether it is done. */
  datatype Device = Device(mem: Mem, loaded: seq<View>, stored: seq<set<int>>, finished: seq<bool>)

  ghost predicate Shaped(cmds: seq<Cmd>, d: Device) {
    |d.loaded| == |d.stored| == |d.finished| == |cmds|
  }

  ghost function Start(cmds: seq<Cmd>, m: Mem): Device {
    Device(m, seq(|cmds|, _ => map[]), seq(|cmds|, _ => {}), seq(|cmds|, _ => false))
  }

  ghost predicate Ready(cmds: seq<Cmd>, d: Device, p: nat)
    requires Shaped(cmds, d) && p < |cmds|
  {
    forall q, b :: 0 <= q < b < p && cmds[q].Dispatch? && cmds[b].Barrier? ==> d.finished[q]
  }

  ghost predicate Enabled(cmds: seq<Cmd>, d: Device, e: Event)
    requires Shaped(cmds, d)
  {
    && e.p < |cmds| && cmds[e.p].Dispatch? && Ready(cmds, d, e.p) && !d.finished[e.p]
    && match e
       case Load(p, at) => d.stored[p] == {} && at <= Footprint(cmds[p].s)
       case Store(p, at) => Footprint(cmds[p].s) <= d.loaded[p].Keys && at <= Bytes(cmds[p].s.outs)
       case Finish(p) => Footprint(cmds[p].s) <= d.loaded[p].Keys && d.stored[p] == Bytes(cmds[p].s.outs)
  }

  ghost function Step(cmds: seq<Cmd>, d: Device, e: Event): (d': Device)
    requires Shaped(cmds, d) && Enabled(cmds, d, e)
    ensures Shaped(cmds, d')
  {
    match e
    case Load(p, at) =>
      d.(loaded := d.loaded[p := d.loaded[p] + Restrict(d.mem, at)])
    case Store(p, at) =>
      var v := d.loaded[p];
      d.(mem := imap a: int | true :: if a in at && a in v then Out(cmds[p].s.kernel, v, a) else d.mem[a],
         stored := d.stored[p := d.stored[p] + at])
    case Finish(p) =>
      d.(finished := d.finished[p := true])
  }

  /** `trace` is a run from `m` that ends in `d`. */
  ghost predicate Reaches(cmds: seq<Cmd>, m: Mem, trace: seq<Event>, d: Device) {
    if trace == [] then d == Start(cmds, m) else
      var n := |trace| - 1;
      exists d0 :: Reaches(cmds, m, trace[..n], d0) && Shaped(cmds, d0) && Enabled(cmds, d0, trace[n])
        && d == Step(cmds, d0, trace[n])
  }

  ghost predicate Complete(cmds: seq<Cmd>, d: Device) {
    Shaped(cmds, d) && forall p :: 0 <= p < |cmds| && cmds[p].Dispatch? ==> d.finished[p]
  }

  /** Memory `m'` is a possible result of running the command buffer from memory `m`. */
  ghost predicate Outcome(cmds: seq<Cmd>, m: Mem, m': Mem) {
    exists trace, d :: Reaches(cmds, m, trace, d) && Complete(cmds, d) && d.mem == m'
  }

  // ------------------------------------------------------------------ schedule independence

  /** Any two conflicting dispatches have a barrier between them. */
  ghost predicate Separated(cmds: seq<Cmd>) {
    forall p, q :: 0 <= p < q < |cmds| && cmds[p].Dispatch? && cmds[q].Dispatch? && Conflict(cmds[p].s, cmds[q].s)
      ==> exists b :: p < b < q && cmds[b].Barrier?
  }

  ghost function InOrder(cmds: seq<Cmd>, m: Mem): Mem {
    if cmds == [] then m else
      var n := |cmds| - 1;
      match cmds[n]
      case Barrier => InOrder(cmds[..n], m)
      case Dispatch(s) => Apply(s, InOrder(cmds[..n], m))
  }

  ghost predicate WritesAt(cmds: seq<Cmd>, p: int, a: int)
    requires 0 <= p < |cmds|
  {
    cmds[p].Dispatch? && a in Bytes(cmds[p].s.outs)
  }

  /** For address `a`, exactly the dispatches before `t` have had their effect. */
  ghost predicate Cut(cmds: seq<Cmd>, d: Device, t: int, a: int)
    requires Shaped(cmds, d) && 0 <= t <= |cmds|
  {
    && (forall k :: 0 <= k < t && WritesAt(cmds, k, a) ==> a in d.stored[k])
    && (forall k :: t <= k < |cmds| ==> a !in d.stored[k])
  }

  ghost predicate Touched(d: Device, p: int)
    requires 0 <= p < |d.loaded| == |d.stored| == |d.finished|
  {
    d.stored[p] != {} || d.finished[p]
  }

  ghost predicate Inv(cmds: seq<Cmd>, m: Mem, d: Device) {
    && Shaped(cmds, d)
    && (forall p :: 0 <= p < |cmds| && Touched(d, p) ==> cmds[p].Dispatch? && Ready(cmds, d, p))
    && (forall p, a :: 0 <= p < |cmds| && a in d.loaded[p] ==> d.loaded[p][a] == InOrder(cmds[..p], m)[a])
    && (forall p :: 0 <= p < |cmds| && cmds[p].Dispatch? ==> d.loaded[p].Keys <= Footprint(cmds[p].s))
    && (forall p :: 0 <= p < |cmds| && cmds[p].Dispatch? ==> d.stored[p] <= Bytes(cmds[p].s.outs))
    && (forall p :: 0 <= p < |cmds| && d.finished[p] && cmds[p].Dispatch? ==> d.stored[p] == Bytes(cmds[p].s.outs))
    && (forall t, a :: 0 <= t <= |cmds| && Cut(cmds, d, t, a) ==> d.mem[a] == InOrder(cmds[..t], m)[a])
  }

  /** Dispatches in [p, q) that do not write `a` leave it alone. */
  lemma {:induction false} InOrderFrame(cmds: seq<Cmd>, m: Mem, p: nat, q: nat, a: int)
    requires p <= q <= |cmds|
    requires forall k :: p <= k < q ==> !WritesAt(cmds, k, a)
    ensures InOrder(cmds[..q], m)[a] == InOrder(cmds[..p], m)[a]
  {
    if p < q {
      InOrderFrame(cmds, m, p, q - 1, a);
      assert cmds[..q][..q - 1] == cmds[..q - 1];
      assert !WritesAt(cmds, q - 1, a);
    }
  }

  /** With a barrier between them, an earlier conflicting dispatch has finished before a later one is ready. */
  lemma EarlierFinished(cmds: seq<Cmd>, d: Device, p: nat, q: nat)
    requires Shaped(cmds, d) && Separated(cmds)
    requires p < q < |cmds| && cmds[p].Dispatch? && cmds[q].Dispatch?
    requires Conflict(cmds[p].s, cmds[q].s) && Ready(cmds, d, q)
    ensures d.finished[p]
  {
    var b :| p < b < q && cmds[b].Barrier?;
  }

  /** What a ready, unfinished dispatch loads is what it would load in list order. */
  lemma LoadSeesInOrder(cmds: seq<Cmd>, m: Mem, d: Device, p: nat, a: int)
    requires Separated(cmds) && Inv(cmds, m, d)
    requires p < |cmds| && cmds[p].Dispatch? && Ready(cmds, d, p) && !d.finished[p] && d.stored[p] == {}
    requires a in Footprint(cmds[p].s)
    ensures d.mem[a] == InOrder(cmds[..p], m)[a]
  {
    forall k | 0 <= k < p && WritesAt(cmds, k, a)
      ensures a in d.stored[k]
    {
      EarlierFinished(cmds, d, k, p);
    }
    forall k | p <= k < |cmds|
      ensures a !in d.stored[k]
    {
      if k != p && a in d.stored[k] {
        assert Touched(d, k);
        assert a in Bytes(cmds[k].s.outs);
        EarlierFinished(cmds, d, p, k);
        assert false;
      }
    }
    assert Cut(cmds, d, p, a);
  }

  lemma LoadKeepsInv(cmds: seq<Cmd>, m: Mem, d: Device, e: Event)
    requires Separated(cmds) && Inv(cmds, m, d) && Enabled(cmds, d, e) && e.Load?
    ensures Inv(cmds, m, Step(cmds, d, e))
  {
    var d' := Step(cmds, d, e);
    forall a | a in e.at
      ensures d.mem[a] == InOrder(cmds[..e.p], m)[a]
    {
      LoadSeesInOrder(cmds, m, d, e.p, a);
    }
    forall p | 0 <= p < |cmds| && Touched(d', p)
      ensures cmds[p].Dispatch? && Ready(cmds, d', p)
    {
      assert Touched(d, p);
    }
    forall t, a | 0 <= t <= |cmds| && Cut(cmds, d', t, a)
      ensures d'.mem[a] == InOrder(cmds[..t], m)[a]
    {
      assert Cut(cmds, d, t, a);
    }
  }

  lemma FinishKeepsInv(cmds: seq<Cmd>, m: Mem, d: Device, e: Event)
    requires Separated(cmds) && Inv(cmds, m, d) && Enabled(cmds, d, e) && e.Finish?
    ensures Inv(cmds, m, Step(cmds, d, e))
  {
    var d' := Step(cmds, d, e);
    forall p | 0 <= p < |cmds| && Touched(d', p)
      ensures cmds[p].Dispatch? && Ready(cmds, d', p)
    {
      assert p == e.p || Touched(d, p);
    }
    forall t, a | 0 <= t <= |cmds| && Cut(cmds, d', t, a)
      ensures d'.mem[a] == InOrder(cmds[..t], m)[a]
    {
      assert Cut(cmds, d, t, a);
    }
  }

  /** A fully loaded dispatch holds the view it would have in list order. */
  lemma LoadedView(cmds: seq<Cmd>, m: Mem, d: Device, p: nat)
    requires Inv(cmds, m, d) && p < |cmds| && cmds[p].Dispatch? && Footprint(cmds[p].s) <= d.loaded[p].Keys
    ensures d.loaded[p] == Restrict(InOrder(cmds[..p], m), Footprint(cmds[p].s))
  {
    var v := Restrict(InOrder(cmds[..p], m), Footprint(cmds[p].s));
    assert d.loaded[p].Keys == v.Keys;
  }

  /** No dispatch between a storing one and the cut writes the same byte. */
  lemma NoLaterWriter(cmds: seq<Cmd>, m: Mem, d: Device, e: Event, t: nat, a: int, k: nat)
    requires Separated(cmds) && Inv(cmds, m, d) && Enabled(cmds, d, e) && e.Store?
    requires t <= |cmds| && Cut(cmds, Step(cmds, d, e), t, a) && a in e.at
    requires e.p < k < t
    ensures !WritesAt(cmds, k, a)
  {
    hide InOrder;
    if WritesAt(cmds, k, a) {
      assert a in Step(cmds, d, e).stored[k];
      assert Touched(d, k);
      assert a in Bytes(cmds[e.p].s.outs) && a in Bytes(cmds[k].s.outs);
      EarlierFinished(cmds, d, e.p, k);
      assert false;
    }
  }

  lemma StoredByte(cmds: seq<Cmd>, m: Mem, d: Device, p: nat, a: int)
    requires Inv(cmds, m, d) && p < |cmds| && cmds[p].Dispatch? && Footprint(cmds[p].s) <= d.loaded[p].Keys
    requires a in Bytes(cmds[p].s.outs)
    ensures InOrder(cmds[..p + 1], m)[a] == Out(cmds[p].s.kernel, d.loaded[p], a)
  {
    LoadedView(cmds, m, d, p);
    hide Inv;
    assert cmds[..p + 1][..p] == cmds[..p];
  }

  lemma StoreEffect(cmds: seq<Cmd>, d: Device, e: Event, a: int)
    requires Shaped(cmds, d) && Enabled(cmds, d, e) && e.Store? && a in e.at
    ensures e.p < |cmds| && cmds[e.p].Dispatch? && a in Bytes(cmds[e.p].s.outs)
      && Footprint(cmds[e.p].s) <= d.loaded[e.p].Keys
    ensures a in Step(cmds, d, e).stored[e.p] && Step(cmds, d, e).mem[a] == Out(cmds[e.p].s.kernel, d.loaded[e.p], a)
  {
  }

  /** A byte just stored by dispatch `p` is, at every cut, the byte of list order. */
  lemma StoreAtCut(cmds: seq<Cmd>, m: Mem, d: Device, e: Event, t: nat, a: int)
    requires Shaped(cmds, d) && Separated(cmds) && Inv(cmds, m, d) && Enabled(cmds, d, e) && e.Store?
    requires t <= |cmds| && Cut(cmds, Step(cmds, d, e), t, a) && a in e.at
    ensures Step(cmds, d, e).mem[a] == InOrder(cmds[..t], m)[a]
  {
    hide Inv, InOrder, Separated, Step, Enabled;
    StoreEffect(cmds, d, e, a);
    assert e.p < t;
    forall k | e.p + 1 <= k < t
      ensures !WritesAt(cmds, k, a)
    {
      NoLaterWriter(cmds, m, d, e, t, a, k);
    }
    InOrderFrame(cmds, m, e.p + 1, t, a);
    StoredByte(cmds, m, d, e.p, a);
  }

  lemma StoreKeepsInv(cmds: seq<Cmd>, m: Mem, d: Device, e: Event)
    requires Separated(cmds) && Inv(cmds, m, d) && Enabled(cmds, d, e) && e.Store?
    ensures Inv(cmds, m, Step(cmds, d, e))
  {
    var d' := Step(cmds, d, e);
    forall p | 0 <= p < |cmds| && Touched(d', p)
      ensures cmds[p].Dispatch? && Ready(cmds, d', p)
    {
      assert p == e.p || Touched(d, p);
    }
    forall t, a | 0 <= t <= |cmds| && Cut(cmds, d', t, a)
      ensures d'.mem[a] == InOrder(cmds[..t], m)[a]
    {
      if a in e.at {
        StoreAtCut(cmds, m, d, e, t, a);
      } else {
        assert Cut(cmds, d, t, a) by {
          forall k | 0 <= k < t && WritesAt(cmds, k, a) ensures a in d.stored[k] { assert a in d'.stored[k]; }
          forall k | t <= k < |cmds| ensures a !in d.stored[k] { assert a !in d'.stored[k]; }
        }
      }
    }
  }

  lemma StartInv(cmds: seq<Cmd>, m: Mem)
    ensures Inv(cmds, m, Start(cmds, m))
  {
    var d := Start(cmds, m);
    forall t, a | 0 <= t <= |cmds| && Cut(cmds, d, t, a)
      ensures d.mem[a] == InOrder(cmds[..t], m)[a]
    {
      forall k | 0 <= k < t ensures !WritesAt(cmds, k, a) {
        assert a !in d.stored[k];
      }
      InOrderFrame(cmds, m, 0, t, a);
    }
  }

  lemma {:induction false} ReachableInv(cmds: seq<Cmd>, m: Mem, trace: seq<Event>, d: Device)
    requires Separated(cmds) && Reaches(cmds, m, trace, d)
    ensures Inv(cmds, m, d)
  {
    if trace == [] {
      StartInv(cmds, m);
    } else {
      var n := |trace| - 1;
      var d0 :| Reaches(cmds, m, trace[..n], d0) && Shaped(cmds, d0) && Enabled(cmds, d0, trace[n])
        && d == Step(cmds, d0, trace[n]);
      ReachableInv(cmds, m, trace[..n], d0);
      match trace[n]
      case Load(_, _) => LoadKeepsInv(cmds, m, d0, trace[n]);
      case Store(_, _) => StoreKeepsInv(cmds, m, d0, trace[n]);
      case Finish(_) => FinishKeepsInv(cmds, m, d0, trace[n]);
    }
  }

  /** Main result: however the device schedules a separated command buffer, the memory it
      leaves is the memory of executing the dispatches one by one. */
  lemma ScheduleIndependence(cmds: seq<Cmd>, m: Mem, m': Mem)
    requires Separated(cmds) && Outcome(cmds, m, m')
    ensures m' == InOrder(cmds, m)
  {
    var trace, d :| Reaches(cmds, m, trace, d) && Complete(cmds, d) && d.mem == m';
    ReachableInv(cmds, m, trace, d);
    CompletedMemory(cmds, m, d);
    SameMem(m', InOrder(cmds, m));
  }

  lemma CompletedMemory(cmds: seq<Cmd>, m: Mem, d: Device)
    requires Inv(cmds, m, d) && Complete(cmds, d)
    ensures forall a: int :: d.mem[a] == InOrder(cmds, m)[a]
  {
    forall a: int
      ensures d.mem[a] == InOrder(cmds, m)[a]
    {
      assert Cut(cmds, d, |cmds|, a);
      assert cmds[..|cmds|] == cmds;
    }
  }

  // ------------------------------------------------------------------ some run always completes

  lemma Extend(cmds: seq<Cmd>, m: Mem, trace: seq<Event>, d: Device, e: Event)
    requires Reaches(cmds, m, trace, d) && Shaped(cmds, d) && Enabled(cmds, d, e)
    ensures Reaches(cmds, m, trace + [e], Step(cmds, d, e))
  {
    assert (trace + [e])[..|trace|] == trace;
  }

  ghost predicate Fresh(cmds: seq<Cmd>, d: Device, p: nat) {
    Shaped(cmds, d) && p < |cmds| && !d.finished[p] && d.stored[p] == {} && d.loaded[p] == map[]
  }

  lemma OutsInFootprint(s: Stage)
    ensures Bytes(s.outs) <= Footprint(s)
  {
  }

  /** A dispatch that no barrier holds back may run whole: load everything, store everything, finish. */
  lemma RunOne(cmds: seq<Cmd>, m: Mem, trace: seq<Event>, d: Device, p: nat) returns (trace': seq<Event>, d': Device)
    requires Fresh(cmds, d, p) && cmds[p].Dispatch? && Ready(cmds, d, p) && Reaches(cmds, m, trace, d)
    ensures Reaches(cmds, m, trace', d') && Shaped(cmds, d') && d'.mem == Apply(cmds[p].s, d.mem)
    ensures d'.finished == d.finished[p := true]
    ensures forall q: nat :: q != p && Fresh(cmds, d, q) ==> Fresh(cmds, d', q)
  {
    hide Reaches, Footprint;
    var s := cmds[p].s;
    var load, store, finish := Load(p, Footprint(s)), Store(p, Bytes(s.outs)), Finish(p);
    Extend(cmds, m, trace, d, load);
    var d1 := Step(cmds, d, load);
    assert d1.loaded[p] == Restrict(d.mem, Footprint(s));
    Extend(cmds, m, trace + [load], d1, store);
    var d2 := Step(cmds, d1, store);
    Extend(cmds, m, trace + [load] + [store], d2, finish);
    trace', d' := trace + [load] + [store] + [finish], Step(cmds, d2, finish);
    OutsInFootprint(s);
    SameMem(d'.mem, Apply(s, d.mem));
  }

  /** Everything before n is finished, nothing from n on has begun. */
  ghost predicate DoneUpTo(cmds: seq<Cmd>, d: Device, n: nat) {
    && Shaped(cmds, d) && n <= |cmds|
    && (forall p :: 0 <= p < n && cmds[p].Dispatch? ==> d.finished[p])
    && (forall p: nat :: n <= p < |cmds| ==> Fresh(cmds, d, p))
  }

  /** Running the dispatches one after another is one of the device's choices. */
  lemma {:induction false} RunInOrder(cmds: seq<Cmd>, m: Mem, n: nat) returns (trace: seq<Event>, d: Device)
    requires n <= |cmds|
    ensures Reaches(cmds, m, trace, d) && DoneUpTo(cmds, d, n) && d.mem == InOrder(cmds[..n], m)
  {
    hide Reaches, Apply;
    if n == 0 {
      trace, d := [], Start(cmds, m);
      StartReached(cmds, m);
    } else {
      trace, d := RunInOrder(cmds, m, n - 1);
      assert cmds[..n][..n - 1] == cmds[..n - 1];
      if cmds[n - 1].Dispatch? {
        trace, d := RunOne(cmds, m, trace, d, n - 1);
      }
    }
  }

  lemma StartReached(cmds: seq<Cmd>, m: Mem)
    ensures Reaches(cmds, m, [], Start(cmds, m)) && DoneUpTo(cmds, Start(cmds, m), 0)
  {
  }

  /** The device never gets stuck for good: from every memory some run completes. */
  lemma SomeOutcome(cmds: seq<Cmd>, m: Mem) returns (m': Mem)
    ensures Outcome(cmds, m, m')
  {
    var trace, d := RunInOrder(cmds, m, |cmds|);
    assert Complete(cmds, d);
    m' := d.mem;
  }

  // ------------------------------------------------------------------ barriers are needed

  /** A kernel that stores one value in one byte, and one that copies a byte. */
  function Put(a: int, x: Byte): Kernel {
    (v: View) => map[a := x]
  }

  function Move(a: int, b: int): Kernel {
    (v: View) => if a in v then map[b := v[a]] else map[]
  }

  function Nought(a: int): Byte {
    0
  }

  ghost function Zero(): Mem {
    imap a: int | true :: Nought(a)
  }

  /** What the encoder calls a conflict is one: if two stages conflict and both write something, some kernels over
      just these ranges make their order matter. */
  lemma OrderMatters(s: Stage, t: Stage) returns (ks: Kernel, kt: Kernel)
    requires Conflict(s, t) && Bytes(s.outs) != {} && Bytes(t.outs) != {}
    ensures var s', t' := s.(kernel := ks), t.(kernel := kt);
            Apply(t', Apply(s', Zero())) != Apply(s', Apply(t', Zero()))
  {
    if a :| a in Bytes(s.outs) && a in Bytes(t.outs) {
      ks, kt := Put(a, 1), Put(a, 2);
      DifferAt(s.(kernel := ks), t.(kernel := kt), a);
    } else if a :| a in Bytes(s.outs) && a in Footprint(t) {
      var b :| b in Bytes(t.outs);
      ks, kt := Put(a, 1), Move(a, b);
      DifferAt(s.(kernel := ks), t.(kernel := kt), b);
    } else {
      var a :| a in Footprint(s) && a in Bytes(t.outs);
      var b :| b in Bytes(s.outs);
      ks, kt := Move(a, b), Put(a, 1);
      DifferAt(s.(kernel := ks), t.(kernel := kt), b);
    }
  }

  lemma DifferAt(s: Stage, t: Stage, a: int)
    requires Apply(t, Apply(s, Zero()))[a] != Apply(s, Apply(t, Zero()))[a]
    ensures Apply(t, Apply(s, Zero())) != Apply(s, Apply(t, Zero()))
  {
  }
}
