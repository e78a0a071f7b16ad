/** How few barriers a batch needs: of all placements that leave the device only one memory to end in, the encoder's
    has the fewest. */
module Barriers {
  import opened GpuMemory
  import opened Daemon
  import opened Encoder
  import Placement

  /** The batch with its barriers placed differently. */
  function Placed(st: seq<Stage>, bars: seq<bool>): (us: seq<Stage>)
    requires |bars| == |st|
    ensures |us| == |st|
  {
    seq(|st|, i requires 0 <= i < |st| => st[i].(skipBarrier := !bars[i]))
  }

  /** The same ranges and flags, other kernels. */
  ghost predicate SameRanges(st: seq<Stage>, us: seq<Stage>) {
    && |us| == |st|
    && forall i :: 0 <= i < |st| ==>
        us[i].ins == st[i].ins && us[i].outs == st[i].outs && us[i].skipBarrier == st[i].skipBarrier
  }

  /** The device may run the batch from m to m'. */
  ghost predicate MayEnd(st: seq<Stage>, m: Mem, m': Mem) {
    Outcome(Commands(st, false), m, m')
  }

  /** Whatever its stages compute, the batch has only one result. */
  ghost predicate Determined(st: seq<Stage>) {
    forall us: seq<Stage>, m: Mem, m1: Mem, m2: Mem ::
      SameRanges(st, us) && MayEnd(us, m, m1) && MayEnd(us, m, m2) ==> m1 == m2
  }

  // ------------------------------------------------------------------ where the dispatches stand

  /** The position of stage k in the command buffer. */
  function At(st: seq<Stage>, k: nat): (p: int)
    requires k < |st|
  {
    |Commands(st[..k + 1], false)| - 1
  }

  lemma {:induction false} Prefix(st: seq<Stage>, n: nat)
    requires n <= |st|
    ensures |Commands(st[..n], false)| <= |Commands(st, false)|
    ensures Commands(st, false)[..|Commands(st[..n], false)|] == Commands(st[..n], false)
  {
    if n < |st| {
      Prefix(st[..|st| - 1], n);
      assert st[..|st| - 1][..n] == st[..n];
    } else {
      assert st[..n] == st;
    }
  }

  lemma DispatchAt(st: seq<Stage>, k: nat)
    requires k < |st|
    ensures 0 <= At(st, k) < |Commands(st, false)| && Commands(st, false)[At(st, k)] == Dispatch(st[k])
  {
    Prefix(st, k + 1);
    var cs, us := Commands(st, false), Commands(st[..k + 1], false);
    assert us[|us| - 1] == Dispatch(st[k]);
    assert cs[..|us|][|us| - 1] == us[|us| - 1];
  }

  lemma {:induction false} DispatchFrom(st: seq<Stage>, q: nat) returns (k: nat)
    requires q < |Commands(st, false)| && Commands(st, false)[q].Dispatch?
    ensures k < |st| && At(st, k) == q
  {
    var n := |st| - 1;
    var cs := Commands(st[..n], false);
    if q < |cs| {
      k := DispatchFrom(st[..n], q);
      assert st[..n][..k + 1] == st[..k + 1];
    } else {
      k := n;
      assert st[..n + 1] == st;
    }
  }

  /** Stages without barriers between them stand next to each other. */
  lemma {:induction false} NoBarrierBetween(st: seq<Stage>, i: nat, j: nat)
    requires i < j < |st| && forall k :: i < k <= j ==> st[k].skipBarrier
    ensures At(st, i) < At(st, j)
    ensures forall q :: At(st, i) <= q <= At(st, j) ==>
        0 <= q < |Commands(st, false)| && Commands(st, false)[q].Dispatch?
    decreases j
  {
    hide Commands;
    DispatchAt(st, i);
    DispatchAt(st, j);
    Adjacent(st, j);
    if i < j - 1 { NoBarrierBetween(st, i, j - 1); }
  }

  lemma Adjacent(st: seq<Stage>, j: nat)
    requires 0 < j < |st| && st[j].skipBarrier
    ensures At(st, j) == At(st, j - 1) + 1
  {
    assert st[..j + 1][..j] == st[..j];
  }

  // ------------------------------------------------------------------ two schedules

  /** Changes nothing. */
  function Still(): Kernel {
    (v: View) => map[]
  }

  lemma StillApplied(s: Stage, m: Mem)
    requires s.kernel == Still()
    ensures Apply(s, m) == m
  {
    SameMem(Apply(s, m), m);
  }

  /** Only the dispatches at positions x and y do anything. */
  ghost predicate OnlyTwo(cmds: seq<Cmd>, x: nat, y: nat) {
    && x < y < |cmds| && (forall q :: x <= q <= y ==> cmds[q].Dispatch?)
    && forall q :: 0 <= q < |cmds| && q != x && q != y && cmds[q].Dispatch? ==> cmds[q].s.kernel == Still()
  }

  lemma {:induction false} InOrderOfTwo(cmds: seq<Cmd>, m: Mem, x: nat, y: nat, n: nat)
    requires OnlyTwo(cmds, x, y) && n <= |cmds|
    ensures InOrder(cmds[..n], m)
         == if n <= x then m else if n <= y then Apply(cmds[x].s, m) else Apply(cmds[y].s, Apply(cmds[x].s, m))
  {
    hide Apply;
    if n > 0 {
      InOrderOfTwo(cmds, m, x, y, n - 1);
      assert cmds[..n][..n - 1] == cmds[..n - 1];
      if n - 1 != x && n - 1 != y && cmds[n - 1].Dispatch? { StillApplied(cmds[n - 1].s, InOrder(cmds[..n - 1], m)); }
    }
  }

  /** Everything before n has run, and so has the dispatch at y; the rest has not begun. */
  ghost predicate DoneBut(cmds: seq<Cmd>, d: Device, n: nat, y: nat) {
    && Shaped(cmds, d) && n <= |cmds| && y < |cmds| && d.finished[y]
    && (forall p :: 0 <= p < n && cmds[p].Dispatch? ==> d.finished[p])
    && (forall p: nat :: n <= p < |cmds| && p != y ==> Fresh(cmds, d, p))
  }

  lemma {:induction false} RunRest(cmds: seq<Cmd>, m: Mem, trace: seq<Event>, d: Device, n: nat, x: nat, y: nat)
    returns (trace': seq<Event>, d': Device)
    requires OnlyTwo(cmds, x, y) && DoneBut(cmds, d, n, y) && Reaches(cmds, m, trace, d)
    ensures Reaches(cmds, m, trace', d') && Complete(cmds, d')
    ensures d'.mem == if n <= x then Apply(cmds[x].s, d.mem) else d.mem
    decreases |cmds| - n
  {
    hide Reaches, Apply, Fresh;
    trace', d' := trace, d;
    if n < |cmds| {
      if n != y && cmds[n].Dispatch? {
        trace', d' := RunOne(cmds, m, trace, d, n);
        if n != x { StillApplied(cmds[n].s, d.mem); }
      }
      trace', d' := RunRest(cmds, m, trace', d', n + 1, x, y);
    }
  }

  /** With no barrier in between, the later of the two may run first. */
  lemma EitherOrder(cmds: seq<Cmd>, m: Mem, x: nat, y: nat)
    requires OnlyTwo(cmds, x, y)
    ensures Outcome(cmds, m, Apply(cmds[y].s, Apply(cmds[x].s, m)))
    ensures Outcome(cmds, m, Apply(cmds[x].s, Apply(cmds[y].s, m)))
  {
    hide Reaches, Apply, Fresh;
    var trace, d := RunInOrder(cmds, m, |cmds|);
    InOrderOfTwo(cmds, m, x, y, |cmds|);
    assert Complete(cmds, d);
    trace, d := RunInOrder(cmds, m, x);
    InOrderOfTwo(cmds, m, x, y, x);
    trace, d := RunOne(cmds, m, trace, d, y);
    trace, d := RunRest(cmds, m, trace, d, x, x, y);
  }

  // ------------------------------------------------------------------ every conflict needs its barrier

  /** The batch in which only stages i and j compute something. */
  function Two(st: seq<Stage>, i: nat, j: nat, ks: Kernel, kt: Kernel): (us: seq<Stage>)
    ensures |us| == |st|
  {
    seq(|st|, k requires 0 <= k < |st| => st[k].(kernel := if k == i then ks else if k == j then kt else Still()))
  }

  lemma TwoCommands(st: seq<Stage>, i: nat, j: nat, ks: Kernel, kt: Kernel)
    requires i < j < |st| && forall k :: i < k <= j ==> st[k].skipBarrier
    ensures var us := Two(st, i, j, ks, kt); var cmds := Commands(us, false);
            && 0 <= At(us, i) && 0 <= At(us, j) && OnlyTwo(cmds, At(us, i), At(us, j))
            && cmds[At(us, i)].s == st[i].(kernel := ks) && cmds[At(us, j)].s == st[j].(kernel := kt)
  {
    var us := Two(st, i, j, ks, kt);
    var cmds := Commands(us, false);
    hide Commands, At;
    NoBarrierBetween(us, i, j);
    DispatchAt(us, i);
    DispatchAt(us, j);
    forall q: nat | q < |cmds| && q != At(us, i) && q != At(us, j) && cmds[q].Dispatch?
      ensures cmds[q].s.kernel == Still() {
      var k := DispatchFrom(us, q);
      DispatchAt(us, k);
    }
  }

  /** Without a barrier between two conflicting stages that write something, some kernels over just these ranges
      leave the device two memories to end in. */
  lemma BarrierNeeded(st: seq<Stage>, i: nat, j: nat) returns (us: seq<Stage>, m1: Mem, m2: Mem)
    requires i < j < |st| && Conflict(st[i], st[j]) && (forall k :: i < k <= j ==> st[k].skipBarrier)
    requires Bytes(st[i].outs) != {} && Bytes(st[j].outs) != {}
    ensures SameRanges(st, us) && MayEnd(us, Zero(), m1) && MayEnd(us, Zero(), m2) && m1 != m2
  {
    hide Conflict, Bytes, Apply, Zero, Commands, At, OnlyTwo;
    var ks, kt := OrderMatters(st[i], st[j]);
    us := Two(st, i, j, ks, kt);
    TwoCommands(st, i, j, ks, kt);
    EitherOrder(Commands(us, false), Zero(), At(us, i), At(us, j));
    var s, t := st[i].(kernel := ks), st[j].(kernel := kt);
    m1, m2 := Apply(t, Apply(s, Zero())), Apply(s, Apply(t, Zero()));
  }

  ghost predicate AllWrite(st: seq<Stage>) {
    forall i :: 0 <= i < |st| ==> Bytes(st[i].outs) != {}
  }

  /** A placement that fixes the result separates every conflicting pair. */
  lemma DeterminedSplits(st: seq<Stage>, bars: seq<bool>)
    requires |bars| == |st| && AllWrite(st) && Determined(Placed(st, bars))
    ensures Placement.Splits(Conflicts(st), bars)
  {
    hide Conflict, Bytes, MayEnd;
    forall i, j | 0 <= i < j < |bars| && Conflicts(st)(i, j)
      ensures exists b :: i < b <= j && bars[b]
    {
      if forall b :: i < b <= j ==> !bars[b] {
        var ps := Placed(st, bars);
        SameConflict(st[i], st[j], ps[i], ps[j]);
        var us, m1, m2 := BarrierNeeded(ps, i, j);
      }
    }
  }

  lemma SameConflict(s: Stage, t: Stage, s': Stage, t': Stage)
    requires s'.ins == s.ins && s'.outs == s.outs && t'.ins == t.ins && t'.outs == t.outs
    ensures Conflict(s, t) <==> Conflict(s', t')
  {
  }

  // ------------------------------------------------------------------ and no more

  lemma {:induction false} SameShape(st: seq<Stage>, us: seq<Stage>)
    requires SameRanges(st, us)
    ensures var cs, ds := Commands(st, false), Commands(us, false);
            && |cs| == |ds|
            && (forall p :: 0 <= p < |cs| ==> (cs[p].Barrier? <==> ds[p].Barrier?))
            && (forall p :: 0 <= p < |cs| && cs[p].Dispatch? ==>
                ds[p].s.ins == cs[p].s.ins && ds[p].s.outs == cs[p].s.outs)
  {
    if st != [] { SameShape(st[..|st| - 1], us[..|us| - 1]); }
  }

  // ------------------------------------------------------------------ and is settled by it

  lemma {:induction false} Later(st: seq<Stage>, i: nat, j: nat)
    requires i <= j < |st|
    ensures 0 <= At(st, i) <= At(st, j) && (i < j ==> At(st, i) < At(st, j))
    decreases j
  {
    assert st[..j + 1][..j] == st[..j];
    if i < j {
      Later(st, i, j - 1);
    } else {
      DispatchAt(st, i);
    }
  }

  /** Where the barrier in front of stage b stands. */
  lemma BarrierAt(st: seq<Stage>, b: nat)
    requires 0 < b < |st| && !st[b].skipBarrier
    ensures At(st, b - 1) < At(st, b) - 1 < |Commands(st, false)| && Commands(st, false)[At(st, b) - 1].Barrier?
  {
    hide *;
    Prefix(st, b + 1);
    LastBarrier(st[..b + 1]);
    assert st[..b + 1][..b] == st[..b];
    AtIs(st, b - 1);
    AtIs(st, b);
    var us := Commands(st[..b + 1], false);
    assert Commands(st, false)[..|us|][|us| - 2] == us[|us| - 2];
  }

  lemma AtIs(st: seq<Stage>, k: nat)
    requires k < |st|
    ensures At(st, k) == |Commands(st[..k + 1], false)| - 1
  {
  }

  lemma LastBarrier(st: seq<Stage>)
    requires |st| > 1 && !st[|st| - 1].skipBarrier
    ensures var cs, ds := Commands(st[..|st| - 1], false), Commands(st, false);
            |ds| == |cs| + 2 && |cs| >= 1 && ds[|ds| - 2].Barrier?
  {
  }

  /** A placement that separates every conflicting pair separates the dispatches. */
  lemma SplitsSeparate(st: seq<Stage>)
    requires Placement.Splits(Conflicts(st), Flags(st))
    ensures Separated(Commands(st, false))
  {
    hide At, Commands, Conflict;
    var cs := Commands(st, false);
    forall p: nat, q: nat | p < q < |cs| && cs[p].Dispatch? && cs[q].Dispatch? && Conflict(cs[p].s, cs[q].s)
      ensures exists b :: p < b < q && cs[b].Barrier?
    {
      var i := DispatchFrom(st, p);
      var j := DispatchFrom(st, q);
      DispatchAt(st, i);
      DispatchAt(st, j);
      if j <= i { Later(st, j, i); }
      assert Conflicts(st)(i, j);
      var b: nat :| i < b <= j && Flags(st)[b];
      BarrierAt(st, b);
      Later(st, i, b - 1);
      Later(st, b, j);
    }
  }

  /** Separated dispatches have one result. */
  lemma SeparatedDetermines(st: seq<Stage>)
    requires Separated(Commands(st, false))
    ensures Determined(st)
  {
    hide Commands, Outcome, InOrder, Conflict;
    forall us: seq<Stage>, m: Mem, m1: Mem, m2: Mem | SameRanges(st, us) && MayEnd(us, m, m1) && MayEnd(us, m, m2)
      ensures m1 == m2
    {
      SameShape(st, us);
      var cs, ds := Commands(st, false), Commands(us, false);
      forall p, q | 0 <= p < q < |ds| && ds[p].Dispatch? && ds[q].Dispatch? && Conflict(ds[p].s, ds[q].s)
        ensures exists b :: p < b < q && ds[b].Barrier?
      {
        SameConflict(cs[p].s, cs[q].s, ds[p].s, ds[q].s);
        var b :| p < b < q && cs[b].Barrier?;
      }
      ScheduleIndependence(ds, m, m1);
      ScheduleIndependence(ds, m, m2);
    }
  }

  /** The encoder's own flags fix the result. */
  lemma GreedyDetermines(st: seq<Stage>)
    requires Greedy(st)
    ensures Determined(st)
  {
    hide Determined;
    GreedySeparates(st);
    SeparatedDetermines(st);
  }

  lemma PlacedFlags(st: seq<Stage>, bars: seq<bool>)
    requires |bars| == |st|
    ensures Flags(Placed(st, bars)) == bars
    ensures Placement.Splits(Conflicts(Placed(st, bars)), bars) <==> Placement.Splits(Conflicts(st), bars)
  {
    var ps := Placed(st, bars);
    forall i: nat, j: nat ensures Conflicts(ps)(i, j) <==> Conflicts(st)(i, j) {
      if i < |st| && j < |st| { SameConflict(st[i], st[j], ps[i], ps[j]); }
    }
    hide Conflicts;
  }

  /** A placement of barriers leaves the device one result, whatever the stages compute, if and only if it separates
      every two stages that conflict on some byte. */
  lemma DeterminedExactly(st: seq<Stage>, bars: seq<bool>)
    requires |bars| == |st| && AllWrite(st)
    ensures Determined(Placed(st, bars)) <==> Placement.Splits(Conflicts(st), bars)
  {
    hide Determined, Conflicts, AllWrite, Flags, Placed;
    if Determined(Placed(st, bars)) { DeterminedSplits(st, bars); }
    if Placement.Splits(Conflicts(st), bars) {
      PlacedFlags(st, bars);
      SplitsSeparate(Placed(st, bars));
      SeparatedDetermines(Placed(st, bars));
    }
  }

  /** Main result: the encoder's barriers fix the result of a batch in which every stage writes something, and unless
      it compares an empty range with one around it, no placement that does has fewer. */
  lemma FewestBarriers(st: seq<Stage>, bars: seq<bool>)
    requires Greedy(st) && |bars| == |st| && AllWrite(st) && Plain(st)
    requires Determined(Placed(st, bars))
    ensures Determined(st)
    ensures Placement.Count(Flags(st)) <= Placement.Count(bars)
  {
    GreedyDetermines(st);
    hide Determined, Greedy, Plain;
    DeterminedSplits(st, bars);
    BarriersAreMinimal(st, bars);
  }

  /** Of two stages exactly when: a placement with fewer barriers also fixes the result if and only if the encoder
      compares an empty range with one around it and the stages share no byte. */
  lemma TooManyExactly(s: Stage, t: Stage)
    requires Greedy([s, t]) && AllWrite([s, t]) && OrderedStage(s) && OrderedStage(t)
    ensures (exists bars :: |bars| == 2 && Determined(Placed([s, t], bars))
                            && Placement.Count(bars) < Placement.Count(Flags([s, t])))
            <==> Phantom(s, t) && !Conflict(s, t)
  {
    var st, none := [s, t], [false, false];
    hide Determined, Placed, AllWrite, Conflict, Phantom, StageClash, OrderedStage;
    FlagsOfTwo(s, t);
    ClashExactly(s, t);
    SplitsOfTwo(s, t, none);
    DeterminedExactly(st, none);
    forall bars | |bars| == 2 && Determined(Placed(st, bars)) && Placement.Count(bars) < Placement.Count(Flags(st))
      ensures Phantom(s, t) && !Conflict(s, t)
    {
      DeterminedSplits(st, bars);
      SplitsOfTwo(s, t, bars);
    }
  }

  lemma FlagsOfTwo(s: Stage, t: Stage)
    requires Greedy([s, t])
    ensures Flags([s, t]) == [false, StageClash(s, t)] && Placement.Count([false, false]) == 0
    ensures Placement.Count([false, true]) == 1
  {
    hide StageClash, SegmentClash;
    var st := [s, t];
    assert st[..1] == [s] && [s][..0] == [];
    SegmentClashIff([], s);
    OneStage(s);
    ClashOfOne(s, t);
    assert [false, true][..1] == [false] && [false, false][..1] == [false] && [false][..0] == [];
  }

  lemma SplitsOfTwo(s: Stage, t: Stage, bars: seq<bool>)
    requires |bars| == 2
    ensures Placement.Splits(Conflicts([s, t]), bars) <==> (Conflict(s, t) ==> bars[1])
    ensures Placement.Count(bars) == (if bars[0] then 1 else 0) + if bars[1] then 1 else 0
  {
    hide Conflict;
    assert bars[..1] == [bars[0]] && [bars[0]][..0] == [];
    assert Placement.Count([bars[0]]) == if bars[0] then 1 else 0;
    assert Conflicts([s, t])(0, 1) == Conflict(s, t);
    if bars[1] {
      forall i: nat, j: nat | i < j < |bars| && Conflicts([s, t])(i, j) ensures exists b :: i < b <= j && bars[b] {
        assert i < 1 <= j;
      }
    }
  }

  /** One barrier too many: with the empty read of an empty source inside what the stage before wrote, the encoder has a
      barrier, and without it the batch has only one result all the same. */
  lemma OneTooMany(s: Stage, t: Stage)
    requires s.ins == [Rng(20, 30)] && s.outs == [Rng(0, 10)] && t.ins == [Rng(5, 5), Rng(60, 70)]
    requires t.outs == [Rng(40, 50)] && s.skipBarrier && !t.skipBarrier
    ensures Greedy([s, t]) && Placement.Count(Flags([s, t])) == 1
    ensures Determined(Placed([s, t], [false, false])) && Placement.Count([false, false]) == 0
  {
    EmptyRangeBarrier(s, t);
    assert 0 in Span(s.outs[0]) && 40 in Span(t.outs[0]);
    assert 0 in Bytes(s.outs) && 40 in Bytes(t.outs);
    hide Determined, Greedy, Flags, Conflicts, Placed, Bytes;
    assert AllWrite([s, t]);
    DeterminedExactly([s, t], [false, false]);
  }
}
