/** gpud_encoder: the batch under construction, its barrier tracking and its time budget. */
module Encoder {
  import opened GpuMemory
  import opened Tensors
  import Daemon
  import Placement

  const GPUD_MAX_STAGE := 4096
  const DEFAULT_MAX_STAGE := 512

  // ------------------------------------------------------------------ range tests

  predicate Meets(r: Rng, q: Rng) {
    r.lo < q.hi && q.lo < r.hi
  }

  predicate Overlaps(v: seq<Rng>, r: Rng) {
    exists i :: 0 <= i < |v| && Meets(r, v[i])
  }

  /** The range test is exact on non-empty ranges: it reports exactly the ranges that share a byte. */
  lemma MeetsIffShared(r: Rng, q: Rng)
    requires r.lo < r.hi && q.lo < q.hi
    ensures Meets(r, q) <==> !(Span(r) !! Span(q))
  {
    if Meets(r, q) {
      var a := if r.lo < q.lo then q.lo else r.lo;
      assert a in Span(r) && a in Span(q);
    }
  }

  predicate InsideStrictly(r: Rng, q: Rng) {
    r.lo == r.hi && q.lo < r.lo < q.hi
  }

  /** In general it also reports an empty range strictly inside another one, and nothing else. */
  lemma MeetsExactly(r: Rng, q: Rng)
    requires r.lo <= r.hi && q.lo <= q.hi
    ensures Meets(r, q) <==> !(Span(r) !! Span(q)) || InsideStrictly(r, q) || InsideStrictly(q, r)
  {
    if r.lo < r.hi && q.lo < q.hi {
      MeetsIffShared(r, q);
    } else {
      assert Span(r) == {} || Span(q) == {};
    }
  }

  /** A stage with these ranges depends on what was read (`rd`) or written (`wr`) before. */
  predicate Clash(rd: seq<Rng>, wr: seq<Rng>, ins: seq<Rng>, outs: seq<Rng>) {
    || (exists i :: 0 <= i < |ins| && Overlaps(wr, ins[i]))
    || (exists i :: 0 <= i < |outs| && (Overlaps(wr, outs[i]) || Overlaps(rd, outs[i])))
  }

  predicate StageClash(s: Stage, t: Stage) {
    Clash(s.ins + s.outs, s.outs, t.ins, t.outs)
  }

  lemma SharedByteMeets(v: seq<Rng>, w: seq<Rng>, a: int) returns (i: nat)
    requires a in Bytes(v) && a in Bytes(w)
    ensures i < |w| && Overlaps(v, w[i])
  {
    i :| 0 <= i < |w| && a in Span(w[i]);
    var j :| 0 <= j < |v| && a in Span(v[j]);
    assert Meets(w[i], v[j]);
  }

  lemma BytesOfSum(v: seq<Rng>, w: seq<Rng>)
    ensures Bytes(v + w) == Bytes(v) + Bytes(w)
  {
    forall a | a in Bytes(v) + Bytes(w)
      ensures a in Bytes(v + w)
    {
      if a in Bytes(v) {
        var i :| 0 <= i < |v| && a in Span(v[i]);
        assert (v + w)[i] == v[i];
      } else {
        var i :| 0 <= i < |w| && a in Span(w[i]);
        assert (v + w)[|v| + i] == w[i];
      }
    }
  }

  /** No conflict on any byte escapes the range test. */
  lemma ConflictClashes(s: Stage, t: Stage)
    requires Conflict(s, t)
    ensures StageClash(s, t)
  {
    var a: int :| (a in Bytes(s.outs) && a in Footprint(t)) || (a in Footprint(s) && a in Bytes(t.outs));
    if a in Bytes(s.outs) && a in Bytes(t.ins) {
      var i := SharedByteMeets(s.outs, t.ins, a);
    } else if a in Bytes(s.outs) && a in Bytes(t.outs) {
      var i := SharedByteMeets(s.outs, t.outs, a);
    } else {
      BytesOfSum(s.ins, s.outs);
      var i := SharedByteMeets(s.ins + s.outs, t.outs, a);
    }
  }

  predicate Ordered(v: seq<Rng>) {
    forall i :: 0 <= i < |v| ==> v[i].lo <= v[i].hi
  }

  predicate OrderedStage(s: Stage) {
    Ordered(s.ins) && Ordered(s.outs)
  }

  /** Of some range of v and some range of w, one is empty and lies strictly inside the other. */
  predicate Nested(v: seq<Rng>, w: seq<Rng>) {
    exists i, j :: 0 <= i < |v| && 0 <= j < |w| && (InsideStrictly(v[i], w[j]) || InsideStrictly(w[j], v[i]))
  }

  lemma OverlapsExactly(v: seq<Rng>, w: seq<Rng>)
    requires Ordered(v) && Ordered(w)
    ensures (exists i :: 0 <= i < |w| && Overlaps(v, w[i])) <==> !(Bytes(v) !! Bytes(w)) || Nested(v, w)
  {
    if i :| 0 <= i < |w| && Overlaps(v, w[i]) {
      var j :| 0 <= j < |v| && Meets(w[i], v[j]);
      MeetsExactly(w[i], v[j]);
      if a :| a in Span(w[i]) && a in Span(v[j]) { assert a in Bytes(v) && a in Bytes(w); }
    }
    if a :| a in Bytes(v) && a in Bytes(w) {
      var i := SharedByteMeets(v, w, a);
    }
    if i, j :| 0 <= i < |v| && 0 <= j < |w| && (InsideStrictly(v[i], w[j]) || InsideStrictly(w[j], v[i])) {
      assert Meets(w[j], v[i]);
      assert Overlaps(v, w[j]);
    }
  }

  /** The test compares an empty range with one around it. */
  predicate Phantom(s: Stage, t: Stage) {
    Nested(s.outs, t.ins) || Nested(s.ins + s.outs, t.outs)
  }

  lemma SharedOfSum(s: Stage, t: Stage)
    ensures Conflict(s, t) <==> !(Bytes(s.outs) !! Bytes(t.ins)) || !(Bytes(s.ins + s.outs) !! Bytes(t.outs))
  {
    BytesOfSum(s.ins, s.outs);
    if Conflict(s, t) {
      var a: int :| (a in Bytes(s.outs) && a in Footprint(t)) || (a in Footprint(s) && a in Bytes(t.outs));
    }
    if a :| a in Bytes(s.outs) && a in Bytes(t.ins) { assert a in Footprint(t); }
    if a :| a in Bytes(s.ins + s.outs) && a in Bytes(t.outs) { assert a in Footprint(s); }
  }

  lemma ClashParts(s: Stage, t: Stage)
    ensures StageClash(s, t) <==>
            (exists i :: 0 <= i < |t.ins| && Overlaps(s.outs, t.ins[i]))
            || (exists i :: 0 <= i < |t.outs| && Overlaps(s.ins + s.outs, t.outs[i]))
  {
    forall i | 0 <= i < |t.outs|
      ensures Overlaps(s.outs, t.outs[i]) ==> Overlaps(s.ins + s.outs, t.outs[i])
    {
      OverlapsSum(s.ins, s.outs, t.outs[i]);
    }
  }

  /** The range tests report exactly the conflicts on bytes, and empty ranges strictly inside others. */
  lemma ClashExactly(s: Stage, t: Stage)
    requires OrderedStage(s) && OrderedStage(t)
    ensures StageClash(s, t) <==> Conflict(s, t) || Phantom(s, t)
  {
    ClashParts(s, t);
    SharedOfSum(s, t);
    hide StageClash, Conflict, Overlaps, Nested, Bytes;
    OverlapsExactly(s.outs, t.ins);
    OverlapsExactly(s.ins + s.outs, t.outs);
  }

  // ------------------------------------------------------------------ greedy barriers

  /** The stages since the last barrier. */
  function Segment(st: seq<Stage>): seq<Stage> {
    if st == [] then [] else
      var n := |st| - 1;
      if st[n].skipBarrier then Segment(st[..n]) + [st[n]] else [st[n]]
  }

  function ReadRanges(seg: seq<Stage>): seq<Rng> {
    if seg == [] then [] else
      var n := |seg| - 1;
      ReadRanges(seg[..n]) + seg[n].ins + seg[n].outs
  }

  function WriteRanges(seg: seq<Stage>): seq<Rng> {
    if seg == [] then [] else
      var n := |seg| - 1;
      WriteRanges(seg[..n]) + seg[n].outs
  }

  predicate SegmentClash(seg: seq<Stage>, t: Stage) {
    Clash(ReadRanges(seg), WriteRanges(seg), t.ins, t.outs)
  }

  /** Every stage carries exactly the flag the tracking computes. */
  predicate Greedy(st: seq<Stage>) {
    st == [] ||
    var n := |st| - 1;
    Greedy(st[..n]) && (st[n].skipBarrier <==> !SegmentClash(Segment(st[..n]), st[n]))
  }

  lemma OverlapsSum(v: seq<Rng>, w: seq<Rng>, r: Rng)
    ensures Overlaps(v + w, r) <==> Overlaps(v, r) || Overlaps(w, r)
  {
    if Overlaps(v, r) {
      var i :| 0 <= i < |v| && Meets(r, v[i]);
      assert (v + w)[i] == v[i];
    } else if Overlaps(w, r) {
      var i :| 0 <= i < |w| && Meets(r, w[i]);
      assert (v + w)[|v| + i] == w[i];
    }
  }

  lemma ClashSum(rd: seq<Rng>, wr: seq<Rng>, rd': seq<Rng>, wr': seq<Rng>, t: Stage)
    ensures Clash(rd + rd', wr + wr', t.ins, t.outs) <==> Clash(rd, wr, t.ins, t.outs) || Clash(rd', wr', t.ins, t.outs)
  {
    forall r
      ensures Overlaps(rd + rd', r) <==> Overlaps(rd, r) || Overlaps(rd', r)
      ensures Overlaps(wr + wr', r) <==> Overlaps(wr, r) || Overlaps(wr', r)
    {
      OverlapsSum(rd, rd', r);
      OverlapsSum(wr, wr', r);
    }
  }

  /** The accumulated lists clash with a stage exactly when some single stage of the segment does. */
  lemma {:induction false} SegmentClashIff(seg: seq<Stage>, t: Stage)
    ensures SegmentClash(seg, t) <==> exists i :: 0 <= i < |seg| && StageClash(seg[i], t)
  {
    if seg != [] {
      var n := |seg| - 1;
      SegmentClashIff(seg[..n], t);
      ClashSum(ReadRanges(seg[..n]), WriteRanges(seg[..n]), seg[n].ins + seg[n].outs, seg[n].outs, t);
      assert ReadRanges(seg) == ReadRanges(seg[..n]) + (seg[n].ins + seg[n].outs);
      assert forall i :: 0 <= i < n ==> seg[..n][i] == seg[i];
    }
  }

  /** The flags of a batch separate every pair of conflicting dispatches in the recorded command buffer. */
  lemma {:induction false} GreedySeparates(st: seq<Stage>)
    requires Greedy(st)
    ensures Daemon.Separated(Daemon.Commands(st, false))
    ensures forall p :: 0 <= p < |Daemon.Commands(st, false)| && Daemon.Commands(st, false)[p].Dispatch?
              ==> Daemon.Commands(st, false)[p].s in Segment(st)
                  || exists b :: p < b < |Daemon.Commands(st, false)| && Daemon.Commands(st, false)[b].Barrier?
  {
    hide StageClash, Conflict;
    if st != [] {
      var n := |st| - 1;
      var t := st[n];
      var cs, ds := Daemon.Commands(st[..n], false), Daemon.Commands(st, false);
      GreedySeparates(st[..n]);
      SegmentClashIff(Segment(st[..n]), t);
      var mid := if n > 0 && !t.skipBarrier then [Daemon.Barrier] else [];
      assert ds == cs + mid + [Daemon.Dispatch(t)];
      assert mid == [] ==> t.skipBarrier;
      if mid != [] { assert ds[|cs|].Barrier?; }
      forall p | 0 <= p < |cs| && cs[p].Dispatch?
        ensures Conflict(cs[p].s, t) ==> exists b :: p < b < |ds| - 1 && ds[b].Barrier?
        ensures cs[p].s in Segment(st) || exists b :: p < b < |ds| && ds[b].Barrier?
      {
        if b :| p < b < |cs| && cs[b].Barrier? {
          assert ds[b].Barrier?;
        } else if mid == [] && Conflict(cs[p].s, t) {
          ConflictClashes(cs[p].s, t);
        }
      }
      forall p, q | 0 <= p < q < |ds| && ds[p].Dispatch? && ds[q].Dispatch? && Conflict(ds[p].s, ds[q].s)
        ensures exists b :: p < b < q && ds[b].Barrier?
      {
        if q < |cs| {
          var b :| p < b < q && cs[b].Barrier?;
          assert ds[b].Barrier?;
        }
      }
    }
  }

  lemma InOrderOne(cs: seq<Daemon.Cmd>, c: Daemon.Cmd, m: Mem)
    ensures Daemon.InOrder(cs + [c], m) == if c.Barrier? then Daemon.InOrder(cs, m)
        else Apply(c.s, Daemon.InOrder(cs, m))
  {
    assert (cs + [c])[..|cs|] == cs;
  }

  lemma {:induction false} InOrderIsSeqExec(st: seq<Stage>, noBarriers: bool, m: Mem)
    ensures Daemon.InOrder(Daemon.Commands(st, noBarriers), m) == SeqExec(st, m)
  {
    if st != [] {
      var n := |st| - 1;
      var cs := Daemon.Commands(st[..n], noBarriers);
      InOrderIsSeqExec(st[..n], noBarriers, m);
      InOrderOne(cs, Daemon.Barrier, m);
      InOrderOne(cs, Daemon.Dispatch(st[n]), m);
      InOrderOne(cs + [Daemon.Barrier], Daemon.Dispatch(st[n]), m);
      assert cs + [] == cs;
    }
  }

  /** Main result for one batch: encoded with the tracking's flags and executed by the device in
      any legal interleaving, it leaves the memory of running its stages one after another. */
  lemma BatchIsSequential(st: seq<Stage>, m: Mem, m': Mem)
    requires Greedy(st) && Daemon.Outcome(Daemon.Commands(st, false), m, m')
    ensures m' == SeqExec(st, m)
  {
    GreedySeparates(st);
    Daemon.ScheduleIndependence(Daemon.Commands(st, false), m, m');
    InOrderIsSeqExec(st, false, m);
  }

  // ------------------------------------------------------------------ optimality

  /** Which stages carry a barrier. */
  function Flags(st: seq<Stage>): seq<bool> {
    seq(|st|, i requires 0 <= i < |st| => !st[i].skipBarrier)
  }

  function Clashes(st: seq<Stage>): (nat, nat) -> bool {
    (i: nat, j: nat) => i < |st| && j < |st| && StageClash(st[i], st[j])
  }

  lemma {:induction false} SegmentIsSuffix(st: seq<Stage>)
    ensures |Segment(st)| <= |st| && Segment(st) == st[|st| - |Segment(st)|..]
  {
    if st != [] {
      var n := |st| - 1;
      var init := st[..n];
      SegmentIsSuffix(init);
      if st[n].skipBarrier {
        var k := n - |Segment(init)|;
        assert Segment(st) == Segment(init) + [st[n]];
        SuffixNext(st, k);
      } else {
        assert Segment(st) == [st[n]];
      }
    }
  }

  lemma SuffixNext(st: seq<Stage>, k: nat)
    requires st != [] && k < |st|
    ensures st[..|st| - 1][k..] + [st[|st| - 1]] == st[k..]
  {
  }

  lemma {:induction false} LastBarIsSegment(st: seq<Stage>)
    ensures |Segment(st)| <= |st| && Placement.LastBar(Flags(st)) == |st| - |Segment(st)|
  {
    if st != [] {
      LastBarIsSegment(st[..|st| - 1]);
      assert Flags(st)[..|st| - 1] == Flags(st[..|st| - 1]);
    }
  }

  lemma ShiftClash(st: seq<Stage>, start: nat, seg: seq<Stage>, t: Stage)
    requires start <= |st| && seg == st[start..]
    ensures (exists i :: 0 <= i < |seg| && StageClash(seg[i], t)) <==>
        (exists k :: start <= k < |st| && StageClash(st[k], t))
  {
    if i :| 0 <= i < |seg| && StageClash(seg[i], t) {
      assert StageClash(st[start + i], t);
    }
    if k :| start <= k < |st| && StageClash(st[k], t) {
      assert StageClash(seg[k - start], t);
    }
  }

  lemma {:induction false} GreedyPrefix(st: seq<Stage>, n: nat)
    requires Greedy(st) && n <= |st|
    ensures Greedy(st[..n])
  {
    if n < |st| {
      GreedyPrefix(st[..|st| - 1], n);
      assert st[..|st| - 1][..n] == st[..n];
    } else {
      assert st[..n] == st;
    }
  }

  lemma NextFlag(st: seq<Stage>, t: Stage)
    ensures SegmentClash(Segment(st), t) <==>
        exists k :: Placement.LastBar(Flags(st)) <= k < |st| && StageClash(st[k], t)
  {
    SegmentIsSuffix(st);
    LastBarIsSegment(st);
    SegmentClashIff(Segment(st), t);
    ShiftClash(st, |st| - |Segment(st)|, Segment(st), t);
  }

  lemma GreedyAt(st: seq<Stage>, j: nat)
    requires Greedy(st) && j < |st|
    ensures Flags(st)[j] <==> SegmentClash(Segment(st[..j]), st[j])
    ensures Flags(st)[..j] == Flags(st[..j])
  {
    hide SegmentClash, Segment;
    GreedyPrefix(st, j + 1);
    assert st[..j + 1][..j] == st[..j];
  }

  lemma FlagOf(st: seq<Stage>, j: nat)
    requires Greedy(st) && j < |st|
    ensures Flags(st)[j] <==> exists k :: Placement.LastBar(Flags(st)[..j]) <= k < j && Clashes(st)(k, j)
  {
    GreedyAt(st, j);
    NextFlag(st[..j], st[j]);
    ClashesPrefix(st, j, Placement.LastBar(Flags(st[..j])));
  }

  lemma ClashesPrefix(st: seq<Stage>, j: nat, start: nat)
    requires j < |st|
    ensures (exists k :: start <= k < j && Clashes(st)(k, j)) <==>
        (exists k :: start <= k < |st[..j]| && StageClash(st[..j][k], st[j]))
  {
    if k :| start <= k < j && Clashes(st)(k, j) {
      assert StageClash(st[..j][k], st[j]);
    }
    if k :| start <= k < |st[..j]| && StageClash(st[..j][k], st[j]) {
      assert Clashes(st)(k, j);
    }
  }

  /** The flags that the tracking computes are a valid placement for the range test, and no other has fewer barriers. */
  lemma MinimalForTest(st: seq<Stage>, bars: seq<bool>)
    requires Greedy(st) && |bars| == |st| && Placement.Splits(Clashes(st), bars)
    ensures Placement.Splits(Clashes(st), Flags(st))
    ensures Placement.Count(Flags(st)) <= Placement.Count(bars)
  {
    forall j | 0 <= j < |st|
      ensures Flags(st)[j] <==> exists k :: Placement.LastBar(Flags(st)[..j]) <= k < j && Clashes(st)(k, j)
    {
      FlagOf(st, j);
    }
    Placement.GreedySplits(Clashes(st), Flags(st));
    Placement.GreedyIsOptimal(Clashes(st), Flags(st), bars);
  }

  /** Which pairs of stages conflict on some byte. */
  ghost function Conflicts(st: seq<Stage>): (nat, nat) -> bool {
    (i: nat, j: nat) => i < |st| && j < |st| && Conflict(st[i], st[j])
  }

  /** No two stages are compared by an empty range strictly inside another one. */
  ghost predicate Plain(st: seq<Stage>) {
    && (forall i :: 0 <= i < |st| ==> OrderedStage(st[i]))
    && (forall i, j :: 0 <= i < j < |st| ==> !Phantom(st[i], st[j]))
  }

  /** The encoder's flags separate every conflicting pair of stages, and no other placement of barriers that does has
      fewer. */
  lemma BarriersAreMinimal(st: seq<Stage>, bars: seq<bool>)
    requires Greedy(st) && |bars| == |st| && Plain(st) && Placement.Splits(Conflicts(st), bars)
    ensures Placement.Splits(Conflicts(st), Flags(st))
    ensures Placement.Count(Flags(st)) <= Placement.Count(bars)
  {
    forall i: nat, j: nat | i < j ensures Conflicts(st)(i, j) <==> Clashes(st)(i, j) {
      if j < |st| { ClashExactly(st[i], st[j]); }
    }
    hide Conflicts, Clashes, Greedy, Plain;
    assert Placement.Splits(Clashes(st), bars);
    MinimalForTest(st, bars);
  }

  lemma OneStage(s: Stage)
    requires s.skipBarrier
    ensures Greedy([s]) && Segment([s]) == [s]
  {
    SegmentClashIff([], s);
    hide SegmentClash;
    var st := [s];
    assert st[..0] == [] && Segment([]) == [] && Greedy([]);
  }

  lemma ClashOfOne(s: Stage, t: Stage)
    ensures SegmentClash([s], t) <==> StageClash(s, t)
  {
    SegmentClashIff([s], t);
    hide SegmentClash, StageClash;
    var seg := [s];
    if StageClash(s, t) { assert StageClash(seg[0], t); }
  }

  lemma TwoStages(s: Stage, t: Stage)
    requires s.skipBarrier && (t.skipBarrier <==> !StageClash(s, t))
    ensures Greedy([s, t]) && Flags([s, t]) == [false, !t.skipBarrier]
  {
    hide SegmentClash, StageClash, Segment;
    OneStage(s);
    ClashOfOne(s, t);
    var st := [s, t];
    assert st[..1] == [s];
  }

  /** An empty range is read that lies strictly inside one written before: no byte is shared. */
  lemma EmptyInside(s: Stage, t: Stage)
    requires s.ins == [Rng(20, 30)] && s.outs == [Rng(0, 10)]
    requires t.ins == [Rng(5, 5), Rng(60, 70)] && t.outs == [Rng(40, 50)]
    ensures StageClash(s, t) && !Conflict(s, t)
  {
    assert Meets(t.ins[0], s.outs[0]);
    assert Overlaps(s.outs, t.ins[0]);
    forall a ensures a in Bytes(t.ins) ==> 60 <= a < 70 {}
  }

  /** Then the encoder places a barrier that no conflict needs. */
  lemma EmptyRangeBarrier(s: Stage, t: Stage)
    requires s.ins == [Rng(20, 30)] && s.outs == [Rng(0, 10)]
    requires t.ins == [Rng(5, 5), Rng(60, 70)] && t.outs == [Rng(40, 50)]
    requires s.skipBarrier && !t.skipBarrier
    ensures Greedy([s, t]) && Placement.Splits(Conflicts([s, t]), [false, false])
    ensures Placement.Count(Flags([s, t])) == 1 && Placement.Count([false, false]) == 0
  {
    EmptyInside(s, t);
    TwoStages(s, t);
    hide Greedy, Flags, Conflict, StageClash;
    assert [false, true][..1] == [false] && [false, false][..1] == [false] && [false][..0] == [];
  }

  /** Appending a stage with the flag of the tracking lists keeps the lists and the flags in step. */
  lemma AppendStage(st: seq<Stage>, s: Stage)
    requires Greedy(st)
    requires s.skipBarrier <==> !SegmentClash(Segment(st), s)
    ensures Greedy(st + [s])
    ensures ReadRanges(Segment(st + [s])) == (if s.skipBarrier then ReadRanges(Segment(st)) else []) + s.ins + s.outs
    ensures WriteRanges(Segment(st + [s])) == (if s.skipBarrier then WriteRanges(Segment(st)) else []) + s.outs
  {
    var next := st + [s];
    assert next[..|st|] == st;
    var seg := Segment(next);
    assert seg[..|seg| - 1] == if s.skipBarrier then Segment(st) else [];
  }

  // ------------------------------------------------------------------ time budget

  /** The update of the per-workgroup estimate after a measured batch. */
  function NextEstimate(est: real, per: real): real {
    if est <= 0.0 || per > est then per else 0.9 * est + 0.1 * per
  }

  function EstimateAfter(pers: seq<real>): real {
    if pers == [] then 0.0 else NextEstimate(EstimateAfter(pers[..|pers| - 1]), pers[|pers| - 1])
  }

  /** 0.9^k * p. */
  function Decayed(k: nat, p: real): real {
    if k == 0 then p else 0.9 * Decayed(k - 1, p)
  }

  lemma NextEstimateBounds(est: real, per: real)
    requires est >= 0.0 && per >= 0.0
    ensures NextEstimate(est, per) >= per && NextEstimate(est, per) >= 0.9 * est
    ensures NextEstimate(est, per) == per || NextEstimate(est, per) <= est
  {
  }

  /** After any history of measurements the estimate is at least the newest one and at most the largest. */
  lemma {:induction false} EstimateBounds(pers: seq<real>)
    requires |pers| > 0 && NoneNegative(pers)
    ensures EstimateAfter(pers) >= pers[|pers| - 1]
    ensures exists i :: 0 <= i < |pers| && EstimateAfter(pers) <= pers[i]
  {
    hide NextEstimate;
    var n := |pers| - 1;
    if n == 0 {
      assert EstimateAfter(pers) == NextEstimate(0.0, pers[0]);
      NextEstimateBounds(0.0, pers[0]);
      assert EstimateAfter(pers) <= pers[0];
    } else {
      EstimateBounds(pers[..n]);
      var i :| 0 <= i < n && EstimateAfter(pers[..n]) <= pers[..n][i];
      NextEstimateBounds(EstimateAfter(pers[..n]), pers[n]);
      assert EstimateAfter(pers) <= pers[i] || EstimateAfter(pers) <= pers[n];
    }
  }

  /** The estimate forgets no measurement faster than by a factor 0.9 per batch. */
  lemma {:induction false} EstimateForgets(pers: seq<real>, j: nat)
    requires j < |pers| && NoneNegative(pers)
    ensures EstimateAfter(pers) >= Decayed(|pers| - 1 - j, pers[j])
  {
    var n := |pers| - 1;
    EstimateBounds(pers);
    if j < n {
      hide NextEstimate;
      EstimateBounds(pers[..n]);
      EstimateForgets(pers[..n], j);
      NextEstimateBounds(EstimateAfter(pers[..n]), pers[n]);
      assert Decayed(n - j, pers[j]) == 0.9 * Decayed(n - 1 - j, pers[j]);
    }
  }

  /** Under repeated measurements below it the estimate comes down by a tenth of the distance each time. */
  lemma {:induction false} EstimateSettles(pers: seq<real>, per: real, k: nat)
    requires NoneNegative(pers) && 0.0 <= per <= EstimateAfter(pers)
    ensures EstimateAfter(pers + seq(k, _ => per)) == per + Decayed(k, EstimateAfter(pers) - per) >= per
  {
    if k == 0 {
      assert pers + seq(0, _ => per) == pers;
    } else {
      EstimateSettles(pers, per, k - 1);
      var more := pers + seq(k - 1, _ => per);
      assert pers + seq(k, _ => per) == more + [per];
      OneMeasurement(more, per);
    }
  }

  /** grid2: spread workgroups over two axes of at most 65535. */
  function Grid2(n: nat): (g: (nat, nat))
    ensures g.0 * g.1 >= n && g.0 <= 65535
    ensures n <= 65535 * 32768 ==> g.1 <= 65535
  {
    if n <= 65535 then (n, 1) else (32768, (n + 32767) / 32768)
  }

  function Groups(n: nat): nat {
    Grid2(n).0 * Grid2(n).1
  }

  ghost predicate NoneNegative(pers: seq<real>) {
    forall i :: 0 <= i < |pers| ==> pers[i] >= 0.0
  }

  lemma OneMeasurement(pers: seq<real>, per: real)
    ensures EstimateAfter(pers + [per]) == NextEstimate(EstimateAfter(pers), per)
  {
    assert (pers + [per])[..|pers|] == pers;
  }

  /** Session-wide state: time budget and the shared scratch buffer. */
  class Session {
    const fixed: bool
    const maxStage: nat
    const budgetMs: real
    var estWg: real
    /** The measurements taken over so far. */
    ghost var history: seq<real>
    var scratchBase: int
    var scratchSize: nat

    ghost predicate Valid()
      reads this
    {
      1 <= maxStage <= GPUD_MAX_STAGE && 1.0 <= budgetMs && estWg >= 0.0 && estWg == EstimateAfter(history)
        && NoneNegative(history)
    }

    /** Without a fixed stage count batches are cut by time, and at the default count. */
    constructor (fixedCount: bool, count: nat, budget: real)
      requires 1 <= count <= GPUD_MAX_STAGE && 1.0 <= budget <= 2000.0
      ensures Valid() && fixed == fixedCount && budgetMs == budget && history == [] && scratchSize == 0
      ensures maxStage == if fixed then count else DEFAULT_MAX_STAGE
    {
      fixed, budgetMs, maxStage := fixedCount, budget, if fixedCount then count else DEFAULT_MAX_STAGE;
      estWg, history, scratchBase, scratchSize := 0.0, [], 0, 0;
    }

    /** The session's estimate lies between its newest and its largest measurement. */
    lemma EstimateInRange()
      requires Valid() && history != []
      ensures estWg >= history[|history| - 1]
      ensures exists i :: 0 <= i < |history| && estWg <= history[i]
    {
      EstimateBounds(history);
    }

    /** Takes over a measured batch of `wgs` workgroups that took `dt` milliseconds. */
    method Measure(dt: real, wgs: nat)
      requires Valid() && dt >= 0.0
      modifies this`estWg, this`history
      ensures Valid()
      ensures estWg == if !fixed && wgs > 0 then NextEstimate(old(estWg), dt / wgs as real) else old(estWg)
      ensures history == old(history) + if !fixed && wgs > 0 then [dt / wgs as real] else []
    {
      if !fixed && wgs > 0 {
        var per := dt / wgs as real;
        OneMeasurement(history, per);
        history := history + [per];
        if estWg <= 0.0 || per > estWg { estWg := per; } else { estWg := 0.9 * estWg + 0.1 * per; }
      }
    }
  }

  /** The predicted time of n workgroups. */
  function Cost(n: nat, est: real): real {
    n as real * est
  }

  lemma CostMore(n: nat, k: nat, est: real)
    ensures Cost(n + k, est) == Cost(n, est) + Cost(k, est) && Cost(k, est) == k as real * est
  {
  }

  lemma NoCost(est: real)
    ensures Cost(0, est) == 0.0
  {
  }

  /** Without its newest stage a batch of n stages is predicted below the budget once there is an estimate; before that
      it has at most 64 stages. */
  predicate Budgeted(fixed: bool, n: nat, est: real, pred: real, budget: real, newest: real) {
    fixed || n == 0 || if est > 0.0 then pred < budget + newest else n <= 64
  }

  /** The batch under construction. */
  class BatchEncoder {
    const session: Session
    var st: seq<Stage>
    var nbd: nat
    var wgs: nat
    var predMs: real
    /** The workgroups of the newest stage. */
    ghost var newest: nat
    var rd: seq<Rng>
    var wr: seq<Rng>

    ghost predicate Valid()
      reads this, session
    {
      && session.Valid()
      && Greedy(st) && rd == ReadRanges(Segment(st)) && wr == WriteRanges(Segment(st))
      && predMs == Cost(wgs, session.estWg)
      && (st == [] ==> wgs == 0 && nbd == 0)
      && |st| <= session.maxStage && nbd <= 4 * GPUD_MAX_STAGE
      && WithinBudget()
    }

    /** The time budget: once there is an estimate, the batch without its newest stage is predicted below the budget;
        before that it has at most 64 stages. */
    ghost predicate WithinBudget()
      reads this, session
    {
      Budgeted(session.fixed, |st|, session.estWg, predMs, session.budgetMs, Cost(newest, session.estWg))
    }

    constructor (session: Session)
      requires session.Valid()
      ensures Valid() && this.session == session && st == []
    {
      this.session := session;
      st, nbd, wgs, predMs, newest, rd, wr := [], 0, 0, 0.0, 0, [], [];
    }

    method Reset()
      requires session.Valid()
      modifies this
      ensures Valid() && st == [] && wgs == 0
    {
      st, nbd, wgs, predMs, newest, rd, wr := [], 0, 0, 0.0, 0, [], [];
    }

    method AnyOverlap(v: seq<Rng>, r: Rng) returns (b: bool)
      ensures b <==> Overlaps(v, r)
    {
      for i := 0 to |v|
        invariant forall k :: 0 <= k < i ==> !Meets(r, v[k])
      {
        if r.lo < v[i].hi && v[i].lo < r.hi {
          assert Meets(r, v[i]);
          return true;
        }
      }
      return false;
    }

    /** barrier_flag: true means that no barrier is needed. */
    method BarrierFlag(ins: seq<Rng>, outs: seq<Rng>) returns (skip: bool)
      modifies this`rd, this`wr
      ensures skip <==> !Clash(old(rd), old(wr), ins, outs)
      ensures rd == (if skip then old(rd) else []) + ins + outs
      ensures wr == (if skip then old(wr) else []) + outs
    {
      var need := false;
      ghost var rd0, wr0 := rd, wr;
      var i := 0;
      while i < |ins| && !need
        invariant 0 <= i <= |ins| && rd == rd0 && wr == wr0
        invariant need ==> Clash(rd0, wr0, ins, outs)
        invariant !need ==> forall k :: 0 <= k < i ==> !Overlaps(wr0, ins[k])
      {
        need := AnyOverlap(wr, ins[i]);
        i := i + 1;
      }
      var j := 0;
      while j < |outs| && !need
        invariant 0 <= j <= |outs| && rd == rd0 && wr == wr0
        invariant need ==> Clash(rd0, wr0, ins, outs)
        invariant !need ==> forall k :: 0 <= k < j ==> !Overlaps(wr0, outs[k]) && !Overlaps(rd0, outs[k])
        invariant !need ==> forall k :: 0 <= k < |ins| ==> !Overlaps(wr0, ins[k])
      {
        need := AnyOverlap(wr, outs[j]);
        if !need { need := AnyOverlap(rd, outs[j]); }
        j := j + 1;
      }
      if need { rd, wr := [], []; }
      rd := rd + ins + outs;
      wr := wr + outs;
      return !need;
    }

    /** full: no further stage with `nbind` bindings fits into this batch. */
    predicate Full(nbind: nat)
      reads this, session
    {
      if |st| >= session.maxStage || nbd + nbind > GPUD_MAX_STAGE * 4 then true
      else if session.fixed then false
      else if session.estWg <= 0.0 then |st| >= 64
      else |st| > 0 && predMs >= session.budgetMs
    }

    /** After a flush one stage always fits. */
    lemma EmptyFits(nbind: nat)
      requires Valid() && st == [] && nbind <= 16
      ensures !Full(nbind)
    {
    }

    /** What the test leaves room for. */
    lemma RoomBudgeted(nbind: nat, cost: real)
      requires Valid() && !Full(nbind)
      ensures Budgeted(session.fixed, |st| + 1, session.estWg, predMs + cost, session.budgetMs, cost)
    {
      hide Greedy, Segment, ReadRanges, WriteRanges, EstimateAfter, NoneNegative;
      if st == [] { NoCost(session.estWg); }
    }

    /** push_raw: append a stage with explicitly given ranges. */
    method PushRaw(ins: seq<Rng>, outs: seq<Rng>, kernel: Kernel, nbind: nat, groups: nat) returns (ok: bool)
      requires Valid()
      modifies this
      ensures Valid()
      ensures ok <==> !old(Full(nbind))
      ensures !ok ==> st == old(st) && nbd == old(nbd) && predMs == old(predMs)
      ensures ok ==> exists skip :: st == old(st) + [Stage(ins, outs, kernel, skip)]
      ensures ok ==>
          wgs == old(wgs) + groups && newest == groups && predMs == old(predMs) + groups as real * session.estWg
    {
      hide Greedy, Segment, ReadRanges, WriteRanges, Clash, Cost, Budgeted, Session.Valid;
      if Full(nbind) { return false; }
      RoomBudgeted(nbind, Cost(groups, session.estWg));
      var skip := BarrierFlag(ins, outs);
      var s := Stage(ins, outs, kernel, skip);
      AppendStage(st, s);
      CostMore(wgs, groups, session.estWg);
      st := st + [s];
      nbd := nbd + nbind;
      wgs := wgs + groups;
      newest := groups;
      predMs := predMs + groups as real * session.estWg;
      return true;
    }

    /** push: bind tensors, check that each lies inside its buffer, and derive the ranges from the
        shader's write mask. */
    method Push(ts: seq<Tensor>, wmask: seq<bool>, kernel: Kernel, groups: nat) returns (ok: bool)
      requires Valid() && |ts| == |wmask| <= 16
      modifies this
      ensures Valid()
      ensures ok <==> !old(Full(|ts|)) && forall i :: 0 <= i < |ts| ==> Bind(ts[i]).Some? && InBuffer(ts[i])
      ensures !ok ==> st == old(st) && nbd == old(nbd) && predMs == old(predMs)
      ensures ok ==>
          exists skip :: st == old(st) + [Stage(Picked(ts, wmask, false), Picked(ts, wmask, true), kernel, skip)]
      ensures ok ==>
          wgs == old(wgs) + groups && newest == groups && predMs == old(predMs) + groups as real * session.estWg
    {
      hide Greedy, Segment, ReadRanges, WriteRanges, WithinBudget, Picked, Bind, InBuffer;
      if Full(|ts|) { return false; }
      ok := AllInside(ts);
      if !ok { return false; }
      var ins, outs := SplitRanges(ts, wmask);
      ok := PushRaw(ins, outs, kernel, |ts|, groups);
    }
  }

  /** Whether all tensors can be bound and lie inside their buffers. */
  method AllInside(ts: seq<Tensor>) returns (ok: bool)
    ensures ok <==> forall i :: 0 <= i < |ts| ==> Bind(ts[i]).Some? && InBuffer(ts[i])
  {
    for i := 0 to |ts|
      invariant forall k :: 0 <= k < i ==> Bind(ts[k]).Some?
    {
      if Bind(ts[i]).None? { return false; }
    }
    for i := 0 to |ts|
      invariant forall k :: 0 <= k < i ==> InBuffer(ts[k])
    {
      if !InBuffer(ts[i]) { return false; }
    }
    return true;
  }

  /** The ranges read and the ranges written, by the write mask. */
  method SplitRanges(ts: seq<Tensor>, wmask: seq<bool>) returns (ins: seq<Rng>, outs: seq<Rng>)
    requires |ts| == |wmask|
    ensures ins == Picked(ts, wmask, false) && outs == Picked(ts, wmask, true)
  {
    ins, outs := [], [];
    for i := 0 to |ts|
      invariant ins == Picked(ts[..i], wmask[..i], false) && outs == Picked(ts[..i], wmask[..i], true)
    {
      assert ts[..i + 1][..i] == ts[..i] && wmask[..i + 1][..i] == wmask[..i];
      if wmask[i] { outs := outs + [Range(ts[i])]; } else { ins := ins + [Range(ts[i])]; }
    }
    assert ts[..|ts|] == ts && wmask[..|ts|] == wmask;
  }

  /** The ranges of the bindings whose write-mask bit equals `written`. */
  function Picked(ts: seq<Tensor>, wmask: seq<bool>, written: bool): seq<Rng>
    requires |ts| == |wmask|
  {
    if ts == [] then [] else
      var n := |ts| - 1;
      Picked(ts[..n], wmask[..n], written) + if wmask[n] == written then [Range(ts[n])] else []
  }
}
