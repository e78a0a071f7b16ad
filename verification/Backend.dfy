/** The backend: encoding a graph into batches with fusion, quantise dedup, flushes and CPU
    fallback, and the proof that the device ends up with node-by-node evaluation. */
module Backend {
  import opened GpuMemory
  import opened Tensors
  import opened Graph
  import opened Encoder
  import Daemon

  // ------------------------------------------------------------------ stages and node effects

  lemma SpanOf(r: Rng)
    ensures Bytes([r]) == Span(r)
  {
    assert [r][0] == r;
  }

  /** A stage that runs a node's kernel over ranges covering what the node reads has the node's effect. */
  lemma StageIsEffect(q: Quantiser, n: Node, s: Stage, m: Mem)
    requires NodeOk(n) && !n.op.Noop?
    requires Bytes(s.outs) == Span(Range(n.dst)) && Reads(n) <= Footprint(s)
    requires forall v :: s.kernel(v) == Result(q, n, v)
    ensures Apply(s, m) == Effect(q, n, m)
  {
    ResultOfReads(q, n, Restrict(m, Footprint(s)), Restrict(m, Reads(n)));
    SameMem(Apply(s, m), Effect(q, n, m));
  }

  /** A shader handles the supported nodes of its operation; the float GEMV only k-quants of whole superblocks. */
  predicate Handles(sh: Shader, n: Node) {
    n.supported
    && match n.op
       case Direct(own, _) => sh == own
       case MatMul(weight, cols, _, _) =>
         sh.MulMat? || (sh.GemvFloat? && (weight.Q4_K? || weight.Q6_K?) && cols % 256 == 0)
       case _ => false
  }

  function ShaderKernel(sh: Shader, n: Node, v: View): View
    requires NodeOk(n)
  {
    if Handles(sh, n) then Evaluated(n, v) else n.stray(v)
  }

  /** The norm shader with a weight: it multiplies, and by one row of the norm's width. */
  function FusedKernel(q: Quantiser, norm: Node, mul: Node, v: View): View
    requires NodeOk(norm) && NodeOk(mul) && mul.op.Direct? && mul.op.sh.Binary?
  {
    if norm.supported && mul.op.isMul && mul.fuseShape then FusedResult(q, norm, mul, v) else norm.stray(v)
  }

  lemma FusedStageIsEffect(q: Quantiser, norm: Node, mul: Node, s: Stage, m: Mem)
    requires NodeOk(norm) && NodeOk(mul) && mul.op.Direct? && mul.op.sh.Binary?
    requires Bytes(s.outs) == Span(Range(mul.dst)) && Reads(norm) <= Footprint(s)
      && Span(Range(mul.srcs[1])) <= Footprint(s)
    requires forall v :: s.kernel(v) == FusedResult(q, norm, mul, v)
    ensures Apply(s, m) == FusedEffect(q, norm, mul, m)
  {
    var w := Span(Range(mul.srcs[1]));
    var v, v' := Restrict(m, Footprint(s)), Restrict(m, Reads(norm) + w);
    ResultOfReads(q, norm, v, v');
    assert Only(v, w) == Only(v', w);
    SameMem(Apply(s, m), FusedEffect(q, norm, mul, m));
  }

  lemma {:induction false} PickedBytes(ts: seq<Tensor>, mask: seq<bool>, written: bool, a: int)
    requires |ts| == |mask|
    ensures a in Bytes(Picked(ts, mask, written)) <==>
        exists i :: 0 <= i < |ts| && mask[i] == written && a in Span(Range(ts[i]))
  {
    if ts != [] {
      var n := |ts| - 1;
      PickedBytes(ts[..n], mask[..n], written, a);
      BytesOfSum(Picked(ts[..n], mask[..n], written), if mask[n] == written then [Range(ts[n])] else []);
      SpanOf(Range(ts[n]));
      assert forall i :: 0 <= i < n ==> ts[..n][i] == ts[i] && mask[..n][i] == mask[i];
    }
  }

  /** The same tensors, maybe some of them twice, are the same bytes. */
  lemma BytesOfSame(ts: seq<Tensor>, mask: seq<bool>, consumed: seq<Tensor>)
    requires |ts| == |mask|
    requires forall i :: 0 <= i < |consumed| ==> Picks(ts, mask, consumed[i])
    requires forall k :: 0 <= k < |ts| && !mask[k] ==> ts[k] in consumed
    ensures Bytes(Ranges(consumed)) == Bytes(Picked(ts, mask, false))
  {
    hide Picked, Span, Range;
    forall a ensures a in Bytes(Ranges(consumed)) <==> a in Bytes(Picked(ts, mask, false)) {
      PickedBytes(ts, mask, false, a);
      if a in Bytes(Ranges(consumed)) {
        var i :| 0 <= i < |Ranges(consumed)| && a in Span(Ranges(consumed)[i]);
        var k :| 0 <= k < |mask| && !mask[k] && ts[k] == consumed[i];
      }
      if k :| 0 <= k < |ts| && !mask[k] && a in Span(Range(ts[k])) {
        var i :| 0 <= i < |consumed| && consumed[i] == ts[k];
        assert a in Span(Ranges(consumed)[i]);
      }
    }
  }

  /** One of the bindings that are read is t. */
  ghost predicate Picks(ts: seq<Tensor>, mask: seq<bool>, t: Tensor)
    requires |ts| == |mask|
  {
    exists k :: 0 <= k < |mask| && !mask[k] && ts[k] == t
  }

  lemma WrittenBytes(sh: Shader, srcs: seq<Tensor>, dst: Tensor)
    requires MinSrcs(Direct(sh, false)) <= |srcs|
    ensures Bytes(Picked(Bound(sh, srcs, dst), WriteMask(sh), true)) == Span(Range(dst))
  {
    var ts, mask := Bound(sh, srcs, dst), WriteMask(sh);
    var last := |ts| - 1;
    assert mask[last] && ts[last] == dst;
    assert forall i :: 0 <= i < |ts| && mask[i] ==> ts[i] == dst;
    hide Picked, Span, Range, Bound, WriteMask, Bytes;
    forall a ensures a in Bytes(Picked(ts, mask, true)) <==> a in Span(Range(dst)) { PickedBytes(ts, mask, true, a); }
  }

  /** Which shader a node that is not on the int-dot path uses. */
  function DirectShader(n: Node): Shader
    requires n.op.Direct? || n.op.MatMul?
  {
    match n.op
    case Direct(sh, _) => sh
    case MatMul(weight, cols, _, env) =>
      if (weight.Q4_K? || weight.Q6_K?) && cols % 256 == 0 && !env.noGemv then GemvFloat else MulMat
  }

  /** The encoder's test in front of the int-dot path: type, shape, contiguity, and the remainder of the weight's
      binding. */
  predicate TakesIntDot(n: Node)
    requires NodeOk(n) && n.op.MatMul?
  {
    && (n.op.weight.Q4_K? || (n.op.weight.Q6_K? && !n.op.env.noIq6))
    && n.op.cols % 256 == 0 && n.op.contiguous && !n.op.env.noIq
    && Bind(n.srcs[0]).Some? && Bind(n.srcs[0]).value.rem % (if n.op.weight.Q6_K? then 2 else 16) == 0
  }

  /** The test and the two bindings made later pick exactly the nodes that mean an integer dot product. */
  lemma TestExactly(n: Node)
    requires NodeOk(n) && n.op.MatMul? && n.supported
    ensures IntDot(n) <==> TakesIntDot(n) && Bind(n.srcs[1]).Some? && Bind(n.dst).Some?
  {
    hide Bind;
    BindExactly(n.srcs[0], LoadUnit(n.op.weight));
    BindExactly(n.srcs[1], 1);
    BindExactly(n.dst, 1);
  }

  lemma ConsumedIsBound(n: Node, i: nat)
    requires NodeOk(n) && (n.op.Direct? || n.op.MatMul?) && i < |Consumed(n)|
    ensures Picks(Bound(DirectShader(n), n.srcs, n.dst), WriteMask(DirectShader(n)), Consumed(n)[i])
  {
    ConsumedAreSrcs(n, i);
    var ts := Bound(DirectShader(n), n.srcs, n.dst);
    assert ts[i] == n.srcs[i];
    assert !WriteMask(DirectShader(n))[i];
  }

  lemma BoundIsConsumed(n: Node, k: nat)
    requires NodeOk(n) && (n.op.Direct? || n.op.MatMul?)
    requires k < |WriteMask(DirectShader(n))| && !WriteMask(DirectShader(n))[k]
    ensures Bound(DirectShader(n), n.srcs, n.dst)[k] in Consumed(n)
  {
    var c, t := Consumed(n), Bound(DirectShader(n), n.srcs, n.dst)[k];
    assert c[0] == t || (|c| > 1 && c[1] == t) || (|c| > 2 && c[2] == t);
  }

  /** The bindings written are the destination; the bindings read are the operands that the node consumes. */
  lemma BoundRanges(n: Node)
    requires NodeOk(n) && (n.op.Direct? || n.op.MatMul?)
    ensures var ts, mask := Bound(DirectShader(n), n.srcs, n.dst), WriteMask(DirectShader(n));
            && Bytes(Picked(ts, mask, true)) == Span(Range(n.dst))
            && Bytes(Picked(ts, mask, false)) == Bytes(Ranges(Consumed(n)))
  {
    ShaderSrcs(n);
    hide *;
    var ts, mask := Bound(DirectShader(n), n.srcs, n.dst), WriteMask(DirectShader(n));
    WrittenBytes(DirectShader(n), n.srcs, n.dst);
    forall i | 0 <= i < |Consumed(n)| ensures Picks(ts, mask, Consumed(n)[i]) { ConsumedIsBound(n, i); }
    forall k | 0 <= k < |ts| && !mask[k] ensures ts[k] in Consumed(n) { BoundIsConsumed(n, k); }
    BytesOfSame(ts, mask, Consumed(n));
  }

  lemma ShaderSrcs(n: Node)
    requires NodeOk(n) && (n.op.Direct? || n.op.MatMul?)
    ensures MinSrcs(Direct(DirectShader(n), false)) <= |n.srcs|
  {
  }

  /** The scratch range that the q8_1 form of `x` occupies. */
  function Scratch(base: int, x: Tensor): Rng {
    Rng(base, base + Need(x))
  }

  /** Moves a view down by `base`: what a shader finds at offsets [0, len) of the scratch buffer. */
  function ReadBack(v: View, base: int, len: nat): (r: View)
    ensures Covers(r, 0, len)
    ensures forall off :: off in r ==> r[off] == ByteAt(v, base + off)
  {
    map off | off in Span(Rng(0, len)) :: ByteAt(v, base + off)
  }

  /** Moves a view of offsets up to addresses from `base`. */
  function Placed(r: View, base: int, len: nat): (p: View)
    ensures Covers(p, base, base + len)
    ensures forall a :: a in p ==> p[a] == ByteAt(r, a - base)
  {
    var scr := Rng(base, base + len);
    map a | a in Span(scr) :: ByteAt(r, a - base)
  }

  lemma PlacedReadBack(r: View, base: int, len: nat)
    requires Covers(r, 0, len)
    ensures ReadBack(Placed(r, base, len), base, len) == r
  {
    var p := Placed(r, base, len);
    var x := ReadBack(p, base, len);
    forall off | off in x
      ensures x[off] == r[off]
    {
      assert base + off in p;
    }
    assert forall off :: off in x <==> off in r;
  }

  lemma ReadBackInside(m: Mem, base: int, len: nat, at: set<int>)
    requires Span(Rng(base, base + len)) <= at
    ensures ReadBack(Restrict(m, at), base, len) == ReadBack(Restrict(m, Span(Rng(base, base + len))), base, len)
  {
    var v, v' := Restrict(m, at), Restrict(m, Span(Rng(base, base + len)));
    forall off | off in Span(Rng(0, len))
      ensures base + off in v && base + off in v'
    {
      assert Has(Rng(base, base + len), base + off);
    }
  }

  /** The scratch buffer holds the q8_1 form of the bytes that `m` has for `x`. */
  ghost predicate ScratchHolds(q: Quantiser, base: int, size: nat, x: Tensor, m: Mem) {
    && Need(x) <= size
    && ReadBack(Restrict(m, Span(Scratch(base, x))), base, Need(x)) == Quantised(q, x, Restrict(m, Span(Range(x))))
  }

  lemma ScratchKept(q: Quantiser, base: int, size: nat, x: Tensor, m: Mem, m': Mem)
    requires ScratchHolds(q, base, size, x, m)
    requires forall a :: a in Span(Range(x)) ==> m'[a] == m[a]
    requires forall a :: base <= a < base + size ==> m'[a] == m[a]
    ensures ScratchHolds(q, base, size, x, m')
  {
    assert Restrict(m', Span(Range(x))) == Restrict(m, Span(Range(x)));
    assert Restrict(m', Span(Scratch(base, x))) == Restrict(m, Span(Scratch(base, x)));
  }

  /** The quantise stage's kernel: the q8_1 form of `x`, laid out at `base`. */
  function QuantiseBytes(q: Quantiser, x: Tensor, base: int, v: View): (p: View)
    ensures Covers(p, base, base + Need(x))
  {
    Placed(Quantised(q, x, Only(v, Span(Range(x)))), base, Need(x))
  }

  /** The int-dot GEMV's kernel: weight bytes from memory, activations from the scratch buffer. */
  function GemvBytes(n: Node, base: int, v: View): View
    requires NodeOk(n) && n.op.MatMul?
  {
    Fill(n, n.gemv(Only(v, Span(Range(n.srcs[0]))), ReadBack(v, base, Need(n.srcs[1]))), Only(v, Reads(n)))
  }

  /** After a stage that produces all of its output range, that range holds the kernel's result. */
  lemma OutputStored(s: Stage, m: Mem, r: Rng)
    requires Bytes(s.outs) == Span(r) && Covers(s.kernel(Restrict(m, Footprint(s))), r.lo, r.hi)
    ensures Restrict(Apply(s, m), Span(r)) == s.kernel(Restrict(m, Footprint(s)))
  {
  }

  lemma QuantiseOutput(q: Quantiser, x: Tensor, base: int, s: Stage, m: Mem)
    requires Span(Range(x)) <= Footprint(s) && (forall v :: s.kernel(v) == QuantiseBytes(q, x, base, v))
    ensures s.kernel(Restrict(m, Footprint(s))) == Placed(Quantised(q, x, Restrict(m, Span(Range(x)))), base, Need(x))
  {
    OnlyRestrict(m, Footprint(s), Span(Range(x)));
  }

  lemma QuantiseStage(q: Quantiser, x: Tensor, base: int, size: nat, s: Stage, m: Mem, m': Mem)
    requires s.ins == [Range(x)] && s.outs == [Scratch(base, x)]
      && (forall v :: s.kernel(v) == QuantiseBytes(q, x, base, v))
    requires Need(x) <= size && x.data + x.nbytes <= base && m' == Apply(s, m)
    ensures ScratchHolds(q, base, size, x, m')
    ensures forall a :: a < base ==> m'[a] == m[a]
  {
    SpanOf(Range(x));
    SpanOf(Scratch(base, x));
    QuantiseOutput(q, x, base, s, m);
    OutputStored(s, m, Scratch(base, x));
    QuantiseFrame(x, base, s, m, m');
    PlacedReadBack(Quantised(q, x, Restrict(m, Span(Range(x)))), base, Need(x));
  }

  lemma QuantiseFrame(x: Tensor, base: int, s: Stage, m: Mem, m': Mem)
    requires Bytes(s.outs) == Span(Scratch(base, x)) && x.data + x.nbytes <= base && m' == Apply(s, m)
    ensures forall a :: a < base ==> m'[a] == m[a]
    ensures Restrict(m', Span(Range(x))) == Restrict(m, Span(Range(x)))
  {
  }

  lemma OperandsRead(n: Node)
    requires NodeOk(n) && n.op.MatMul?
    ensures Span(Range(n.srcs[0])) <= Reads(n) && Span(Range(n.srcs[1])) <= Reads(n)
  {
    var c := Ranges(Consumed(n));
    assert c[0] == Range(n.srcs[0]) && c[1] == Range(n.srcs[1]);
  }

  lemma GemvReads(q: Quantiser, n: Node, base: int, size: nat, m: Mem, at: set<int>)
    requires NodeOk(n) && n.op.MatMul? && ScratchHolds(q, base, size, n.srcs[1], m)
    requires Span(Range(n.srcs[0])) <= at && Span(Scratch(base, n.srcs[1])) <= at
    ensures GemvBytes(n, base, Restrict(m, at))
         == Fill(n, n.gemv(Restrict(m, Span(Range(n.srcs[0]))),
             Quantised(q, n.srcs[1], Restrict(m, Span(Range(n.srcs[1]))))), Only(Restrict(m, at), Reads(n)))
  {
    OnlyRestrict(m, at, Span(Range(n.srcs[0])));
    ScratchRead(q, base, size, n.srcs[1], m, at);
  }

  lemma ScratchRead(q: Quantiser, base: int, size: nat, x: Tensor, m: Mem, at: set<int>)
    requires ScratchHolds(q, base, size, x, m) && Span(Scratch(base, x)) <= at
    ensures ReadBack(Restrict(m, at), base, Need(x)) == Quantised(q, x, Restrict(m, Span(Range(x))))
  {
    ReadBackInside(m, base, Need(x), at);
  }

  lemma QuantResult(q: Quantiser, n: Node, m: Mem)
    requires NodeOk(n) && IntDot(n)
    ensures Result(q, n, Restrict(m, Reads(n)))
         == Fill(n, n.gemv(Restrict(m, Span(Range(n.srcs[0]))),
             Quantised(q, n.srcs[1], Restrict(m, Span(Range(n.srcs[1]))))), Restrict(m, Reads(n)))
  {
    OperandsRead(n);
    OnlyRestrict(m, Reads(n), Span(Range(n.srcs[0])));
    OnlyRestrict(m, Reads(n), Span(Range(n.srcs[1])));
    OnlyRestrict(m, Reads(n), Reads(n));
  }

  lemma GemvComputes(q: Quantiser, n: Node, base: int, size: nat, m: Mem, at: set<int>)
    requires NodeOk(n) && IntDot(n) && ScratchHolds(q, base, size, n.srcs[1], m)
    requires Span(Range(n.srcs[0])) <= at && Span(Scratch(base, n.srcs[1])) <= at && Span(Range(n.dst)) <= at
    ensures GemvBytes(n, base, Restrict(m, at)) == Result(q, n, Restrict(m, Reads(n)))
  {
    GemvReads(q, n, base, size, m, at);
    QuantResult(q, n, m);
    var raw := n.gemv(Restrict(m, Span(Range(n.srcs[0]))),
        Quantised(q, n.srcs[1], Restrict(m, Span(Range(n.srcs[1])))));
    SameFill(n, raw, Only(Restrict(m, at), Reads(n)), Restrict(m, Reads(n)));
  }

  lemma SameFill(n: Node, raw: View, v: View, u: View)
    requires n.partial ==> forall a :: a in Span(Range(n.dst)) ==> a in v && a in u && v[a] == u[a]
    ensures Fill(n, raw, v) == Fill(n, raw, u)
  {
  }

  lemma GemvStage(q: Quantiser, n: Node, base: int, size: nat, s: Stage, m: Mem)
    requires NodeOk(n) && IntDot(n) && ScratchHolds(q, base, size, n.srcs[1], m)
    requires s.ins == [Range(n.srcs[0]), Scratch(base, n.srcs[1])] && s.outs == [Range(n.dst)]
    requires forall v :: s.kernel(v) == GemvBytes(n, base, v)
    ensures Apply(s, m) == Effect(q, n, m)
  {
    hide *;
    EffectOverwrites(q, n, m);
    GemvFootprint(n, base, s);
    GemvComputes(q, n, base, size, m, Footprint(s));
    var r := Result(q, n, Restrict(m, Reads(n)));
    StageOverwrites(s, m, r);
  }

  lemma GemvFootprint(n: Node, base: int, s: Stage)
    requires NodeOk(n) && n.op.MatMul?
    requires s.ins == [Range(n.srcs[0]), Scratch(base, n.srcs[1])] && s.outs == [Range(n.dst)]
    ensures Span(Range(n.srcs[0])) <= Footprint(s) && Span(Scratch(base, n.srcs[1])) <= Footprint(s)
    ensures Bytes(s.outs) == Span(Range(n.dst)) <= Footprint(s)
  {
    hide Span, Range, Scratch, Consumed, Bytes;
    RangeIn(s.ins, 0);
    RangeIn(s.ins, 1);
    SpanOf(Range(n.dst));
  }

  lemma RangeIn(v: seq<Rng>, i: nat)
    requires i < |v|
    ensures Span(v[i]) <= Bytes(v)
  {
    hide Span;
    var r := v[i];
    forall a | a in Span(r) ensures a in Bytes(v) { assert a in Span(v[i]); }
  }

  lemma StageOverwrites(s: Stage, m: Mem, r: View)
    requires Bytes(s.outs) == r.Keys <= Footprint(s) && s.kernel(Restrict(m, Footprint(s))) == r
    ensures Apply(s, m) == Overwrite(m, r)
  {
    hide Bytes, Footprint;
    SameMem(Apply(s, m), Overwrite(m, r));
  }

  lemma EffectOverwrites(q: Quantiser, n: Node, m: Mem)
    requires NodeOk(n) && IntDot(n)
    ensures n.op.MatMul? && Effect(q, n, m) == Overwrite(m, Result(q, n, Restrict(m, Reads(n))))
  {
    hide Overwrite, Result, Reads, Restrict;
  }

  // ------------------------------------------------------------------ the backend

  class Backend {
    const session: Session
    const enc: BatchEncoder
    const q: Quantiser
    /** Measured duration of the n-th batch. */
    const elapsed: nat -> real
    /** Device memory, with every submitted batch executed. */
    ghost var mem: Mem
    /** Tensor whose q8_1 form the scratch buffer holds, counting pending stages. */
    var qx: Option<Tensor>
    var nBatches: nat

    ghost predicate Valid()
      reads this, enc, session
    {
      enc.session == session && enc.Valid() && forall n :: elapsed(n) >= 0.0
    }

    /** Memory once the pending batch has been executed in order. */
    ghost function Pending(): Mem
      reads this, enc
    {
      SeqExec(enc.st, mem)
    }

    /** The scratch buffer lies above `top`, and unless its tensor was touched at `dirty`, `qx` tells
        the truth: the scratch buffer holds the q8_1 form of that tensor's current bytes. */
    ghost predicate DedupOk(top: int, dirty: set<int>)
      reads this, enc, session
    {
      && session.scratchBase >= top
      && (qx.Some? ==> Bind(qx.value).Some? && qx.value.data + qx.value.nbytes <= top)
      && (qx.Some? && Span(Range(qx.value)) !! dirty ==>
            ScratchHolds(q, session.scratchBase, session.scratchSize, qx.value, Pending()))
    }

    constructor (session: Session, q: Quantiser, elapsed: nat -> real, ghost mem: Mem)
      requires session.Valid() && forall n :: elapsed(n) >= 0.0
      ensures Valid() && this.session == session && this.q == q && this.mem == mem && Pending() == mem
      ensures fresh(enc)
    {
      this.session := session;
      this.enc := new BatchEncoder(session);
      this.q := q;
      this.elapsed := elapsed;
      this.mem := mem;
      this.qx := None;
      this.nBatches := 0;
    }

    /** flush: submit the pending batch and take over the measurement. */
    method Flush()
      requires Valid()
      modifies this`mem, this`nBatches, enc, session`estWg, session`history
      ensures Valid() && enc.st == [] && mem == old(Pending())
      ensures nBatches == old(nBatches) + (if old(enc.st) == [] then 0 else 1)
      ensures session.history == old(session.history)
                + if old(enc.st) == [] || session.fixed || old(enc.wgs) == 0 then []
                  else [elapsed(old(nBatches)) / old(enc.wgs) as real]
      ensures old(enc.WithinBudget())
    {
      if |enc.st| == 0 { return; }
      ghost var st, m := enc.st, mem;
      var cmds := Daemon.Record(enc.st, false);
      ghost var some := Daemon.SomeOutcome(cmds, mem);
      ghost var m' :| Daemon.Outcome(cmds, mem, m');
      BatchIsSequential(st, m, m');
      mem := m';
      session.Measure(elapsed(nBatches), enc.wgs);
      nBatches := nBatches + 1;
      enc.Reset();
    }

    /** gpud_scratch_ensure: grow the scratch buffer; the new one lies wherever the allocator put it. */
    method EnsureScratch(need: nat, top: int)
      requires session.scratchBase >= top
      modifies session`scratchBase, session`scratchSize
      ensures session.scratchBase >= top && need <= session.scratchSize
    {
      if need <= session.scratchSize { return; }
      var base :| base >= top;
      session.scratchBase := base;
      session.scratchSize := (need + 0xFFFFF) / 0x100000 * 0x100000;
    }

    method FlushIfFull(nbind: nat)
      requires Valid()
      modifies this`mem, this`nBatches, enc, session`estWg, session`history
      ensures Valid() && Pending() == old(Pending())
      ensures nbind <= 16 ==> !enc.Full(nbind)
    {
      if enc.Full(nbind) {
        Flush();
        if nbind <= 16 { enc.EmptyFits(nbind); }
      }
    }

    /** Flush if needed, then push. */
    method PushTensors(ts: seq<Tensor>, wmask: seq<bool>, kernel: Kernel, groups: nat)
        returns (ok: bool, ghost s: Stage)
      requires Valid() && |ts| == |wmask| <= 16
      modifies this`mem, this`nBatches, enc, session`estWg, session`history
      ensures Valid() && s.ins == Picked(ts, wmask, false) && s.outs == Picked(ts, wmask, true) && s.kernel == kernel
      ensures Pending() == if ok then Apply(s, old(Pending())) else old(Pending())
    {
      FlushIfFull(|ts|);
      ghost var st := enc.st;
      ok := enc.Push(ts, wmask, kernel, groups);
      s := Stage(Picked(ts, wmask, false), Picked(ts, wmask, true), kernel, true);
      if ok {
        s := enc.st[|st|];
        SeqExecStep(st, s, mem);
      }
    }

    /** A node that becomes one stage with directly bound tensors. */
    method EncodeDirect(n: Node) returns (ok: bool)
      requires Valid() && NodeOk(n) && (n.op.Direct? || n.op.MatMul?) && !IntDot(n) && n.supported
      modifies this`mem, this`nBatches, enc, session`estWg, session`history
      ensures Valid()
      ensures Pending() == if ok then Effect(q, n, old(Pending())) else old(Pending())
    {
      var sh := DirectShader(n);
      ghost var s;
      ok, s := PushTensors(Bound(sh, n.srcs, n.dst), WriteMask(sh), (v: View) => ShaderKernel(sh, n, v), n.groups);
      if ok { DirectStage(q, n, s, old(Pending())); }
    }

    /** RMS_NORM fused with the MUL that follows it. */
    method EncodeFused(norm: Node, mul: Node) returns (ok: bool)
      requires Valid() && NodeOk(norm) && NodeOk(mul)
      requires norm.op.Direct? && norm.op.sh.RmsNorm? && !norm.partial && mul.op.Direct? && mul.op.sh.Binary?
      requires norm.supported && mul.op.isMul && mul.fuseShape
      modifies this`mem, this`nBatches, enc, session`estWg, session`history
      ensures Valid()
      ensures Pending() == if ok then FusedEffect(q, norm, mul, old(Pending())) else old(Pending())
    {
      var q' := q;
      ghost var s;
      ok, s := PushTensors([norm.srcs[0], mul.srcs[1], mul.dst], WriteMask(RmsNorm),
          (v: View) => FusedKernel(q', norm, mul, v), norm.groups);
      if ok {
        FusedRanges(norm, mul, s);
        FusedStageIsEffect(q, norm, mul, s, old(Pending()));
      }
    }

    /** Flush if needed, then push_raw; a batch with room never refuses a stage. */
    method PushStage(ins: seq<Rng>, outs: seq<Rng>, kernel: Kernel, nbind: nat, groups: nat) returns (ghost s: Stage)
      requires Valid() && nbind <= 16
      modifies this`mem, this`nBatches, enc, session`estWg, session`history
      ensures Valid() && s.ins == ins && s.outs == outs && s.kernel == kernel
      ensures Pending() == Apply(s, old(Pending()))
    {
      FlushIfFull(nbind);
      ghost var st := enc.st;
      var ok := enc.PushRaw(ins, outs, kernel, nbind, groups);
      s := enc.st[|st|];
      SeqExecStep(st, s, mem);
    }

    /** The quantise stage of the int-dot path; the caller has made the scratch buffer large enough. */
    method PushQuantise(x: Tensor, top: int)
      requires Valid() && session.scratchBase >= top && x.data + x.nbytes <= top && Need(x) <= session.scratchSize
      requires Bind(x).Some?
      modifies this`mem, this`nBatches, this`qx, enc, session`estWg, session`history
      ensures Valid() && qx == Some(x) && DedupOk(top, {})
      ensures forall a :: a < top ==> Pending()[a] == old(Pending())[a]
    {
      hide ScratchHolds, SeqExec, BatchEncoder.Valid, Session.Valid;
      var q', base := q, session.scratchBase;
      ghost var s :=
          PushStage([Range(x)], [Scratch(base, x)], (v: View) => QuantiseBytes(q', x, base, v), 2, Groups(x.q8Blocks));
      QuantiseStage(q, x, base, session.scratchSize, s, old(Pending()), Pending());
      qx := Some(x);
    }

    /** The int-dot GEMV stage, reading the scratch buffer. */
    method PushGemv(n: Node, top: int)
      requires Valid() && NodeOk(n) && IntDot(n) && Below(n, top) && session.scratchBase >= top
      requires qx == Some(n.srcs[1]) && Bind(n.srcs[1]).Some? && n.srcs[1].data + n.srcs[1].nbytes <= top
      requires ScratchHolds(q, session.scratchBase, session.scratchSize, n.srcs[1], Pending())
      modifies this`mem, this`nBatches, enc, session`estWg, session`history
      ensures Valid() && Pending() == Effect(q, n, old(Pending())) && DedupOk(top, Span(Range(n.dst)))
    {
      hide ScratchHolds, Effect, SeqExec, BatchEncoder.Valid, Session.Valid;
      var base := session.scratchBase;
      ghost var s :=
          PushStage([Range(n.srcs[0]), Scratch(base, n.srcs[1])], [Range(n.dst)], (v: View) => GemvBytes(n, base, v),
          3, n.groups);
      GemvDone(q, n, base, session.scratchSize, s, old(Pending()), top);
    }

    /** Finishes all work that uses the old scratch buffer, then replaces it. */
    method GrowScratch(need: nat, top: int)
      requires Valid() && session.scratchBase >= top
      modifies this`mem, this`nBatches, this`qx, enc, session`estWg, session`history, session`scratchBase,
          session`scratchSize
      ensures Valid() && session.scratchBase >= top && need <= session.scratchSize && qx == None
      ensures Pending() == old(Pending())
    {
      hide Greedy, Segment, ReadRanges, WriteRanges, EstimateAfter, NoneNegative;
      Flush();
      EnsureScratch(need, top);
      qx := None;
    }

    /** Makes the scratch buffer hold the q8_1 form of `x`: grow it if needed, and quantise unless it
        already holds exactly this operand. */
    method PrepareOperand(x: Tensor, top: int) returns (ok: bool)
      requires Valid() && DedupOk(top, {}) && x.data + x.nbytes <= top
      modifies this`mem, this`nBatches, this`qx, enc, session`estWg, session`history, session`scratchBase,
          session`scratchSize
      ensures Valid() && DedupOk(top, {})
      ensures forall a :: a < top ==> Pending()[a] == old(Pending())[a]
      ensures qx == old(qx) || qx == None || qx == Some(x)
      ensures ok <==> Bind(x).Some?
      ensures ok ==> qx == Some(x) && ScratchHolds(q, session.scratchBase, session.scratchSize, x, Pending())
    {
      hide ScratchHolds, SeqExec, BatchEncoder.Valid, Session.Valid;
      if Need(x) > session.scratchSize { GrowScratch(Need(x), top); }
      if qx != Some(x) {
        if Bind(x).None? { return false; }
        PushQuantise(x, top);
      }
      assert Span(Range(x)) !! {};
      return true;
    }

    /** MUL_MAT on the int-dot path. */
    method EncodeQuant(n: Node, top: int) returns (ok: bool)
      requires Valid() && NodeOk(n) && n.op.MatMul? && n.supported && TakesIntDot(n)
      requires DedupOk(top, {}) && Below(n, top)
      modifies this`mem, this`nBatches, this`qx, enc, session`estWg, session`history, session`scratchBase,
          session`scratchSize
      ensures Valid() && DedupOk(top, if ok then Span(Range(n.dst)) else {})
      ensures qx == old(qx) || qx == None || qx == Some(n.srcs[1])
      ensures forall a :: a < top ==> Pending()[a] == if ok then Effect(q, n, old(Pending()))[a] else old(Pending())[a]
      ensures ok <==> IntDot(n)
    {
      TestExactly(n);
      assert Consumed(n)[1] == n.srcs[1];
      ok := PrepareOperand(n.srcs[1], top);
      if !ok || Bind(n.srcs[0]).None? || Bind(n.dst).None? { return false; }
      EffectAgrees(q, n, Pending(), old(Pending()), top);
      PushGemv(n, top);
    }

    method DirectNode(g: Cgraph, i: nat, top: int, ghost m0: Mem) returns (ok: bool)
      requires Valid() && GraphOk(g, top) && i < |g| && (g[i].op.Direct? || g[i].op.MatMul?) && !IntDot(g[i])
        && g[i].supported
      requires DedupOk(top, {}) && Agrees(q, g, i, top, m0, Pending())
      modifies this`mem, this`nBatches, enc, session`estWg, session`history
      ensures Valid() && DedupOk(top, if ok then Span(Range(g[i].dst)) else {})
      ensures Agrees(q, g, if ok then i + 1 else i, top, m0, Pending())
    {
      hide GraphOk, Agrees, ScratchHolds, Effect, FusedEffect, SeqExec, BatchEncoder.Valid, Session.Valid;
      BelowTop(g, i, top);
      ghost var m := Pending();
      EffectKeepsDedup(g[i], m, qx, top);
      AdvanceNode(q, g, i, top, m0, m, Effect(q, g[i], m));
      ok := EncodeDirect(g[i]);
    }

    method FusedNode(g: Cgraph, i: nat, top: int, ghost m0: Mem) returns (ok: bool)
      requires Valid() && GraphOk(g, top) && Fusible(g, i)
      requires DedupOk(top, {}) && Agrees(q, g, i, top, m0, Pending())
      modifies this`mem, this`nBatches, enc, session`estWg, session`history
      ensures Valid() && DedupOk(top, if ok then Span(Range(g[i + 1].dst)) else {})
      ensures Agrees(q, g, if ok then i + 2 else i, top, m0, Pending())
    {
      hide GraphOk, Agrees, ScratchHolds, Effect, FusedEffect, SeqExec, BatchEncoder.Valid, Session.Valid;
      BelowTop(g, i, top);
      BelowTop(g, i + 1, top);
      ghost var m := Pending();
      FusedKeepsDedup(g, i, m, qx, top);
      AdvanceFused(q, g, i, top, m0, m, FusedEffect(q, g[i], g[i + 1], m));
      ok := EncodeFused(g[i], g[i + 1]);
    }

    method QuantNode(g: Cgraph, i: nat, top: int, ghost m0: Mem) returns (ok: bool)
      requires Valid() && GraphOk(g, top) && i < |g| && g[i].op.MatMul? && g[i].supported && TakesIntDot(g[i])
      requires DedupOk(top, {}) && Agrees(q, g, i, top, m0, Pending())
      requires qx.Some? ==> InGraph(g, qx.value)
      modifies this`mem, this`nBatches, this`qx, enc, session`estWg, session`history, session`scratchBase,
          session`scratchSize
      ensures Valid() && DedupOk(top, if ok then Span(Range(g[i].dst)) else {})
      ensures qx.Some? ==> InGraph(g, qx.value)
      ensures Agrees(q, g, if ok then i + 1 else i, top, m0, Pending())
      ensures ok <==> IntDot(g[i])
    {
      hide GraphOk, Agrees, ScratchHolds, Effect, FusedEffect, SeqExec, BatchEncoder.Valid, Session.Valid;
      BelowTop(g, i, top);
      ghost var m := Pending();
      ok := EncodeQuant(g[i], top);
      if ok {
        AdvanceNode(q, g, i, top, m0, m, Pending());
      } else {
        SameAgrees(q, g, i, top, m0, m, Pending());
      }
    }

    /** encode_node. False: nothing below `top` has changed and the node is left to the CPU. `fused`: the
        next node has been encoded as well. */
    method EncodeNode(g: Cgraph, i: nat, top: int, ghost m0: Mem) returns (ok: bool, fused: bool)
      requires Valid() && GraphOk(g, top) && i < |g| && !g[i].op.Noop? && g[i].supported
      requires DedupOk(top, {}) && Agrees(q, g, i, top, m0, Pending())
      requires qx.Some? ==> InGraph(g, qx.value)
      modifies this`mem, this`nBatches, this`qx, enc, session`estWg, session`history, session`scratchBase,
          session`scratchSize
      ensures Valid() && (fused ==> ok && Fusible(g, i))
      ensures qx.Some? ==> InGraph(g, qx.value)
      ensures DedupOk(top, if !ok then {} else Span(Range(g[if fused then i + 1 else i].dst)))
      ensures Agrees(q, g, if !ok then i else if fused then i + 2 else i + 1, top, m0, Pending())
      ensures IntDot(g[i]) ==> ok
    {
      hide GraphOk, Agrees, ScratchHolds, SeqExec, BatchEncoder.Valid, Session.Valid, IntDot, TakesIntDot;
      fused := false;
      BelowTop(g, i, top);
      OnlyProducts(g[i]);
      match g[i].op {
        case CpuOnly => ok := false;
        case MatMul(_, _, _, _) =>
          TestExactly(g[i]);
          if TakesIntDot(g[i]) { ok := QuantNode(g, i, top, m0); } else { ok := DirectNode(g, i, top, m0); }
        case Direct(_, _) =>
          if Fusible(g, i) {
            ok := FusedNode(g, i, top, m0);
            fused := ok;
          } else {
            ok := DirectNode(g, i, top, m0);
          }
      }
    }

    lemma EffectKeepsDedup(n: Node, m: Mem, x: Option<Tensor>, top: int)
      requires NodeOk(n) && Below(n, top) && session.scratchBase >= top
      requires x.Some? ==> ScratchHolds(q, session.scratchBase, session.scratchSize, x.value, m)
      ensures x.Some? && Span(Range(x.value)) !! Span(Range(n.dst)) ==>
                ScratchHolds(q, session.scratchBase, session.scratchSize, x.value, Effect(q, n, m))
    {
      if x.Some? {
        EffectFrame(q, n, m, session.scratchBase, session.scratchSize, x.value, top);
      }
    }

    lemma FusedKeepsDedup(g: Cgraph, i: nat, m: Mem, x: Option<Tensor>, top: int)
      requires GraphOk(g, top) && Fusible(g, i) && session.scratchBase >= top
      requires x.Some? ==> ScratchHolds(q, session.scratchBase, session.scratchSize, x.value, m)
      ensures x.Some? && Span(Range(x.value)) !! Span(Range(g[i + 1].dst)) ==>
                ScratchHolds(q, session.scratchBase, session.scratchSize, x.value, FusedEffect(q, g[i], g[i + 1], m))
    {
      assert InGraph(g, g[i + 1].dst);
      if x.Some? && Span(Range(x.value)) !! Span(Range(g[i + 1].dst)) {
        ScratchKept(q, session.scratchBase, session.scratchSize, x.value, m, FusedEffect(q, g[i], g[i + 1], m));
      }
    }

    /** Forget the quantised operand if node output `t` overwrites it. */
    method Invalidate(g: Cgraph, t: Tensor, top: int)
      requires Valid() && GraphOk(g, top) && InGraph(g, t) && DedupOk(top, Span(Range(t)))
      requires qx.Some? ==> InGraph(g, qx.value)
      modifies this`qx
      ensures Valid() && DedupOk(top, {}) && (qx.Some? ==> InGraph(g, qx.value))
    {
      if qx.Some? {
        if WritesOver(t, qx.value) {
          qx := None;
        } else {
          NoOverwrite(t, qx.value);
        }
      }
    }

    /** CPU fallback: finish the GPU work first, then compute the node in place. */
    method CpuNode(g: Cgraph, i: nat, top: int, ghost m0: Mem)
      requires Valid() && GraphOk(g, top) && i < |g| && !g[i].op.Noop? && !IntDot(g[i])
      requires DedupOk(top, {}) && Agrees(q, g, i, top, m0, Pending())
      modifies this`mem, this`nBatches, enc, session`estWg, session`history
      ensures Valid() && DedupOk(top, Span(Range(g[i].dst)))
      ensures enc.st == [] && mem == Effect(q, g[i], old(Pending()))
      ensures Agrees(q, g, i + 1, top, m0, Pending())
    {
      hide GraphOk, Agrees, ScratchHolds, Effect, IntDot, Evaluated, Overwrite, Reads, Restrict;
      hide BatchEncoder.Valid, Session.Valid, BatchEncoder.WithinBudget;
      BelowTop(g, i, top);
      ghost var m := Pending();
      EffectKeepsDedup(g[i], m, qx, top);
      AdvanceNode(q, g, i, top, m0, m, Effect(q, g[i], m));
      EvaluatedEffect(q, g[i], m);
      Flush();
      mem := Overwrite(mem, Evaluated(g[i], Restrict(mem, Reads(g[i]))));
    }

    /** gpud_graph_compute. Main result: whatever the device's schedule, whatever the batch boundaries,
        fused nodes, skipped quantise stages and CPU fallbacks, memory ends up as node-by-node evaluation
        leaves it, on every byte below the scratch buffer except skipped norm outputs. */
    method GraphCompute(g: Cgraph, top: int)
      requires Valid() && GraphOk(g, top) && session.scratchBase >= top
      modifies this`mem, this`nBatches, this`qx, enc, session`estWg, session`history, session`scratchBase,
          session`scratchSize
      ensures Valid() && enc.st == [] && session.scratchBase >= top
      ensures Agrees(q, g, |g|, top, old(mem), mem)
    {
      enc.Reset();
      qx := None;
      ghost var m0 := mem;
      var i := 0;
      while i < |g|
        invariant 0 <= i <= |g| && Valid()
        invariant DedupOk(top, {}) && (qx.Some? ==> InGraph(g, qx.value))
        invariant Agrees(q, g, i, top, m0, Pending())
      {
        i := NodeStep(g, i, top, m0);
      }
      Flush();
    }

    /** One round of the loop over the nodes. */
    method NodeStep(g: Cgraph, i: nat, top: int, ghost m0: Mem) returns (next: nat)
      requires Valid() && GraphOk(g, top) && i < |g|
      requires DedupOk(top, {}) && (qx.Some? ==> InGraph(g, qx.value))
      requires Agrees(q, g, i, top, m0, Pending())
      modifies this`mem, this`nBatches, this`qx, enc, session`estWg, session`history, session`scratchBase,
          session`scratchSize
      ensures i < next <= |g| && Valid()
      ensures DedupOk(top, {}) && (qx.Some? ==> InGraph(g, qx.value))
      ensures Agrees(q, g, next, top, m0, Pending())
    {
      hide GraphOk, Agrees, ScratchHolds, Effect, FusedEffect, SeqExec, BatchEncoder.Valid, Session.Valid;
      if g[i].op.Noop? {
        AdvanceNoop(q, g, i, top, m0, Pending());
        return i + 1;
      }
      assert InGraph(g, g[i].dst);
      var ok, fused := false, false;
      if g[i].supported {
        ok, fused := EncodeNode(g, i, top, m0);
      }
      if !ok {
        CpuNode(g, i, top, m0);
      }
      if fused {
        assert InGraph(g, g[i + 1].dst);
        Invalidate(g, g[i + 1].dst, top);
        if qx.Some? && WritesOver(g[i].dst, qx.value) { qx := None; }
        return i + 2;
      }
      Invalidate(g, g[i].dst, top);
      return i + 1;
    }
  }

  lemma EvaluatedEffect(q: Quantiser, n: Node, m: Mem)
    requires NodeOk(n) && !n.op.Noop? && !IntDot(n)
    ensures Effect(q, n, m) == Overwrite(m, Evaluated(n, Restrict(m, Reads(n))))
  {
    hide Overwrite, Evaluated, Reads, Restrict, IntDot;
  }

  lemma OnlyProducts(n: Node)
    requires NodeOk(n)
    ensures IntDot(n) ==> n.op.MatMul?
  {
  }

  lemma AdvanceNoop(q: Quantiser, g: Cgraph, i: nat, top: int, m0: Mem, m: Mem)
    requires GraphOk(g, top) && i < |g| && g[i].op.Noop? && Agrees(q, g, i, top, m0, m)
    ensures Agrees(q, g, i + 1, top, m0, m)
  {
    AdvanceNode(q, g, i, top, m0, m, m);
  }

  lemma SameAgrees(q: Quantiser, g: Cgraph, i: nat, top: int, m0: Mem, m: Mem, m': Mem)
    requires NodesOk(g) && i <= |g| && Agrees(q, g, i, top, m0, m)
    requires forall a :: a < top ==> m'[a] == m[a]
    ensures Agrees(q, g, i, top, m0, m')
  {
  }

  lemma BelowTop(g: Cgraph, i: nat, top: int)
    requires GraphOk(g, top) && i < |g|
    ensures NodesOk(g) && NodeOk(g[i]) && Below(g[i], top)
    ensures g[i].op.MatMul? ==> InGraph(g, g[i].srcs[1])
  {
    assert InGraph(g, g[i].dst);
    forall k | 0 <= k < |Consumed(g[i])|
      ensures Consumed(g[i])[k].data + Consumed(g[i])[k].nbytes <= top
    {
      ConsumedAreSrcs(g[i], k);
      assert InGraph(g, g[i].srcs[k]);
    }
  }

  /** All operands and the destination lie below `top`. */
  ghost predicate Below(n: Node, top: int)
    requires NodeOk(n)
  {
    && n.dst.data + n.dst.nbytes <= top
    && forall i :: 0 <= i < |Consumed(n)| ==> Consumed(n)[i].data + Consumed(n)[i].nbytes <= top
  }

  lemma EffectAgrees(q: Quantiser, n: Node, m: Mem, m': Mem, top: int)
    requires NodeOk(n) && Below(n, top)
    requires forall a :: a < top ==> m[a] == m'[a]
    ensures forall a :: a < top ==> Effect(q, n, m)[a] == Effect(q, n, m')[a]
  {
    forall a | a in Reads(n)
      ensures a < top
    {
      if a in Bytes(Ranges(Consumed(n))) {
        var i :| 0 <= i < |Ranges(Consumed(n))| && a in Span(Ranges(Consumed(n))[i]);
        assert Consumed(n)[i].data + Consumed(n)[i].nbytes <= top;
      }
    }
    ResultOfReads(q, n, Restrict(m, Reads(n)), Restrict(m', Reads(n)));
  }

  /** A node's effect leaves the scratch buffer and any tensor apart from its destination alone. */
  lemma EffectFrame(q: Quantiser, n: Node, m: Mem, base: int, size: nat, x: Tensor, top: int)
    requires NodeOk(n) && Below(n, top) && top <= base
    requires ScratchHolds(q, base, size, x, m)
    ensures Span(Range(x)) !! Span(Range(n.dst)) ==> ScratchHolds(q, base, size, x, Effect(q, n, m))
  {
    if Span(Range(x)) !! Span(Range(n.dst)) {
      ScratchKept(q, base, size, x, m, Effect(q, n, m));
    }
  }

  lemma GemvDone(q: Quantiser, n: Node, base: int, size: nat, s: Stage, m: Mem, top: int)
    requires NodeOk(n) && IntDot(n) && ScratchHolds(q, base, size, n.srcs[1], m) && Below(n, top) && top <= base
    requires s.ins == [Range(n.srcs[0]), Scratch(base, n.srcs[1])] && s.outs == [Range(n.dst)]
    requires forall v :: s.kernel(v) == GemvBytes(n, base, v)
    ensures Apply(s, m) == Effect(q, n, m)
    ensures Span(Range(n.srcs[1])) !! Span(Range(n.dst)) ==> ScratchHolds(q, base, size, n.srcs[1], Apply(s, m))
  {
    GemvStage(q, n, base, size, s, m);
    EffectFrame(q, n, m, base, size, n.srcs[1], top);
  }

  lemma DirectStage(q: Quantiser, n: Node, s: Stage, m: Mem)
    requires NodeOk(n) && (n.op.Direct? || n.op.MatMul?)
    requires s.ins == Picked(Bound(DirectShader(n), n.srcs, n.dst), WriteMask(DirectShader(n)), false)
    requires s.outs == Picked(Bound(DirectShader(n), n.srcs, n.dst), WriteMask(DirectShader(n)), true)
    requires n.supported && !IntDot(n) && forall v :: s.kernel(v) == ShaderKernel(DirectShader(n), n, v)
    ensures Apply(s, m) == Effect(q, n, m)
  {
    hide *;
    BoundRanges(n);
    OwnShader(n);
    DirectReads(n, s);
    forall v ensures s.kernel(v) == Result(q, n, v) { PlainResult(q, n, v); }
    StageIsEffect(q, n, s, m);
  }

  lemma DirectReads(n: Node, s: Stage)
    requires NodeOk(n) && Bytes(s.ins) == Bytes(Ranges(Consumed(n))) && Bytes(s.outs) == Span(Range(n.dst))
    ensures Reads(n) <= Footprint(s)
  {
  }

  lemma OwnShader(n: Node)
    requires NodeOk(n) && (n.op.Direct? || n.op.MatMul?) && n.supported
    ensures !n.op.Noop? && forall v :: ShaderKernel(DirectShader(n), n, v) == Evaluated(n, v)
  {
    hide Evaluated;
  }

  lemma PlainResult(q: Quantiser, n: Node, v: View)
    requires NodeOk(n) && !IntDot(n)
    ensures Result(q, n, v) == Evaluated(n, v)
  {
    hide IntDot, Evaluated;
  }

  lemma FusedRanges(norm: Node, mul: Node, s: Stage)
    requires NodeOk(norm) && NodeOk(mul) && norm.op.Direct? && norm.op.sh.RmsNorm? && !norm.partial && mul.op.Direct?
      && mul.op.sh.Binary?
    requires s.ins == Picked([norm.srcs[0], mul.srcs[1], mul.dst], WriteMask(RmsNorm), false)
    requires s.outs == Picked([norm.srcs[0], mul.srcs[1], mul.dst], WriteMask(RmsNorm), true)
    ensures Bytes(s.outs) == Span(Range(mul.dst)) && Reads(norm) <= Footprint(s)
      && Span(Range(mul.srcs[1])) <= Footprint(s)
  {
    var ts, mask := [norm.srcs[0], mul.srcs[1], mul.dst], WriteMask(RmsNorm);
    forall a
      ensures a in Bytes(s.outs) <==> a in Span(Range(mul.dst))
      ensures a in Bytes(s.ins) <==> a in Span(Range(norm.srcs[0])) || a in Span(Range(mul.srcs[1]))
    {
      PickedBytes(ts, mask, true, a);
      PickedBytes(ts, mask, false, a);
      assert ts[0] == norm.srcs[0] && ts[1] == mul.srcs[1] && ts[2] == mul.dst;
    }
    assert Ranges(Consumed(norm)) == [Range(norm.srcs[0])];
    SpanOf(Range(norm.srcs[0]));
  }
}
