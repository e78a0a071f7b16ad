/** Graphs as the backend sees them, and their reference meaning: node-by-node evaluation. */
module Graph {
  import opened GpuMemory
  import opened Tensors

  /** Shaders that bind tensors directly, with the bindings each of them writes. */
  datatype Shader = Binary | Unary | RmsNorm | Cpy | GetRows | MulMat | Rope | SoftMax | Glu | SetRows | GemvFloat

  function WriteMask(sh: Shader): seq<bool> {
    match sh
    case Unary => [false, true]
    case Binary | RmsNorm | GetRows | MulMat | Glu => [false, false, true]
    case Cpy | SetRows => [false, false, true, true]
    case Rope | SoftMax | GemvFloat => [false, false, false, true]
  }

  datatype Weight = F32 | F16 | Q4_K | Q6_K | Q8_0 | OtherWeight

  /** GGML_GPUD_NOIQ, GGML_GPUD_NOIQ6 and GGML_GPUD_NOGEMV, as the environment has them set. */
  datatype Switches = Switches(noIq: bool, noIq6: bool, noGemv: bool)

  /** MatMul: the type and the row length of the weight, and whether the activations are contiguous. */
  datatype Op =
    | Noop
    | CpuOnly
    | Direct(sh: Shader, isMul: bool)
    | MatMul(weight: Weight, cols: nat, contiguous: bool, env: Switches)

  /** `supported`: gpud_supports_op accepts the node and the encoder knows its sub-operation.
      `partial`: the node leaves some bytes of its destination range as they were.
      `fuseShape`: as the multiplication behind a norm, one contiguous row of weights of the norm's width.
      `eval` is what the node computes, on the CPU or in a shader that handles it; `gemv` is what the integer dot
      product of the weight bytes and the q8_1 form of the activations gives; `stray` is what a shader leaves that does
      not handle the node. */
  datatype Node = Node(op: Op, dst: Tensor, srcs: seq<Tensor>, supported: bool, partial: bool, fuseShape: bool,
                       groups: nat, eval: Kernel, gemv: (View, View) -> View, stray: Kernel)

  type Cgraph = seq<Node>

  ghost predicate Covers(v: View, lo: int, hi: int) {
    forall a :: lo <= a < hi <==> a in v
  }

  function ByteAt(v: View, a: int): Byte {
    if a in v then v[a] else 0
  }

  /** q8_1 quantisation of a tensor's bytes; offsets into the scratch buffer. */
  type Quantiser = (Tensor, View) -> View

  function MinSrcs(op: Op): nat {
    match op
    case Noop | CpuOnly => 0
    case MatMul(_, _, _, _) => 2
    case Direct(sh, _) =>
      match sh
      case Unary | RmsNorm | Cpy | SoftMax | Glu => 1
      case Binary | GetRows | MulMat | Rope | SetRows | GemvFloat => 2
  }

  predicate NodeOk(n: Node) {
    && MinSrcs(n.op) <= |n.srcs|
    && (n.op.Direct? && n.op.sh.RmsNorm? && n.supported ==> !n.partial)
  }

  /** The operands whose bytes the node reads. CPY reads only its source, SET_ROWS only rows and indices. */
  function Consumed(n: Node): seq<Tensor>
    requires NodeOk(n)
  {
    match n.op
    case Noop => []
    case CpuOnly => n.srcs
    case MatMul(_, _, _, _) => n.srcs[..2]
    case Direct(sh, _) =>
      match sh
      case Unary | RmsNorm | Cpy => n.srcs[..1]
      case Binary | GetRows | MulMat | SetRows | GemvFloat => n.srcs[..2]
      case SoftMax | Glu => if |n.srcs| > 1 then n.srcs[..2] else n.srcs[..1]
      case Rope => if |n.srcs| > 2 then n.srcs[..3] else n.srcs[..2]
  }

  /** The tensors bound to the shader, in binding order. */
  function Bound(sh: Shader, srcs: seq<Tensor>, dst: Tensor): (ts: seq<Tensor>)
    requires MinSrcs(Direct(sh, false)) <= |srcs|
    ensures |ts| == |WriteMask(sh)|
  {
    var s0 := srcs[0];
    match sh
    case Unary => [s0, dst]
    case RmsNorm => [s0, s0, dst]
    case Cpy => [s0, s0, dst, dst]
    case Binary | GetRows | MulMat => [s0, srcs[1], dst]
    case Rope => [s0, srcs[1], if |srcs| > 2 then srcs[2] else srcs[1], dst]
    case SoftMax => var m := if |srcs| > 1 then srcs[1] else s0; [s0, m, m, dst]
    case Glu => [s0, if |srcs| > 1 then srcs[1] else s0, dst]
    case SetRows => [s0, srcs[1], dst, dst]
    case GemvFloat => [s0, srcs[1], srcs[1], dst]
  }

  function Ranges(ts: seq<Tensor>): seq<Rng> {
    seq(|ts|, i requires 0 <= i < |ts| => Range(ts[i]))
  }

  /** The bytes a node's result depends on. */
  function Reads(n: Node): set<int>
    requires NodeOk(n)
  {
    Bytes(Ranges(Consumed(n))) + if n.partial then Span(Range(n.dst)) else {}
  }

  function Only(v: View, at: set<int>): View {
    map a | a in v && a in at :: v[a]
  }

  lemma OnlyRestrict(m: Mem, at: set<int>, sub: set<int>)
    requires sub <= at
    ensures Only(Restrict(m, at), sub) == Restrict(m, sub)
  {
  }

  function Quantised(q: Quantiser, x: Tensor, v: View): (r: View)
    ensures Covers(r, 0, Need(x))
  {
    var r := q(x, v);
    map off | off in Span(Rng(0, Need(x))) :: ByteAt(r, off)
  }

  /** What one load of the int-dot kernel fetches from the weight, in bytes. */
  function LoadUnit(w: Weight): (u: nat)
    ensures u == 2 || u == 16
  {
    if w.Q6_K? then 2 else 16
  }

  /** Whether the integer dot product is what a node means: a supported product of contiguous activations with a k-quant
      weight of whole superblocks, all three in device buffers, and the weight on a multiple of the load unit. */
  predicate IntDot(n: Node)
    requires NodeOk(n)
  {
    match n.op
    case MatMul(weight, cols, contiguous, env) =>
      && n.supported && contiguous && cols % 256 == 0 && !env.noIq
      && (weight.Q4_K? || (weight.Q6_K? && !env.noIq6))
      && OnDevice(n.srcs[0]) && OnDevice(n.srcs[1]) && OnDevice(n.dst)
      && (n.srcs[0].data - n.srcs[0].buffer.base) % LoadUnit(weight) == 0
    case _ => false
  }

  /** Fills a destination: kernel output first, then the old byte of a partial write. */
  function Fill(n: Node, raw: View, v: View): (r: View)
    ensures r.Keys == Span(Range(n.dst))
  {
    map a | a in Span(Range(n.dst)) :: if a in raw then raw[a] else if n.partial then ByteAt(v, a) else 0
  }

  /** What the CPU or a directly bound shader computes. */
  function Evaluated(n: Node, v: View): (r: View)
    requires NodeOk(n)
    ensures r.Keys == Span(Range(n.dst))
  {
    Fill(n, n.eval(Only(v, Reads(n))), Only(v, Reads(n)))
  }

  /** The integer dot product of the weight and the quantised activations. */
  function DotProduct(q: Quantiser, n: Node, v: View): (r: View)
    requires NodeOk(n) && n.op.MatMul?
    ensures r.Keys == Span(Range(n.dst))
  {
    Fill(n, n.gemv(Only(v, Span(Range(n.srcs[0]))), Quantised(q, n.srcs[1], Only(v, Span(Range(n.srcs[1]))))),
      Only(v, Reads(n)))
  }

  /** The meaning of a node. */
  function Result(q: Quantiser, n: Node, v: View): (r: View)
    requires NodeOk(n)
    ensures r.Keys == Span(Range(n.dst))
  {
    if IntDot(n) then DotProduct(q, n, v) else Evaluated(n, v)
  }

  ghost function Overwrite(m: Mem, r: View): Mem {
    imap a: int | true :: if a in r then r[a] else m[a]
  }

  /** Evaluating one node on memory. */
  ghost function Effect(q: Quantiser, n: Node, m: Mem): Mem
    requires NodeOk(n)
  {
    if n.op.Noop? then m else Overwrite(m, Result(q, n, Restrict(m, Reads(n))))
  }

  ghost predicate NodesOk(g: Cgraph) {
    forall k :: 0 <= k < |g| ==> NodeOk(g[k])
  }

  /** Node-by-node evaluation of the first `i` nodes. */
  ghost function Spec(q: Quantiser, g: Cgraph, i: nat, m: Mem): Mem
    requires NodesOk(g) && i <= |g|
  {
    if i == 0 then m else Effect(q, g[i - 1], Spec(q, g, i - 1, m))
  }

  // ------------------------------------------------------------------ fusion and stale bytes

  function Uses(g: Cgraph, j: nat): set<(nat, nat)>
    requires j < |g|
  {
    set k: nat, i: nat | 0 <= k < |g| && 0 <= i < |g[k].srcs| && g[k].srcs[i] == g[j].dst :: (k, i)
  }

  /** RMS_NORM followed by the MUL that is its only use: encoded as one stage that never stores the norm. */
  predicate Fusible(g: Cgraph, j: int)
    requires NodesOk(g)
  {
    && 0 <= j < |g| - 1
    && g[j].op.Direct? && g[j].op.sh.RmsNorm? && g[j].supported
    && g[j + 1].op.Direct? && g[j + 1].op.sh.Binary? && g[j + 1].op.isMul
    && g[j + 1].srcs[0] == g[j].dst && g[j + 1].fuseShape
    && |Uses(g, j)| == 1
    && !g[j + 1].partial && g[j + 1].dst.buffer.Buffer? && g[j + 1].dst.buffer.ours
  }

  /** The last of the first `i` nodes that writes address `a`, or -1. */
  function LastWriter(g: Cgraph, i: nat, a: int): (j: int)
    requires i <= |g|
    ensures -1 <= j < i
  {
    if i == 0 then -1
    else if !g[i - 1].op.Noop? && a in Span(Range(g[i - 1].dst)) then i - 1
    else LastWriter(g, i - 1, a)
  }

  /** A byte whose last value is a norm output that fusion may have skipped. */
  predicate Stale(g: Cgraph, i: nat, a: int)
    requires NodesOk(g) && i <= |g|
  {
    Fusible(g, LastWriter(g, i, a)) && LastWriter(g, i, a) + 1 < i
  }

  /** The allocation plan honours use counts: bytes last written by a norm whose only use is the next
      MUL are read through the norm's own tensor and no other way. */
  ghost predicate PlanOkAt(g: Cgraph, k: nat)
    requires NodesOk(g) && k < |g|
  {
    && (forall i, a ::
          0 <= i < |Consumed(g[k])| && a in Span(Range(Consumed(g[k])[i])) && Fusible(g, LastWriter(g, k, a))
          ==> Consumed(g[k])[i] == g[LastWriter(g, k, a)].dst)
    && (g[k].partial ==> forall a :: a in Span(Range(g[k].dst)) ==> !Fusible(g, LastWriter(g, k, a)))
  }

  ghost predicate InGraph(g: Cgraph, t: Tensor) {
    exists k :: 0 <= k < |g| && (t == g[k].dst || t in g[k].srcs)
  }

  /** What the graph's maker guarantees: tensors of different buffers are disjoint, all of them lie
      below `top`, and the allocation plan honours use counts. */
  ghost predicate GraphOk(g: Cgraph, top: int) {
    && NodesOk(g)
    && (forall k :: 0 <= k < |g| ==> PlanOkAt(g, k))
    && (forall t :: InGraph(g, t) ==> t.data + t.nbytes <= top)
    && (forall t, x :: InGraph(g, t) && InGraph(g, x) ==> Apart(t, x))
  }

  lemma ConsumedAreSrcs(n: Node, i: nat)
    requires NodeOk(n) && i < |Consumed(n)|
    ensures i < |n.srcs| && Consumed(n)[i] == n.srcs[i]
  {
  }

  lemma OnlyUse(g: Cgraph, j: nat, u: (nat, nat), w: (nat, nat))
    requires j < |g| && |Uses(g, j)| == 1 && u in Uses(g, j) && w in Uses(g, j)
    ensures u == w
  {
    var rest := Uses(g, j) - {u};
    assert |rest| == 0;
    assert w !in rest;
  }

  /** No node reads a stale byte. */
  lemma ReadsAreFresh(g: Cgraph, k: nat, a: int)
    requires NodesOk(g) && k < |g| && PlanOkAt(g, k) && a in Reads(g[k])
    ensures !Stale(g, k, a)
  {
    var j := LastWriter(g, k, a);
    if Stale(g, k, a) && a in Bytes(Ranges(Consumed(g[k]))) {
      var i :| 0 <= i < |Ranges(Consumed(g[k]))| && a in Span(Ranges(Consumed(g[k]))[i]);
      ConsumedAreSrcs(g[k], i);
      assert (k, i) in Uses(g, j) && (j + 1, 0) in Uses(g, j);
      OnlyUse(g, j, (k, i), (j + 1, 0));
    }
  }

  /** Result of a node depends only on the bytes it reads. */
  lemma ResultOfReads(q: Quantiser, n: Node, v: View, w: View)
    requires NodeOk(n) && Reads(n) <= v.Keys && Reads(n) <= w.Keys
    requires forall a :: a in Reads(n) ==> v[a] == w[a]
    ensures Result(q, n, v) == Result(q, n, w)
  {
    assert Only(v, Reads(n)) == Only(w, Reads(n));
    if IntDot(n) {
      var c := Ranges(Consumed(n));
      assert c[0] == Range(n.srcs[0]) && c[1] == Range(n.srcs[1]);
      assert Span(c[0]) <= Reads(n) && Span(c[1]) <= Reads(n);
      assert Only(v, Span(c[0])) == Only(w, Span(c[0]));
      assert Only(v, Span(c[1])) == Only(w, Span(c[1]));
    }
  }

  /** Memory `m` agrees with node-by-node evaluation of the first `i` nodes, except on stale bytes. */
  ghost predicate Agrees(q: Quantiser, g: Cgraph, i: nat, top: int, m0: Mem, m: Mem)
    requires NodesOk(g) && i <= |g|
  {
    forall a :: a < top && !Stale(g, i, a) ==> m[a] == Spec(q, g, i, m0)[a]
  }

  lemma ReadsBelowTop(g: Cgraph, top: int, k: nat, a: int)
    requires GraphOk(g, top) && k < |g| && a in Reads(g[k])
    ensures a < top
  {
    if a in Bytes(Ranges(Consumed(g[k]))) {
      var i :| 0 <= i < |Ranges(Consumed(g[k]))| && a in Span(Ranges(Consumed(g[k]))[i]);
      ConsumedAreSrcs(g[k], i);
      assert InGraph(g, Consumed(g[k])[i]);
    } else {
      assert InGraph(g, g[k].dst);
    }
  }

  /** On agreeing memory node `i` computes its reference result. */
  lemma ResultMatches(q: Quantiser, g: Cgraph, i: nat, top: int, m0: Mem, m: Mem, at: set<int>)
    requires GraphOk(g, top) && i < |g| && Agrees(q, g, i, top, m0, m) && Reads(g[i]) <= at
    ensures Result(q, g[i], Restrict(m, at)) == Result(q, g[i], Restrict(Spec(q, g, i, m0), Reads(g[i])))
  {
    var s := Spec(q, g, i, m0);
    forall a | a in Reads(g[i])
      ensures m[a] == s[a]
    {
      ReadsAreFresh(g, i, a);
      ReadsBelowTop(g, top, i, a);
    }
    ResultOfReads(q, g[i], Restrict(m, at), Restrict(s, Reads(g[i])));
  }

  /** Executing node `i` on agreeing memory keeps the agreement. */
  lemma AdvanceNode(q: Quantiser, g: Cgraph, i: nat, top: int, m0: Mem, m: Mem, m': Mem)
    requires GraphOk(g, top) && i < |g| && Agrees(q, g, i, top, m0, m)
    requires forall a :: a < top ==> m'[a] == Effect(q, g[i], m)[a]
    ensures Agrees(q, g, i + 1, top, m0, m')
  {
    var n := g[i];
    var s := Spec(q, g, i, m0);
    ResultMatches(q, g, i, top, m0, m, Reads(n));
    forall a | a < top && !Stale(g, i + 1, a)
      ensures m'[a] == Spec(q, g, i + 1, m0)[a]
    {
      if n.op.Noop? || a !in Span(Range(n.dst)) {
        assert LastWriter(g, i + 1, a) == LastWriter(g, i, a);
      }
    }
  }

  // ------------------------------------------------------------------ what ends up in memory

  /** After node-by-node evaluation a byte holds what its last writer gave it. */
  lemma {:induction false} LastValue(q: Quantiser, g: Cgraph, k: nat, m0: Mem, a: int)
    requires NodesOk(g) && k <= |g|
    ensures var j := LastWriter(g, k, a);
            && (j >= 0 ==> !g[j].op.Noop? && a in Span(Range(g[j].dst)))
            && Spec(q, g, k, m0)[a] ==
               if j < 0 then m0[a] else Result(q, g[j], Restrict(Spec(q, g, j, m0), Reads(g[j])))[a]
  {
    hide Result, Reads, Restrict, Range, Span;
    if k > 0 { LastValue(q, g, k - 1, m0, a); }
  }

  /** What a matrix product leaves, in terms of the node's own fields: on agreeing memory, a byte it was the last to
      write comes from the integer dot product if and only if the product is supported, has a k-quant weight of whole
      superblocks and contiguous activations, its three tensors begin in device buffers, the weight on a multiple of the
      load unit, and no switch forbids it. All other products are evaluated. */
  lemma ProductMeaning(q: Quantiser, g: Cgraph, i: nat, top: int, m0: Mem, m: Mem, a: int)
    requires i < |g| && NodeOk(g[i]) && g[i].op.MatMul? && LastWriter(g, |g|, a) == i && a < top
    requires GraphOk(g, top) && Agrees(q, g, |g|, top, m0, m)
    ensures var n, w, env := g[i], g[i].srcs[0], g[i].op.env;
            var v := Restrict(Spec(q, g, i, m0), Reads(n));
            a in Span(Range(n.dst)) &&
            m[a] == if
              && n.supported && (n.op.weight == Q4_K || (n.op.weight == Q6_K && !env.noIq6)) && !env.noIq
              && n.op.cols % 256 == 0 && n.op.contiguous && OnDevice(w) && OnDevice(n.srcs[1]) && OnDevice(n.dst)
              && (w.data - w.buffer.base) % (if n.op.weight == Q6_K then 2 else 16) == 0
            then DotProduct(q, n, v)[a] else Evaluated(n, v)[a]
  {
    hide Agrees, Reads, Restrict, Fill, Spec, Span, Range, DotProduct, Evaluated, OnDevice, PlanOkAt, Apart, InGraph;
    LastValue(q, g, |g|, m0, a);
    NotStale(g, i, a);
    AgreesAt(q, g, |g|, top, m0, m, a);
  }

  lemma NotStale(g: Cgraph, i: nat, a: int)
    requires NodesOk(g) && i < |g| && !g[i].op.Direct? && LastWriter(g, |g|, a) == i
    ensures !Stale(g, |g|, a)
  {
  }

  lemma AgreesAt(q: Quantiser, g: Cgraph, i: nat, top: int, m0: Mem, m: Mem, a: int)
    requires NodesOk(g) && i <= |g| && Agrees(q, g, i, top, m0, m) && a < top && !Stale(g, i, a)
    ensures m[a] == Spec(q, g, i, m0)[a]
  {
  }

  // ------------------------------------------------------------------ the fused stage

  /** What the fused shader multiplies: the norm it holds in registers, and the weight from memory. */
  function MulInput(q: Quantiser, norm: Node, mul: Node, v: View): View
    requires NodeOk(norm) && NodeOk(mul) && mul.op.Direct? && mul.op.sh.Binary?
  {
    Result(q, norm, v) + Only(v, Span(Range(mul.srcs[1])))
  }

  function FusedResult(q: Quantiser, norm: Node, mul: Node, v: View): (r: View)
    requires NodeOk(norm) && NodeOk(mul) && mul.op.Direct? && mul.op.sh.Binary?
    ensures r.Keys == Span(Range(mul.dst))
  {
    Result(q, mul, MulInput(q, norm, mul, v))
  }

  ghost function FusedEffect(q: Quantiser, norm: Node, mul: Node, m: Mem): Mem
    requires NodeOk(norm) && NodeOk(mul) && mul.op.Direct? && mul.op.sh.Binary?
  {
    Overwrite(m, FusedResult(q, norm, mul, Restrict(m, Reads(norm) + Span(Range(mul.srcs[1])))))
  }

  /** The weight of a fusible pair shares no byte with the norm output. */
  lemma WeightApart(g: Cgraph, i: nat, a: int)
    requires NodesOk(g) && Fusible(g, i) && PlanOkAt(g, i + 1) && a in Span(Range(g[i + 1].srcs[1]))
    ensures a !in Span(Range(g[i].dst))
  {
    if a in Span(Range(g[i].dst)) {
      assert LastWriter(g, i + 1, a) == i;
      assert Consumed(g[i + 1])[1] == g[i + 1].srcs[1];
      assert (i + 1, 1) in Uses(g, i) && (i + 1, 0) in Uses(g, i);
      OnlyUse(g, i, (i + 1, 1), (i + 1, 0));
    }
  }

  lemma WeightIsFresh(g: Cgraph, i: nat, top: int, a: int)
    requires GraphOk(g, top) && Fusible(g, i) && a in Span(Range(g[i + 1].srcs[1]))
    ensures a < top && !Stale(g, i, a)
  {
    WeightApart(g, i, a);
    var c := Ranges(Consumed(g[i + 1]));
    assert c[1] == Range(g[i + 1].srcs[1]) && a in Span(c[1]);
    assert a in Reads(g[i + 1]);
    ReadsAreFresh(g, i + 1, a);
    ReadsBelowTop(g, top, i + 1, a);
    assert LastWriter(g, i + 1, a) == LastWriter(g, i, a);
  }

  lemma MulReads(mul: Node)
    requires NodeOk(mul) && mul.op.Direct? && mul.op.sh.Binary? && !mul.partial
    ensures Reads(mul) == Span(Range(mul.srcs[0])) + Span(Range(mul.srcs[1]))
  {
    var c := Ranges(Consumed(mul));
    assert c == [Range(mul.srcs[0]), Range(mul.srcs[1])];
    assert Bytes(c) == Span(c[0]) + Span(c[1]);
  }

  lemma MulInputAt(q: Quantiser, g: Cgraph, i: nat, top: int, m0: Mem, m: Mem, a: int, at: set<int>)
    requires GraphOk(g, top) && Fusible(g, i) && Agrees(q, g, i, top, m0, m)
    requires at == Reads(g[i]) + Span(Range(g[i + 1].srcs[1]))
    requires a in Span(Range(g[i + 1].srcs[0])) || a in Span(Range(g[i + 1].srcs[1]))
    ensures a in MulInput(q, g[i], g[i + 1], Restrict(m, at))
    ensures MulInput(q, g[i], g[i + 1], Restrict(m, at))[a] == Spec(q, g, i + 1, m0)[a]
  {
    if a in Span(Range(g[i + 1].srcs[1])) {
      WeightApart(g, i, a);
      WeightIsFresh(g, i, top, a);
    } else {
      ResultMatches(q, g, i, top, m0, m, at);
    }
  }

  lemma MulInputMatches(q: Quantiser, g: Cgraph, i: nat, mul: Node, top: int, m0: Mem, m: Mem, at: set<int>, x: View)
    requires GraphOk(g, top) && Fusible(g, i) && Agrees(q, g, i, top, m0, m)
    requires mul == g[i + 1] && at == Reads(g[i]) + Span(Range(mul.srcs[1]))
    requires x == MulInput(q, g[i], mul, Restrict(m, at))
    ensures Reads(mul) <= x.Keys && forall a :: a in Reads(mul) ==> x[a] == Spec(q, g, i + 1, m0)[a]
  {
    MulReads(mul);
    forall a | a in Reads(mul)
      ensures a in x && x[a] == Spec(q, g, i + 1, m0)[a]
    {
      MulInputAt(q, g, i, top, m0, m, a, at);
    }
  }

  /** On the MUL's destination the fused stage computes what the two nodes compute in turn. */
  lemma FusedMatches(q: Quantiser, g: Cgraph, i: nat, top: int, m0: Mem, m: Mem)
    requires GraphOk(g, top) && Fusible(g, i) && Agrees(q, g, i, top, m0, m)
    ensures FusedResult(q, g[i], g[i + 1], Restrict(m, Reads(g[i]) + Span(Range(g[i + 1].srcs[1]))))
         == Result(q, g[i + 1], Restrict(Spec(q, g, i + 1, m0), Reads(g[i + 1])))
  {
    hide Agrees, Result, Spec, MulInput, Span, Reads;
    var at := Reads(g[i]) + Span(Range(g[i + 1].srcs[1]));
    var x := MulInput(q, g[i], g[i + 1], Restrict(m, at));
    MulInputMatches(q, g, i, g[i + 1], top, m0, m, at, x);
    var w := Restrict(Spec(q, g, i + 1, m0), Reads(g[i + 1]));
    assert w.Keys == Reads(g[i + 1]);
    ResultOfReads(q, g[i + 1], x, w);
  }

  lemma AdvanceFused(q: Quantiser, g: Cgraph, i: nat, top: int, m0: Mem, m: Mem, m': Mem)
    requires GraphOk(g, top) && Fusible(g, i) && Agrees(q, g, i, top, m0, m)
    requires forall a :: a < top ==> m'[a] == FusedEffect(q, g[i], g[i + 1], m)[a]
    ensures Agrees(q, g, i + 2, top, m0, m')
  {
    FusedMatches(q, g, i, top, m0, m);
    forall a | a < top && !Stale(g, i + 2, a)
      ensures m'[a] == Spec(q, g, i + 2, m0)[a]
    {
      if a !in Span(Range(g[i + 1].dst)) {
        assert LastWriter(g, i + 2, a) == LastWriter(g, i + 1, a);
        assert a !in Span(Range(g[i].dst));
        assert LastWriter(g, i + 1, a) == LastWriter(g, i, a);
      }
    }
  }
}
