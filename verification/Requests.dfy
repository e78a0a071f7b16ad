/** The daemon's per-session tables and what each GPZ3 request does to them. */
module Requests {
  import opened Bytes
  import opened Wire

  datatype Slot = Slot(used: bool, size: nat)
  datatype Shader = Shader(used: bool, nbind: nat, pcsize: nat)

  const FREE: Slot := Slot(false, 0)
  const UNLOADED: Shader := Shader(false, 0, 0)

  /** Buffer handles, shader handles, and the stages of the last batch that was run. */
  datatype Tables = Tables(h: seq<Slot>, sh: seq<Shader>, noBarriers: bool, ran: seq<Stage>)
  {
    predicate Valid() {
      |h| == MAXH && |sh| == MAXSH
    }
  }

  datatype Request =
    | Import(sizes: seq<nat>)
    | Release(handles: seq<nat>)
    | Load(spirv: seq<byte>, nbind: nat, pcsize: nat)
    | Unload(sh: nat)
    | Batch(stages: seq<Stage>)
    | Flags(bits: nat)
    | Alloc(size: nat)
    | Copy(src: nat, dst: nat, srcOff: nat, dstOff: nat, len: nat)
  {
    predicate Fits() {
      match this
      case Import(sizes) => 1 <= |sizes| <= MAXBUF && forall i :: 0 <= i < |sizes| ==> sizes[i] < WORD
      case Release(handles) => 1 <= |handles| <= MAXBUF && forall i :: 0 <= i < |handles| ==> handles[i] < WORD
      case Load(spirv, nbind, pcsize) =>
        0 < |spirv| <= MAXSPIRV && |spirv| % 4 == 0 && nbind <= MAXBUF && pcsize <= MAXPC && pcsize % 4 == 0
      case Unload(sh) => sh < WORD
      case Batch(stages) => 1 <= |stages| <= MAXSTAGE && forall i :: 0 <= i < |stages| ==> stages[i].Fits()
      case Flags(bits) => bits < WORD
      case Alloc(size) => size < WORD
      case Copy(src, dst, so, do, len) =>
        src < WORD && dst < WORD && so < WORD * WORD && do < WORD * WORD && len < WORD * WORD
    }

    /** The six header words. */
    function Header(): (w: seq<nat>)
      requires Fits()
      ensures |w| == 6 && forall i :: 0 <= i < 6 ==> w[i] < WORD
    {
      match this
      case Import(sizes) => [GPZ3_MAGIC, 1, |sizes|, 0, 0, 0]
      case Release(handles) => [GPZ3_MAGIC, 3, |handles|, 0, 0, 0]
      case Load(spirv, nbind, pcsize) => [GPZ3_MAGIC, 4, |spirv|, nbind, pcsize, 0]
      case Unload(sh) => [GPZ3_MAGIC, 6, sh, 0, 0, 0]
      case Batch(stages) => [GPZ3_MAGIC, 9, |stages|, 0, 0, 0]
      case Flags(bits) => [GPZ3_MAGIC, 8, bits, 0, 0, 0]
      case Alloc(size) => [GPZ3_MAGIC, 10, size, 0, 0, 0]
      case Copy(src, dst, _, _, _) => [GPZ3_MAGIC, 11, src, dst, 0, 0]
    }

    function Payload(): seq<byte>
      requires Fits()
    {
      match this
      case Import(sizes) => Words(sizes)
      case Release(handles) => Words(handles)
      case Load(spirv, _, _) => spirv
      case Batch(stages) => StagesBytes(stages)
      case Copy(_, _, so, do, len) => CopyWords(so, do, len)
      case _ => []
    }

    function Bytes(): seq<byte>
      requires Fits()
    {
      Words(Header()) + Payload()
    }

    /** Only IMPORT carries file descriptors, one per buffer. */
    function Fds(): nat {
      if Import? then |sizes| else 0
    }
  }

  /** Three 64-bit numbers. */
  function CopyWords(so: nat, do: nat, len: nat): (w: seq<byte>)
    requires so < WORD * WORD && do < WORD * WORD && len < WORD * WORD
    ensures |w| == 24
  {
    SplitJoin(so);
    SplitJoin(do);
    SplitJoin(len);
    Words([Lo(so), Hi(so), Lo(do), Hi(do), Lo(len), Hi(len)])
  }

  // ------------------------------------------------------------------ slots

  /** The lowest free slot, |h| if there is none. */
  function FirstFree(h: seq<Slot>): (k: nat)
    ensures k <= |h| && (k < |h| ==> !h[k].used) && forall i :: 0 <= i < k ==> h[i].used
  {
    if h == [] then 0
    else if !h[0].used then 0
    else 1 + FirstFree(h[1..])
  }

  datatype Taken = Full | Taken(h: seq<Slot>, handles: seq<nat>)

  /** Gives each size in turn the lowest free slot. */
  function TakeSlots(h: seq<Slot>, sizes: seq<nat>): Taken {
    if sizes == [] then Taken(h, []) else
      var t := TakeSlots(h, sizes[..|sizes| - 1]);
      if t.Full? || FirstFree(t.h) == |t.h| then Full
      else Taken(t.h[FirstFree(t.h) := Slot(true, sizes[|sizes| - 1])], t.handles + [FirstFree(t.h)])
  }

  /** New handles were free, are different from each other, and hold what was asked for; nothing else changes. */
  lemma {:induction false} TakenSlots(h: seq<Slot>, sizes: seq<nat>)
    requires TakeSlots(h, sizes).Taken?
    ensures var t := TakeSlots(h, sizes);
            && |t.h| == |h| && |t.handles| == |sizes|
            && (forall i :: 0 <= i < |sizes| ==>
                t.handles[i] < |h| && !h[t.handles[i]].used && t.h[t.handles[i]] == Slot(true, sizes[i]))
            && (forall i, j :: 0 <= i < j < |sizes| ==> t.handles[i] != t.handles[j])
            && (forall k :: 0 <= k < |h| && k !in t.handles ==> t.h[k] == h[k])
            && (forall k :: 0 <= k < |h| && h[k].used ==> t.h[k] == h[k])
  {
    if sizes != [] { TakenSlots(h, sizes[..|sizes| - 1]); }
  }

  /** The slots of the given handles become free; handles out of range or not in use are ignored. */
  function Released(h: seq<Slot>, handles: seq<nat>): (r: seq<Slot>)
    ensures |r| == |h|
  {
    if handles == [] then h else
      var r := Released(h, handles[..|handles| - 1]);
      var k := handles[|handles| - 1];
      if k < |r| && r[k].used then r[k := FREE] else r
  }

  lemma {:induction false} ReleasedSlots(h: seq<Slot>, handles: seq<nat>)
    ensures forall k :: 0 <= k < |h| ==> Released(h, handles)[k] == if k in handles && h[k].used then FREE else h[k]
  {
    if handles != [] { ReleasedSlots(h, handles[..|handles| - 1]); }
  }

  /** The lowest unloaded shader entry. */
  function FirstUnloaded(sh: seq<Shader>): (k: nat)
    ensures k <= |sh| && (k < |sh| ==> !sh[k].used) && forall i :: 0 <= i < k ==> sh[i].used
  {
    if sh == [] then 0
    else if !sh[0].used then 0
    else 1 + FirstUnloaded(sh[1..])
  }

  // ------------------------------------------------------------------ what a request does

  /** A binding lies inside a buffer in use, on an aligned offset. */
  predicate BindOk(h: seq<Slot>, align: nat, b: Bind)
    requires align >= 1
  {
    b.handle < |h| && h[b.handle].used && b.off <= h[b.handle].size && b.off % align == 0
    && (b.range == 0 || b.off + b.range <= h[b.handle].size)
  }

  predicate Reaches(b: Bind, a: nat) {
    b.off <= a < b.off + b.range
  }

  /** An accepted binding begins on an aligned offset inside a buffer in use and reaches no byte behind its end; every
      other one is refused. */
  lemma BindingInside(h: seq<Slot>, align: nat, b: Bind)
    requires align >= 1
    ensures BindOk(h, align, b) <==>
        b.handle < |h| && h[b.handle].used && b.off % align == 0 && b.off <= h[b.handle].size
        && forall a: nat :: Reaches(b, a) ==> a < h[b.handle].size
  {
    if b.range > 0 {
      var last := b.off + b.range - 1;
      assert Reaches(b, last);
    }
  }

  predicate StageOk(t: Tables, align: nat, s: Stage)
    requires align >= 1
  {
    && s.sh < |t.sh| && t.sh[s.sh].used && |s.binds| == t.sh[s.sh].nbind && |s.pc| == t.sh[s.sh].pcsize
    && s.gx <= 65535 && s.gy <= 65535 && s.gz <= 65535
    && forall i :: 0 <= i < |s.binds| ==> BindOk(t.h, align, s.binds[i])
  }

  /** The daemon's test of a COPY: the ends of both ranges are computed in 64 bits. */
  predicate CopyOk(h: seq<Slot>, src: nat, dst: nat, so: nat, do: nat, len: nat) {
    && src < |h| && dst < |h| && h[src].used && h[dst].used && len != 0
    && (so + len) % (WORD * WORD) <= h[src].size && (do + len) % (WORD * WORD) <= h[dst].size
  }

  /** What the test is for: both ranges lie inside buffers in use. */
  predicate CopyInside(h: seq<Slot>, src: nat, dst: nat, so: nat, do: nat, len: nat) {
    && src < |h| && dst < |h| && h[src].used && h[dst].used && len != 0
    && so + len <= h[src].size && do + len <= h[dst].size
  }

  /** Neither end of the ranges exceeds 64 bits. */
  predicate EndsFit(so: nat, do: nat, len: nat) {
    so + len < WORD * WORD && do + len < WORD * WORD
  }

  /** Of the copies the daemon accepts, exactly those whose ends fit in 64 bits stay inside their buffers; and it
      refuses none that does. */
  lemma AcceptedCopies(h: seq<Slot>, src: nat, dst: nat, so: nat, do: nat, len: nat)
    requires forall k :: 0 <= k < |h| ==> h[k].size < WORD
    ensures CopyInside(h, src, dst, so, do, len) <==> CopyOk(h, src, dst, so, do, len) && EndsFit(so, do, len)
  {
    if EndsFit(so, do, len) {
      SmallModulo(so + len, WORD * WORD);
      SmallModulo(do + len, WORD * WORD);
    }
  }

  lemma SmallModulo(x: nat, m: nat)
    requires x < m
    ensures x % m == x
  {
  }

  lemma FittingCopy(h: seq<Slot>, src: nat, dst: nat, so: nat, do: nat, len: nat)
    requires CopyOk(h, src, dst, so, do, len)
    ensures EndsFit(so, do, len) ==> CopyInside(h, src, dst, so, do, len)
  {
    if EndsFit(so, do, len) {
      SmallModulo(so + len, WORD * WORD);
      SmallModulo(do + len, WORD * WORD);
    }
  }

  /** Two buffers of 4096 bytes, and nothing else. */
  function TwoBuffers(): (h: seq<Slot>)
    ensures |h| == MAXH && h[0] == h[1] == Slot(true, 4096)
  {
    [Slot(true, 4096), Slot(true, 4096)] + seq(MAXH - 2, _ => FREE)
  }

  /** The sum of offset and length can wrap around: this copy starts far outside its source and is accepted. */
  lemma WrappingCopyAccepted()
    ensures var max := WORD * WORD - 1;
            && Copy(0, 1, max, 0, 1).Fits() && CopyOk(TwoBuffers(), 0, 1, max, 0, 1)
            && !CopyInside(TwoBuffers(), 0, 1, max, 0, 1)
  {
    hide TwoBuffers;
    assert (WORD * WORD - 1 + 1) % (WORD * WORD) == 0;
  }

  /** What the daemon may do with a request: new tables, a status (0 is success) and result words. */
  ghost predicate Answers(t: Tables, r: Request, t': Tables, status: nat, words: seq<nat>) {
    && status <= 1
    && match r
       case Import(sizes) =>
         t' == t.(h := t'.h) && (if status == 0
           then TakeSlots(t.h, sizes) == Taken(t'.h, words)
           else words == [] && exists k, hs :: 0 <= k < |sizes| && TakeSlots(t.h, sizes[..k]) == Taken(t'.h, hs))
       case Release(handles) => status == 0 && words == [] && t' == t.(h := Released(t.h, handles))
       case Load(_, nbind, pcsize) =>
         var k := FirstUnloaded(t.sh);
         if status == 0 then k < |t.sh| && words == [k] && t' == t.(sh := t.sh[k := Shader(true, nbind, pcsize)])
         else words == [] && t' == t
       case Unload(sh) =>
         words == [] && (status == 0 <==> sh < |t.sh| && t.sh[sh].used)
           && t' == (if status == 0 then t.(sh := t.sh[sh := UNLOADED]) else t)
       case Batch(stages) => words == [] && t' == t.(ran := stages)
       case Flags(bits) => status == 0 && words == [] && t' == t.(noBarriers := bits % 2 == 1)
       case Alloc(size) =>
         var k := FirstFree(t.h);
         if status == 0 then k < |t.h| && words == [k] && t' == t.(h := t.h[k := Slot(true, size)])
         else words == [] && t' == t
       case Copy(src, dst, so, do, len) =>
         words == [] && t' == t && (status == 0 ==> CopyOk(t.h, src, dst, so, do, len))
  }

  /** The reply as the client expects it: the status, then, on success, the words it asked for. */
  function ReplyWords(r: Request, status: nat): nat {
    if status != 0 then 0 else match r
      case Import(sizes) => |sizes|
      case Load(_, _, _) => 1
      case Alloc(_) => 1
      case _ => 0
  }

  lemma AnswerShape(t: Tables, r: Request, t': Tables, status: nat, words: seq<nat>)
    requires t.Valid() && Answers(t, r, t', status, words)
    ensures |words| == ReplyWords(r, status) && t'.Valid() && status <= 1
    ensures forall i :: 0 <= i < |words| ==> words[i] < MAXSH
  {
    if r.Import? && status == 0 { TakenSlots(t.h, r.sizes); }
    if r.Import? && status != 0 {
      var k, hs :| 0 <= k < |r.sizes| && TakeSlots(t.h, r.sizes[..k]) == Taken(t'.h, hs);
      TakenSlots(t.h, r.sizes[..k]);
    }
  }
}
