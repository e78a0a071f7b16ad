/** The client's side of a GPZ3 session: batch writer, automatic imports, handle bookkeeping (barra_gpu3_*). */
module GpuClient {
  import opened Bytes
  import opened Wire
  import opened Requests
  import opened GpuDaemon

  /** A shared buffer; gpuH is its handle in the session, -1 if not imported. */
  class ZBuf {
    var fd: int
    var size: nat
    var gpuH: int

    constructor (f: int, s: nat)
      ensures fd == f && size == s && gpuH == -1
    {
      fd, size, gpuH := f, s, -1;
    }
  }

  datatype ClientBind = ClientBind(buf: ZBuf?, off: nat, range: nat)
  datatype ClientStage = ClientStage(sh: int, gx: nat, gy: nat, gz: nat, binds: seq<ClientBind>, pc: seq<byte>,
      flags: nat)

  // ------------------------------------------------------------------ the batch writer

  /** Writes words from position `at` on. */
  method PutWords(big: array<byte>, at: nat, xs: seq<nat>)
    requires at + 4 * |xs| <= big.Length && forall i :: 0 <= i < |xs| ==> xs[i] < WORD
    modifies big
    ensures big[..at + 4 * |xs|] == old(big[..at]) + Words(xs)
  {
    hide U32;
    ghost var before := big[..at];
    for i := 0 to |xs|
      invariant big[..at + 4 * i] == before + Words(xs[..i])
    {
      var w := U32(xs[i]);
      var p := at + 4 * i;
      big[p], big[p + 1], big[p + 2], big[p + 3] := w[0], w[1], w[2], w[3];
      assert xs[..i + 1][..i] == xs[..i];
      assert big[..p + 4] == big[..p] + w;
    }
    assert xs[..|xs|] == xs;
  }

  /** memcpy of the push constants. */
  method PutBytes(big: array<byte>, at: nat, b: seq<byte>)
    requires at + |b| <= big.Length
    modifies big
    ensures big[..at + |b|] == old(big[..at]) + b
  {
    forall i | 0 <= i < |b| { big[at + i] := b[i]; }
  }

  /** Writes one stage: seven words, the bindings, the push constants. */
  method PutStage(big: array<byte>, bn: nat, s: Stage) returns (end: nat)
    requires s.Fits() && bn + 28 + 16 * |s.binds| + |s.pc| <= big.Length
    modifies big
    ensures end == bn + |StageBytes(s)| && big[..end] == old(big[..bn]) + StageBytes(s)
  {
    hide Words, Stage.Head, Bind.Fields;
    ghost var before := big[..bn];
    PutWords(big, bn, s.Head());
    end := bn + 28;
    for i := 0 to |s.binds|
      invariant end == bn + 28 + 16 * i && big[..end] == before + Words(s.Head()) + BindsBytes(s.binds[..i])
    {
      PutWords(big, end, s.binds[i].Fields());
      assert s.binds[..i + 1][..i] == s.binds[..i];
      end := end + 16;
    }
    assert s.binds[..|s.binds|] == s.binds;
    PutBytes(big, end, s.pc);
    end := end + |s.pc|;
  }

  /** All stages into one buffer of the computed capacity. */
  method Serialize(st: seq<Stage>) returns (big: array<byte>, bn: nat)
    requires forall i :: 0 <= i < |st| ==> st[i].Fits()
    ensures fresh(big) && big.Length == Capacity(|st|) && bn <= big.Length && big[..bn] == StagesBytes(st)
  {
    hide StageBytes, Stage.Fits;
    big := new byte[Capacity(|st|)];
    bn := 0;
    for s := 0 to |st|
      invariant bn <= Capacity(s) && big[..bn] == StagesBytes(st[..s])
    {
      Room(st[s], s, |st|);
      bn := PutStage(big, bn, st[s]);
      assert st[..s + 1][..s] == st[..s];
    }
    assert st[..|st|] == st;
  }

  lemma Room(s: Stage, k: nat, n: nat)
    requires s.Fits() && k < n
    ensures |StageBytes(s)| == 28 + 16 * |s.binds| + |s.pc|
    ensures Capacity(k) + 28 + 16 * |s.binds| + |s.pc| <= Capacity(k + 1) <= Capacity(n)
  {
  }

  // ------------------------------------------------------------------ agreement on handles

  /** Every handle a buffer holds names a daemon slot in use, of the buffer's size; no two buffers share one. */
  ghost predicate Agree(bufs: set<ZBuf>, h: seq<Slot>)
    reads bufs
  {
    && (forall z <- bufs :: z.size < WORD && z.gpuH >= -1)
    && (forall z <- bufs :: z.gpuH >= 0 ==> z.gpuH < |h| && h[z.gpuH] == Slot(true, z.size))
    && (forall z <- bufs, w <- bufs :: z != w && z.gpuH >= 0 ==> z.gpuH != w.gpuH)
  }

  /** The handle of every buffer. */
  function Handles(bufs: set<ZBuf>): (hm: map<ZBuf, int>)
    reads bufs
  {
    map z <- bufs :: z.gpuH
  }

  predicate Holds(hm: map<ZBuf, int>, k: int) {
    exists z <- hm :: hm[z] == k
  }

  /** Every daemon slot in use belongs to some buffer of the client. */
  predicate AllHeld(hm: map<ZBuf, int>, h: seq<Slot>) {
    forall k :: 0 <= k < |h| && h[k].used ==> Holds(hm, k)
  }

  /** Handles name slots in use, each its own. */
  ghost predicate OwnSlots(hm: map<ZBuf, int>, h: seq<Slot>) {
    && (forall z <- hm :: hm[z] >= 0 ==> hm[z] < |h| && h[hm[z]].used)
    && (forall z <- hm, w <- hm :: z != w && hm[z] >= 0 ==> hm[z] != hm[w])
  }

  /** bs[i] does not come again before position n. */
  ghost predicate LastOf(bs: seq<ZBuf>, i: nat, n: nat)
    requires i < n <= |bs|
  {
    forall j :: i < j < n ==> bs[j] != bs[i]
  }

  /** The first n buffers have the handles of their last places. */
  ghost predicate Assigned(bs: seq<ZBuf>, hd: seq<nat>, n: nat)
    reads bs
  {
    && n <= |bs| == |hd|
    && (forall k {:trigger LastOf(bs, k, n)} :: 0 <= k < n && LastOf(bs, k, n) ==> bs[k].gpuH == hd[k])
    && forall k :: 0 <= k < n ==> bs[k].gpuH >= 0
  }

  lemma AllAssigned(bs: seq<ZBuf>, hd: seq<nat>)
    requires Assigned(bs, hd, |bs|)
    ensures forall z <- bs :: z.gpuH >= 0
  {
  }

  lemma LastOfLess(bs: seq<ZBuf>, i: nat)
    requires i < |bs|
    ensures forall k :: 0 <= k < i && LastOf(bs, k, i + 1) ==> LastOf(bs, k, i) && bs[k] != bs[i]
  {
  }

  ghost predicate Different(bs: seq<ZBuf>) {
    forall i, j :: 0 <= i < j < |bs| ==> bs[i] != bs[j]
  }

  /** Agreement while an import hands out the handles `taken`: all others were in use before. */
  ghost predicate Halfway(bufs: set<ZBuf>, before: seq<Slot>, after: seq<Slot>, taken: seq<nat>)
    requires |before| == |after|
    reads bufs
  {
    Agree(bufs, after) && forall z <- bufs :: z.gpuH >= 0 ==> before[z.gpuH].used || z.gpuH in taken
  }

  /** Nobody holds a slot that was free and is not among those handed out. */
  lemma NotYetTaken(bufs: set<ZBuf>, before: seq<Slot>, after: seq<Slot>, hd: seq<nat>, i: nat)
    requires i < |hd| && |before| == |after| && Halfway(bufs, before, after, hd[..i])
    requires hd[i] < |before| && !before[hd[i]].used && hd[i] !in hd[..i]
    ensures hd[..i + 1] == hd[..i] + [hd[i]] && forall w <- bufs :: w.gpuH != hd[i]
  {
  }

  lemma HalfwayAgrees(bufs: set<ZBuf>, before: seq<Slot>, after: seq<Slot>, taken: seq<nat>)
    requires |before| == |after| && Halfway(bufs, before, after, taken)
    ensures Agree(bufs, after)
  {
  }

  /** The handles of those buffers that have one. */
  function Held(bs: seq<ZBuf>): (r: seq<nat>)
    reads set z <- bs
    ensures |r| <= |bs|
  {
    if bs == [] then [] else
      Held(bs[..|bs| - 1]) + if bs[|bs| - 1].gpuH >= 0 then [bs[|bs| - 1].gpuH] else []
  }

  lemma {:induction false} HeldIs(bs: seq<ZBuf>)
    ensures forall k: nat :: k in Held(bs) <==> exists i :: 0 <= i < |bs| && bs[i].gpuH == k
  {
    if bs != [] {
      var init, z := bs[..|bs| - 1], bs[|bs| - 1];
      HeldIs(init);
      forall k: nat ensures k in Held(bs) <==> exists i :: 0 <= i < |bs| && bs[i].gpuH == k {
        if i :| 0 <= i < |bs| && bs[i].gpuH == k {
          assert i < |bs| - 1 ==> init[i].gpuH == k;
        }
        if k in Held(init) {
          var i :| 0 <= i < |init| && init[i].gpuH == k;
          assert bs[i].gpuH == k;
        }
      }
    }
  }

  // ------------------------------------------------------------------ batches

  function BoundBy(bs: seq<ClientBind>): set<ZBuf> {
    set b <- bs | b.buf != null :: b.buf
  }

  /** All buffers the stages bind. */
  function Bound(st: seq<ClientStage>): set<ZBuf> {
    if st == [] then {} else Bound(st[..|st| - 1]) + BoundBy(st[|st| - 1].binds)
  }

  /** The stage as it travels: buffers replaced by their handles. */
  function WireBind(b: ClientBind): Bind
    requires b.buf != null && b.buf.gpuH >= 0
    reads b.buf
  {
    Bind(b.buf.gpuH, b.off, b.range)
  }

  ghost predicate Bindable(bs: seq<ClientBind>)
    reads set b <- bs | b.buf != null :: b.buf
  {
    forall i :: 0 <= i < |bs| ==> bs[i].buf != null && bs[i].buf.gpuH >= 0
  }

  function WireBinds(bs: seq<ClientBind>): (r: seq<Bind>)
    requires Bindable(bs)
    reads set b <- bs | b.buf != null :: b.buf
    ensures |r| == |bs| && forall i :: 0 <= i < |bs| ==> r[i] == WireBind(bs[i])
  {
    if bs == [] then [] else WireBinds(bs[..|bs| - 1]) + [WireBind(bs[|bs| - 1])]
  }

  function WireStage(s: ClientStage): Stage
    requires s.sh >= 0 && Bindable(s.binds)
    reads set b <- s.binds | b.buf != null :: b.buf
  {
    Stage(s.sh, s.gx, s.gy, s.gz, WireBinds(s.binds), s.pc, s.flags)
  }

  /** Stage w names the shader, the groups, the bindings with their offsets and ranges, the push constants and the flags
      of the client's stage s, each buffer by its handle. */
  ghost predicate Conveys(w: Stage, s: ClientStage)
    reads set b <- s.binds | b.buf != null :: b.buf
  {
    && w.sh == s.sh && w.gx == s.gx && w.gy == s.gy && w.gz == s.gz && w.pc == s.pc && w.flags == s.flags
    && |w.binds| == |s.binds|
    && forall j :: 0 <= j < |s.binds| ==>
         && s.binds[j].buf != null && w.binds[j].handle == s.binds[j].buf.gpuH
         && w.binds[j].off == s.binds[j].off && w.binds[j].range == s.binds[j].range
  }

  lemma WireConveys(s: ClientStage)
    requires s.sh >= 0 && Bindable(s.binds)
    ensures Conveys(WireStage(s), s)
  {
    var w := WireStage(s);
    forall j | 0 <= j < |s.binds| ensures w.binds[j] == Bind(s.binds[j].buf.gpuH, s.binds[j].off, s.binds[j].range) {
      assert w.binds[j] == WireBind(s.binds[j]);
    }
  }

  /** What the session demands of a stage: a loaded shader of its shape, and ranges inside the bound buffers. */
  ghost predicate StageFor(s: ClientStage, sh: seq<Shader>, align: nat, bufs: set<ZBuf>)
    requires align >= 1
    reads (set b <- s.binds | b.buf != null :: b.buf)`size
  {
    && (s.sh >= 0 ==> s.sh < |sh| && sh[s.sh].used && |s.binds| == sh[s.sh].nbind && |s.pc| == sh[s.sh].pcsize)
    && s.gx <= 65535 && s.gy <= 65535 && s.gz <= 65535 && s.flags < WORD
    && forall i :: 0 <= i < |s.binds| ==> BindFor(s.binds[i], align, bufs)
  }

  ghost predicate BindFor(b: ClientBind, align: nat, bufs: set<ZBuf>)
    requires align >= 1
    reads (set c <- [b] | c.buf != null :: c.buf)`size
  {
    b.off < WORD * WORD && b.range < WORD
    && (b.buf != null ==>
        b.buf in bufs && b.off <= b.buf.size && b.off % align == 0 && (b.range == 0 || b.off + b.range <= b.buf.size))
  }

  ghost predicate StagesFor(st: seq<ClientStage>, sh: seq<Shader>, align: nat, bufs: set<ZBuf>)
    requires align >= 1
    reads (set s <- st, b <- s.binds | b.buf != null :: b.buf)`size
  {
    forall i :: 0 <= i < |st| ==> StageFor(st[i], sh, align, bufs)
  }

  /** The client's own checks on a stage: limits, and no binding without a buffer. */
  predicate StageChecked(s: ClientStage) {
    s.sh >= 0 && |s.binds| <= MAXBUF && |s.pc| <= MAXPC && forall j :: 0 <= j < |s.binds| ==> s.binds[j].buf != null
  }

  /** What a successful import leaves: if no daemon slot was without its buffer before, none is now exactly if each
      buffer was listed once and had no handle. */
  ghost predicate Leaves(bs: seq<ZBuf>, was: map<ZBuf, int>, now: map<ZBuf, int>, before: seq<Slot>, after: seq<Slot>) {
    AllHeld(was, before) ==> (AllHeld(now, after) <==> Different(bs) && forall z <- bs :: z in was && was[z] < 0)
  }

  /** An import of these sizes took the slots `hd`, free before and each its own, and no other. */
  ghost predicate Given(sizes: seq<nat>, hd: seq<nat>, before: seq<Slot>, after: seq<Slot>) {
    && |hd| == |sizes| && |after| == |before|
    && (forall i :: 0 <= i < |hd| ==> hd[i] < |before| && !before[hd[i]].used && after[hd[i]] == Slot(true, sizes[i]))
    && (forall i, j :: 0 <= i < j < |hd| ==> hd[i] != hd[j])
    && (forall k :: 0 <= k < |before| && k !in hd ==> after[k] == before[k])
  }

  lemma GivenAt(sizes: seq<nat>, hd: seq<nat>, before: seq<Slot>, after: seq<Slot>, i: nat)
    requires Given(sizes, hd, before, after) && i < |hd|
    ensures hd[i] < |before| == |after| && !before[hd[i]].used && after[hd[i]] == Slot(true, sizes[i])
      && hd[i] !in hd[..i]
  {
  }

  lemma GivenKeeps(sizes: seq<nat>, hd: seq<nat>, before: seq<Slot>, after: seq<Slot>)
    requires Given(sizes, hd, before, after)
    ensures |after| == |before| && |hd| == |sizes| && forall k :: 0 <= k < |before| && before[k].used ==>
        after[k] == before[k]
  {
  }

  /** An import hands out `hd`: these slots and no others come into use, and the last of equal buffers gets its own. */
  ghost predicate HandsOut(bs: seq<ZBuf>, hd: seq<nat>, was: map<ZBuf, int>, now: map<ZBuf, int>, before: seq<Slot>,
      after: seq<Slot>) {
    && |hd| == |bs| && |after| == |before| && was.Keys == now.Keys && (forall z <- bs :: z in was)
    && (forall i :: 0 <= i < |hd| ==> hd[i] < |before| && !before[hd[i]].used)
    && (forall i, j :: 0 <= i < j < |hd| ==> hd[i] != hd[j])
    && (forall k :: 0 <= k < |before| ==> (after[k].used <==> before[k].used || k in hd))
    && (forall z <- was :: z !in bs ==> now[z] == was[z])
    && (forall i {:trigger LastOf(bs, i, |bs|)} :: 0 <= i < |bs| && LastOf(bs, i, |bs|) ==> now[bs[i]] == hd[i])
  }

  lemma {:induction false} LastIndex(bs: seq<ZBuf>, z: ZBuf, n: nat) returns (l: nat)
    requires n <= |bs| && z in bs[..n]
    ensures l < n && bs[l] == z && LastOf(bs, l, n)
  {
    if bs[n - 1] == z {
      l := n - 1;
    } else {
      l := LastIndex(bs, z, n - 1);
    }
  }

  /** A buffer that was listed holds one of the handles, that of its last place. */
  lemma ListedHolds(bs: seq<ZBuf>, hd: seq<nat>, was: map<ZBuf, int>, now: map<ZBuf, int>, before: seq<Slot>,
      after: seq<Slot>,
                    z: ZBuf) returns (l: nat)
    requires HandsOut(bs, hd, was, now, before, after) && z in bs
    ensures l < |bs| && bs[l] == z && LastOf(bs, l, |bs|) && now[z] == hd[l]
  {
    assert bs[..|bs|] == bs;
    l := LastIndex(bs, z, |bs|);
  }

  lemma FirstImport(bs: seq<ZBuf>, hd: seq<nat>, was: map<ZBuf, int>, now: map<ZBuf, int>, before: seq<Slot>,
      after: seq<Slot>)
    requires HandsOut(bs, hd, was, now, before, after) && AllHeld(was, before)
    requires Different(bs) && forall z <- bs :: was[z] < 0
    ensures AllHeld(now, after)
  {
    forall k: nat | k < |after| && after[k].used ensures Holds(now, k) {
      if k in hd {
        var i :| 0 <= i < |hd| && hd[i] == k;
        assert LastOf(bs, i, |bs|);
        assert now[bs[i]] == k;
      } else {
        assert Holds(was, k);
        var z :| z in was && was[z] == k;
        assert now[z] == k;
      }
    }
  }

  /** Of a buffer listed twice the first handle is lost. */
  lemma TwiceListed(bs: seq<ZBuf>, hd: seq<nat>, was: map<ZBuf, int>, now: map<ZBuf, int>, before: seq<Slot>,
      after: seq<Slot>,
                    i: nat, j: nat)
    requires HandsOut(bs, hd, was, now, before, after) && OwnSlots(was, before) && i < j < |bs| && bs[i] == bs[j]
    ensures !AllHeld(now, after)
  {
    var k := hd[i];
    forall z | z in now ensures now[z] != k {
      if z in bs { var l := ListedHolds(bs, hd, was, now, before, after, z); }
    }
    assert k in hd && after[k].used && !Holds(now, k);
  }

  /** So is the old handle of a buffer that already had one. */
  lemma ImportedAgain(bs: seq<ZBuf>, hd: seq<nat>, was: map<ZBuf, int>, now: map<ZBuf, int>, before: seq<Slot>,
      after: seq<Slot>,
                      z: ZBuf)
    requires HandsOut(bs, hd, was, now, before, after) && OwnSlots(was, before) && z in bs && was[z] >= 0
    ensures !AllHeld(now, after)
  {
    var k := was[z];
    forall w | w in now ensures now[w] != k {
      if w in bs { var l := ListedHolds(bs, hd, was, now, before, after, w); }
    }
    assert after[k].used && !Holds(now, k);
  }

  /** A successful import leaves no slot without its buffer exactly if it lists each buffer once, and none that has a
      handle already. */
  lemma ImportLeaves(bs: seq<ZBuf>, hd: seq<nat>, was: map<ZBuf, int>, now: map<ZBuf, int>, before: seq<Slot>,
      after: seq<Slot>)
    requires HandsOut(bs, hd, was, now, before, after) && OwnSlots(was, before) && AllHeld(was, before)
    ensures AllHeld(now, after) <==> Different(bs) && forall z <- bs :: was[z] < 0
  {
    hide AllHeld, OwnSlots;
    if !Different(bs) {
      var i, j :| 0 <= i < j < |bs| && bs[i] == bs[j];
      TwiceListed(bs, hd, was, now, before, after, i, j);
    } else if z :| z in bs && was[z] >= 0 {
      ImportedAgain(bs, hd, was, now, before, after, z);
    } else {
      FirstImport(bs, hd, was, now, before, after);
    }
  }

  /** A refused import may have taken some slots, and changes no other. */
  ghost predicate Refused(before: seq<Slot>, after: seq<Slot>) {
    |after| == |before| && forall k :: 0 <= k < |before| && after[k] != before[k] ==> !before[k].used && after[k].used
  }

  /** In a full table no slot can be taken. */
  lemma {:induction false} NoneToTake(h: seq<Slot>, sizes: seq<nat>)
    requires FirstFree(h) == |h| && sizes != []
    ensures TakeSlots(h, sizes).Full?
  {
    if |sizes| > 1 { NoneToTake(h, sizes[..|sizes| - 1]); }
  }

  /** A refused import of a single buffer, or into a full table, has taken nothing. */
  lemma RefusedAtOnce(t: Tables, sizes: seq<nat>, t': Tables)
    requires Answers(t, Requests.Import(sizes), t', 1, [])
    requires |sizes| <= 1 || FirstFree(t.h) == |t.h|
    ensures t' == t
  {
    var k, hs :| 0 <= k < |sizes| && TakeSlots(t.h, sizes[..k]) == Taken(t'.h, hs);
    if k > 0 { NoneToTake(t.h, sizes[..k]); }
  }

  /** A refusal can come after the first buffer, whose slot then stays taken. */
  lemma RefusedLater(t: Tables, hm: map<ZBuf, int>, sizes: seq<nat>) returns (t': Tables)
    requires t.Valid() && OwnSlots(hm, t.h) && |sizes| >= 2 && FirstFree(t.h) < |t.h|
    ensures Answers(t, Requests.Import(sizes), t', 1, []) && !AllHeld(hm, t'.h)
  {
    var f := FirstFree(t.h);
    t' := t.(h := t.h[f := Slot(true, sizes[0])]);
    assert sizes[..1][..0] == [] && sizes[..1][0] == sizes[0];
    assert TakeSlots(t.h, sizes[..1]) == Taken(t'.h, [] + [f]);
    assert t'.h[f].used && !Holds(hm, f);
  }

  /** A refused import may leave a slot in use without its buffer if and only if it lists two buffers or more and the
      table is not full. */
  lemma RefusalLeaves(t: Tables, hm: map<ZBuf, int>, sizes: seq<nat>)
    requires t.Valid() && OwnSlots(hm, t.h) && AllHeld(hm, t.h) && sizes != []
    ensures (exists t' :: Answers(t, Requests.Import(sizes), t', 1, []) && !AllHeld(hm, t'.h))
            <==> |sizes| >= 2 && FirstFree(t.h) < |t.h|
  {
    hide Answers, AllHeld, OwnSlots;
    if |sizes| >= 2 && FirstFree(t.h) < |t.h| {
      var t' := RefusedLater(t, hm, sizes);
    } else {
      forall t' | Answers(t, Requests.Import(sizes), t', 1, []) ensures t' == t { RefusedAtOnce(t, sizes, t'); }
    }
  }

  class Client {
    const up: Pipe
    const down: Pipe
    const daemon: Daemon
    var open: bool
    var nimported: int
    /** All buffers the application has shown to this session. */
    ghost var bufs: set<ZBuf>

    /** Both ends share their pipes and stand at a message boundary. */
    ghost predicate Linked()
      reads up, down, daemon
    {
      daemon.Valid() && daemon.up == up && daemon.down == down && up.data == [] && down.data == []
    }

    /** Between calls they also agree on the handles. */
    ghost predicate Valid()
      reads this, up, down, daemon, bufs
    {
      Linked() && Agree(bufs, daemon.t.h)
    }

    constructor (toDaemon: Pipe, fromDaemon: Pipe, d: Daemon)
      requires d.Valid() && d.up == toDaemon && d.down == fromDaemon && toDaemon.data == [] && fromDaemon.data == []
      ensures Valid() && up == toDaemon && down == fromDaemon && daemon == d && open && bufs == {}
    {
      up, down, daemon, open, nimported, bufs := toDaemon, fromDaemon, d, true, 0, {};
    }

    /** Sends a request, lets the daemon take its turn, and reads the status and, on success, `want` words. */
    method Ask(header: seq<nat>, payload: seq<byte>, fds: nat, want: nat, ghost r: Request)
        returns (status: nat, words: seq<nat>)
      requires daemon.Valid() && daemon.up == up && daemon.down == down && up.data == [] && down.data == []
      requires r.Fits() && header == r.Header() && payload == r.Payload() && fds == r.Fds() && want == ReplyWords(r, 0)
      requires r.Batch? ==> forall i :: 0 <= i < |r.stages| ==> StageOk(daemon.t, daemon.align, r.stages[i])
      modifies up, down, daemon`t
      ensures daemon.Valid() && up.data == [] && down.data == []
      ensures Answers(old(daemon.t), r, daemon.t, status, words)
    {
      hide Words, U32, Get32, Answers, Request.Header, Request.Payload;
      up.fds := fds;
      up.Send(Words(header));
      up.Send(payload);
      assert up.data == r.Bytes();
      ghost var code, result := daemon.Serve(r);
      AnswerShape(old(daemon.t), r, daemon.t, code, result);
      StatusFirst(code, result);
      var st := down.Read(4);
      status := Get32(st, 0);
      words := [];
      if status == 0 {
        var w := down.Read(4 * want);
        words := GetWords(w, want, result);
      }
    }

    /** Gives buffer i its new handle. */
    method AssignOne(bs: seq<ZBuf>, hd: seq<nat>, i: nat, ghost sizes: seq<nat>, ghost before: seq<Slot>,
        ghost after: seq<Slot>)
      requires |sizes| == |bs| && (forall z <- bs :: z in bufs) && Given(sizes, hd, before, after)
      requires i < |bs| && sizes[i] == bs[i].size && Halfway(bufs, before, after, hd[..i]) && Assigned(bs, hd, i)
      modifies bs`gpuH
      ensures Halfway(bufs, before, after, hd[..i + 1]) && Assigned(bs, hd, i + 1)
    {
      hide Given, LastOf;
      GivenAt(sizes, hd, before, after, i);
      LastOfLess(bs, i);
      NotYetTaken(bufs, before, after, hd, i);
      bs[i].gpuH := hd[i];
      forall k | 0 <= k < i && LastOf(bs, k, i + 1) ensures bs[k].gpuH == hd[k] {
        assert LastOf(bs, k, i) && bs[k] != bs[i];
      }
    }

    /** Gives the buffers their new handles; of a buffer listed twice the last one counts. */
    method AssignEach(bs: seq<ZBuf>, hd: seq<nat>, ghost sizes: seq<nat>, ghost before: seq<Slot>,
        ghost after: seq<Slot>)
      requires |sizes| == |bs| && (forall z <- bs :: z in bufs) && Agree(bufs, before)
        && Given(sizes, hd, before, after)
      requires forall i :: 0 <= i < |bs| ==> sizes[i] == bs[i].size
      modifies bufs`gpuH
      ensures Agree(bufs, after) && Assigned(bs, hd, |bs|)
      ensures forall z <- bufs :: z !in bs ==> z.gpuH == old(z.gpuH)
    {
      GivenKeeps(sizes, hd, before, after);
      StillAgree(bufs, before, after);
      assert Halfway(bufs, before, after, hd[..0]);
      assert Assigned(bs, hd, 0);
      hide Halfway, Agree, Given, Assigned;
      for i := 0 to |bs|
        invariant Halfway(bufs, before, after, hd[..i]) && Assigned(bs, hd, i)
        invariant forall z <- bufs :: z !in bs ==> z.gpuH == old(z.gpuH)
      {
        AssignOne(bs, hd, i, sizes, before, after);
      }
      HalfwayAgrees(bufs, before, after, hd[..|bs|]);
    }

    /** Gives the buffers their new handles, and keeps the agreement. If every slot in use belonged to a buffer
        before, it still does exactly if each buffer was listed once and had no handle. */
    method Assign(bs: seq<ZBuf>, hd: seq<nat>, ghost sizes: seq<nat>, ghost before: seq<Slot>, ghost after: seq<Slot>)
      requires |sizes| == |bs| && (forall z <- bs :: z in bufs) && Agree(bufs, before)
        && Given(sizes, hd, before, after)
      requires forall i :: 0 <= i < |bs| ==> sizes[i] == bs[i].size
      modifies bufs`gpuH
      ensures Agree(bufs, after) && forall z <- bs :: z.gpuH >= 0
      ensures forall z <- bufs :: z !in bs ==> z.gpuH == old(z.gpuH)
      ensures Leaves(bs, old(Handles(bufs)), Handles(bufs), before, after)
    {
      hide *;
      ghost var was := Handles(bufs);
      HandlesAre(bufs);
      OwnHandles(bufs, before);
      AssignEach(bs, hd, sizes, before, after);
      AllAssigned(bs, hd);
      SlotsLeftOver(bs, hd, sizes, was, bufs, before, after);
    }

    /** The sizes of the buffers to import; each needs a file descriptor and at least one byte. */
    method CollectSizes(bs: seq<ZBuf>) returns (ok: bool, sizes: seq<nat>)
      requires Valid() && forall z <- bs :: z in bufs
      ensures ok ==> |sizes| == |bs| && forall k :: 0 <= k < |bs| ==> sizes[k] == bs[k].size && sizes[k] < WORD
      ensures ok <==> forall k :: 0 <= k < |bs| ==> bs[k].fd >= 0 && bs[k].size > 0
    {
      sizes := [];
      for i := 0 to |bs|
        invariant |sizes| == i && forall k :: 0 <= k < i ==> sizes[k] == bs[k].size && sizes[k] < WORD
        invariant forall k :: 0 <= k < i ==> bs[k].fd >= 0 && bs[k].size > 0
      {
        if bs[i].fd < 0 || bs[i].size == 0 { return false, sizes; }
        sizes := sizes + [bs[i].size];
      }
      return true, sizes;
    }

    /** Sends the IMPORT and reads the handles. */
    method SendImport(bs: seq<ZBuf>, sizes: seq<nat>) returns (ok: bool, hd: seq<nat>)
      requires Valid() && 1 <= |bs| <= MAXBUF && |sizes| == |bs| && forall k :: 0 <= k < |bs| ==> sizes[k] < WORD
      modifies up, down, daemon`t
      ensures Linked() && daemon.t == old(daemon.t).(h := daemon.t.h) && Agree(bufs, old(daemon.t.h))
      ensures ok ==> Given(sizes, hd, old(daemon.t.h), daemon.t.h)
      ensures !ok ==> Valid()
      ensures !ok && (|bs| <= 1 || FirstFree(old(daemon.t.h)) == MAXH) ==> daemon.t == old(daemon.t)
    {
      hide Agree, Answers, Given, Refused, FirstFree;
      ghost var before := daemon.t;
      var status, words := Ask([GPZ3_MAGIC, 1, |bs|, 0, 0, 0], Words(sizes), |bs|, |bs|, Requests.Import(sizes));
      Imported(before, sizes, daemon.t, status, words);
      if status != 0 {
        RefusedKeeps(before.h, daemon.t.h);
        StillAgree(bufs, before.h, daemon.t.h);
        RefusedTables(before, sizes, daemon.t, status, words);
      }
      return status == 0, words;
    }

    /** barra_gpu3_import. If every slot in use belonged to a buffer before, a success leaves it so exactly if each
        buffer was listed once and had no handle; and the refusal of a single buffer, or by a full table, takes none. */
    method Import(bs: seq<ZBuf>) returns (r: int)
      requires Valid() && forall z <- bs :: z in bufs
      modifies this`nimported, up, down, daemon`t, bufs`gpuH
      ensures Valid() && daemon.t == old(daemon.t).(h := daemon.t.h)
      ensures r == 0 || r == -1
      ensures r == 0 ==> (forall z <- bs :: z.gpuH >= 0) && nimported == old(nimported) + |bs|
      ensures forall z <- bufs :: z !in bs || r == -1 ==> z.gpuH == old(z.gpuH)
      ensures r == -1 ==> nimported == old(nimported)
      ensures r == 0 ==> Leaves(bs, old(Handles(bufs)), Handles(bufs), old(daemon.t.h), daemon.t.h)
      ensures r == -1 && (|bs| <= 1 || FirstFree(old(daemon.t.h)) == MAXH) ==> daemon.t == old(daemon.t)
    {
      hide *;
      if !open || |bs| == 0 || |bs| > MAXBUF { return -1; }
      var good, sizes := CollectSizes(bs);
      if !good { return -1; }
      ghost var before := daemon.t.h;
      var ok, hd := SendImport(bs, sizes);
      if !ok { return -1; }
      nimported := nimported + |bs|;
      Assign(bs, hd, sizes, before, daemon.t.h);
      Relinked();
      return 0;
    }

    lemma Relinked()
      requires Linked() && Agree(bufs, daemon.t.h)
      ensures Valid()
    {
    }

    /** Forgets the handles of released buffers. */
    method Forget(bs: seq<ZBuf>, ghost before: seq<Slot>, ghost after: seq<Slot>)
      requires (forall z <- bs :: z in bufs) && Agree(bufs, before) && |after| == |before|
      requires forall k :: 0 <= k < |before| ==> after[k] == if k in Held(bs) && before[k].used then FREE else before[k]
      modifies bufs`gpuH
      ensures Agree(bufs, after)
      ensures forall z <- bufs :: z.gpuH == if z in bs then -1 else old(z.gpuH)
    {
      HeldIs(bs);
      assert forall z <- bufs :: z !in bs && z.gpuH >= 0 ==> z.gpuH !in Held(bs);
      ClearHandles(bs);
    }

    method ClearHandles(bs: seq<ZBuf>)
      requires forall z <- bs :: z in bufs
      modifies bufs`gpuH
      ensures forall z <- bufs :: z.gpuH == if z in bs then -1 else old(z.gpuH)
    {
      for i := 0 to |bs|
        invariant forall z <- bufs :: z.gpuH == if z in bs[..i] then -1 else old(z.gpuH)
      {
        bs[i].gpuH := -1;
      }
    }

    /** The handles of the listed buffers that have one. */
    method CollectHandles(bs: seq<ZBuf>) returns (hd: seq<nat>)
      ensures hd == Held(bs)
    {
      hd := [];
      for i := 0 to |bs|
        invariant hd == Held(bs[..i])
      {
        assert bs[..i + 1][..i] == bs[..i];
        if bs[i].gpuH >= 0 { hd := hd + [bs[i].gpuH]; }
      }
      assert bs[..|bs|] == bs;
    }

    /** Sends the RELEASE and forgets the handles. */
    method GiveBack(bs: seq<ZBuf>, hd: seq<nat>)
      requires Valid() && (forall z <- bs :: z in bufs) && hd == Held(bs) && 1 <= |bs| <= MAXBUF && hd != []
      modifies up, down, daemon`t, bufs`gpuH
      ensures Valid() && daemon.t == old(daemon.t).(h := daemon.t.h)
      ensures forall z <- bufs :: z.gpuH == if z in bs then -1 else old(z.gpuH)
      ensures forall k :: 0 <= k < MAXH ==>
                daemon.t.h[k] == if k in hd && old(daemon.t.h[k]).used then FREE else old(daemon.t.h[k])
    {
      ghost var before := daemon.t;
      HeldFit(bs, bufs, before.h);
      hide Answers, Agree, Held;
      var status, _ := Ask([GPZ3_MAGIC, 3, |hd|, 0, 0, 0], Words(hd), 0, 0, Requests.Release(hd));
      Freed(before, hd, daemon.t, status);
      Forget(bs, before.h, daemon.t.h);
    }

    /** barra_gpu3_release */
    method Release(bs: seq<ZBuf>) returns (r: int)
      requires Valid() && forall z <- bs :: z in bufs
      modifies this`nimported, up, down, daemon`t, bufs`gpuH
      ensures Valid() && daemon.t == old(daemon.t).(h := daemon.t.h)
      ensures r == 0 || r == -1
      ensures forall z <- bufs :: z.gpuH == if r == 0 && z in bs then -1 else old(z.gpuH)
      ensures r == 0 ==> forall k :: 0 <= k < MAXH ==>
                daemon.t.h[k] == if k in old(Held(bs)) && old(daemon.t.h[k]).used then FREE else old(daemon.t.h[k])
      ensures nimported == old(nimported) - if r == 0 then |old(Held(bs))| else 0
    {
      if !open || |bs| == 0 || |bs| > MAXBUF { return -1; }
      var hd := CollectHandles(bs);
      if |hd| == 0 {
        NothingHeld(bs);
        return 0;
      }
      GiveBack(bs, hd);
      nimported := nimported - |hd|;
      return 0;
    }

    /** A buffer the application shows to the session for the first time. */
    method Register(z: ZBuf)
      requires Valid() && z.gpuH == -1 && z.size < WORD
      modifies this`bufs
      ensures Valid() && bufs == old(bufs) + {z}
    {
      bufs := bufs + {z};
    }

    /** barra_gpu3_alloc_native, and the buffer object its caller builds around the handle. */
    method AllocNative(size: nat) returns (z: ZBuf?)
      requires Valid() && size < WORD
      modifies this`bufs, up, down, daemon`t
      ensures Valid() && daemon.t == old(daemon.t).(h := daemon.t.h)
      ensures z == null ==> daemon.t == old(daemon.t)
      ensures if z == null then bufs == old(bufs)
              else fresh(z) && z.size == size && z.gpuH >= 0 && bufs == old(bufs) + {z}
    {
      hide Answers, Agree;
      if !open || size == 0 { return null; }
      ghost var before := daemon.t;
      var status, hd := Ask([GPZ3_MAGIC, 10, size, 0, 0, 0], [], 0, 1, Requests.Alloc(size));
      Allocated(before, size, daemon.t, status, hd);
      StillAgree(bufs, before.h, daemon.t.h);
      if status != 0 { return null; }
      var c := new ZBuf(-1, size);
      c.gpuH := hd[0];
      AgreeWith(bufs, c, before.h, daemon.t.h);
      bufs := bufs + {c};
      return c;
    }

    /** barra_gpu3_load */
    method LoadShader(spirv: seq<byte>, nbind: nat, pcsize: nat) returns (r: int)
      requires Valid() && |spirv| <= MAXSPIRV
      modifies up, down, daemon`t
      ensures Valid() && daemon.t == old(daemon.t).(sh := daemon.t.sh)
      ensures r >= -1 && (r == -1 ==> daemon.t == old(daemon.t))
      ensures r >= 0 ==>
          r < MAXSH && !old(daemon.t).sh[r].used && daemon.t.sh == old(daemon.t).sh[r := Shader(true, nbind, pcsize)]
    {
      if !open || |spirv| == 0 || |spirv| % 4 != 0 || nbind > MAXBUF || pcsize > MAXPC || pcsize % 4 != 0 { return -1; }
      ghost var before := daemon.t;
      hide Agree;
      var status, sh :=
          Ask([GPZ3_MAGIC, 4, |spirv|, nbind, pcsize, 0], spirv, 0, 1, Requests.Load(spirv, nbind, pcsize));
      if status != 0 { return -1; }
      return sh[0];
    }

    /** barra_gpu3_unload */
    method UnloadShader(sh: int) returns (r: int)
      requires Valid() && sh < WORD
      modifies up, down, daemon`t
      ensures Valid() && daemon.t == old(daemon.t).(sh := daemon.t.sh)
      ensures r == 0 ==> 0 <= sh < MAXSH && old(daemon.t).sh[sh].used && daemon.t.sh == old(daemon.t).sh[sh := UNLOADED]
      ensures r != 0 ==> r == -1 && daemon.t == old(daemon.t)
    {
      if !open || sh < 0 { return -1; }
      hide Agree;
      var status, _ := Ask([GPZ3_MAGIC, 6, sh, 0, 0, 0], [], 0, 0, Requests.Unload(sh));
      return if status != 0 then -1 else 0;
    }

    /** barra_gpu3_flags */
    method SetFlags(bits: nat) returns (r: int)
      requires Valid() && bits < WORD
      modifies up, down, daemon`t
      ensures Valid()
      ensures if r == 0 then daemon.t == old(daemon.t).(noBarriers := bits % 2 == 1)
              else r == -1 && daemon.t == old(daemon.t)
    {
      if !open { return -1; }
      hide Agree;
      var status, _ := Ask([GPZ3_MAGIC, 8, bits, 0, 0, 0], [], 0, 0, Requests.Flags(bits));
      return if status != 0 then -1 else 0;
    }

    /** barra_gpu3_copy */
    method CopyBuffer(src: int, srcOff: nat, dst: int, dstOff: nat, len: nat) returns (r: int)
      requires Valid() && src < WORD && dst < WORD && srcOff < WORD * WORD && dstOff < WORD * WORD && len < WORD * WORD
      modifies up, down, daemon`t
      ensures Valid() && daemon.t == old(daemon.t)
      ensures r == 0 ==> src >= 0 && dst >= 0 && CopyOk(daemon.t.h, src, dst, srcOff, dstOff, len)
      ensures r == 0 && EndsFit(srcOff, dstOff, len) ==> CopyInside(daemon.t.h, src, dst, srcOff, dstOff, len)
    {
      if !open || src < 0 || dst < 0 || len == 0 { return -1; }
      hide Agree, CopyOk, CopyInside, EndsFit, CopyWords;
      var status, _ := Ask([GPZ3_MAGIC, 11, src, dst, 0, 0], CopyWords(srcOff, dstOff, len), 0, 0,
                           Requests.Copy(src, dst, srcOff, dstOff, len));
      if status != 0 { return -1; }
      FittingCopy(daemon.t.h, src, dst, srcOff, dstOff, len);
      return 0;
    }

    /** The buffers of one stage that still lack a handle, each once. False if a binding has no buffer. */
    method CollectNeed(bs: seq<ClientBind>) returns (ok: bool, need: seq<ZBuf>)
      ensures ok <==> forall i :: 0 <= i < |bs| ==> bs[i].buf != null
      ensures ok ==> forall z :: z in need <==> z in BoundBy(bs) && z.gpuH < 0
      ensures ok ==> |need| <= |bs| && forall i, j :: 0 <= i < j < |need| ==> need[i] != need[j]
    {
      need := [];
      for i := 0 to |bs|
        invariant forall k :: 0 <= k < i ==> bs[k].buf != null
        invariant forall z :: z in need <==> z.gpuH < 0 && exists k :: 0 <= k < i && bs[k].buf == z
        invariant |need| <= i && forall j, k :: 0 <= j < k < |need| ==> need[j] != need[k]
      {
        var z := bs[i].buf;
        if z == null { return false, need; }
        if z.gpuH < 0 && z !in need { need := need + [z]; }
      }
      return true, need;
    }

    /** How far the automatic import has come: the buffers that had no handle at the start (`lacking`) have one now
        exactly if one of the stages done so far binds them, and each was imported once. */
    ghost predicate ImportedSoFar(st: seq<ClientStage>, s: nat, lacking: set<ZBuf>, count: int)
      requires s <= |st|
      reads this`bufs, this`nimported, bufs
    {
      && lacking <= bufs && nimported == count + |lacking * Bound(st[..s])|
      && forall z <- bufs :: z.gpuH < 0 <==> z in lacking && z !in Bound(st[..s])
    }

    /** Imports what one stage needs. */
    method ImportFor(st: seq<ClientStage>, s: nat, ghost lacking: set<ZBuf>, ghost count: int) returns (r: int)
      requires Valid() && open && s < |st| && |st[s].binds| <= MAXBUF && ImportedSoFar(st, s, lacking, count)
      requires BoundBy(st[s].binds) <= bufs
      modifies this`nimported, up, down, daemon`t, bufs`gpuH
      ensures Valid() && daemon.t == old(daemon.t).(h := daemon.t.h) && (r == 0 || r == -1)
      ensures r == 0 ==> ImportedSoFar(st, s + 1, lacking, count) && forall j :: 0 <= j < |st[s].binds| ==>
          st[s].binds[j].buf != null
      ensures forall z <- bufs :: old(z.gpuH) >= 0 ==> z.gpuH == old(z.gpuH)
    {
      hide Agree, Bound;
      var ok, need := CollectNeed(st[s].binds);
      if !ok { return -1; }
      NeedCounts(st, s, lacking, need);
      if |need| > 0 {
        r := Import(need);
        if r != 0 { return -1; }
      }
      return 0;
    }

    /** The stages as sent: every buffer has its handle by now. */
    ghost predicate Sendable(st: seq<ClientStage>)
      reads this`bufs, bufs, set s <- st, b <- s.binds | b.buf != null :: b.buf
    {
      forall i :: 0 <= i < |st| ==>
        st[i].sh >= 0 && |st[i].binds| <= MAXBUF && |st[i].pc| <= MAXPC && Bindable(st[i].binds)
    }

    /** Looks the handles up. */
    method WireStages(st: seq<ClientStage>) returns (ws: seq<Stage>)
      requires Valid() && Sendable(st)
      requires StagesFor(st, daemon.t.sh, daemon.align, bufs)
      ensures |ws| == |st|
      ensures forall i :: 0 <= i < |st| ==>
          Conveys(ws[i], st[i]) && ws[i].Fits() && StageOk(daemon.t, daemon.align, ws[i])
    {
      hide Agree, StageFor, StageOk, Stage.Fits, Conveys;
      ws := [];
      for s := 0 to |st|
        invariant |ws| == s
        invariant forall i :: 0 <= i < s ==>
            Conveys(ws[i], st[i]) && ws[i].Fits() && StageOk(daemon.t, daemon.align, ws[i])
      {
        WireOk(st[s], daemon.t, daemon.align, bufs);
        WireConveys(st[s]);
        ws := ws + [WireStage(st[s])];
      }
    }

    /** Writes the batch, sends it, and takes the daemon's verdict. */
    method SendBatch(st: seq<ClientStage>) returns (r: int)
      requires Valid() && 1 <= |st| <= MAXSTAGE && Sendable(st)
      requires StagesFor(st, daemon.t.sh, daemon.align, bufs)
      modifies up, down, daemon`t
      ensures Valid() && |daemon.t.ran| == |st| && daemon.t == old(daemon.t).(ran := daemon.t.ran)
      ensures Sendable(st)
      ensures forall i :: 0 <= i < |st| ==> Conveys(daemon.t.ran[i], st[i])
      ensures r == 0 || r == -1
    {
      hide Agree, StageFor, StageOk, StagesBytes, Stage.Fits, Conveys;
      var ws := WireStages(st);
      var big, bn := Serialize(ws);
      ghost var before := daemon.t;
      var status, _ := Ask([GPZ3_MAGIC, 9, |ws|, 0, 0, 0], big[..bn], 0, 0, Requests.Batch(ws));
      return if status != 0 then -1 else 0;
    }

    /** The import loop of a batch. */
    method ImportAll(st: seq<ClientStage>, ghost lacking: set<ZBuf>, ghost count: int) returns (ok: bool)
      requires Valid() && open && StagesFor(st, daemon.t.sh, daemon.align, bufs) && ImportedSoFar(st, 0, lacking, count)
      modifies this`nimported, up, down, daemon`t, bufs`gpuH
      ensures Valid() && daemon.t == old(daemon.t).(h := daemon.t.h)
      ensures forall z <- bufs :: old(z.gpuH) >= 0 ==> z.gpuH == old(z.gpuH)
      ensures StagesFor(st, daemon.t.sh, daemon.align, bufs) && daemon.align >= 1
      ensures ok ==> ImportedSoFar(st, |st|, lacking, count) && forall i :: 0 <= i < |st| ==> StageChecked(st[i])
    {
      hide Agree, StageFor, Bound, ImportedSoFar;
      for s := 0 to |st|
        invariant Valid() && daemon.t == old(daemon.t).(h := daemon.t.h) && ImportedSoFar(st, s, lacking, count)
        invariant StagesFor(st, daemon.t.sh, daemon.align, bufs)
        invariant forall z <- bufs :: old(z.gpuH) >= 0 ==> z.gpuH == old(z.gpuH)
        invariant forall i :: 0 <= i < s ==> StageChecked(st[i])
      {
        InSession(st[s], daemon.t.sh, daemon.align, bufs);
        if st[s].sh < 0 || |st[s].binds| > MAXBUF || |st[s].pc| > MAXPC { return false; }
        var got := ImportFor(st, s, lacking, count);
        if got != 0 { return false; }
      }
      return true;
    }

    /** barra_gpu3_batch */
    method Batch(st: seq<ClientStage>, ghost lacking: set<ZBuf>) returns (r: int)
      requires Lacking(lacking)
      requires Valid() && StagesFor(st, daemon.t.sh, daemon.align, bufs)
      modifies this`nimported, up, down, daemon`t, bufs`gpuH
      ensures Valid() && daemon.t == old(daemon.t).(h := daemon.t.h, ran := daemon.t.ran)
      ensures forall z <- bufs :: old(z.gpuH) >= 0 ==> z.gpuH == old(z.gpuH)
      ensures r == 0 ==> |daemon.t.ran| == |st| && Sendable(st) && forall i :: 0 <= i < |st| ==>
          Conveys(daemon.t.ran[i], st[i])
      ensures r == 0 ==> nimported == old(nimported) + |lacking * Bound(st)|
      ensures r == 0 || r == -1
    {
      hide *;
      if !open || |st| == 0 || |st| > MAXSTAGE { return -1; }
      NothingYet(st, lacking);
      var ok := ImportAll(st, lacking, nimported);
      r := -1;
      if ok {
        r := SendImported(st, lacking, old(nimported));
      }
    }

    method SendImported(st: seq<ClientStage>, ghost lacking: set<ZBuf>, ghost count: int) returns (r: int)
      requires Valid() && 1 <= |st| <= MAXSTAGE && StagesFor(st, daemon.t.sh, daemon.align, bufs) && daemon.align >= 1
      requires ImportedSoFar(st, |st|, lacking, count) && forall i :: 0 <= i < |st| ==> StageChecked(st[i])
      modifies up, down, daemon`t
      ensures Valid() && |daemon.t.ran| == |st| && daemon.t == old(daemon.t).(ran := daemon.t.ran)
      ensures Sendable(st) && (forall i :: 0 <= i < |st| ==> Conveys(daemon.t.ran[i], st[i]))
      ensures nimported == count + |lacking * Bound(st)| && (r == 0 || r == -1)
    {
      hide *;
      AllBound(st, lacking, count);
      r := SendBatch(st);
    }

    /** The buffers without a handle. */
    ghost predicate Lacking(lacking: set<ZBuf>)
      reads this`bufs, bufs
    {
      lacking == set z <- bufs | z.gpuH < 0
    }

    lemma NothingYet(st: seq<ClientStage>, lacking: set<ZBuf>)
      requires Lacking(lacking)
      ensures ImportedSoFar(st, 0, lacking, nimported)
    {
      assert lacking * Bound(st[..0]) == {};
    }

    lemma AllBound(st: seq<ClientStage>, lacking: set<ZBuf>, count: int)
      requires ImportedSoFar(st, |st|, lacking, count) && forall i :: 0 <= i < |st| ==> StageChecked(st[i])
      requires daemon.align >= 1 && StagesFor(st, daemon.t.sh, daemon.align, bufs)
      ensures Sendable(st) && nimported == count + |lacking * Bound(st)|
    {
      assert st[..|st|] == st;
      hide StageFor;
      forall i, j | 0 <= i < |st| && 0 <= j < |st[i].binds| ensures st[i].binds[j].buf.gpuH >= 0 {
        BoundHas(st, i, j);
        InSession(st[i], daemon.t.sh, daemon.align, bufs);
      }
    }
  }

  lemma {:induction false} BoundHas(st: seq<ClientStage>, i: nat, j: nat)
    requires i < |st| && j < |st[i].binds| && st[i].binds[j].buf != null
    ensures st[i].binds[j].buf in Bound(st)
  {
    if i < |st| - 1 { BoundHas(st[..|st| - 1], i, j); }
  }

  /** A stage that fits the session fits the wire and passes the daemon's checks, because handles agree. */
  lemma WireOk(s: ClientStage, t: Tables, align: nat, bufs: set<ZBuf>)
    requires t.Valid() && align >= 1 && Agree(bufs, t.h) && s.sh >= 0 && |s.binds| <= MAXBUF && |s.pc| <= MAXPC
    requires Bindable(s.binds) && StageFor(s, t.sh, align, bufs)
    ensures WireStage(s).Fits() && StageOk(t, align, WireStage(s))
  {
    var w := WireStage(s);
    forall i | 0 <= i < |s.binds| ensures w.binds[i].Fits() && BindOk(t.h, align, w.binds[i]) {
      assert BindFor(s.binds[i], align, bufs);
      assert w.binds[i] == WireBind(s.binds[i]);
    }
  }

  lemma InSession(s: ClientStage, sh: seq<Shader>, align: nat, bufs: set<ZBuf>)
    requires align >= 1 && StageFor(s, sh, align, bufs)
    ensures BoundBy(s.binds) <= bufs
  {
    forall b | b in s.binds && b.buf != null ensures b.buf in bufs {
      var i :| 0 <= i < |s.binds| && s.binds[i] == b;
      assert BindFor(s.binds[i], align, bufs);
    }
  }

  lemma NeedCounts(st: seq<ClientStage>, s: nat, lacking: set<ZBuf>, need: seq<ZBuf>)
    requires s < |st| && (forall i, j :: 0 <= i < j < |need| ==> need[i] != need[j])
    requires forall z :: z in need <==> z in BoundBy(st[s].binds) && z in lacking && z !in Bound(st[..s])
    ensures Bound(st[..s + 1]) == Bound(st[..s]) + BoundBy(st[s].binds)
    ensures |lacking * Bound(st[..s + 1])| == |lacking * Bound(st[..s])| + |need|
  {
    assert st[..s + 1][..s] == st[..s];
    var n := set z <- need;
    Distinct(need);
    assert lacking * Bound(st[..s + 1]) == lacking * Bound(st[..s]) + n;
  }

  lemma {:induction false} Distinct(zs: seq<ZBuf>)
    requires forall i, j :: 0 <= i < j < |zs| ==> zs[i] != zs[j]
    ensures |(set z <- zs)| == |zs|
  {
    if zs != [] {
      var init, z := zs[..|zs| - 1], zs[|zs| - 1];
      Distinct(init);
      assert (set w <- zs) == (set w <- init) + {z};
    }
  }

  lemma {:induction false} NothingHeld(bs: seq<ZBuf>)
    requires Held(bs) == []
    ensures forall z <- bs :: z.gpuH < 0
  {
    if bs != [] { NothingHeld(bs[..|bs| - 1]); }
  }

  lemma HeldFit(bs: seq<ZBuf>, bufs: set<ZBuf>, h: seq<Slot>)
    requires Agree(bufs, h) && |h| == MAXH && forall z <- bs :: z in bufs
    ensures forall i :: 0 <= i < |Held(bs)| ==> Held(bs)[i] < WORD
  {
    HeldIs(bs);
    forall i | 0 <= i < |Held(bs)| ensures Held(bs)[i] < WORD {
      assert Held(bs)[i] in Held(bs);
    }
  }

  lemma Freed(t: Tables, hd: seq<nat>, t': Tables, status: nat)
    requires t.Valid() && exists words :: Answers(t, Requests.Release(hd), t', status, words)
    ensures t' == t.(h := t'.h) && |t'.h| == |t.h|
    ensures forall k :: 0 <= k < |t.h| ==> t'.h[k] == if k in hd && t.h[k].used then FREE else t.h[k]
  {
    ReleasedSlots(t.h, hd);
  }

  lemma Allocated(t: Tables, size: nat, t': Tables, status: nat, hd: seq<nat>)
    requires t.Valid() && Answers(t, Requests.Alloc(size), t', status, hd)
    ensures t' == t.(h := t'.h) && |t'.h| == |t.h| && forall k :: 0 <= k < |t.h| && t.h[k].used ==> t'.h[k] == t.h[k]
    ensures status == 0 ==> |hd| == 1 && hd[0] < |t.h| && !t.h[hd[0]].used && t'.h[hd[0]] == Slot(true, size)
    ensures status != 0 ==> t' == t
  {
  }

  /** A new buffer with a handle that was free joins the agreement. */
  lemma AgreeWith(bufs: set<ZBuf>, z: ZBuf, h: seq<Slot>, h': seq<Slot>)
    requires Agree(bufs, h) && Agree(bufs, h') && |h'| == |h| && z.size < WORD
    requires 0 <= z.gpuH < |h| && !h[z.gpuH].used && h'[z.gpuH] == Slot(true, z.size)
    ensures Agree(bufs + {z}, h')
  {
    assert forall w <- bufs :: w.gpuH != z.gpuH;
  }

  lemma HandedOut(bs: seq<ZBuf>, hd: seq<nat>, sizes: seq<nat>, was: map<ZBuf, int>, bufs: set<ZBuf>,
                  before: seq<Slot>, after: seq<Slot>)
    requires |sizes| == |bs| && Given(sizes, hd, before, after) && was.Keys == bufs && forall z <- bs :: z in bufs
    requires forall z <- bufs :: z !in bs ==> z.gpuH == was[z]
    requires Assigned(bs, hd, |bs|)
    ensures HandsOut(bs, hd, was, Handles(bufs), before, after)
  {
    hide LastOf;
    forall k | 0 <= k < |before| ensures after[k].used <==> before[k].used || k in hd {
      if k in hd {
        var i :| 0 <= i < |hd| && hd[i] == k;
      }
    }
  }

  lemma SlotsLeftOver(bs: seq<ZBuf>, hd: seq<nat>, sizes: seq<nat>, was: map<ZBuf, int>, bufs: set<ZBuf>,
                      before: seq<Slot>, after: seq<Slot>)
    requires |sizes| == |bs| && Given(sizes, hd, before, after) && Assigned(bs, hd, |bs|)
    requires was.Keys == bufs && (forall z <- bs :: z in bufs) && forall z <- bufs :: z !in bs ==> z.gpuH == was[z]
    requires OwnSlots(was, before)
    ensures Leaves(bs, was, Handles(bufs), before, after)
  {
    hide Given, Assigned, OwnSlots, AllHeld, HandsOut, Different;
    HandedOut(bs, hd, sizes, was, bufs, before, after);
    if AllHeld(was, before) { ImportLeaves(bs, hd, was, Handles(bufs), before, after); }
  }

  lemma RefusedKeeps(before: seq<Slot>, after: seq<Slot>)
    requires Refused(before, after)
    ensures |after| == |before| && forall k :: 0 <= k < |before| && before[k].used ==> after[k] == before[k]
  {
  }

  lemma HandlesAre(bufs: set<ZBuf>)
    ensures Handles(bufs).Keys == bufs && forall z <- bufs :: Handles(bufs)[z] == z.gpuH
  {
  }

  lemma OwnHandles(bufs: set<ZBuf>, h: seq<Slot>)
    requires Agree(bufs, h)
    ensures OwnSlots(Handles(bufs), h)
  {
  }

  /** What an import may have done to the handle table. */
  lemma Imported(t: Tables, sizes: seq<nat>, t': Tables, status: nat, hd: seq<nat>)
    requires t.Valid() && Answers(t, Requests.Import(sizes), t', status, hd)
    ensures t' == t.(h := t'.h)
    ensures if status == 0 then Given(sizes, hd, t.h, t'.h) else Refused(t.h, t'.h)
  {
    if status == 0 {
      TakenSlots(t.h, sizes);
    } else {
      var k, hs :| 0 <= k < |sizes| && TakeSlots(t.h, sizes[..k]) == Taken(t'.h, hs);
      TakenSlots(t.h, sizes[..k]);
    }
  }

  lemma RefusedTables(t: Tables, sizes: seq<nat>, t': Tables, status: nat, hd: seq<nat>)
    requires Answers(t, Requests.Import(sizes), t', status, hd) && status != 0
    ensures |sizes| <= 1 || FirstFree(t.h) == |t.h| ==> t' == t
  {
    if |sizes| <= 1 || FirstFree(t.h) == |t.h| { RefusedAtOnce(t, sizes, t'); }
  }

  /** Slots that fill up disturb nobody. */
  lemma StillAgree(bufs: set<ZBuf>, h: seq<Slot>, h': seq<Slot>)
    requires Agree(bufs, h) && |h'| == |h| && forall k :: 0 <= k < |h| && h[k].used ==> h'[k] == h[k]
    ensures Agree(bufs, h')
  {
  }

  method GetWords(w: seq<byte>, n: nat, ghost xs: seq<nat>) returns (words: seq<nat>)
    requires n == |xs| && (forall i :: 0 <= i < n ==> xs[i] < WORD) && w == Words(xs)
    ensures words == xs
  {
    hide Words, Get32;
    words := [];
    for i := 0 to n
      invariant words == xs[..i]
    {
      WordBack(xs, i);
      words := words + [Get32(w, 4 * i)];
    }
  }

  lemma StatusFirst(status: nat, words: seq<nat>)
    requires status < WORD && forall i :: 0 <= i < |words| ==> words[i] < WORD
    ensures var reply := [] + U32(status) + Words(words);
            |reply| == 4 + 4 * |words| && reply[..4] == U32(status) && reply[4..] == Words(words)
    ensures Get32(U32(status), 0) == status
  {
    Get32Back(status);
  }

  /** An empty daemon can answer an import of one buffer, listed twice, with the handles 0 and 1. */
  lemma TwoHandles(t: Tables, size: nat)
    requires t.Valid() && !t.h[0].used && !t.h[1].used
    ensures var h := t.h[0 := Slot(true, size)][1 := Slot(true, size)];
            Answers(t, Requests.Import([size, size]), t.(h := h), 0, [0, 1])
  {
    var one := t.h[0 := Slot(true, size)];
    FirstFreeIs(t.h, 0);
    FirstFreeIs(one, 1);
    hide FirstFree;
    assert [size, size][..1] == [size] && [size][..0] == [];
    assert TakeSlots(t.h, []) == Taken(t.h, []);
    assert TakeSlots(t.h, [size]) == Taken(one, [] + [0]);
    assert TakeSlots(t.h, [size, size]) == Taken(one[1 := Slot(true, size)], [0] + [1]);
  }

  /** Then one of the two slots belongs to no buffer: a fresh session, and one buffer listed twice. */
  method ListedTwice(fd: int, size: nat) returns (r: int, c: Client)
    requires fd >= 0 && 0 < size < WORD
    ensures r == 0 || r == -1
    ensures r == 0 ==> !AllHeld(Handles(c.bufs), c.daemon.t.h)
  {
    var up := new Pipe();
    var down := new Pipe();
    var d := new Daemon(up, down, 64);
    c := new Client(up, down, d);
    var z := new ZBuf(fd, size);
    c.Register(z);
    EmptyHeld(Handles(c.bufs), d.t.h);
    TwiceIsNotOnce(z);
    hide AllHeld, Handles, Different;
    r := c.Import([z, z]);
  }

  lemma EmptyHeld(hm: map<ZBuf, int>, h: seq<Slot>)
    requires forall k :: 0 <= k < |h| ==> !h[k].used
    ensures AllHeld(hm, h)
  {
  }

  lemma TwiceIsNotOnce(z: ZBuf)
    ensures !Different([z, z])
  {
    var bs := [z, z];
    assert bs[0] == bs[1];
  }
}
