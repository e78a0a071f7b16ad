/** The daemon's command loop for one GPZ3 session (serve_v3). */
module GpuDaemon {
  import opened Bytes
  import opened Wire
  import opened Requests

  /** One direction of the socket. Reading blocks until the bytes are there, so whoever reads owes a proof that they
      come. */
  class Pipe {
    var data: seq<byte>
    /** File descriptors attached to the last header. */
    var fds: nat

    constructor ()
      ensures data == [] && fds == 0
    {
      data, fds := [], 0;
    }

    method Send(b: seq<byte>)
      modifies this`data
      ensures data == old(data) + b
    {
      data := data + b;
    }

    method Read(n: nat) returns (b: seq<byte>)
      requires n <= |data|
      modifies this`data
      ensures b == old(data[..n]) && data == old(data[n..])
    {
      b := data[..n];
      data := data[n..];
    }
  }

  // ------------------------------------------------------------------ reading back what was written

  /** The bytes a message begins with, and what follows them. */
  lemma Front(a: seq<byte>, b: seq<byte>)
    ensures (a + b)[..|a|] == a && (a + b)[|a|..] == b
  {
  }

  /** The header words of a stage, and the fields they stand for. */
  lemma HeadBack(s: Stage)
    requires s.Fits()
    ensures var w := Words(s.Head());
            && Get32(w, 0) == s.sh && Get32(w, 4) == s.gx && Get32(w, 8) == s.gy && Get32(w, 12) == s.gz
            && Get32(w, 16) == |s.binds| && Get32(w, 20) == |s.pc| && Get32(w, 24) == s.flags
  {
    var h := s.Head();
    hide Words, Get32;
    WordBack(h, 0); WordBack(h, 1); WordBack(h, 2); WordBack(h, 3); WordBack(h, 4); WordBack(h, 5); WordBack(h, 6);
  }

  class Daemon {
    const up: Pipe
    const down: Pipe
    const align: nat
    var t: Tables

    predicate Valid()
      reads this
    {
      align >= 1 && t.Valid() && up != down
    }

    constructor (fromClient: Pipe, toClient: Pipe, offsetAlign: nat)
      requires fromClient != toClient && offsetAlign >= 1
      ensures Valid() && up == fromClient && down == toClient && align == offsetAlign
      ensures forall k :: 0 <= k < MAXH ==> !t.h[k].used
    {
      up, down, align := fromClient, toClient, offsetAlign;
      t := Tables(seq(MAXH, _ => FREE), seq(MAXSH, _ => UNLOADED), false, []);
    }

    /** Status, then result words. */
    method Reply(status: nat, words: seq<nat>)
      requires status < WORD && forall i :: 0 <= i < |words| ==> words[i] < WORD
      modifies down`data
      ensures down.data == old(down.data) + U32(status) + Words(words)
    {
      down.Send(U32(status));
      down.Send(Words(words));
    }

    // ---------------------------------------------------------------- dispatch

    /** Reads and checks the bindings of one stage. */
    method ReadBinds(n: nat, ghost bs: seq<Bind>, ghost rest: seq<byte>) returns (ok: bool, got: seq<Bind>)
      requires Valid() && n == |bs| && (forall i :: 0 <= i < |bs| ==> bs[i].Fits())
      requires up.data == BindsBytes(bs) + rest
      modifies up`data
      ensures up.data == rest
      ensures ok <==> forall i :: 0 <= i < |bs| ==> BindOk(t.h, align, bs[i])
      ensures ok ==> got == bs
    {
      Front(BindsBytes(bs), rest);
      var bd := up.Read(n * 16);
      assert bd == BindsBytes(bs);
      got := [];
      hide Get32, BindsBytes, Join, BindOk;
      for i := 0 to n
        invariant got == bs[..i] && up.data == rest
        invariant forall k :: 0 <= k < i ==> BindOk(t.h, align, bs[k])
      {
        BindBack(bs, i);
        var b := Bind(Get32(bd, 16 * i), Join(Get32(bd, 16 * i + 4), Get32(bd, 16 * i + 8)), Get32(bd, 16 * i + 12));
        assert b == bs[i];
        if !BindOk(t.h, align, b) {
          assert !BindOk(t.h, align, bs[i]);
          return false, got;
        }
        got := got + [b];
      }
      return true, got;
    }

    /** Reads and checks one stage; a rejected stage may leave bytes unread. */
    method ReadStage(ghost s: Stage, ghost rest: seq<byte>) returns (ok: bool, got: Stage)
      requires Valid() && s.Fits() && up.data == StageBytes(s) + rest
      modifies up`data
      ensures ok <==> StageOk(t, align, s)
      ensures ok ==> got == s && up.data == rest
    {
      got := Stage(0, 0, 0, 0, [], [], 0);
      HeadBack(s);
      hide BindOk, Get32;
      StageParts(s, rest);
      hide Words, BindsBytes, StageBytes;
      Front(Words(s.Head()), BindsBytes(s.binds) + (s.pc + rest));
      var sx := up.Read(28);
      var sh, nbind, pcsize := Get32(sx, 0), Get32(sx, 16), Get32(sx, 20);
      if sh >= MAXSH || !t.sh[sh].used || nbind > MAXBUF || nbind != t.sh[sh].nbind || pcsize != t.sh[sh].pcsize
         || Get32(sx, 4) > 65535 || Get32(sx, 8) > 65535 || Get32(sx, 12) > 65535 {
        return false, got;
      }
      var good, bs := ReadBinds(nbind, s.binds, s.pc + rest);
      if !good { return false, got; }
      Front(s.pc, rest);
      var pc := up.Read(pcsize);
      return true, Stage(sh, Get32(sx, 4), Get32(sx, 8), Get32(sx, 12), bs, pc, Get32(sx, 24));
    }

    /** DISPATCH: reads all stages, and runs them if all are acceptable. */
    method ServeBatch(n: nat, ghost st: seq<Stage>, ghost rest: seq<byte>) returns (ghost status: nat)
      requires Valid() && n == |st| && forall i :: 0 <= i < |st| ==> st[i].Fits() && StageOk(t, align, st[i])
      requires up.data == StagesBytes(st) + rest
      modifies this`t, up`data, down`data
      ensures Valid() && up.data == rest && t == old(t).(ran := st)
      ensures status <= 1 && down.data == old(down.data) + U32(status) + Words([])
    {
      var got: seq<Stage> := [];
      hide StageOk, StageBytes, U32, Words;
      for i := 0 to n
        invariant Valid() && t == old(t) && down.data == old(down.data)
        invariant got == st[..i] && up.data == StagesBytes(st[i..]) + rest
      {
        StagesFront(st[i..]);
        assert st[i..][1..] == st[i + 1..];
        assert StageBytes(st[i]) + StagesBytes(st[i + 1..]) + rest == StageBytes(st[i])
            + (StagesBytes(st[i + 1..]) + rest);
        var ok, s := ReadStage(st[i], StagesBytes(st[i + 1..]) + rest);
        got := got + [s];
      }
      t := t.(ran := got);
      var gpuFailed: bool := *;
      var code := if gpuFailed then 1 else 0;
      Reply(code, []);
      return code;
    }

    // ---------------------------------------------------------------- buffers

    /** One free slot after the other; the driver may refuse any of them, and then the ones before stay taken. */
    method TakeAll(bsize: seq<byte>, n: nat, ghost sizes: seq<nat>) returns (ok: bool, hd: seq<nat>)
      requires Valid() && n == |sizes| && (forall i :: 0 <= i < n ==> sizes[i] < WORD) && bsize == Words(sizes)
      modifies this`t
      ensures Valid() && t == old(t).(h := t.h)
      ensures ok ==> TakeSlots(old(t.h), sizes) == Taken(t.h, hd)
      ensures !ok ==> exists k, hs :: 0 <= k < n && TakeSlots(old(t.h), sizes[..k]) == Taken(t.h, hs)
    {
      hide U32, Words, Get32, FirstFree;
      hd := [];
      for i := 0 to n
        invariant Valid() && t == old(t).(h := t.h) && TakeSlots(old(t.h), sizes[..i]) == Taken(t.h, hd)
      {
        TakeNext(old(t.h), sizes, i);
        WordBack(sizes, i);
        var slot := FirstFreeSlot();
        var refused: bool := *;
        if slot == MAXH || refused { return false, hd; }
        t := t.(h := t.h[slot := Slot(true, Get32(bsize, 4 * i))]);
        hd := hd + [slot];
      }
      assert sizes[..n] == sizes;
      return true, hd;
    }

    /** IMPORT */
    method ServeImport(n: nat, ghost sizes: seq<nat>) returns (ghost status: nat, ghost words: seq<nat>)
      requires Valid() && Import(sizes).Fits() && n == |sizes| == up.fds && up.data == Words(sizes)
      modifies this`t, up`data, down`data
      ensures Valid() && up.data == [] && Answers(old(t), Import(sizes), t, status, words)
      ensures |words| <= MAXBUF && forall i :: 0 <= i < |words| ==> words[i] < WORD
      ensures down.data == old(down.data) + U32(status) + Words(words)
    {
      hide U32, Words, TakeSlots;
      var bsize := up.Read(n * 4);
      var ok, hd := TakeAll(bsize, n, sizes);
      if ok {
        TakeShape(old(t.h), sizes);
        Reply(0, hd);
        return 0, hd;
      }
      Reply(1, []);
      return 1, [];
    }

    /** RELEASE */
    method ServeRelease(n: nat, ghost handles: seq<nat>) returns (ghost status: nat, ghost words: seq<nat>)
      requires Valid() && Release(handles).Fits() && n == |handles| && up.data == Words(handles)
      modifies this`t, up`data, down`data
      ensures Valid() && up.data == [] && Answers(old(t), Release(handles), t, status, words)
      ensures words == [] && down.data == old(down.data) + U32(status) + Words(words)
    {
      var hd := up.Read(n * 4);
      hide U32, Words, Get32;
      ghost var before := t;
      for i := 0 to n
        invariant Valid() && t == before.(h := Released(before.h, handles[..i])) && up.data == []
          && down.data == old(down.data)
      {
        WordBack(handles, i);
        assert handles[..i + 1][..i] == handles[..i];
        var k := Get32(hd, 4 * i);
        if k < MAXH && t.h[k].used { t := t.(h := t.h[k := FREE]); }
      }
      assert handles[..n] == handles;
      Reply(0, []);
      return 0, [];
    }

    /** ALLOC_NATIVE: the driver may refuse. */
    method ServeAlloc(size: nat) returns (ghost status: nat, ghost words: seq<nat>)
      requires Valid() && Alloc(size).Fits()
      modifies this`t, down`data
      ensures Valid() && Answers(old(t), Alloc(size), t, status, words)
      ensures |words| <= 1 && (forall i :: 0 <= i < |words| ==> words[i] < WORD)
      ensures down.data == old(down.data) + U32(status) + Words(words)
    {
      hide U32, Words, FirstFree;
      var slot := FirstFreeSlot();
      var refused: bool := *;
      if slot < MAXH && size != 0 && !refused {
        t := t.(h := t.h[slot := Slot(true, size)]);
        Reply(0, [slot]);
        return 0, [slot];
      }
      Reply(1, []);
      return 1, [];
    }

    /** COPY: copies between two buffers in use, and inside them if offset plus length does not wrap around. */
    method ServeCopy(src: nat, dst: nat, ghost so: nat, ghost do: nat, ghost len: nat)
        returns (ghost status: nat, ghost words: seq<nat>)
      requires Valid() && Copy(src, dst, so, do, len).Fits() && up.data == CopyWords(so, do, len)
      modifies up`data, down`data
      ensures Valid() && up.data == [] && Answers(t, Copy(src, dst, so, do, len), t, status, words)
      ensures status == 0 && EndsFit(so, do, len) ==> CopyInside(t.h, src, dst, so, do, len)
      ensures words == [] && down.data == old(down.data) + U32(status) + Words(words)
    {
      hide U32, Words, Get32, CopyWords, Join, CopyOk, Answers, EndsFit, CopyInside;
      var pl := up.Read(24);
      assert pl == CopyWords(so, do, len);
      CopyBack(so, do, len);
      CopyAnswers(t, src, dst, so, do, len);
      var o1, o2, l :=
          Join(Get32(pl, 0), Get32(pl, 4)), Join(Get32(pl, 8), Get32(pl, 12)), Join(Get32(pl, 16), Get32(pl, 20));
      var failed: bool := *;
      if CopyOk(t.h, src, dst, o1, o2, l) && !failed {
        FittingCopy(t.h, src, dst, so, do, len);
        Reply(0, []);
        return 0, [];
      }
      Reply(1, []);
      return 1, [];
    }

    // ---------------------------------------------------------------- shaders

    /** LOAD: a free entry gets the shader, unless the driver refuses it. */
    method ServeLoad(slen: nat, nbind: nat, pcsize: nat, ghost spirv: seq<byte>)
        returns (ghost status: nat, ghost words: seq<nat>)
      requires Valid() && Load(spirv, nbind, pcsize).Fits() && slen == |spirv| && up.data == spirv
      modifies this`t, up`data, down`data
      ensures Valid() && up.data == [] && Answers(old(t), Load(spirv, nbind, pcsize), t, status, words)
      ensures |words| <= 1 && (forall i :: 0 <= i < |words| ==> words[i] < WORD)
      ensures down.data == old(down.data) + U32(status) + Words(words)
    {
      hide U32, Words, FirstUnloaded;
      var spv := up.Read(slen);
      var slot := 0;
      while slot < MAXSH && t.sh[slot].used
        invariant slot <= MAXSH && forall k :: 0 <= k < slot ==> t.sh[k].used
      {
        slot := slot + 1;
      }
      FirstUnloadedIs(t.sh, slot);
      var refused: bool := *;
      if slot < MAXSH && !refused {
        t := t.(sh := t.sh[slot := Shader(true, nbind, pcsize)]);
        Reply(0, [slot]);
        return 0, [slot];
      }
      Reply(1, []);
      return 1, [];
    }

    /** UNLOAD */
    method ServeUnload(sh: nat) returns (ghost status: nat, ghost words: seq<nat>)
      requires Valid()
      modifies this`t, down`data
      ensures Valid() && Answers(old(t), Unload(sh), t, status, words)
      ensures words == [] && down.data == old(down.data) + U32(status) + Words(words)
    {
      if sh < MAXSH && t.sh[sh].used {
        t := t.(sh := t.sh[sh := UNLOADED]);
        Reply(0, []);
        return 0, [];
      }
      Reply(1, []);
      return 1, [];
    }

    /** The daemon's search for a free handle. */
    method FirstFreeSlot() returns (slot: nat)
      requires Valid()
      ensures slot == FirstFree(t.h) <= MAXH
    {
      slot := 0;
      while slot < MAXH && t.h[slot].used
        invariant slot <= MAXH && forall k :: 0 <= k < slot ==> t.h[k].used
      {
        slot := slot + 1;
      }
      FirstFreeIs(t.h, slot);
    }

    /** FLAGS */
    method ServeFlags(bits: nat) returns (ghost status: nat, ghost words: seq<nat>)
      requires Valid()
      modifies this`t, down`data
      ensures Valid() && Answers(old(t), Flags(bits), t, status, words)
      ensures words == [] && down.data == old(down.data) + U32(status) + Words(words)
    {
      t := t.(noBarriers := bits % 2 == 1);
      Reply(0, []);
      return 0, [];
    }

    /** One turn of the command loop: a whole request in, a whole reply out, and nothing left over. */
    method Serve(ghost r: Request) returns (ghost status: nat, ghost words: seq<nat>)
      requires Valid() && r.Fits() && up.data == r.Bytes() && up.fds == r.Fds()
      requires r.Batch? ==> forall i :: 0 <= i < |r.stages| ==> StageOk(t, align, r.stages[i])
      modifies this`t, up`data, down`data
      ensures Valid() && up.data == [] && Answers(old(t), r, t, status, words)
      ensures forall i :: 0 <= i < |words| ==> words[i] < WORD
      ensures down.data == old(down.data) + U32(status) + Words(words)
    {
      HeaderBack(r);
      Front(Words(r.Header()), r.Payload());
      hide Answers, StageOk, Get32, Words, Request.Header, Request.Payload;
      var hdr := up.Read(24);
      status, words := Dispatch(Get32(hdr, 4), Get32(hdr, 8), Get32(hdr, 12), Get32(hdr, 16), r);
    }

    /** The command switch, after the header. */
    method Dispatch(cmd: nat, a: nat, b: nat, c: nat, ghost r: Request)
        returns (ghost status: nat, ghost words: seq<nat>)
      requires Valid() && r.Fits() && up.data == r.Payload() && up.fds == r.Fds()
      requires cmd == r.Header()[1] && a == r.Header()[2] && b == r.Header()[3] && c == r.Header()[4]
      requires r.Batch? ==> forall i :: 0 <= i < |r.stages| ==> StageOk(t, align, r.stages[i])
      modifies this`t, up`data, down`data
      ensures Valid() && up.data == [] && Answers(old(t), r, t, status, words)
      ensures forall i :: 0 <= i < |words| ==> words[i] < WORD
      ensures down.data == old(down.data) + U32(status) + Words(words)
    {
      hide U32, Words, Answers, StageOk, CopyWords;
      if cmd == 1 {
        status, words := ServeImport(a, r.sizes);
      } else if cmd == 4 {
        status, words := ServeLoad(a, b, c, r.spirv);
      } else if cmd == 9 {
        assert up.data == StagesBytes(r.stages) + [];
        status := ServeBatch(a, r.stages, []);
        words := [];
        BatchAnswer(old(t), r, status);
      } else {
        status, words := DispatchRest(cmd, a, b, r);
      }
    }

    method DispatchRest(cmd: nat, a: nat, b: nat, ghost r: Request) returns (ghost status: nat, ghost words: seq<nat>)
      requires Valid() && r.Fits() && up.data == r.Payload() && up.fds == r.Fds()
      requires cmd == r.Header()[1] && a == r.Header()[2] && b == r.Header()[3] && !r.Import? && !r.Load? && !r.Batch?
      modifies this`t, up`data, down`data
      ensures Valid() && up.data == [] && Answers(old(t), r, t, status, words)
      ensures forall i :: 0 <= i < |words| ==> words[i] < WORD
      ensures down.data == old(down.data) + U32(status) + Words(words)
    {
      hide U32, Words, Answers, StageOk, CopyWords;
      if cmd == 10 {
        status, words := ServeAlloc(a);
      } else if cmd == 11 {
        status, words := ServeCopy(a, b, r.srcOff, r.dstOff, r.len);
      } else if cmd == 8 {
        status, words := ServeFlags(a);
      } else if cmd == 6 {
        status, words := ServeUnload(a);
      } else {
        status, words := ServeRelease(a, r.handles);
      }
    }
  }

  lemma CopyAnswers(t: Tables, src: nat, dst: nat, so: nat, do: nat, len: nat)
    ensures Answers(t, Copy(src, dst, so, do, len), t, 1, [])
    ensures CopyOk(t.h, src, dst, so, do, len) ==> Answers(t, Copy(src, dst, so, do, len), t, 0, [])
  {
  }

  lemma BatchAnswer(t: Tables, r: Request, status: nat)
    requires r.Batch? && status <= 1
    ensures Answers(t, r, t.(ran := r.stages), status, [])
  {
  }

  /** The daemon finds the request's own header words, in the order it looks at them. */
  lemma HeaderBack(r: Request)
    requires r.Fits()
    ensures var w, h := Words(r.Header()), r.Header();
            Get32(w, 4) == h[1] && Get32(w, 8) == h[2] && Get32(w, 12) == h[3] && Get32(w, 16) == h[4]
  {
    var h := r.Header();
    hide Words, Get32, Request.Header;
    WordBack(h, 1); WordBack(h, 2); WordBack(h, 3); WordBack(h, 4);
  }

  lemma FirstFreeIs(h: seq<Slot>, k: nat)
    requires k <= |h| && (forall i :: 0 <= i < k ==> h[i].used) && (k < |h| ==> !h[k].used)
    ensures FirstFree(h) == k
  {
  }

  lemma FirstUnloadedIs(sh: seq<Shader>, k: nat)
    requires k <= |sh| && (forall i :: 0 <= i < k ==> sh[i].used) && (k < |sh| ==> !sh[k].used)
    ensures FirstUnloaded(sh) == k
  {
  }

  lemma CopyBack(so: nat, do: nat, len: nat)
    requires so < WORD * WORD && do < WORD * WORD && len < WORD * WORD
    ensures var w := CopyWords(so, do, len);
            && Join(Get32(w, 0), Get32(w, 4)) == so && Join(Get32(w, 8), Get32(w, 12)) == do
            && Join(Get32(w, 16), Get32(w, 20)) == len
  {
    SplitJoin(so);
    SplitJoin(do);
    SplitJoin(len);
    var ws := [Lo(so), Hi(so), Lo(do), Hi(do), Lo(len), Hi(len)];
    hide Words, Get32, Lo, Hi, Join;
    WordBack(ws, 0); WordBack(ws, 1); WordBack(ws, 2); WordBack(ws, 3); WordBack(ws, 4); WordBack(ws, 5);
  }

  lemma TakeNext(h: seq<Slot>, sizes: seq<nat>, i: nat)
    requires i < |sizes| && TakeSlots(h, sizes[..i]).Taken?
    ensures var t := TakeSlots(h, sizes[..i]);
            TakeSlots(h, sizes[..i + 1]) == if FirstFree(t.h) == |t.h| then Full
              else Taken(t.h[FirstFree(t.h) := Slot(true, sizes[i])], t.handles + [FirstFree(t.h)])
  {
    assert sizes[..i + 1][..i] == sizes[..i];
  }

  lemma TakeShape(h: seq<Slot>, sizes: seq<nat>)
    requires TakeSlots(h, sizes).Taken?
    ensures var t := TakeSlots(h, sizes);
            |t.handles| == |sizes| && |t.h| == |h| && forall i :: 0 <= i < |t.handles| ==> t.handles[i] < |h|
  {
    TakenSlots(h, sizes);
  }

  lemma StageParts(s: Stage, rest: seq<byte>)
    requires s.Fits()
    ensures StageBytes(s) + rest == Words(s.Head()) + (BindsBytes(s.binds) + (s.pc + rest))
  {
    hide Words, BindsBytes;
    assert StageBytes(s) + rest == Words(s.Head()) + BindsBytes(s.binds) + s.pc + rest;
  }
}
