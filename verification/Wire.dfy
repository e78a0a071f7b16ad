/** The GPZ3 messages between client and GPU daemon: words in little-endian order, both ends of the codec. */
module Wire {
  import opened Bytes

  const WORD: nat := 0x1_0000_0000
  const GPZ3_MAGIC: nat := 0x47505A33
  const MAXBUF: nat := 16
  const MAXH: nat := 64
  const MAXSH: nat := 512
  const MAXSTAGE: nat := 4096
  const MAXPC: nat := 128
  const MAXSPIRV: nat := 16777216

  // ------------------------------------------------------------------ words

  function U32(x: nat): (w: seq<byte>)
    requires x < WORD
    ensures |w| == 4
  {
    [(x % 256) as byte, (x / 0x100 % 256) as byte, (x / 0x1_0000 % 256) as byte, (x / 0x100_0000) as byte]
  }

  /** The word at position i. */
  function Get32(s: seq<byte>, i: nat): (x: nat)
    requires i + 4 <= |s|
    ensures x < WORD
  {
    s[i] as nat + 0x100 * s[i + 1] as nat + 0x1_0000 * s[i + 2] as nat + 0x100_0000 * s[i + 3] as nat
  }

  lemma Get32Back(x: nat)
    requires x < WORD
    ensures Get32(U32(x), 0) == x
  {
    assert x / 0x1_0000 == x / 0x100 / 0x100 && x / 0x100_0000 == x / 0x1_0000 / 0x100;
  }

  /** A word inside a longer message. */
  lemma Get32Inside(s: seq<byte>, i: nat, x: nat)
    requires x < WORD && i + 4 <= |s| && s[i..i + 4] == U32(x)
    ensures Get32(s, i) == x
  {
    var w := s[i..i + 4];
    assert w[0] == s[i] && w[1] == s[i + 1] && w[2] == s[i + 2] && w[3] == s[i + 3];
    Get32Back(x);
    hide U32;
  }

  function Words(xs: seq<nat>): (w: seq<byte>)
    requires forall i :: 0 <= i < |xs| ==> xs[i] < WORD
    ensures |w| == 4 * |xs|
  {
    if xs == [] then [] else Words(xs[..|xs| - 1]) + U32(xs[|xs| - 1])
  }

  lemma {:induction false} WordsAt(xs: seq<nat>, i: nat)
    requires (forall k :: 0 <= k < |xs| ==> xs[k] < WORD) && i < |xs|
    ensures Words(xs)[4 * i..4 * i + 4] == U32(xs[i])
  {
    var n := |xs| - 1;
    hide U32;
    if i < n {
      WordsAt(xs[..n], i);
      assert Words(xs)[4 * i..4 * i + 4] == Words(xs[..n])[4 * i..4 * i + 4];
    }
  }

  /** Reading back word i of an array of words. */
  lemma WordBack(xs: seq<nat>, i: nat)
    requires (forall k :: 0 <= k < |xs| ==> xs[k] < WORD) && i < |xs|
    ensures Get32(Words(xs), 4 * i) == xs[i]
  {
    WordsAt(xs, i);
    Get32Inside(Words(xs), 4 * i, xs[i]);
  }

  /** A 64-bit offset travels as its low and its high word. */
  function Lo(x: nat): nat { x % WORD }
  function Hi(x: nat): nat { x / WORD }
  function Join(lo: nat, hi: nat): nat { hi * WORD + lo }

  lemma SplitJoin(x: nat)
    requires x < WORD * WORD
    ensures Lo(x) < WORD && Hi(x) < WORD && Join(Lo(x), Hi(x)) == x
  {
  }

  // ------------------------------------------------------------------ stages

  datatype Bind = Bind(handle: nat, off: nat, range: nat)
  {
    predicate Fits() {
      handle < WORD && off < WORD * WORD && range < WORD
    }

    function Fields(): (w: seq<nat>)
      requires Fits()
      ensures |w| == 4 && forall i :: 0 <= i < 4 ==> w[i] < WORD
    {
      SplitJoin(off);
      [handle, Lo(off), Hi(off), range]
    }
  }

  datatype Stage = Stage(sh: nat, gx: nat, gy: nat, gz: nat, binds: seq<Bind>, pc: seq<byte>, flags: nat)
  {
    predicate Fits() {
      && sh < WORD && gx < WORD && gy < WORD && gz < WORD && flags < WORD
      && |binds| <= MAXBUF && |pc| <= MAXPC && forall i :: 0 <= i < |binds| ==> binds[i].Fits()
    }

    function Head(): (w: seq<nat>)
      requires Fits()
      ensures |w| == 7 && forall i :: 0 <= i < 7 ==> w[i] < WORD
    {
      [sh, gx, gy, gz, |binds|, |pc|, flags]
    }
  }

  function BindBytes(b: Bind): (w: seq<byte>)
    requires b.Fits()
    ensures |w| == 16
  {
    Words(b.Fields())
  }

  function BindsBytes(bs: seq<Bind>): (w: seq<byte>)
    requires forall i :: 0 <= i < |bs| ==> bs[i].Fits()
    ensures |w| == 16 * |bs|
  {
    if bs == [] then [] else BindsBytes(bs[..|bs| - 1]) + BindBytes(bs[|bs| - 1])
  }

  /** Seven words, the bindings, the push constants. */
  function StageBytes(s: Stage): (w: seq<byte>)
    requires s.Fits()
    ensures |w| == 28 + 16 * |s.binds| + |s.pc|
  {
    Words(s.Head()) + BindsBytes(s.binds) + s.pc
  }

  function StagesBytes(st: seq<Stage>): (w: seq<byte>)
    requires forall i :: 0 <= i < |st| ==> st[i].Fits()
  {
    if st == [] then [] else StagesBytes(st[..|st| - 1]) + StageBytes(st[|st| - 1])
  }

  /** The buffer the client allocates for n stages. */
  function Capacity(n: nat): nat {
    n * (28 + MAXBUF * 16 + MAXPC)
  }

  /** The batch never outgrows its buffer. */
  lemma {:induction false} StagesFit(st: seq<Stage>)
    requires forall i :: 0 <= i < |st| ==> st[i].Fits()
    ensures |StagesBytes(st)| <= Capacity(|st|)
  {
    if st != [] { StagesFit(st[..|st| - 1]); }
  }

  lemma {:induction false} StagesFront(st: seq<Stage>)
    requires st != [] && forall i :: 0 <= i < |st| ==> st[i].Fits()
    ensures StagesBytes(st) == StageBytes(st[0]) + StagesBytes(st[1..])
  {
    var n := |st| - 1;
    hide StageBytes;
    if n > 0 {
      StagesFront(st[..n]);
      assert st[..n][1..] == st[1..][..n - 1] && st[1..][n - 1] == st[n];
      assert StagesBytes(st[1..]) == StagesBytes(st[1..][..n - 1]) + StageBytes(st[n]);
    } else {
      assert StagesBytes(st[..0]) == [] && StagesBytes(st[1..]) == [];
    }
  }

  lemma {:induction false} BindsAt(bs: seq<Bind>, i: nat)
    requires (forall k :: 0 <= k < |bs| ==> bs[k].Fits()) && i < |bs|
    ensures BindsBytes(bs)[16 * i..16 * i + 16] == BindBytes(bs[i])
  {
    var n := |bs| - 1;
    hide BindBytes;
    if i < n {
      BindsAt(bs[..n], i);
      assert BindsBytes(bs)[16 * i..16 * i + 16] == BindsBytes(bs[..n])[16 * i..16 * i + 16];
    }
  }

  lemma SliceSlice(w: seq<byte>, a: nat, n: nat, b: nat, m: nat)
    requires a + n <= |w| && b + m <= n
    ensures w[a..a + n][b..b + m] == w[a + b..a + b + m]
  {
    var l, r := w[a..a + n][b..b + m], w[a + b..a + b + m];
    forall j | 0 <= j < m ensures l[j] == r[j] {
      assert l[j] == w[a..a + n][b + j];
    }
  }

  /** Word k of four words that stand at a place of a longer message. */
  lemma SubWord(w: seq<byte>, at: nat, f: seq<nat>, k: nat)
    requires k < |f| == 4 && (forall i :: 0 <= i < |f| ==> f[i] < WORD)
    requires at + 16 <= |w| && w[at..at + 16] == Words(f)
    ensures Get32(w, at + 4 * k) == f[k]
  {
    hide *;
    WordsAt(f, k);
    SliceSlice(w, at, 16, 4 * k, 4);
    Get32Inside(w, at + 4 * k, f[k]);
  }

  lemma BindWord(bs: seq<Bind>, i: nat, k: nat)
    requires (forall k :: 0 <= k < |bs| ==> bs[k].Fits()) && i < |bs| && k < 4
    ensures Get32(BindsBytes(bs), 16 * i + 4 * k) == bs[i].Fields()[k]
  {
    hide *;
    var w, f, at := BindsBytes(bs), bs[i].Fields(), 16 * i;
    assert at + 16 <= |w|;
    BindsAt(bs, i);
    BindIsFields(bs[i]);
    SubWord(w, at, f, k);
  }

  lemma BindIsFields(b: Bind)
    requires b.Fits()
    ensures BindBytes(b) == Words(b.Fields())
  {
  }

  lemma FieldsAre(b: Bind)
    requires b.Fits()
    ensures var f := b.Fields(); f[0] == b.handle && Join(f[1], f[2]) == b.off && f[3] == b.range
  {
    SplitJoin(b.off);
  }

  /** Reading binding i back, word by word, rejoins its offset. */
  lemma BindBack(bs: seq<Bind>, i: nat)
    requires (forall k :: 0 <= k < |bs| ==> bs[k].Fits()) && i < |bs|
    ensures var w := BindsBytes(bs);
            && Get32(w, 16 * i) == bs[i].handle && Join(Get32(w, 16 * i + 4), Get32(w, 16 * i + 8)) == bs[i].off
            && Get32(w, 16 * i + 12) == bs[i].range
  {
    hide *;
    BindWord(bs, i, 0);
    BindWord(bs, i, 1);
    BindWord(bs, i, 2);
    BindWord(bs, i, 3);
    FieldsAre(bs[i]);
  }
}
