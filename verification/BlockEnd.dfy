/** Where a decoded block may end: inside the data whenever its bits were written there - but a block that was cut off
    can be accepted, and exactly when. */
module BlockEnd {
  import opened Bits
  import opened Bytes
  import opened Canonical
  import opened Huffman
  import opened BitReader
  import opened Deflate
  import opened Inflate

  /** A written block decodes to what its tokens mean and takes exactly its own bits, if the output may grow to twice
      its size. */
  method ReadWritten(inf: Inflater, c: Codes, ghost ts: seq<Token>) returns (outcome: Outcome)
    requires inf.r.Valid() && inf.Tables(c) && inf.Valid() && inf.expandable
    requires Written(c, inf.r.data, inf.r.at, ts, inf.buf[..inf.zout])
    requires 2 * |Run(inf.buf[..inf.zout], ts)| <= inf.quota
    modifies inf`buf, inf`zout, inf.buf, inf.r
    ensures outcome.Done? && inf.r.Valid() && inf.Valid()
    ensures inf.buf[..inf.zout] == Run(old(inf.buf[..inf.zout]), ts)
    ensures inf.r.at == old(inf.r.at) + |BlockBits(c, ts)|
  {
    hide Written, Finished, Stopped, Overflows, Inflater.Tables, Run, BlockBits, AllLegal, Reader.Valid, RunsShort;
    ghost var data, p, out := inf.r.data, inf.r.at, inf.buf[..inf.zout];
    outcome := inf.ParseBlock(c);
    WrittenNeverStops(c, data, p, ts, out, inf.r.hitEof);
    if Overflows(c, data, p, out, inf.quota) { WrittenOverflows(c, data, p, ts, out, inf.quota); }
    if outcome.Done? { WrittenFinishes(c, data, p, ts, out, inf.r.at, inf.buf[..inf.zout]); }
  }

  // ------------------------------------------------------------------ an odd end mark

  /** If the code of the end mark ends in a one, a block that was read lies inside the data: behind it are only
      zeros. */
  lemma OddEndInside(c: Codes, data: seq<nat>, p: nat, q: nat, out: seq<byte>, now: seq<byte>)
    requires Finished(c, data, p, q, out, now) && |c.ll| > END_OF_BLOCK && Code(c.ll, END_OF_BLOCK) % 2 == 1
    ensures q <= 8 * |data|
  {
    hide Code, TokensAt, Width, AllLegal, Run, Bit;
    var ts :| BlockAt(c, data, p, ts, q) && AllLegal(out, ts) && now == Run(out, ts);
    assert StreamBit(data, q - 1);
  }

  // ------------------------------------------------------------------ an even end mark

  function FromBits(w: seq<bool>): nat {
    if w == [] then 0 else (if w[0] then 1 else 0) + 2 * FromBits(w[1..])
  }

  lemma {:induction false} FromBitsHas(w: seq<bool>, i: nat)
    ensures Bit(FromBits(w), i) <==> i < |w| && w[i]
  {
    if w == [] {
      ZeroBits(i);
    } else if i > 0 {
      FromBitsHas(w[1..], i - 1);
    }
  }

  lemma {:induction false} FromBitsBelow(w: seq<bool>)
    ensures FromBits(w) < Pow2(|w|)
  {
    if w != [] { FromBitsBelow(w[1..]); }
  }

  /** Two bytes with the given bits. */
  function TwoBytes(w: seq<bool>): (data: seq<nat>)
    requires |w| == 16
    ensures |data| == 2
  {
    [FromBits(w[..8]), FromBits(w[8..])]
  }

  lemma TwoBytesHave(w: seq<bool>, q: nat)
    requires |w| == 16
    ensures StreamBit(TwoBytes(w), q) <==> q < 16 && w[q]
    ensures forall i :: 0 <= i < 2 ==> TwoBytes(w)[i] < 256
  {
    hide Bit, FromBits;
    FromBitsBelow(w[..8]);
    FromBitsBelow(w[8..]);
    Pow2Values();
    if q < 8 { FromBitsHas(w[..8], q); } else if q < 16 { FromBitsHas(w[8..], q - 8); }
  }

  /** Two bytes that end one bit before the end mark does, which begins at bit 17 - s. */
  function CutOff(c: Codes): (data: seq<nat>)
    requires |c.ll| > END_OF_BLOCK && 1 <= c.ll[END_OF_BLOCK] <= 15
    ensures |data| == 2
  {
    var s := c.ll[END_OF_BLOCK];
    TwoBytes(seq(17 - s, _ => false) + Word(Code(c.ll, END_OF_BLOCK), s)[..s - 1])
  }

  lemma LastOfWord(code: nat, n: nat)
    requires n >= 1
    ensures Word(code, n)[n - 1] == (code % 2 == 1)
  {
  }

  lemma CutOffHolds(c: Codes)
    requires Accepted(c.ll) && |c.ll| > END_OF_BLOCK && 1 <= c.ll[END_OF_BLOCK] <= 15
      && Code(c.ll, END_OF_BLOCK) % 2 == 0
    ensures SymbolAt(c.ll, CutOff(c), 17 - c.ll[END_OF_BLOCK], END_OF_BLOCK)
    ensures forall i :: 0 <= i < 2 ==> CutOff(c)[i] < 256
  {
    hide Code, StreamBit, TwoBytes, Accepted, Word, Key;
    var s := c.ll[END_OF_BLOCK];
    var word := Word(Code(c.ll, END_OF_BLOCK), s);
    var w := seq(17 - s, _ => false) + word[..s - 1];
    TwoBytesHave(w, 0);
    LastOfWord(Code(c.ll, END_OF_BLOCK), s);
    forall t | 0 <= t < s ensures StreamBit(CutOff(c), 17 - s + t) == word[t] {
      TwoBytesHave(w, 17 - s + t);
      if t < s - 1 { assert w[17 - s + t] == word[..s - 1][t]; }
    }
    WordIsSymbol(c.ll, CutOff(c), 17 - s, END_OF_BLOCK);
  }

  /** Where the end mark stands, no token does. */
  lemma NoTokens(c: Codes, data: seq<nat>, p: nat, ts: seq<Token>)
    requires Lengths(c) && SymbolAt(c.ll, data, p, END_OF_BLOCK) && TokensAt(c, data, p, ts)
    ensures ts == [] && Width(c, ts) == 0
  {
    hide TokenAt, SymbolAt, Size;
    if ts != [] {
      NextStands(c, data, p, ts, 0);
      EndIsNoToken(c, data, p, ts[0]);
    }
  }

  lemma EndIsNoLength(c: Codes, data: seq<nat>, p: nat, known: nat)
    requires Lengths(c) && SymbolAt(c.ll, data, p, END_OF_BLOCK) && p + 16 <= known
    ensures !Short(c, data, p, known)
  {
    hide Key, Code, LengthExtra;
    if Short(c, data, p, known) {
      var ls :| 0 <= ls < 29 && SymbolAt(c.ll, data, p, 257 + ls) && p + c.ll[257 + ls] + LengthExtra(ls) + 16 > known;
      SymbolUnique(c.ll, data, p, END_OF_BLOCK, 257 + ls);
    }
  }

  /** With the end mark in front and 16 bits known, decoding does not notice the end of the data, finds nothing wrong
      and needs no space. */
  lemma EndInFront(c: Codes, data: seq<nat>, p: nat, known: nat)
    requires Lengths(c) && SymbolAt(c.ll, data, p, END_OF_BLOCK) && p + 16 <= known
    ensures !RunsShort(c, data, p, [], known) && !Stopped(c, data, p, [], false) && !Overflows(c, data, p, [], 0)
    ensures forall q, now :: Finished(c, data, p, q, [], now) ==> q == p + c.ll[END_OF_BLOCK]
  {
    hide SymbolAt, TokensAt, Width, Short, TokenAt, Legal;
    EndIsNoLength(c, data, p, known);
    forall ts | TokensAt(c, data, p, ts) ensures ts == [] && Width(c, ts) == 0 { NoTokens(c, data, p, ts); }
  }

  /** If it ends in a zero, not: for all such codes there are data that end one bit too early, and the decoder accepts
      the block. The last bit is one of the zeros that FillBits puts behind the data, and hitEof is not set. */
  method EndInPadding(c: Codes) returns (outcome: Outcome, r: Reader)
    requires Usable(c.ll) && Usable(c.dl) && Accepted(c.ll) && Accepted(c.dl)
    requires |c.ll| > END_OF_BLOCK && c.ll[END_OF_BLOCK] > 0 && Code(c.ll, END_OF_BLOCK) % 2 == 0
    ensures outcome.Done? && r.Valid() && r.at == 8 * |r.data| + 1
  {
    hide Finished, Stopped, Overflows, RunsShort, Inflater.Tables, Reader.Valid, Usable, Accepted, Code, SymbolAt;
    hide Lengths;
    r := BeforeEnd(c);
    var inf := OverBoth(c, r);
    EndInFront(c, r.data, r.at, 8 * |r.data| + r.pads);
    assert inf.buf[..inf.zout] == [];
    outcome := inf.ParseBlock(c);
  }

  /** A reader that stands in front of the end mark, after taking the bits before it in one piece. */
  method BeforeEnd(c: Codes) returns (r: Reader)
    requires Usable(c.ll) && Usable(c.dl) && Accepted(c.ll)
    requires |c.ll| > END_OF_BLOCK && c.ll[END_OF_BLOCK] > 0 && Code(c.ll, END_OF_BLOCK) % 2 == 0
    ensures fresh(r) && r.Valid() && !r.hitEof && |r.data| == 2 && Lengths(c)
    ensures r.at + c.ll[END_OF_BLOCK] == 17 && SymbolAt(c.ll, r.data, r.at, END_OF_BLOCK) && r.at <= r.pads
  {
    var s := c.ll[END_OF_BLOCK];
    assert 1 <= s <= 15;
    CutOffHolds(c);
    WrittenLengths(c);
    hide CutOff, Code, SymbolAt, Accepted, Buffers, Lengths, Usable;
    r := new Reader(CutOff(c));
    var _ := r.Receive(17 - s);
  }

  /** A decoder with the tables of both lists, and no space to grow. */
  method OverBoth(c: Codes, r: Reader) returns (inf: Inflater)
    requires Usable(c.ll) && Usable(c.dl) && Accepted(c.ll) && Accepted(c.dl)
    ensures fresh(inf) && fresh(inf.buf) && inf.r == r && inf.Valid() && inf.Tables(c)
    ensures inf.expandable && inf.quota == 0 && inf.zout == 0
  {
    hide Accepted, Usable, FastTable, SortedLists, CodeTables;
    var zl := new Table();
    var zd := new Table();
    var ok := zl.Build(c.ll);
    ok := zd.Build(c.dl);
    inf := new Inflater(r, zl, zd, true, 0, 1);
  }
}
