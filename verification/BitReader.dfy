/** The bit buffer of the zlib decoder (stbi__zbuf) and symbol decoding. */
module BitReader {
  import opened Bits
  import opened BitReversal
  import opened Canonical
  import opened Huffman

  /** The next n bits as a number, the first one least significant: how the format packs everything but codes. */
  function Field(data: seq<nat>, p: nat, n: nat): nat
    decreases n
  {
    if n == 0 then 0 else (if StreamBit(data, p) then 1 else 0) + 2 * Field(data, p + 1, n - 1)
  }

  /** The buffer holds the n stream bits from p on and nothing else. */
  ghost predicate Buffers(buf: nat, data: seq<nat>, p: nat, n: nat) {
    forall i: nat :: Bit(buf, i) <==> i < n && StreamBit(data, p + i)
  }

  lemma {:induction false} FieldIsLow(buf: nat, data: seq<nat>, p: nat, n: nat)
    requires forall i: nat :: i < n ==> (Bit(buf, i) <==> StreamBit(data, p + i))
    ensures Low(buf, n) == Field(data, p, n)
    decreases n
  {
    if n > 0 {
      assert Bit(buf, 0) <==> StreamBit(data, p + 0);
      forall i: nat | i < n - 1 ensures Bit(buf / 2, i) <==> StreamBit(data, p + 1 + i) {
        assert Bit(buf, i + 1) <==> StreamBit(data, p + (i + 1));
      }
      FieldIsLow(buf / 2, data, p + 1, n - 1);
    }
  }

  lemma {:induction false} KeyIsRev(buf: nat, data: seq<nat>, p: nat, n: nat)
    requires forall i: nat :: i < n ==> (Bit(buf, i) <==> StreamBit(data, p + i))
    ensures Key(data, p, n) == Rev(buf, n)
  {
    if n > 0 {
      KeyIsRev(buf, data, p, n - 1);
      assert Bit(buf, n - 1) <==> StreamBit(data, p + (n - 1));
    }
  }

  lemma Dropped(buf: nat, data: seq<nat>, p: nat, n: nat, k: nat)
    requires Buffers(buf, data, p, n) && k <= n
    ensures Buffers(Shr(buf, k), data, p + k, n - k)
  {
    hide Bit, StreamBit;
    forall i: nat ensures Bit(Shr(buf, k), i) <==> i < n - k && StreamBit(data, p + k + i) {
      BitShr(buf, k, i);
      assert Bit(buf, k + i) <==> k + i < n && StreamBit(data, p + (k + i));
    }
  }

  lemma ByteBits(b: nat, i: nat)
    requires b < 256 && 8 <= i
    ensures !Bit(b, i)
  {
    Pow2Values();
    HighBitsZero(b, 8, i);
  }

  lemma ByteOfStream(data: seq<nat>, q: nat, i: nat)
    requires q < |data| && i < 8
    ensures StreamBit(data, 8 * q + i) <==> Bit(data[q], i)
  {
    assert (8 * q + i) / 8 == q && (8 * q + i) % 8 == i;
  }

  /** Appending the byte at position q, or zero bits past the end. */
  lemma Appended(buf: nat, data: seq<nat>, p: nat, n: nat, q: nat, b: nat)
    requires Buffers(buf, data, p, n) && (forall i :: 0 <= i < |data| ==> data[i] < 256)
    requires if q < |data| then p + n == 8 * q && b == data[q] else p + n >= 8 * |data| && b == 0
    ensures Buffers(Or(buf, Shl(b, n)), data, p, n + 8)
  {
    hide Bit, Or, Shl, StreamBit;
    forall i: nat ensures Bit(Or(buf, Shl(b, n)), i) <==> i < n + 8 && StreamBit(data, p + i) {
      BitOr(buf, Shl(b, n), i);
      BitShl(b, n, i);
      if q < |data| {
        if n + 8 <= i {
          ByteBits(b, i - n);
        } else if n <= i {
          ByteOfStream(data, q, i - n);
        }
      } else {
        if n <= i {
          ZeroBits(i - n);
          PastEnd(data, p + i);
        }
      }
    }
  }

  lemma PastEnd(data: seq<nat>, p: nat)
    requires p >= 8 * |data|
    ensures !StreamBit(data, p)
  {
  }

  lemma Padded(buf: nat, data: seq<nat>, p: nat, n: nat)
    requires Buffers(buf, data, p, n) && p + n >= 8 * |data|
    ensures Buffers(buf, data, p, n + 16)
  {
    hide Bit, StreamBit;
    forall i: nat ensures Bit(buf, i) <==> i < n + 16 && StreamBit(data, p + i) {
      if n <= i { PastEnd(data, p + i); }
    }
  }

  // ------------------------------------------------------------------ what the tables answer

  /** A nonempty fast slot names the symbol at the front of the stream. */
  lemma FastFound(sl: seq<nat>, fast: seq<nat>, buf: nat, data: seq<nat>, p: nat, n: nat)
    requires |fast| == FAST_SIZE && Usable(sl) && FastTable(sl, |sl|, fast) && Buffers(buf, data, p, n) && n >= 16
    requires Low(buf, 9) < FAST_SIZE && fast[Low(buf, 9)] != 0
    ensures var b := fast[Low(buf, 9)]; SymbolAt(sl, data, p, b % 512) && b / 512 == sl[b % 512]
  {
    hide Low, Rev, Bit, Code;
    var j := Low(buf, 9);
    var v :| 0 <= v < |sl| && FastHit(sl, v, j);
    assert fast[j] == FastEntry(sl, v);
    LowLow(buf, sl[v], 9);
    KeyIsRev(buf, data, p, sl[v]);
  }

  lemma ShortHits(sl: seq<nat>, buf: nat, data: seq<nat>, p: nat, n: nat, v: nat)
    requires Usable(sl) && Buffers(buf, data, p, n) && n >= 16 && SymbolAt(sl, data, p, v)
    ensures v < |sl| && (sl[v] <= FAST_BITS ==> FastHit(sl, v, Low(buf, 9)))
  {
    hide Low, Rev, Bit, Code;
    if sl[v] <= FAST_BITS {
      LowLow(buf, sl[v], 9);
      KeyIsRev(buf, data, p, sl[v]);
    }
  }

  ghost predicate NoShortSymbol(sl: seq<nat>, data: seq<nat>, p: nat) {
    forall u: nat :: SymbolAt(sl, data, p, u) ==> sl[u] > FAST_BITS
  }

  /** An empty one says that no code of at most 9 bits is there. */
  lemma FastMissed(sl: seq<nat>, fast: seq<nat>, buf: nat, data: seq<nat>, p: nat, n: nat)
    requires |fast| == FAST_SIZE && Usable(sl) && FastTable(sl, |sl|, fast) && Buffers(buf, data, p, n) && n >= 16
    requires Low(buf, 9) < FAST_SIZE && fast[Low(buf, 9)] == 0
    ensures NoShortSymbol(sl, data, p)
  {
    hide Low, FastHit, Key, Code;
    forall v: nat | SymbolAt(sl, data, p, v) ensures sl[v] > FAST_BITS {
      ShortHits(sl, buf, data, p, n, v);
    }
  }

  /** The first length whose limit exceeds the key is the length of the symbol in front. */
  lemma SlowFound(sl: seq<nat>, k: nat, s: nat) returns (v: nat)
    requires Usable(sl) && 10 <= s <= 15 && k < Limit(sl, s) && (s == 10 || Limit(sl, s - 1) <= k)
    requires forall u: nat :: KeyMatches(sl, k, u) ==> sl[u] > FAST_BITS
    ensures KeyMatches(sl, k, v) && sl[v] == s
  {
    hide Limit, Code;
    v := MatchBelow(sl, k, s);
    if sl[v] < s {
      MatchInterval(sl, k, v);
      LimitGrows(sl, sl[v], s - 1);
    }
  }

  /** A key beyond every limit starts with no code. */
  lemma SlowMissed(sl: seq<nat>, k: nat, v: nat)
    requires Usable(sl) && Limit(sl, 15) <= k
    ensures !KeyMatches(sl, k, v)
  {
    if KeyMatches(sl, k, v) {
      MatchInterval(sl, k, v);
      LimitGrows(sl, sl[v], 15);
    }
  }

  lemma SlowSlot(sl: seq<nat>, u: nat, size: seq<nat>, value: seq<nat>)
    requires Usable(sl) && SortedLists(sl, |sl|, size, value) && u < |sl| && sl[u] > 0
    ensures var b := Code(sl, u) - First(sl, sl[u]) + Start(sl, sl[u]);
            0 <= b < |size| && b < |value| && b < NSYMS && size[b] == sl[u] && value[b] == u
  {
    PlaceBound(sl, u);
  }

  lemma NoSymbol(sl: seq<nat>, k: nat, firstcode: seq<nat>, firstsymbol: seq<nat>, maxcode: seq<nat>)
    requires |firstcode| == 16 && |firstsymbol| == 16 && |maxcode| == 17
      && CodeTables(sl, 16, firstcode, firstsymbol, maxcode)
    requires Usable(sl) && maxcode[15] <= k
    ensures forall u: nat :: !KeyMatches(sl, k, u)
  {
    hide KeyMatches, Limit;
    forall u: nat ensures !KeyMatches(sl, k, u) { SlowMissed(sl, k, u); }
  }

  /** The reversed buffer is the 16-bit key of the stream. */
  lemma ReversedKey(sl: seq<nat>, buf: nat, data: seq<nat>, p: nat, n: nat)
    requires Usable(sl) && Buffers(buf, data, p, n) && n >= 16
    ensures BitReverse(buf, 16) < 0x10000
    ensures forall u: nat :: SymbolAt(sl, data, p, u) <==> KeyMatches(sl, BitReverse(buf, 16), u)
  {
    hide Rev, BitReverse, SymbolAt, KeyMatches, Key;
    BitReverseIsRev(buf, 16);
    KeyIsRev(buf, data, p, 16);
    RevBelow(buf, 16);
    Pow2Values();
    forall u: nat
      ensures SymbolAt(sl, data, p, u) <==> KeyMatches(sl, Key(data, p, 16), u) { SymbolMatches(sl, data, p, u); }
  }

  lemma LowFits(buf: nat)
    ensures Low(buf, 9) < FAST_SIZE
  {
    Split(buf, 9);
    Pow2Values();
  }

  lemma FastShort(sl: seq<nat>, v: nat, data: seq<nat>, p: nat)
    requires Usable(sl) && SymbolAt(sl, data, p, v)
    ensures sl[v] <= 15
  {
  }

  /** What the slow path reads once it has found its length. */
  lemma SlowAnswer(sl: seq<nat>, k: nat, s: nat, firstcode: seq<nat>, firstsymbol: seq<nat>, maxcode: seq<nat>,
                   size: seq<nat>, value: seq<nat>)
    requires Usable(sl) && SortedLists(sl, |sl|, size, value) && |size| == NSYMS && |value| == NSYMS
    requires |firstcode| == 16 && |firstsymbol| == 16 && |maxcode| == 17
      && CodeTables(sl, 16, firstcode, firstsymbol, maxcode)
    requires 10 <= s <= 15 && k < maxcode[s] && (s == 10 || maxcode[s - 1] <= k)
    requires forall u: nat :: KeyMatches(sl, k, u) ==> sl[u] > FAST_BITS
    ensures var b := Shr(k, 16 - s) - firstcode[s] + firstsymbol[s];
            0 <= b < NSYMS && size[b] == s && KeyMatches(sl, k, value[b]) && sl[value[b]] == s
  {
    hide Limit, SortedLists, Start, Count, First, Shr, Usable;
    var v := SlowFound(sl, k, s);
    SlowSlot(sl, v, size, value);
    assert value[Code(sl, v) - First(sl, s) + Start(sl, s)] == v;
  }

  /** The next of the symbols that stand in the stream, and what follows it. */
  lemma NextSymbol(sl: seq<nat>, data: seq<nat>, p: nat, vs: seq<nat>, i: nat)
    requires i < |vs| && (forall k :: 0 <= k < |vs| ==> vs[k] < |sl| && sl[vs[k]] > 0)
      && SymbolsAt(sl, data, p, vs[i..])
    ensures SymbolAt(sl, data, p, vs[i]) && SymbolsAt(sl, data, p + sl[vs[i]], vs[i + 1..])
    ensures |Encode(sl, vs[i..])| == sl[vs[i]] + |Encode(sl, vs[i + 1..])|
  {
    assert vs[i..][1..] == vs[i + 1..] && vs[i..][0] == vs[i];
    hide SymbolAt, Code, Word;
  }

  lemma FoundSymbol(sl: seq<nat>, data: seq<nat>, p: nat, v: int, u: nat)
    requires Usable(sl) && SymbolAt(sl, data, p, u) && p < 8 * |data|
    requires if v < 0 then p > 8 * |data| || forall w: nat :: !SymbolAt(sl, data, p, w) else SymbolAt(sl, data, p, v)
    ensures v == u
  {
    hide SymbolAt;
    if v >= 0 { SymbolUnique(sl, data, p, v, u); }
  }

  lemma NoBits(sl: seq<nat>)
    ensures Encode(sl, []) == []
  {
  }

  class Reader {
    const data: seq<nat>
    var pos: nat
    var numBits: nat
    var hitEof: bool
    var codeBuffer: nat
    /** How many bits of the stream have been consumed. */
    ghost var at: nat
    /** How many zero bits FillBits has put behind the data, all without setting hitEof. */
    ghost var pads: nat

    ghost predicate Valid()
      reads this
    {
      && (forall i :: 0 <= i < |data| ==> data[i] < 256)
      && pos <= |data| && numBits <= 32
      && Buffers(codeBuffer, data, at, numBits)
      && at + numBits == 8 * pos + pads + (if hitEof then 16 else 0)
      && (pads > 0 || hitEof ==> pos == |data|)
    }

    constructor (input: seq<nat>)
      requires forall i :: 0 <= i < |input| ==> input[i] < 256
      ensures Valid() && data == input && at == 0 && numBits == 0 && pads == 0 && !hitEof
    {
      data := input;
      pos, numBits, hitEof, codeBuffer, at, pads := 0, 0, false, 0, 0, 0;
      new;
      forall i: nat ensures !Bit(0, i) { ZeroBits(i); }
    }

    /** stbi__zget8 */
    method Get8() returns (b: nat)
      modifies this`pos
      ensures if old(pos) < |data| then b == data[old(pos)] && pos == old(pos) + 1 else b == 0 && pos == old(pos)
    {
      if pos >= |data| { return 0; }
      b := data[pos];
      pos := pos + 1;
    }

    /** Puts one more byte behind the buffered bits, or a zero byte behind the end of the data. */
    method FillByte()
      requires Valid() && numBits <= 24
      modifies this`pos, this`numBits, this`codeBuffer, this`pads
      ensures Valid() && numBits == old(numBits) + 8 && pads >= old(pads)
    {
      hide Bit, Or, Shl, StreamBit, Buffers;
      Appended(codeBuffer, data, at, numBits, pos, if pos < |data| then data[pos] else 0);
      if pos >= |data| { pads := pads + 8; }
      var b := Get8();
      codeBuffer := Or(codeBuffer, Shl(b, numBits));
      numBits := numBits + 8;
    }

    /** stbi__fill_bits. The source's test for stray bits above num_bits never fires: Valid rules them out. */
    method FillBits()
      requires Valid() && numBits <= 24
      modifies this`pos, this`numBits, this`codeBuffer, this`pads
      ensures Valid() && 24 < numBits && numBits % 8 == old(numBits) % 8 && pads >= old(pads)
    {
      hide Buffers, Bit, StreamBit;
      while true
        invariant Valid() && numBits <= 24 && numBits % 8 == old(numBits) % 8 && pads >= old(pads)
        decreases 24 - numBits
      {
        FillByte();
        if numBits > 24 { break; }
      }
    }

    /** Drops the n bits at the front. */
    method Consume(n: nat)
      requires Valid() && n <= numBits
      modifies this`numBits, this`codeBuffer, this`at
      ensures Valid() && at == old(at) + n && numBits == old(numBits) - n
    {
      Dropped(codeBuffer, data, at, numBits, n);
      hide Buffers;
      codeBuffer := Shr(codeBuffer, n);
      numBits := numBits - n;
      at := at + n;
    }

    /** stbi__zreceive */
    method Receive(n: nat) returns (k: nat)
      requires Valid() && n <= 24
      modifies this`pos, this`numBits, this`codeBuffer, this`at, this`pads
      ensures Valid() && k == Field(data, old(at), n) && at == old(at) + n && pads >= old(pads)
      ensures old(numBits) < n ==> 24 < numBits + n <= 32 && (numBits + n) % 8 == old(numBits) % 8
    {
      if numBits < n { FillBits(); }
      FieldIsLow(codeBuffer, data, at, n);
      hide Buffers, Low, Field;
      k := Low(codeBuffer, n);
      Consume(n);
    }

    /** stbi__zhuffman_decode_slowpath */
    method DecodeSlow(t: Table, ghost sl: seq<nat>) returns (v: int)
      requires Valid() && numBits >= 16 && t.Shape() && Usable(sl) && t.Represents(sl)
      requires NoShortSymbol(sl, data, at)
      modifies this`numBits, this`codeBuffer, this`at
      ensures Valid() && -1 <= v
      ensures if v == -1 then at == old(at) && forall u: nat :: !SymbolAt(sl, data, at, u)
              else SymbolAt(sl, data, old(at), v) && at == old(at) + sl[v]
    {
      hide Buffers, BitReverse, FastTable, SymbolAt, KeyMatches, SortedLists, CodeTables, Usable, Shr;
      ReversedKey(sl, codeBuffer, data, at, numBits);
      var k := BitReverse(codeBuffer, 16);
      var s := FindLength(t, k);
      v := -1;
      if s >= 16 {
        NoSymbol(sl, k, t.firstcode[..], t.firstsymbol[..], t.maxcode[..]);
      } else {
        SlowAnswer(sl, k, s, t.firstcode[..], t.firstsymbol[..], t.maxcode[..], t.size[..], t.value[..]);
        var b := Shr(k, 16 - s) - t.firstcode[s] + t.firstsymbol[s];
        if b < NSYMS && t.size[b] == s {
          Consume(s);
          v := t.value[b];
        }
      }
    }

    /** The slow path's search for the code length of key k. */
    method FindLength(t: Table, k: nat) returns (s: nat)
      requires t.Shape() && k < t.maxcode[16]
      ensures 10 <= s <= 16 && k < t.maxcode[s] && forall r :: 10 <= r < s ==> t.maxcode[r] <= k
    {
      s := FAST_BITS + 1;
      while k >= t.maxcode[s]
        invariant 10 <= s <= 16 && forall r :: 10 <= r < s ==> t.maxcode[r] <= k
        decreases 16 - s
      {
        s := s + 1;
      }
    }

    /** stbi__zhuffman_decode: the symbol at the front of the stream, by whichever table knows it; -1
        only if no code is there, or if the stream's own bits have already run out. The end of the data is
        noticed only when fewer than 16 bits are left, counting the zeros that FillBits put behind it. */
    method Decode(t: Table, ghost sl: seq<nat>) returns (v: int)
      requires Valid() && t.Shape() && Usable(sl) && t.Represents(sl)
      modifies this`pos, this`numBits, this`codeBuffer, this`at, this`hitEof, this`pads
      ensures Valid() && -1 <= v && pads >= old(pads) && (old(hitEof) ==> hitEof)
      ensures v != -1 ==> SymbolAt(sl, data, old(at), v) && at == old(at) + sl[v]
      ensures v == -1 ==> at == old(at) && ((hitEof && at > 8 * |data|) || forall u: nat :: !SymbolAt(sl, data, at, u))
      ensures hitEof && !old(hitEof) ==> old(at) + 16 > 8 * |data| + old(pads)
    {
      hide Buffers, FastTable, SymbolAt, SortedLists, CodeTables, Usable, Low, NoShortSymbol;
      if numBits < 16 {
        if pos >= |data| {
          if !hitEof {
            Padded(codeBuffer, data, at, numBits);
            hitEof := true;
            numBits := numBits + 16;
          } else {
            return -1;
          }
        } else {
          FillBits();
        }
      }
      LowFits(codeBuffer);
      var b := t.fast[Low(codeBuffer, FAST_BITS)];
      if b != 0 {
        FastFound(sl, t.fast[..], codeBuffer, data, at, numBits);
        FastShort(sl, b % 512, data, at);
        Consume(b / 512);
        return b % 512;
      }
      FastMissed(sl, t.fast[..], codeBuffer, data, at, numBits);
      v := DecodeSlow(t, sl);
    }

    /** Decodes one symbol of a list that stands in the stream. */
    method DecodeListed(t: Table, ghost sl: seq<nat>, ghost vs: seq<nat>, ghost i: nat) returns (v: nat)
      requires Valid() && t.Shape() && Usable(sl) && t.Represents(sl) && i < |vs| && SymbolsAt(sl, data, at, vs[i..])
      requires forall i :: 0 <= i < |vs| ==> vs[i] < |sl| && sl[vs[i]] > 0
      requires at + |Encode(sl, vs[i..])| <= 8 * |data|
      modifies this`pos, this`numBits, this`codeBuffer, this`at, this`hitEof, this`pads
      ensures Valid() && v == vs[i] && SymbolsAt(sl, data, at, vs[i + 1..])
      ensures at + |Encode(sl, vs[i + 1..])| == old(at) + |Encode(sl, vs[i..])|
    {
      hide *;
      ghost var before := at;
      NextSymbol(sl, data, at, vs, i);
      var z := Decode(t, sl);
      FoundSymbol(sl, data, before, z, vs[i]);
      return z;
    }

    /** The codes of any symbols, one behind the other, decode to these symbols and take exactly their own bits. */
    method DecodeList(t: Table, ghost sl: seq<nat>, ghost vs: seq<nat>, n: nat) returns (us: seq<nat>)
      requires Valid() && t.Shape() && Usable(sl) && Accepted(sl) && t.Represents(sl) && n == |vs|
      requires forall i :: 0 <= i < |vs| ==> vs[i] < |sl| && sl[vs[i]] > 0
      requires Holds(data, at, Encode(sl, vs)) && at + |Encode(sl, vs)| <= 8 * |data|
      modifies this`pos, this`numBits, this`codeBuffer, this`at, this`hitEof, this`pads
      ensures Valid() && us == vs && at == old(at) + |Encode(sl, vs)|
    {
      hide *;
      EncodeIsSymbols(sl, data, at, vs);
      us := [];
      assert vs[0..] == vs;
      for i := 0 to n
        invariant Valid() && us == vs[..i] && SymbolsAt(sl, data, at, vs[i..])
        invariant at + |Encode(sl, vs[i..])| == old(at) + |Encode(sl, vs)|
      {
        var v := DecodeListed(t, sl, vs, i);
        us := us + [v];
      }
      assert vs[n..] == [];
      NoBits(sl);
    }
  }
}
