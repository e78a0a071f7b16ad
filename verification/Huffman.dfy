/** The decoder's Huffman tables: a 9-bit fast table and a canonical slow path (stbi__zhuffman). */
module Huffman {
  import opened Bits
  import opened Canonical
  import opened BitReversal

  const FAST_BITS: nat := 9
  const FAST_SIZE: nat := 512
  const NSYMS: nat := 288

  // ------------------------------------------------------------------ what the tables stand for

  /** How many symbols have a length below s: where those of length s start in the sorted list. */
  function Start(sl: seq<nat>, s: nat): nat {
    if s <= 1 then 0 else Start(sl, s - 1) + Count(sl, s - 1)
  }

  /** The position of symbol v in the list sorted by length, then by symbol. */
  function Place(sl: seq<nat>, v: nat): nat
    requires v < |sl|
  {
    Start(sl, sl[v]) + Count(sl[..v], sl[v])
  }

  ghost predicate Usable(sl: seq<nat>) {
    |sl| <= NSYMS && forall v :: 0 <= v < |sl| ==> sl[v] <= 15
  }

  /** The fast-table index j starts with the code of v. */
  predicate FastHit(sl: seq<nat>, v: nat, j: nat) {
    v < |sl| && 1 <= sl[v] <= FAST_BITS && Rev(j, sl[v]) == Code(sl, v)
  }

  function FastEntry(sl: seq<nat>, v: nat): nat
    requires v < |sl|
  {
    sl[v] * 512 + v
  }

  /** The fast table after the first n symbols have been entered. */
  ghost predicate FastTable(sl: seq<nat>, n: nat, fast: seq<nat>)
    requires |fast| == FAST_SIZE
  {
    && (forall j, v {:trigger FastHit(sl, v, j)} :: 0 <= j < FAST_SIZE && 0 <= v < n && FastHit(sl, v, j) ==>
        fast[j] == FastEntry(sl, v))
    && (forall j :: 0 <= j < FAST_SIZE && fast[j] != 0 ==> exists v :: 0 <= v < n && FastHit(sl, v, j))
  }

  /** The sorted lists after the first n symbols have been entered. */
  ghost predicate SortedLists(sl: seq<nat>, n: nat, size: seq<nat>, value: seq<nat>)
    requires n <= |sl|
  {
    forall v :: 0 <= v < n && sl[v] > 0 ==>
      Place(sl, v) < |size| && Place(sl, v) < |value| && size[Place(sl, v)] == sl[v] && value[Place(sl, v)] == v
  }

  ghost predicate CodeTables(sl: seq<nat>, n: nat, firstcode: seq<nat>, firstsymbol: seq<nat>, maxcode: seq<nat>)
    requires n <= 16
    requires |firstcode| == 16 && |firstsymbol| == 16 && |maxcode| == 17
  {
    forall s :: 1 <= s < n ==>
      firstcode[s] == First(sl, s) && firstsymbol[s] == Start(sl, s) && maxcode[s] == Limit(sl, s)
  }

  // ------------------------------------------------------------------ lemmas about reversal

  lemma {:induction false} RevBelow(v: nat, n: nat)
    ensures Rev(v, n) < Pow2(n)
  {
    if n > 0 { RevBelow(v, n - 1); }
  }

  lemma {:induction false} RevPrefix(j: nat, s: nat, n: nat)
    requires s <= n
    ensures Shr(Rev(j, n), n - s) == Rev(j, s)
  {
    if s < n { RevPrefix(j, s, n - 1); }
  }

  lemma HighBitsZero(c: nat, s: nat, i: nat)
    requires c < Pow2(s) && s <= i
    ensures !Bit(c, i)
  {
    ShrIs(c, s, 0);
    ShlZero(s);
    BitShr(c, s, i - s);
    ZeroBits(i - s);
  }

  /** Starting with the code c is having its reversal as low bits. */
  lemma RevIsLow(j: nat, c: nat, s: nat)
    requires c < Pow2(s)
    ensures Rev(j, s) == c <==> Low(j, s) == Rev(c, s)
  {
    hide Bit, Rev, Low;
    if Rev(j, s) == c {
      forall i: nat ensures Bit(Low(j, s), i) <==> Bit(Rev(c, s), i) {
        BitLow(j, s, i);
        RevBit(c, s, i);
        if i < s { RevBit(j, s, s - 1 - i); }
      }
      SameBits(Low(j, s), Rev(c, s));
    }
    if Low(j, s) == Rev(c, s) {
      forall i: nat ensures Bit(Rev(j, s), i) <==> Bit(c, i) {
        RevBit(j, s, i);
        if i < s {
          BitLow(j, s, s - 1 - i);
          RevBit(c, s, s - 1 - i);
        } else {
          HighBitsZero(c, s, i);
        }
      }
      SameBits(Rev(j, s), c);
    }
  }

  lemma {:induction false} LowStep(j: nat, s: nat)
    ensures Low(j + Pow2(s), s) == Low(j, s)
  {
    if s > 0 {
      LowStep(j / 2, s - 1);
      assert (j + 2 * Pow2(s - 1)) / 2 == j / 2 + Pow2(s - 1);
    }
  }

  /** Two numbers with the same low bits are a multiple of 2^s apart. */
  lemma {:induction false} LowGap(x: nat, y: nat, s: nat)
    requires x < y && Low(x, s) == Low(y, s)
    ensures x + Pow2(s) <= y
  {
    if s > 0 {
      LowGap(x / 2, y / 2, s - 1);
    }
  }

  lemma {:induction false} LowSmall(j: nat, s: nat)
    requires j < Pow2(s)
    ensures Low(j, s) == j
  {
    if s > 0 { LowSmall(j / 2, s - 1); }
  }

  lemma LowLow(j: nat, s: nat, n: nat)
    requires s <= n
    ensures Rev(Low(j, n), s) == Rev(j, s)
  {
    hide Bit, Rev, Low;
    forall i: nat ensures Bit(Rev(Low(j, n), s), i) <==> Bit(Rev(j, s), i) {
      RevBit(Low(j, n), s, i);
      RevBit(j, s, i);
      if i < s { BitLow(j, n, s - 1 - i); }
    }
    SameBits(Rev(Low(j, n), s), Rev(j, s));
  }

  lemma FastHitMatches(sl: seq<nat>, v: nat, j: nat)
    requires FastHit(sl, v, j)
    ensures KeyMatches(sl, Rev(j, 16), v)
  {
    RevPrefix(j, sl[v], 16);
  }

  /** Two symbols never compete for one fast-table slot. */
  lemma FastHitUnique(sl: seq<nat>, v: nat, u: nat, j: nat)
    requires FastHit(sl, v, j) && FastHit(sl, u, j)
    ensures v == u
  {
    FastHitMatches(sl, v, j);
    FastHitMatches(sl, u, j);
    MatchUnique(sl, Rev(j, 16), v, u);
  }

  // ------------------------------------------------------------------ lemmas about the sorted list

  lemma {:induction false} StartGrows(sl: seq<nat>, s: nat, t: nat)
    requires 1 <= s < t
    ensures Start(sl, s) + Count(sl, s) <= Start(sl, t)
  {
    if s + 1 < t { StartGrows(sl, s, t - 1); }
  }

  lemma PlaceUnique(sl: seq<nat>, v: nat, u: nat)
    requires v < |sl| && u < |sl| && sl[v] > 0 && sl[u] > 0 && Place(sl, v) == Place(sl, u)
    ensures v == u
  {
    CountBound(sl, sl[v], v);
    CountBound(sl, sl[u], u);
    if sl[v] < sl[u] {
      StartGrows(sl, sl[v], sl[u]);
    } else if sl[u] < sl[v] {
      StartGrows(sl, sl[u], sl[v]);
    } else if v < u {
      CountRises(sl, v, u);
    } else if u < v {
      CountRises(sl, u, v);
    }
  }

  /** At most |sl| symbols have a length between 1 and s. */
  lemma {:induction false} StartBound(sl: seq<nat>, s: nat)
    ensures Start(sl, s + 1) <= |sl|
  {
    if sl == [] {
      StartEmpty(s + 1);
    } else {
      StartBound(sl[..|sl| - 1], s);
      StartExtend(sl, s + 1);
    }
  }

  lemma {:induction false} StartEmpty(s: nat)
    ensures Start([], s) == 0
  {
    if s > 1 { StartEmpty(s - 1); }
  }

  lemma {:induction false} StartExtend(sl: seq<nat>, s: nat)
    requires sl != []
    ensures Start(sl, s) == Start(sl[..|sl| - 1], s) + if 1 <= sl[|sl| - 1] < s then 1 else 0
  {
    if s > 1 { StartExtend(sl, s - 1); }
  }

  lemma PlaceBound(sl: seq<nat>, v: nat)
    requires v < |sl| && sl[v] > 0
    ensures Place(sl, v) < |sl|
  {
    CountBound(sl, sl[v], v);
    StartBound(sl, sl[v]);
  }

  // ------------------------------------------------------------------ building the tables

  /** The final test of acceptance, up to length n. */
  ghost predicate AcceptedTo(sl: seq<nat>, n: nat) {
    forall s :: 1 <= s < n ==> End(sl, s) <= Pow2(s)
  }

  lemma RangeStep(sl: seq<nat>, i: nat)
    requires 1 <= i < 16
    ensures End(sl, i) == First(sl, i) + Count(sl, i) && First(sl, i + 1) == 2 * End(sl, i)
    ensures Start(sl, i + 1) == Start(sl, i) + Count(sl, i)
    ensures Limit(sl, i) == Shl(End(sl, i), 16 - i)
    ensures AcceptedTo(sl, i) && Count(sl, i) == 0 ==> End(sl, i) <= Pow2(i)
  {
    if AcceptedTo(sl, i) && Count(sl, i) == 0 && i > 1 {
      assert End(sl, i - 1) <= Pow2(i - 1);
    }
  }

  ghost predicate NextCodes(sl: seq<nat>, n: nat, next: seq<nat>)
    requires n <= |sl| && |next| == 16
  {
    forall s :: 1 <= s <= 15 ==> next[s] == First(sl, s) + Count(sl[..n], s)
  }

  lemma CountOneMore(sl: seq<nat>, i: nat, s: nat)
    requires i < |sl|
    ensures Count(sl[..i + 1], s) == Count(sl[..i], s) + if sl[i] == s then 1 else 0
  {
    assert sl[..i + 1][..i] == sl[..i];
  }

  lemma NextCodesStep(sl: seq<nat>, i: nat, next: seq<nat>)
    requires i < |sl| && sl[i] <= 15 && |next| == 16 && NextCodes(sl, i, next)
    ensures NextCodes(sl, i + 1, if sl[i] == 0 then next else next[sl[i] := next[sl[i]] + 1])
    ensures sl[i] > 0 ==> next[sl[i]] == Code(sl, i)
  {
    forall s | 1 <= s <= 15 { CountOneMore(sl, i, s); }
  }

  lemma SortedStep(sl: seq<nat>, i: nat, size: seq<nat>, value: seq<nat>)
    requires i < |sl| && sl[i] > 0 && SortedLists(sl, i, size, value)
    requires Place(sl, i) < |size| && Place(sl, i) < |value|
    ensures SortedLists(sl, i + 1, size[Place(sl, i) := sl[i]], value[Place(sl, i) := i])
  {
    forall v | 0 <= v < i && sl[v] > 0 ensures Place(sl, v) != Place(sl, i) {
      if Place(sl, v) == Place(sl, i) { PlaceUnique(sl, v, i); }
    }
  }

  lemma FastStep(sl: seq<nat>, i: nat, fast: seq<nat>, fast': seq<nat>)
    requires |fast| == |fast'| == FAST_SIZE && i < |sl| && FastTable(sl, i, fast)
    requires forall j :: 0 <= j < FAST_SIZE ==> fast'[j] == if FastHit(sl, i, j) then FastEntry(sl, i) else fast[j]
    ensures FastTable(sl, i + 1, fast')
  {
    hide FastHit;
    forall j, v | 0 <= j < FAST_SIZE && 0 <= v < i + 1 && FastHit(sl, v, j)
      ensures fast'[j] == FastEntry(sl, v)
    {
      if FastHit(sl, i, j) { FastHitUnique(sl, v, i, j); }
    }
  }

  lemma PlaceAndCode(sl: seq<nat>, i: nat)
    requires i < |sl| && sl[i] > 0
    ensures Place(sl, i) == Start(sl, sl[i]) + Count(sl[..i], sl[i]) < |sl|
    ensures Code(sl, i) == First(sl, sl[i]) + Count(sl[..i], sl[i])
  {
    PlaceBound(sl, i);
  }

  /** The slots of a short code are those whose low bits are the reversed code. */
  lemma FastSlots(sl: seq<nat>, i: nat)
    requires Accepted(sl) && i < |sl| && 1 <= sl[i] <= FAST_BITS
    ensures BitReverse(Code(sl, i), sl[i]) < Pow2(sl[i])
    ensures forall j: nat :: FastHit(sl, i, j) <==> Low(j, sl[i]) == BitReverse(Code(sl, i), sl[i])
  {
    var s, c := sl[i], Code(sl, i);
    assert c < Pow2(s) by {
      CodeRange(sl, i);
      assert End(sl, s) <= Pow2(s);
    }
    hide BitReverse, Code, Rev, Low;
    BitReverseIsRev(c, s);
    RevBelow(c, s);
    forall j: nat ensures FastHit(sl, i, j) <==> Low(j, s) == Rev(c, s) { RevIsLow(j, c, s); }
  }

  lemma NoFastSlots(sl: seq<nat>, i: nat, fast: seq<nat>)
    requires |fast| == FAST_SIZE && i < |sl| && (sl[i] == 0 || sl[i] > FAST_BITS) && FastTable(sl, i, fast)
    ensures FastTable(sl, i + 1, fast)
  {
    FastStep(sl, i, fast, fast);
  }

  lemma NoSortedEntry(sl: seq<nat>, i: nat, size: seq<nat>, value: seq<nat>)
    requires i < |sl| && sl[i] == 0 && SortedLists(sl, i, size, value)
    ensures SortedLists(sl, i + 1, size, value)
  {
  }

  lemma TooMany(sl: seq<nat>, i: nat)
    requires 1 <= i <= 15 && Count(sl, i) > Pow2(i)
    ensures !Accepted(sl)
  {
    assert End(sl, i) > Pow2(i);
  }

  lemma EmptyTables(sl: seq<nat>, fast: seq<nat>, size: seq<nat>, value: seq<nat>)
    requires |fast| == FAST_SIZE && forall j :: 0 <= j < FAST_SIZE ==> fast[j] == 0
    ensures FastTable(sl, 0, fast) && SortedLists(sl, 0, size, value)
  {
  }

  lemma NextCodesStart(sl: seq<nat>, next: seq<nat>)
    requires |next| == 16 && forall s :: 1 <= s <= 15 ==> next[s] == First(sl, s)
    ensures NextCodes(sl, 0, next)
  {
  }

  lemma FirstRange(sl: seq<nat>)
    ensures First(sl, 1) == 0 && Start(sl, 1) == 0
  {
  }

  class Table {
    const fast: array<nat>
    const firstcode: array<nat>
    const maxcode: array<nat>
    const firstsymbol: array<nat>
    const size: array<nat>
    const value: array<nat>

    ghost predicate Shape() {
      && fast.Length == FAST_SIZE && firstcode.Length == 16 && maxcode.Length == 17 && firstsymbol.Length == 16
      && size.Length == NSYMS && value.Length == NSYMS && firstcode != firstsymbol && size != value
      && firstcode != size && firstcode != value && firstsymbol != size && firstsymbol != value
    }

    constructor ()
      ensures Shape()
      ensures fresh(fast) && fresh(firstcode) && fresh(maxcode) && fresh(firstsymbol) && fresh(size) && fresh(value)
    {
      fast := new nat[FAST_SIZE];
      firstcode := new nat[16];
      maxcode := new nat[17];
      firstsymbol := new nat[16];
      size := new nat[NSYMS];
      value := new nat[NSYMS];
    }

    ghost predicate Represents(sl: seq<nat>)
      requires Shape()
      reads fast, firstcode, maxcode, firstsymbol, size, value
    {
      && CodeTables(sl, 16, firstcode[..], firstsymbol[..], maxcode[..]) && maxcode[16] == 0x10000
      && SortedLists(sl, |sl|, size[..], value[..])
      && FastTable(sl, |sl|, fast[..])
    }

    /** The first half of building: code ranges per length, or rejection of an over-subscribed length. */
    method AssignCodes(sl: seq<nat>, sizes: array<nat>, nextCode: array<nat>) returns (ok: bool)
      requires Shape() && Usable(sl) && sizes.Length == 17 && nextCode.Length == 16
      requires forall s :: 1 <= s <= 15 ==> sizes[s] == Count(sl, s)
      requires sizes != maxcode && nextCode != firstcode && nextCode != firstsymbol
      modifies firstcode, maxcode, firstsymbol, nextCode
      ensures ok <==> Accepted(sl)
      ensures ok ==> CodeTables(sl, 16, firstcode[..], firstsymbol[..], maxcode[..]) && maxcode[16] == 0x10000
      ensures ok ==> forall s :: 1 <= s <= 15 ==> nextCode[s] == First(sl, s)
    {
      FirstRange(sl);
      hide Count, End, First, Start, Limit, Pow2, Shl;
      var code, k, i := 0, 0, 1;
      while i < 16
        invariant 1 <= i <= 16
        invariant code == First(sl, i) && k == Start(sl, i)
        invariant AcceptedTo(sl, i)
        invariant CodeTables(sl, i, firstcode[..], firstsymbol[..], maxcode[..])
        invariant forall s :: 1 <= s < i ==> nextCode[s] == First(sl, s)
        invariant forall s :: 1 <= s <= 15 ==> sizes[s] == Count(sl, s)
      {
        RangeStep(sl, i);
        nextCode[i] := code;
        firstcode[i] := code;
        firstsymbol[i] := k;
        code := code + sizes[i];
        if sizes[i] > 0 && code - 1 >= Pow2(i) {
          return false;
        }
        assert code <= Pow2(i);
        maxcode[i] := Shl(code, 16 - i);
        code := 2 * code;
        k := k + sizes[i];
        i := i + 1;
      }
      maxcode[16] := 0x10000;
      return true;
    }

    /** Counts how often each length occurs. */
    method CountSizes(sl: seq<nat>) returns (sizes: array<nat>)
      requires Usable(sl)
      ensures fresh(sizes) && sizes.Length == 17
      ensures forall s :: 1 <= s <= 15 ==> sizes[s] == Count(sl, s)
    {
      sizes := new nat[17](_ => 0);
      for i := 0 to |sl|
        invariant forall s :: 0 <= s <= 15 ==> sizes[s] == Count(sl[..i], s)
      {
        hide Count;
        forall s | 0 <= s <= 15 { CountOneMore(sl, i, s); }
        sizes[sl[i]] := sizes[sl[i]] + 1;
      }
      assert sl[..|sl|] == sl;
      sizes[0] := 0;
    }

    /** Puts one entry at every index whose low s bits are j0. */
    method FillFast(entry: nat, j0: nat, s: nat)
      requires Shape() && 1 <= s <= FAST_BITS && j0 < Pow2(s)
      modifies fast
      ensures forall j :: 0 <= j < FAST_SIZE ==> fast[j] == if Low(j, s) == j0 then entry else old(fast[j])
    {
      hide Low, Pow2;
      var j := j0;
      LowSmall(j0, s);
      forall x | 0 <= x < j0 && x < FAST_SIZE ensures Low(x, s) != j0 {
        if Low(x, s) == j0 { LowGap(x, j0, s); }
      }
      while j < FAST_SIZE
        invariant j0 <= j && Low(j, s) == j0
        invariant forall x :: 0 <= x < FAST_SIZE ==> fast[x] == if Low(x, s) == j0 && x < j then entry else old(fast[x])
        decreases FAST_SIZE - j
      {
        fast[j] := entry;
        LowStep(j, s);
        forall x | j < x < FAST_SIZE && Low(x, s) == j0 ensures j + Pow2(s) <= x { LowGap(j, x, s); }
        RevBelow(0, s);
        j := j + Pow2(s);
      }
    }

    /** Enters one symbol into the sorted lists and, if its code is short, into the fast table. */
    method EnterSymbol(sl: seq<nat>, i: nat, nextCode: array<nat>)
      requires Shape() && Usable(sl) && Accepted(sl) && i < |sl| && nextCode.Length == 16
      requires nextCode != firstcode && nextCode != firstsymbol && nextCode != size && nextCode != value
      requires CodeTables(sl, 16, firstcode[..], firstsymbol[..], maxcode[..])
      requires NextCodes(sl, i, nextCode[..]) && SortedLists(sl, i, size[..], value[..]) && FastTable(sl, i, fast[..])
      modifies fast, size, value, nextCode
      ensures NextCodes(sl, i + 1, nextCode[..]) && SortedLists(sl, i + 1, size[..], value[..])
        && FastTable(sl, i + 1, fast[..])
    {
      hide Count, First, Start, NextCodes, SortedLists, FastTable, Code, Place, Rev, BitReverse, Low, FastHit;
      var s := sl[i];
      NextCodesStep(sl, i, nextCode[..]);
      if s > 0 {
        PlaceAndCode(sl, i);
        SortedStep(sl, i, size[..], value[..]);
        var c := nextCode[s] - firstcode[s] + firstsymbol[s];
        var entry := s * 512 + i;
        size[c] := s;
        value[c] := i;
        if s <= FAST_BITS {
          FastSlots(sl, i);
          ghost var before := fast[..];
          FillFast(entry, BitReverse(nextCode[s], s), s);
          FastStep(sl, i, before, fast[..]);
        } else {
          NoFastSlots(sl, i, fast[..]);
        }
        nextCode[s] := nextCode[s] + 1;
      } else {
        NoSortedEntry(sl, i, size[..], value[..]);
        NoFastSlots(sl, i, fast[..]);
      }
    }

    /** stbi__zbuild_huffman: accepts exactly the lists no length of which is over-subscribed. */
    method Build(sl: seq<nat>) returns (ok: bool)
      requires Shape() && Usable(sl)
      modifies fast, firstcode, maxcode, firstsymbol, size, value
      ensures ok <==> Accepted(sl)
      ensures ok ==> Represents(sl)
    {
      hide Count, CodeTables, NextCodes, SortedLists, FastTable, Accepted, Pow2, First;
      for j := 0 to FAST_SIZE
        invariant forall x :: 0 <= x < j ==> fast[x] == 0
      {
        fast[j] := 0;
      }
      var sizes := CountSizes(sl);
      for i := 1 to 16 {
        if sizes[i] > Pow2(i) {
          TooMany(sl, i);
          return false;
        }
      }
      var nextCode := new nat[16];
      ok := AssignCodes(sl, sizes, nextCode);
      if !ok { return; }
      EmptyTables(sl, fast[..], size[..], value[..]);
      NextCodesStart(sl, nextCode[..]);
      for i := 0 to |sl|
        invariant CodeTables(sl, 16, firstcode[..], firstsymbol[..], maxcode[..]) && maxcode[16] == 0x10000
        invariant NextCodes(sl, i, nextCode[..]) && SortedLists(sl, i, size[..], value[..])
          && FastTable(sl, i, fast[..])
      {
        EnterSymbol(sl, i, nextCode);
      }
    }
  }
}
