/** What a compressed block means: the tokens of sections 3.2.3 and 3.2.5 of RFC 1951. */
module Deflate {
  import opened Bits
  import opened Bytes
  import opened Canonical
  import opened BitReader

  const LENGTH_BASE: seq<nat> := [3, 4, 5, 6, 7, 8, 9, 10, 11, 13, 15, 17, 19, 23, 27, 31, 35, 43, 51, 59,
                                  67, 83, 99, 115, 131, 163, 195, 227, 258]
  const LENGTH_EXTRA: seq<nat> :=
      [0, 0, 0, 0, 0, 0, 0, 0, 1, 1, 1, 1, 2, 2, 2, 2, 3, 3, 3, 3, 4, 4, 4, 4, 5, 5, 5, 5, 0]
  const DIST_BASE: seq<nat> := [1, 2, 3, 4, 5, 7, 9, 13, 17, 25, 33, 49, 65, 97, 129, 193,
                                257, 385, 513, 769, 1025, 1537, 2049, 3073, 4097, 6145, 8193, 12289, 16385, 24577]
  const DIST_EXTRA: seq<nat> :=
      [0, 0, 0, 0, 1, 1, 2, 2, 3, 3, 4, 4, 5, 5, 6, 6, 7, 7, 8, 8, 9, 9, 10, 10, 11, 11, 12, 12, 13, 13]

  const END_OF_BLOCK: nat := 256

  function LengthBase(i: nat): (b: nat)
    requires i < 29
    ensures b >= 3
  {
    LENGTH_BASE[i]
  }

  function LengthExtra(i: nat): (x: nat)
    requires i < 29
    ensures x <= 5
  {
    LENGTH_EXTRA[i]
  }

  function DistBase(i: nat): (b: nat)
    requires i < 30
    ensures b >= 1
  {
    DIST_BASE[i]
  }

  function DistExtra(i: nat): (x: nat)
    requires i < 30
    ensures x <= 13
  {
    DIST_EXTRA[i]
  }

  /** A literal byte, or a copy given by length and distance symbols with their extra bits. */
  datatype Token = Literal(b: nat) | Match(ls: nat, le: nat, ds: nat, de: nat)

  /** The two code-length lists of a block. */
  datatype Codes = Codes(ll: seq<nat>, dl: seq<nat>)

  predicate Fits(c: Codes, t: Token) {
    match t
    case Literal(b) => b < 256 && b < |c.ll|
    case Match(ls, _, ds, _) => ls < 29 && 257 + ls < |c.ll| && ds < 30 && ds < |c.dl|
  }

  function Length(t: Token): (n: nat)
    requires t.Match? && t.ls < 29
    ensures n >= 3
  {
    LengthBase(t.ls) + t.le
  }

  function Distance(t: Token): (n: nat)
    requires t.Match? && t.ds < 30
    ensures n >= 1
  {
    DistBase(t.ds) + t.de
  }

  /** How many bits t takes. */
  function Size(c: Codes, t: Token): nat
    requires Fits(c, t)
  {
    match t
    case Literal(b) => c.ll[b]
    case Match(ls, _, ds, _) => c.ll[257 + ls] + LengthExtra(ls) + c.dl[ds] + DistExtra(ds)
  }

  /** Token t stands at bit p. */
  predicate TokenAt(c: Codes, data: seq<nat>, p: nat, t: Token) {
    && Fits(c, t)
    && match t
       case Literal(b) => SymbolAt(c.ll, data, p, b)
       case Match(ls, le, ds, de) =>
         var p1 := p + c.ll[257 + ls];
         var p2 := p1 + LengthExtra(ls);
         var p3 := p2 + c.dl[ds];
         && SymbolAt(c.ll, data, p, 257 + ls) && le == Field(data, p1, LengthExtra(ls))
         && SymbolAt(c.dl, data, p2, ds) && de == Field(data, p3, DistExtra(ds))
  }

  ghost predicate AllFit(c: Codes, ts: seq<Token>) {
    forall t :: t in ts ==> Fits(c, t)
  }

  ghost function Width(c: Codes, ts: seq<Token>): nat
    requires AllFit(c, ts)
  {
    if ts == [] then 0 else Width(c, ts[..|ts| - 1]) + Size(c, ts[|ts| - 1])
  }

  /** The tokens ts stand one after another from bit p on. */
  ghost predicate TokensAt(c: Codes, data: seq<nat>, p: nat, ts: seq<Token>) {
    && AllFit(c, ts)
    && (ts != [] ==> var init := ts[..|ts| - 1];
                     TokensAt(c, data, p, init) && TokenAt(c, data, p + Width(c, init), ts[|ts| - 1]))
  }

  // ------------------------------------------------------------------ meaning

  /** n bytes copied one at a time from dist bytes back, so that a copy may read what it just wrote. */
  function CopyBytes(out: seq<byte>, dist: nat, n: nat): (r: seq<byte>)
    requires 1 <= dist <= |out|
    ensures |r| == |out| + n
  {
    if n == 0 then out else
      var r := CopyBytes(out, dist, n - 1);
      r + [r[|r| - dist]]
  }

  predicate Legal(out: seq<byte>, t: Token) {
    if t.Literal? then t.b < 256 else t.ls < 29 && t.ds < 30 && Distance(t) <= |out|
  }

  function Emit(out: seq<byte>, t: Token): seq<byte>
    requires Legal(out, t)
  {
    if t.Literal? then out + [t.b as byte] else CopyBytes(out, Distance(t), Length(t))
  }

  /** Every copy reaches back no further than what has been produced. */
  predicate AllLegal(out: seq<byte>, ts: seq<Token>)
    decreases |ts|, 0
  {
    ts == [] || (AllLegal(out, ts[..|ts| - 1]) && Legal(Run(out, ts[..|ts| - 1]), ts[|ts| - 1]))
  }

  function Run(out: seq<byte>, ts: seq<Token>): seq<byte>
    requires AllLegal(out, ts)
    decreases |ts|, 1
  {
    if ts == [] then out else Emit(Run(out, ts[..|ts| - 1]), ts[|ts| - 1])
  }

  /** A whole block: tokens, then the end mark, which ends at bit q. */
  ghost predicate BlockAt(c: Codes, data: seq<nat>, p: nat, ts: seq<Token>, q: nat) {
    && TokensAt(c, data, p, ts)
    && SymbolAt(c.ll, data, p + Width(c, ts), END_OF_BLOCK)
    && q == p + Width(c, ts) + c.ll[END_OF_BLOCK]
  }

  /** Neither a legal token nor the end mark stands at bit p and ends inside the data; and unless the end of the data
      has been noticed, none stands there at all. */
  ghost predicate Blocked(c: Codes, data: seq<nat>, p: nat, out: seq<byte>, eof: bool) {
    && (forall t :: TokenAt(c, data, p, t) && Legal(out, t) ==> eof && p + Size(c, t) > 8 * |data|)
    && (SymbolAt(c.ll, data, p, END_OF_BLOCK) ==> eof && p + c.ll[END_OF_BLOCK] > 8 * |data|)
  }

  // ------------------------------------------------------------------ the tables

  lemma SmallPowers(n: nat)
    requires n <= 13
    ensures Pow2(n) == [1, 2, 4, 8, 16, 32, 64, 128, 256, 512, 1024, 2048, 4096, 8192][n]
  {
    if n > 0 { SmallPowers(n - 1); }
  }

  /** Consecutive length symbols cover consecutive ranges; only length 258 has a symbol of its own. */
  lemma LengthsAreCumulative(i: nat)
    requires i < 27
    ensures LENGTH_BASE[i + 1] == LENGTH_BASE[i] + Pow2(LENGTH_EXTRA[i])
  {
    hide Pow2;
    SmallPowers(LengthExtra(i));
  }

  lemma DistanceExtras(i: nat)
    requires i < 30
    ensures DIST_EXTRA[i] == if i < 2 then 0 else i / 2 - 1
  {
  }

  lemma DistanceSteps(i: nat, k: nat)
    requires i < 29 && k == if i < 2 then 0 else i / 2 - 1
    ensures DIST_BASE[i + 1] - DIST_BASE[i] == [1, 2, 4, 8, 16, 32, 64, 128, 256, 512, 1024, 2048, 4096, 8192][k]
  {
  }

  lemma DistancesAreCumulative(i: nat)
    requires i < 29
    ensures DIST_BASE[i + 1] == DIST_BASE[i] + Pow2(DIST_EXTRA[i])
  {
    var k := DIST_EXTRA[i];
    DistanceExtras(i);
    DistanceSteps(i, k);
    SmallPowers(k);
  }

  /** Symbol i stands for the 2^extra[i] values from base[i] on, and the next symbol goes on there. */
  ghost predicate Consecutive(base: seq<nat>, extra: seq<nat>, n: nat) {
    n <= |base| && n <= |extra| && forall i :: 0 <= i < n - 1 ==> base[i + 1] == base[i] + Pow2(extra[i])
  }

  ghost predicate StandsFor(base: seq<nat>, extra: seq<nat>, i: nat, e: nat, x: nat) {
    i < |base| && i < |extra| && e < Pow2(extra[i]) && base[i] + e == x
  }

  lemma {:induction false} Located(base: seq<nat>, extra: seq<nat>, n: nat, x: nat) returns (i: nat, e: nat)
    requires n >= 1 && Consecutive(base, extra, n) && base[0] <= x < base[n - 1] + Pow2(extra[n - 1])
    ensures i < n && StandsFor(base, extra, i, e, x)
  {
    hide Pow2;
    if x >= base[n - 1] {
      i, e := n - 1, x - base[n - 1];
    } else {
      i, e := Located(base, extra, n - 1, x);
    }
  }

  lemma {:induction false} Before(base: seq<nat>, extra: seq<nat>, n: nat, i: nat, j: nat)
    requires Consecutive(base, extra, n) && i < j < n
    ensures base[i] + Pow2(extra[i]) <= base[j]
  {
    hide Pow2;
    if i < j - 1 { Before(base, extra, n, i, j - 1); }
  }

  lemma OneSymbol(base: seq<nat>, extra: seq<nat>, n: nat, x: nat, i: nat, e: nat, j: nat, f: nat)
    requires Consecutive(base, extra, n) && i < n && j < n
    requires StandsFor(base, extra, i, e, x) && StandsFor(base, extra, j, f, x)
    ensures i == j && e == f
  {
    hide Pow2;
    if i < j { Before(base, extra, n, i, j); }
    if j < i { Before(base, extra, n, j, i); }
  }

  /** The first n symbols stand for exactly the values of one range, each of them once. */
  lemma ExactlyOnce(base: seq<nat>, extra: seq<nat>, n: nat, x: nat)
    requires 1 <= n <= |base| && n <= |extra| && Consecutive(base, extra, n)
    ensures base[0] <= x < base[n - 1] + Pow2(extra[n - 1])
        <==> exists i: nat, e: nat :: i < n && StandsFor(base, extra, i, e, x)
    ensures forall i: nat, e: nat, j: nat, f: nat ::
              i < n && j < n && StandsFor(base, extra, i, e, x) && StandsFor(base, extra, j, f, x) ==> i == j && e == f
  {
    hide Pow2, StandsFor, Consecutive;
    if base[0] <= x < base[n - 1] + Pow2(extra[n - 1]) {
      var i, e := Located(base, extra, n, x);
    }
    forall i: nat, e: nat | i < n && StandsFor(base, extra, i, e, x)
      ensures base[0] <= x < base[n - 1] + Pow2(extra[n - 1])
    {
      InsideAll(base, extra, n, i, e, x);
    }
    forall i: nat, e: nat, j: nat, f: nat |
      i < n && j < n && StandsFor(base, extra, i, e, x) && StandsFor(base, extra, j, f, x)
      ensures i == j && e == f
    {
      OneSymbol(base, extra, n, x, i, e, j, f);
    }
  }

  lemma InsideAll(base: seq<nat>, extra: seq<nat>, n: nat, i: nat, e: nat, x: nat)
    requires Consecutive(base, extra, n) && i < n && StandsFor(base, extra, i, e, x)
    ensures base[0] <= x < base[n - 1] + Pow2(extra[n - 1])
  {
    hide Pow2;
    if i > 0 { Before(base, extra, n, 0, i); }
    if i < n - 1 { Before(base, extra, n, i, n - 1); }
  }

  lemma DistancesConsecutive()
    ensures Consecutive(DIST_BASE, DIST_EXTRA, 30)
  {
    forall i | 0 <= i < 29 ensures DIST_BASE[i + 1] == DIST_BASE[i] + Pow2(DIST_EXTRA[i]) { DistancesAreCumulative(i); }
  }

  lemma LengthsConsecutive()
    ensures Consecutive(LENGTH_BASE, LENGTH_EXTRA, 28)
  {
    forall i | 0 <= i < 27 ensures LENGTH_BASE[i + 1] == LENGTH_BASE[i] + Pow2(LENGTH_EXTRA[i]) {
      LengthsAreCumulative(i);
    }
  }

  /** Distance symbol s with the extra bits e is distance d. */
  ghost predicate DistanceIs(s: nat, e: nat, d: nat) {
    s < 30 && e < Pow2(DistExtra(s)) && DistBase(s) + e == d
  }

  /** Length symbol 257 + s with the extra bits e is length n. */
  ghost predicate LengthIs(s: nat, e: nat, n: nat) {
    s < 29 && e < Pow2(LengthExtra(s)) && LengthBase(s) + e == n
  }

  lemma DistanceTable(s: nat, e: nat, d: nat)
    requires s < 30
    ensures DistanceIs(s, e, d) <==> StandsFor(DIST_BASE, DIST_EXTRA, s, e, d)
  {
    hide Pow2;
  }

  lemma LengthTable(s: nat, e: nat, n: nat)
    requires s < 29
    ensures LengthIs(s, e, n) <==> StandsFor(LENGTH_BASE, LENGTH_EXTRA, s, e, n)
  {
    hide Pow2;
  }

  /** Section 3.2.5 of RFC 1951: the distances are those from 1 to 32768, and each has exactly one symbol and one value
      of its extra bits. */
  lemma EveryDistance(d: nat)
    ensures 1 <= d <= 32768 <==> exists s: nat, e: nat :: s < 30 && DistanceIs(s, e, d)
    ensures forall s: nat, e: nat, s': nat, e': nat ::
              s < 30 && s' < 30 && DistanceIs(s, e, d) && DistanceIs(s', e', d) ==> s == s' && e == e'
  {
    hide StandsFor, Consecutive, Pow2;
    DistancesConsecutive();
    SmallPowers(13);
    ExactlyOnce(DIST_BASE, DIST_EXTRA, 30, d);
    forall s: nat, e: nat | s < 30 ensures DistanceIs(s, e, d) <==> StandsFor(DIST_BASE, DIST_EXTRA, s, e, d) {
      DistanceTable(s, e, d);
    }
  }

  /** The lengths from 3 to 258 have exactly one symbol below 285 and value of its extra bits each; and symbol 285 is
      length 258 without extra bits. */
  lemma EveryLength(n: nat)
    ensures 3 <= n <= 258 <==> exists s: nat, e: nat :: s < 28 && LengthIs(s, e, n)
    ensures forall s: nat, e: nat, s': nat, e': nat ::
              s < 28 && s' < 28 && LengthIs(s, e, n) && LengthIs(s', e', n) ==> s == s' && e == e'
    ensures forall e: nat :: LengthIs(28, e, n) <==> e == 0 && n == 258
  {
    hide StandsFor, Consecutive, Pow2;
    LengthsConsecutive();
    SmallPowers(5);
    SmallPowers(0);
    ExactlyOnce(LENGTH_BASE, LENGTH_EXTRA, 28, n);
    forall s: nat, e: nat | s < 28 ensures LengthIs(s, e, n) <==> StandsFor(LENGTH_BASE, LENGTH_EXTRA, s, e, n) {
      LengthTable(s, e, n);
    }
  }

  /** The extra bits in closed form: each pair of distance symbols, and each four of length symbols, has one more. */
  lemma ExtraBits(i: nat)
    ensures i < 30 ==> DIST_EXTRA[i] == if i < 4 then 0 else i / 2 - 1
    ensures i < 28 ==> LENGTH_EXTRA[i] == if i < 8 then 0 else i / 4 - 1
  {
  }

  // ------------------------------------------------------------------ a stream has one reading

  ghost predicate Lengths(c: Codes) {
    (forall i :: 0 <= i < |c.ll| ==> c.ll[i] <= 15) && (forall i :: 0 <= i < |c.dl| ==> c.dl[i] <= 15)
  }

  lemma TokenUnique(c: Codes, data: seq<nat>, p: nat, t: Token, u: Token)
    requires Lengths(c) && TokenAt(c, data, p, t) && TokenAt(c, data, p, u)
    ensures t == u
  {
    hide Key, Code, SymbolAt, Field, LengthExtra, DistExtra;
    SymbolUnique(c.ll, data, p, if t.Literal? then t.b else 257 + t.ls, if u.Literal? then u.b else 257 + u.ls);
    if t.Match? {
      SymbolUnique(c.dl, data, p + c.ll[257 + t.ls] + LengthExtra(t.ls), t.ds, u.ds);
    }
  }

  /** The first n tokens of one reading are those of any other that is at least as long. */
  lemma {:induction false} TokensAgree(c: Codes, data: seq<nat>, p: nat, ts: seq<Token>, us: seq<Token>)
    requires Lengths(c) && TokensAt(c, data, p, ts) && TokensAt(c, data, p, us) && |ts| <= |us|
    ensures ts == us[..|ts|]
    decreases |us|
  {
    hide TokenAt, Size, Fits;
    if |ts| < |us| {
      TokensAgree(c, data, p, ts, us[..|us| - 1]);
      assert us[..|us| - 1][..|ts|] == us[..|ts|];
    } else if ts != [] {
      var t, u := ts[..|ts| - 1], us[..|us| - 1];
      TokensAgree(c, data, p, t, u);
      assert t == u;
      TokenUnique(c, data, p + Width(c, t), ts[|ts| - 1], us[|us| - 1]);
      assert ts == t + [ts[|ts| - 1]] && us == u + [us[|us| - 1]];
    }
  }

  // ------------------------------------------------------------------ prefixes

  lemma {:induction false} PrefixStands(c: Codes, data: seq<nat>, p: nat, ts: seq<Token>, n: nat)
    requires TokensAt(c, data, p, ts) && n <= |ts|
    ensures TokensAt(c, data, p, ts[..n]) && Width(c, ts[..n]) <= Width(c, ts)
  {
    hide TokenAt, Size, Fits;
    if n < |ts| {
      PrefixStands(c, data, p, ts[..|ts| - 1], n);
      assert ts[..|ts| - 1][..n] == ts[..n];
    } else {
      assert ts[..n] == ts;
    }
  }

  lemma NextStands(c: Codes, data: seq<nat>, p: nat, ts: seq<Token>, n: nat)
    requires TokensAt(c, data, p, ts) && n < |ts|
    ensures TokensAt(c, data, p, ts[..n]) && TokenAt(c, data, p + Width(c, ts[..n]), ts[n])
    ensures Width(c, ts[..n]) + Size(c, ts[n]) <= Width(c, ts)
  {
    hide TokenAt, Size, Fits;
    PrefixStands(c, data, p, ts, n + 1);
    PrefixStands(c, data, p, ts, n);
    assert ts[..n + 1][..n] == ts[..n];
  }

  lemma EmitGrows(out: seq<byte>, t: Token)
    requires Legal(out, t)
    ensures |Emit(out, t)| == |out| + if t.Literal? then 1 else Length(t)
  {
  }

  lemma {:induction false} PrefixLegal(out: seq<byte>, ts: seq<Token>, n: nat)
    requires AllLegal(out, ts) && n <= |ts|
    ensures AllLegal(out, ts[..n]) && |Run(out, ts[..n])| <= |Run(out, ts)|
  {
    hide Legal;
    if n < |ts| {
      PrefixLegal(out, ts[..|ts| - 1], n);
      assert ts[..|ts| - 1][..n] == ts[..n];
      EmitGrows(Run(out, ts[..|ts| - 1]), ts[|ts| - 1]);
    } else {
      assert ts[..n] == ts;
    }
  }

  lemma NextLegal(out: seq<byte>, ts: seq<Token>, n: nat)
    requires AllLegal(out, ts) && n < |ts|
    ensures AllLegal(out, ts[..n]) && Legal(Run(out, ts[..n]), ts[n])
  {
    PrefixLegal(out, ts, n + 1);
    assert ts[..n + 1][..n] == ts[..n];
  }

  lemma EndIsNoToken(c: Codes, data: seq<nat>, p: nat, t: Token)
    requires Lengths(c) && SymbolAt(c.ll, data, p, END_OF_BLOCK)
    ensures !TokenAt(c, data, p, t)
  {
    hide SymbolAt;
    if TokenAt(c, data, p, t) {
      SymbolUnique(c.ll, data, p, END_OF_BLOCK, if t.Literal? then t.b else 257 + t.ls);
    }
  }

  /** No reading goes on past the end mark. */
  lemma NoLonger(c: Codes, data: seq<nat>, p: nat, ts: seq<Token>, us: seq<Token>)
    requires Lengths(c) && TokensAt(c, data, p, ts) && TokensAt(c, data, p, us)
    requires SymbolAt(c.ll, data, p + Width(c, ts), END_OF_BLOCK)
    ensures |us| <= |ts|
  {
    hide TokenAt, SymbolAt, Width, Size, Fits, AllFit;
    if |ts| < |us| {
      TokensAgree(c, data, p, ts, us);
      NextStands(c, data, p, us, |ts|);
      EndIsNoToken(c, data, p + Width(c, ts), us[|ts|]);
    }
  }

  /** A block has only one reading. */
  lemma BlockUnique(c: Codes, data: seq<nat>, p: nat, ts: seq<Token>, q: nat, us: seq<Token>, r: nat)
    requires Lengths(c) && BlockAt(c, data, p, ts, q) && BlockAt(c, data, p, us, r)
    ensures ts == us && q == r
  {
    hide SymbolAt, Width, AllFit;
    NoLonger(c, data, p, ts, us);
    NoLonger(c, data, p, us, ts);
    TokensAgree(c, data, p, ts, us);
    assert us[..|ts|] == us;
  }

  /** Where no legal token and no end mark lies inside the data, no legal block inside the data goes through. */
  lemma BlockedExcludes(c: Codes, data: seq<nat>, p: nat, out: seq<byte>, ts: seq<Token>, us: seq<Token>, q: nat,
                         eof: bool)
    requires Lengths(c) && TokensAt(c, data, p, ts) && AllLegal(out, ts)
    requires BlockAt(c, data, p, us, q) && AllLegal(out, us) && (eof ==> q <= 8 * |data|)
    ensures !Blocked(c, data, p + Width(c, ts), Run(out, ts), eof)
  {
    hide Key, Code, Legal, Size, Width, AllFit, Fits, Field;
    NoLonger(c, data, p, us, ts);
    TokensAgree(c, data, p, ts, us);
    if |ts| < |us| {
      NextStands(c, data, p, us, |ts|);
      NextLegal(out, us, |ts|);
      var t := us[|ts|];
      assert TokenAt(c, data, p + Width(c, ts), t) && Legal(Run(out, ts), t);
      assert p + Width(c, ts) + Size(c, t) <= q;
    } else {
      assert us[..|ts|] == us;
      assert SymbolAt(c.ll, data, p + Width(c, ts), END_OF_BLOCK);
    }
  }

  // ------------------------------------------------------------------ writing

  /** The n low bits of x, least significant first. */
  function FieldBits(x: nat, n: nat): (w: seq<bool>)
    ensures |w| == n
  {
    if n == 0 then [] else [x % 2 == 1] + FieldBits(x / 2, n - 1)
  }

  lemma {:induction false} FieldIsBits(data: seq<nat>, p: nat, x: nat, n: nat)
    requires x < Pow2(n)
    ensures Holds(data, p, FieldBits(x, n)) <==> Field(data, p, n) == x
    decreases n
  {
    if n > 0 {
      FieldIsBits(data, p + 1, x / 2, n - 1);
      HoldsConcat(data, p, [x % 2 == 1], FieldBits(x / 2, n - 1));
      HoldsOne(data, p, x % 2 == 1);
    }
  }

  /** The token can be written with these codes: its symbols have codes, its extra bits fit. */
  predicate Writable(c: Codes, t: Token) {
    && Fits(c, t)
    && match t
       case Literal(b) => c.ll[b] > 0
       case Match(ls, le, ds, de) =>
         c.ll[257 + ls] > 0 && c.dl[ds] > 0 && le < Pow2(LengthExtra(ls)) && de < Pow2(DistExtra(ds))
  }

  function TokenBits(c: Codes, t: Token): (w: seq<bool>)
    requires Fits(c, t)
    ensures |w| == Size(c, t)
  {
    match t
    case Literal(b) => Word(Code(c.ll, b), c.ll[b])
    case Match(ls, le, ds, de) =>
      (Word(Code(c.ll, 257 + ls), c.ll[257 + ls]) + FieldBits(le, LengthExtra(ls)))
      + (Word(Code(c.dl, ds), c.dl[ds]) + FieldBits(de, DistExtra(ds)))
  }

  /** The bits of a whole block body: tokens, then the end mark. */
  ghost function TokensBits(c: Codes, ts: seq<Token>): seq<bool>
    requires AllFit(c, ts)
  {
    if ts == [] then [] else TokensBits(c, ts[..|ts| - 1]) + TokenBits(c, ts[|ts| - 1])
  }

  ghost function BlockBits(c: Codes, ts: seq<Token>): seq<bool>
    requires |c.ll| > END_OF_BLOCK && AllFit(c, ts)
  {
    TokensBits(c, ts) + Word(Code(c.ll, END_OF_BLOCK), c.ll[END_OF_BLOCK])
  }

  lemma TokenBitsStand(c: Codes, data: seq<nat>, p: nat, t: Token)
    requires Accepted(c.ll) && Accepted(c.dl) && Writable(c, t) && Holds(data, p, TokenBits(c, t))
    ensures TokenAt(c, data, p, t)
  {
    hide Holds, Word, Code, SymbolAt, FieldBits, Field, Accepted, LengthExtra, DistExtra, Pow2;
    match t
    case Literal(b) => WordIsSymbol(c.ll, data, p, b);
    case Match(ls, le, ds, de) =>
      var w1, f1 := Word(Code(c.ll, 257 + ls), c.ll[257 + ls]), FieldBits(le, LengthExtra(ls));
      var w2, f2 := Word(Code(c.dl, ds), c.dl[ds]), FieldBits(de, DistExtra(ds));
      HoldsConcat(data, p, w1 + f1, w2 + f2);
      HoldsConcat(data, p, w1, f1);
      HoldsConcat(data, p + |w1 + f1|, w2, f2);
      WordIsSymbol(c.ll, data, p, 257 + ls);
      FieldIsBits(data, p + |w1|, le, LengthExtra(ls));
      WordIsSymbol(c.dl, data, p + |w1 + f1|, ds);
      FieldIsBits(data, p + |w1 + f1| + |w2|, de, DistExtra(ds));
  }

  lemma {:induction false} TokensBitsStand(c: Codes, data: seq<nat>, p: nat, ts: seq<Token>)
    requires Accepted(c.ll) && Accepted(c.dl) && AllFit(c, ts) && (forall t :: t in ts ==> Writable(c, t))
      && Holds(data, p, TokensBits(c, ts))
    ensures TokensAt(c, data, p, ts) && Width(c, ts) == |TokensBits(c, ts)|
  {
    hide Holds, TokenBits, TokenAt, Accepted, Size, Writable;
    if ts != [] {
      var init := ts[..|ts| - 1];
      HoldsConcat(data, p, TokensBits(c, init), TokenBits(c, ts[|ts| - 1]));
      TokensBitsStand(c, data, p, init);
      TokenBitsStand(c, data, p + Width(c, init), ts[|ts| - 1]);
    }
  }

  /** Written bits read back as the block that was written. */
  lemma BlockBitsStand(c: Codes, data: seq<nat>, p: nat, ts: seq<Token>)
    requires Accepted(c.ll) && Accepted(c.dl) && |c.ll| > END_OF_BLOCK && c.ll[END_OF_BLOCK] > 0
    requires AllFit(c, ts) && (forall t :: t in ts ==> Writable(c, t)) && Holds(data, p, BlockBits(c, ts))
    ensures BlockAt(c, data, p, ts, p + |BlockBits(c, ts)|)
  {
    hide Holds, TokensBits, TokensAt, Accepted;
    HoldsConcat(data, p, TokensBits(c, ts), Word(Code(c.ll, END_OF_BLOCK), c.ll[END_OF_BLOCK]));
    TokensBitsStand(c, data, p, ts);
    WordIsSymbol(c.ll, data, p + Width(c, ts), END_OF_BLOCK);
  }
}
