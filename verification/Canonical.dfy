/** Canonical prefix codes as section 3.2.2 of RFC 1951 assigns them to a list of code lengths. */
module Canonical {
  import opened Bits

  /** How many symbols have length s. */
  function Count(sl: seq<nat>, s: nat): nat {
    if sl == [] then 0 else
      var n := |sl| - 1;
      Count(sl[..n], s) + if sl[n] == s then 1 else 0
  }

  /** The first code of length s. */
  function First(sl: seq<nat>, s: nat): nat
    decreases s, 0
  {
    if s <= 1 then 0 else 2 * End(sl, s - 1)
  }

  /** One past the last code of length s. */
  function End(sl: seq<nat>, s: nat): nat
    decreases s, 1
  {
    if s == 0 then 0 else First(sl, s) + Count(sl, s)
  }

  /** The code of symbol v: codes of one length are consecutive, in symbol order. */
  function Code(sl: seq<nat>, v: nat): nat
    requires v < |sl|
  {
    First(sl, sl[v]) + Count(sl[..v], sl[v])
  }

  /** No length is over-subscribed. */
  ghost predicate Accepted(sl: seq<nat>) {
    && (forall v :: 0 <= v < |sl| ==> sl[v] <= 15)
    && (forall s :: 1 <= s <= 15 ==> End(sl, s) <= Pow2(s))
  }

  /** Bit p of a byte stream: least significant bit of each byte first, zeros after the end. */
  predicate StreamBit(data: seq<nat>, p: nat) {
    p / 8 < |data| && Bit(data[p / 8], p % 8)
  }

  /** The next n bits as a number, the first one most significant: how the format packs its codes. */
  function Key(data: seq<nat>, p: nat, n: nat): nat {
    if n == 0 then 0 else 2 * Key(data, p, n - 1) + if StreamBit(data, p + n - 1) then 1 else 0
  }

  /** Symbol v stands at bit p of the stream. */
  predicate SymbolAt(sl: seq<nat>, data: seq<nat>, p: nat, v: nat) {
    v < |sl| && sl[v] > 0 && Key(data, p, sl[v]) == Code(sl, v)
  }

  // ------------------------------------------------------------------ words

  /** The n low bits of c, most significant first. */
  function Word(c: nat, n: nat): (w: seq<bool>)
    ensures |w| == n
  {
    if n == 0 then [] else Word(c / 2, n - 1) + [c % 2 == 1]
  }

  /** The stream carries the bits w from position p on. */
  predicate Holds(data: seq<nat>, p: nat, w: seq<bool>) {
    forall t :: 0 <= t < |w| ==> StreamBit(data, p + t) == w[t]
  }

  lemma HoldsConcat(data: seq<nat>, p: nat, a: seq<bool>, b: seq<bool>)
    ensures Holds(data, p, a + b) <==> Holds(data, p, a) && Holds(data, p + |a|, b)
  {
    if Holds(data, p, a + b) {
      assert forall t :: 0 <= t < |a| ==> a[t] == (a + b)[t];
      forall t | 0 <= t < |b| ensures StreamBit(data, p + |a| + t) == b[t] {
        assert (a + b)[|a| + t] == b[t] && StreamBit(data, p + (|a| + t)) == (a + b)[|a| + t];
      }
    }
    if Holds(data, p, a) && Holds(data, p + |a|, b) {
      forall t | 0 <= t < |a + b| ensures StreamBit(data, p + t) == (a + b)[t] {
        if t >= |a| { assert StreamBit(data, p + |a| + (t - |a|)) == b[t - |a|]; }
      }
    }
  }

  lemma HoldsOne(data: seq<nat>, p: nat, b: bool)
    ensures Holds(data, p, [b]) <==> StreamBit(data, p) == b
  {
    assert Holds(data, p, [b]) ==> StreamBit(data, p + 0) == [b][0];
  }

  lemma {:induction false} KeyIsWord(data: seq<nat>, p: nat, c: nat, n: nat)
    requires c < Pow2(n)
    ensures Holds(data, p, Word(c, n)) <==> Key(data, p, n) == c
  {
    if n > 0 {
      KeyIsWord(data, p, c / 2, n - 1);
      HoldsConcat(data, p, Word(c / 2, n - 1), [c % 2 == 1]);
      HoldsOne(data, p + n - 1, c % 2 == 1);
    }
  }

  // ------------------------------------------------------------------ prefix freedom

  lemma {:induction false} KeyPrefix(data: seq<nat>, p: nat, s: nat, n: nat)
    requires s <= n
    ensures Shr(Key(data, p, n), n - s) == Key(data, p, s)
  {
    if s < n {
      KeyPrefix(data, p, s, n - 1);
    }
  }

  lemma {:induction false} KeyBelow(data: seq<nat>, p: nat, n: nat)
    ensures Key(data, p, n) < Pow2(n)
  {
    if n > 0 { KeyBelow(data, p, n - 1); }
  }

  lemma {:induction false} CountBound(sl: seq<nat>, s: nat, v: nat)
    requires v < |sl| && sl[v] == s
    ensures Count(sl[..v], s) < Count(sl, s)
  {
    if v < |sl| - 1 {
      CountBound(sl[..|sl| - 1], s, v);
      assert sl[..|sl| - 1][..v] == sl[..v];
    }
  }

  lemma {:induction false} CountPrefix(sl: seq<nat>, s: nat, i: nat)
    requires i <= |sl|
    ensures Count(sl[..i], s) <= Count(sl, s) && Count(sl, s) <= |sl|
  {
    if i < |sl| {
      CountPrefix(sl[..|sl| - 1], s, i);
      assert sl[..|sl| - 1][..i] == sl[..i];
    } else {
      assert sl[..i] == sl;
      if sl != [] {
        CountPrefix(sl[..|sl| - 1], s, |sl| - 1);
      }
    }
  }

  lemma CountRises(sl: seq<nat>, v: nat, u: nat)
    requires v < u < |sl| && sl[v] == sl[u]
    ensures Count(sl[..v], sl[v]) < Count(sl[..u], sl[u])
  {
    CountBound(sl[..u], sl[v], v);
    assert sl[..u][..v] == sl[..v];
  }

  /** Of the codes of length s in use, each belongs to a symbol. */
  lemma {:induction false} Nth(sl: seq<nat>, s: nat, r: nat) returns (v: nat)
    requires r < Count(sl, s)
    ensures v < |sl| && sl[v] == s && Count(sl[..v], s) == r
  {
    var n := |sl| - 1;
    if r < Count(sl[..n], s) {
      v := Nth(sl[..n], s, r);
      assert sl[..n][..v] == sl[..v];
    } else {
      v := n;
    }
  }

  lemma CodeRange(sl: seq<nat>, v: nat)
    requires v < |sl| && sl[v] > 0
    ensures First(sl, sl[v]) <= Code(sl, v) < End(sl, sl[v])
  {
    CountBound(sl, sl[v], v);
  }

  /** The 16-bit keys whose code has length at most s are those below Limit(s). */
  function Limit(sl: seq<nat>, s: nat): nat
    requires s <= 16
  {
    Shl(End(sl, s), 16 - s)
  }

  lemma LimitIsFirst(sl: seq<nat>, s: nat)
    requires 1 <= s <= 16
    ensures Limit(sl, s - 1) == Shl(First(sl, s), 16 - s)
  {
    ShlDouble(End(sl, s - 1), 16 - s);
    if s == 1 { ShlZero(16); ShlZero(15); }
  }

  lemma {:induction false} LimitGrows(sl: seq<nat>, s: nat, t: nat)
    requires s <= t <= 16
    ensures Limit(sl, s) <= Limit(sl, t)
  {
    if s < t {
      LimitIsFirst(sl, t);
      ShlMonotone(First(sl, t), End(sl, t), 16 - t);
      LimitGrows(sl, s, t - 1);
    }
  }

  /** A length's interval of keys holds exactly its codes. */
  lemma IntervalIsCode(sl: seq<nat>, s: nat, k: nat)
    requires 1 <= s <= 16
    ensures Limit(sl, s - 1) <= k < Limit(sl, s) <==> First(sl, s) <= Shr(k, 16 - s) < End(sl, s)
  {
    var c := Shr(k, 16 - s);
    ShrIs(k, 16 - s, c);
    LimitIsFirst(sl, s);
    ShlMonotone(First(sl, s), c, 16 - s);
    ShlMonotone(c + 1, First(sl, s), 16 - s);
    ShlMonotone(c + 1, End(sl, s), 16 - s);
    ShlMonotone(End(sl, s), c, 16 - s);
  }

  /** The first bits of the 16-bit key k are the code of v. */
  predicate KeyMatches(sl: seq<nat>, k: nat, v: nat) {
    v < |sl| && 1 <= sl[v] <= 15 && Shr(k, 16 - sl[v]) == Code(sl, v)
  }

  lemma MatchInterval(sl: seq<nat>, k: nat, v: nat)
    requires KeyMatches(sl, k, v)
    ensures Limit(sl, sl[v] - 1) <= k < Limit(sl, sl[v])
  {
    CodeRange(sl, v);
    IntervalIsCode(sl, sl[v], k);
  }

  lemma MatchUnique(sl: seq<nat>, k: nat, v: nat, u: nat)
    requires KeyMatches(sl, k, v) && KeyMatches(sl, k, u)
    ensures v == u
  {
    MatchInterval(sl, k, v);
    MatchInterval(sl, k, u);
    if sl[v] < sl[u] {
      LimitGrows(sl, sl[v], sl[u] - 1);
    } else if sl[u] < sl[v] {
      LimitGrows(sl, sl[u], sl[v] - 1);
    } else if v < u {
      CountRises(sl, v, u);
    } else if u < v {
      CountRises(sl, u, v);
    }
  }

  /** A key below Limit(s) starts with a code of length at most s. */
  lemma {:induction false} MatchBelow(sl: seq<nat>, k: nat, s: nat) returns (v: nat)
    requires 1 <= s <= 15 && k < Limit(sl, s)
    ensures KeyMatches(sl, k, v) && sl[v] <= s
  {
    if s > 1 && k < Limit(sl, s - 1) {
      v := MatchBelow(sl, k, s - 1);
    } else {
      ShlZero(16);
      v := MatchIn(sl, k, s);
    }
  }

  lemma MatchIn(sl: seq<nat>, k: nat, s: nat) returns (v: nat)
    requires 1 <= s <= 15 && Limit(sl, s - 1) <= k < Limit(sl, s)
    ensures KeyMatches(sl, k, v) && sl[v] == s
  {
    IntervalIsCode(sl, s, k);
    v := SymbolOf(sl, s, Shr(k, 16 - s));
  }

  lemma SymbolMatches(sl: seq<nat>, data: seq<nat>, p: nat, v: nat)
    requires forall i :: 0 <= i < |sl| ==> sl[i] <= 15
    ensures SymbolAt(sl, data, p, v) <==> KeyMatches(sl, Key(data, p, 16), v)
  {
    if v < |sl| && sl[v] > 0 {
      KeyPrefix(data, p, sl[v], 16);
    }
  }

  /** One place of the stream holds at most one symbol: the codes are prefix-free. */
  lemma SymbolUnique(sl: seq<nat>, data: seq<nat>, p: nat, v: nat, u: nat)
    requires forall i :: 0 <= i < |sl| ==> sl[i] <= 15
    requires SymbolAt(sl, data, p, v) && SymbolAt(sl, data, p, u)
    ensures v == u
  {
    SymbolMatches(sl, data, p, v);
    SymbolMatches(sl, data, p, u);
    MatchUnique(sl, Key(data, p, 16), v, u);
  }

  /** The symbol whose code is c. */
  lemma SymbolOf(sl: seq<nat>, s: nat, c: nat) returns (v: nat)
    requires 1 <= s && First(sl, s) <= c < End(sl, s)
    ensures v < |sl| && sl[v] == s && Code(sl, v) == c
  {
    v := Nth(sl, s, c - First(sl, s));
  }

  // ------------------------------------------------------------------ encoding

  /** The concatenated codes of a list of symbols. */
  function Encode(sl: seq<nat>, vs: seq<nat>): seq<bool>
    requires forall i :: 0 <= i < |vs| ==> vs[i] < |sl|
  {
    if vs == [] then [] else Word(Code(sl, vs[0]), sl[vs[0]]) + Encode(sl, vs[1..])
  }

  lemma WordIsSymbol(sl: seq<nat>, data: seq<nat>, p: nat, v: nat)
    requires Accepted(sl) && v < |sl| && sl[v] > 0
    ensures Holds(data, p, Word(Code(sl, v), sl[v])) <==> SymbolAt(sl, data, p, v)
  {
    CodeRange(sl, v);
    assert End(sl, sl[v]) <= Pow2(sl[v]);
    KeyIsWord(data, p, Code(sl, v), sl[v]);
  }

  /** The symbols vs stand one after another from bit p on. */
  predicate SymbolsAt(sl: seq<nat>, data: seq<nat>, p: nat, vs: seq<nat>)
    decreases |vs|
  {
    vs == [] || (SymbolAt(sl, data, p, vs[0]) && SymbolsAt(sl, data, p + sl[vs[0]], vs[1..]))
  }

  /** The stream carries the encoding of vs exactly when decoding symbol by symbol finds vs. */
  lemma {:induction false} EncodeIsSymbols(sl: seq<nat>, data: seq<nat>, p: nat, vs: seq<nat>)
    requires Accepted(sl) && forall i :: 0 <= i < |vs| ==> vs[i] < |sl| && sl[vs[i]] > 0
    ensures Holds(data, p, Encode(sl, vs)) <==> SymbolsAt(sl, data, p, vs)
    decreases |vs|
  {
    if vs != [] {
      hide Holds, Accepted, Word, Code, Key;
      WordIsSymbol(sl, data, p, vs[0]);
      HoldsConcat(data, p, Word(Code(sl, vs[0]), sl[vs[0]]), Encode(sl, vs[1..]));
      EncodeIsSymbols(sl, data, p + sl[vs[0]], vs[1..]);
    } else {
      assert Holds(data, p, []);
    }
  }

  lemma {:induction false} SymbolsUnique(sl: seq<nat>, data: seq<nat>, p: nat, vs: seq<nat>, us: seq<nat>)
    requires forall i :: 0 <= i < |sl| ==> sl[i] <= 15
    requires SymbolsAt(sl, data, p, vs) && SymbolsAt(sl, data, p, us) && |vs| == |us|
    ensures vs == us
    decreases |vs|
  {
    if vs != [] {
      SymbolUnique(sl, data, p, vs[0], us[0]);
      SymbolsUnique(sl, data, p + sl[vs[0]], vs[1..], us[1..]);
      assert vs == [vs[0]] + vs[1..] && us == [us[0]] + us[1..];
    }
  }
}
