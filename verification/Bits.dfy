/** Bit operations on unsigned integers, with what they do to single bits. */
module Bits {

  predicate Bit(v: nat, i: nat) {
    if i == 0 then v % 2 == 1 else Bit(v / 2, i - 1)
  }

  function BitValue(v: nat, i: nat): nat {
    if Bit(v, i) then 1 else 0
  }

  function Shr(v: nat, n: nat): nat {
    if n == 0 then v else Shr(v / 2, n - 1)
  }

  function Shl(v: nat, n: nat): nat {
    if n == 0 then v else 2 * Shl(v, n - 1)
  }

  function Pow2(n: nat): nat {
    Shl(1, n)
  }

  /** The low n bits. */
  function Low(v: nat, n: nat): nat {
    if n == 0 then 0 else v % 2 + 2 * Low(v / 2, n - 1)
  }

  function And(a: nat, b: nat): nat {
    if a == 0 then 0 else (if a % 2 == 1 && b % 2 == 1 then 1 else 0) + 2 * And(a / 2, b / 2)
  }

  function Or(a: nat, b: nat): nat
    decreases a + b
  {
    if a + b == 0 then 0 else (if a % 2 == 1 || b % 2 == 1 then 1 else 0) + 2 * Or(a / 2, b / 2)
  }

  lemma {:induction false} ZeroBits(i: nat)
    ensures !Bit(0, i)
  {
    if i > 0 { ZeroBits(i - 1); }
  }

  lemma {:induction false} BitAnd(a: nat, b: nat, i: nat)
    ensures Bit(And(a, b), i) <==> Bit(a, i) && Bit(b, i)
  {
    if a == 0 {
      ZeroBits(i);
    } else if i > 0 {
      BitAnd(a / 2, b / 2, i - 1);
    }
  }

  lemma {:induction false} BitOr(a: nat, b: nat, i: nat)
    ensures Bit(Or(a, b), i) <==> Bit(a, i) || Bit(b, i)
  {
    if a + b == 0 {
      ZeroBits(i);
    } else if i > 0 {
      BitOr(a / 2, b / 2, i - 1);
    }
  }

  lemma {:induction false} BitShr(v: nat, n: nat, i: nat)
    ensures Bit(Shr(v, n), i) <==> Bit(v, n + i)
  {
    if n > 0 { BitShr(v / 2, n - 1, i); }
  }

  lemma {:induction false} BitShl(v: nat, n: nat, i: nat)
    ensures Bit(Shl(v, n), i) <==> n <= i && Bit(v, i - n)
  {
    if n > 0 && i > 0 { BitShl(v, n - 1, i - 1); }
  }

  lemma {:induction false} BitLow(v: nat, n: nat, i: nat)
    ensures Bit(Low(v, n), i) <==> i < n && Bit(v, i)
  {
    if n == 0 {
      ZeroBits(i);
    } else if i > 0 {
      BitLow(v / 2, n - 1, i - 1);
    }
  }

  /** Numbers are their bits. */
  lemma {:induction false} SameBits(a: nat, b: nat)
    requires forall i: nat :: Bit(a, i) <==> Bit(b, i)
    ensures a == b
    decreases a + b
  {
    assert Bit(a, 0) <==> Bit(b, 0);
    if a + b > 0 {
      forall i: nat ensures Bit(a / 2, i) <==> Bit(b / 2, i) {
        assert Bit(a, i + 1) <==> Bit(b, i + 1);
      }
      if a / 2 + b / 2 < a + b { SameBits(a / 2, b / 2); }
    }
  }

  lemma {:induction false} ShlAdds(v: nat, m: nat, n: nat)
    ensures Shl(Shl(v, m), n) == Shl(v, m + n)
  {
    if n > 0 { ShlAdds(v, m, n - 1); }
  }

  lemma {:induction false} ShlDouble(v: nat, n: nat)
    ensures Shl(2 * v, n) == Shl(v, n + 1)
  {
    if n > 0 { ShlDouble(v, n - 1); }
  }

  lemma {:induction false} ShlMonotone(a: nat, b: nat, n: nat)
    ensures a <= b <==> Shl(a, n) <= Shl(b, n)
  {
    if n > 0 { ShlMonotone(a, b, n - 1); }
  }

  lemma {:induction false} ShlSum(a: nat, b: nat, n: nat)
    ensures Shl(a + b, n) == Shl(a, n) + Shl(b, n)
  {
    if n > 0 { ShlSum(a, b, n - 1); }
  }

  /** Dividing by 2^n is finding the multiple of 2^n just below. */
  lemma {:induction false} ShrIs(k: nat, n: nat, c: nat)
    ensures Shr(k, n) == c <==> Shl(c, n) <= k < Shl(c + 1, n)
  {
    if n > 0 {
      ShrIs(k / 2, n - 1, c);
    }
  }

  lemma {:induction false} Split(v: nat, n: nat)
    ensures v == Shl(Shr(v, n), n) + Low(v, n)
    ensures Low(v, n) < Pow2(n)
  {
    if n > 0 {
      Split(v / 2, n - 1);
    }
  }

  lemma {:induction false} ShrAdds(v: nat, m: nat, n: nat)
    ensures Shr(Shr(v, m), n) == Shr(v, m + n)
  {
    if m > 0 { ShrAdds(v / 2, m - 1, n); }
  }

  lemma ShlZero(n: nat)
    ensures Shl(0, n) == 0
  {
  }

  lemma Pow2Values()
    ensures Pow2(1) == 2 && Pow2(2) == 4 && Pow2(3) == 8 && Pow2(4) == 16 && Pow2(5) == 32 && Pow2(8) == 256
    ensures Pow2(9) == 512 && Pow2(15) == 32768 && Pow2(16) == 65536
  {
    assert Pow2(4) == 16;
    assert Pow2(8) == 256 by { ShlAdds(1, 4, 4); assert Shl(16, 4) == 256; }
    assert Pow2(12) == 4096 by { ShlAdds(1, 8, 4); assert Shl(256, 4) == 4096; }
    assert Pow2(16) == 65536 by { ShlAdds(1, 12, 4); assert Shl(4096, 4) == 65536; }
  }
}
