/** The mask-and-shift bit reversal of the Huffman decoder. */
module BitReversal {
  import opened Bits

  /** The n low bits of v in opposite order. */
  function Rev(v: nat, n: nat): nat {
    if n == 0 then 0 else 2 * Rev(v, n - 1) + BitValue(v, n - 1)
  }

  /** Exchange the bits selected by `hi` with those selected by `lo`, d places below. */
  function Swap(n: nat, hi: nat, lo: nat, d: nat): nat {
    Or(Shr(And(n, hi), d), Shl(And(n, lo), d))
  }

  /** stbi__bitreverse16 */
  function BitReverse16(n: nat): nat {
    var n1 := Swap(n, 0xAAAA, 0x5555, 1);
    var n2 := Swap(n1, 0xCCCC, 0x3333, 2);
    var n3 := Swap(n2, 0xF0F0, 0x0F0F, 4);
    Swap(n3, 0xFF00, 0x00FF, 8)
  }

  /** stbi__bit_reverse: reverse the low 16 bits, shift the surplus away. */
  function BitReverse(v: nat, bits: nat): nat
    requires bits <= 16
  {
    Shr(BitReverse16(v), 16 - bits)
  }

  lemma SwapBit(n: nat, hi: nat, lo: nat, d: nat, i: nat)
    ensures Bit(Swap(n, hi, lo, d), i) <==>
            (Bit(n, i + d) && Bit(hi, i + d)) || (d <= i && Bit(n, i - d) && Bit(lo, i - d))
  {
    BitOr(Shr(And(n, hi), d), Shl(And(n, lo), d), i);
    BitShr(And(n, hi), d, i);
    BitAnd(n, hi, i + d);
    BitShl(And(n, lo), d, i);
    if d <= i { BitAnd(n, lo, i - d); }
  }

  lemma HighBits(m: nat, i: nat)
    requires m < 65536 && 16 <= i
    ensures !Bit(m, i)
  {
    Pow2Values();
    ShrIs(m, 16, 0);
    ShlZero(16);
    BitShr(m, 16, i - 16);
    ZeroBits(i - 16);
  }

  lemma Nibble(v: nat, i: nat)
    ensures Bit(v, i + 4) <==> Bit(v / 16, i)
  {
    assert v / 2 / 2 / 2 / 2 == v / 16;
    assert Bit(v, i + 4) <==> Bit(v / 2, i + 3);
    assert Bit(v / 2, i + 3) <==> Bit(v / 2 / 2, i + 2);
    assert Bit(v / 2 / 2, i + 2) <==> Bit(v / 2 / 2 / 2, i + 1);
  }

  lemma LowNibble(v: nat)
    ensures (Bit(v, 0) <==> v % 2 == 1) && (Bit(v, 1) <==> v / 2 % 2 == 1)
    ensures (Bit(v, 2) <==> v / 4 % 2 == 1) && (Bit(v, 3) <==> v / 8 % 2 == 1)
  {
    assert v / 2 / 2 == v / 4 && v / 2 / 2 / 2 == v / 8;
    assert Bit(v, 2) <==> Bit(v / 2, 1);
    assert Bit(v / 2, 1) <==> Bit(v / 4, 0);
    assert Bit(v, 3) <==> Bit(v / 2, 2);
    assert Bit(v / 2, 2) <==> Bit(v / 4, 1);
    assert Bit(v / 4, 1) <==> Bit(v / 8, 0);
  }

  lemma Shifted(v: nat, q: nat, h: nat)
    requires forall i: nat :: Bit(v, i + q) <==> Bit(h, i)
    ensures (Bit(v, q) <==> h % 2 == 1) && (Bit(v, q + 1) <==> h / 2 % 2 == 1)
    ensures (Bit(v, q + 2) <==> h / 4 % 2 == 1) && (Bit(v, q + 3) <==> h / 8 % 2 == 1)
  {
    hide Bit;
    LowNibble(h);
    assert Bit(v, 0 + q) <==> Bit(h, 0);
    assert Bit(v, 1 + q) <==> Bit(h, 1);
    assert Bit(v, 2 + q) <==> Bit(h, 2);
    assert Bit(v, 3 + q) <==> Bit(h, 3);
  }

  /** The bits of a number, four to each hexadecimal digit. */
  lemma Digits(v: nat, h1: nat, h2: nat, h3: nat)
    requires h1 == v / 16 && h2 == h1 / 16 && h3 == h2 / 16
    ensures (Bit(v, 0) <==> v % 2 == 1) && (Bit(v, 1) <==> v / 2 % 2 == 1)
    ensures (Bit(v, 2) <==> v / 4 % 2 == 1) && (Bit(v, 3) <==> v / 8 % 2 == 1)
    ensures (Bit(v, 4) <==> h1 % 2 == 1) && (Bit(v, 5) <==> h1 / 2 % 2 == 1)
    ensures (Bit(v, 6) <==> h1 / 4 % 2 == 1) && (Bit(v, 7) <==> h1 / 8 % 2 == 1)
    ensures (Bit(v, 8) <==> h2 % 2 == 1) && (Bit(v, 9) <==> h2 / 2 % 2 == 1)
    ensures (Bit(v, 10) <==> h2 / 4 % 2 == 1) && (Bit(v, 11) <==> h2 / 8 % 2 == 1)
    ensures (Bit(v, 12) <==> h3 % 2 == 1) && (Bit(v, 13) <==> h3 / 2 % 2 == 1)
    ensures (Bit(v, 14) <==> h3 / 4 % 2 == 1) && (Bit(v, 15) <==> h3 / 8 % 2 == 1)
  {
    hide Bit;
    forall i: nat ensures Bit(v, i + 4) <==> Bit(h1, i) { Nibble(v, i); }
    forall i: nat ensures Bit(v, i + 8) <==> Bit(h2, i) { Nibble(v, i + 4); Nibble(h1, i); }
    forall i: nat ensures Bit(v, i + 12) <==> Bit(h3, i) { Nibble(v, i + 8); Nibble(h1, i + 4); Nibble(h2, i); }
    LowNibble(v);
    Shifted(v, 4, h1);
    Shifted(v, 8, h2);
    Shifted(v, 12, h3);
  }

  lemma Swapped1(n: nat)
    ensures var m := Swap(n, 0xAAAA, 0x5555, 1);
            && (Bit(m, 0) <==> Bit(n, 1)) && (Bit(m, 1) <==> Bit(n, 0)) && (Bit(m, 2) <==> Bit(n, 3))
            && (Bit(m, 3) <==> Bit(n, 2))
            && (Bit(m, 4) <==> Bit(n, 5)) && (Bit(m, 5) <==> Bit(n, 4)) && (Bit(m, 6) <==> Bit(n, 7))
            && (Bit(m, 7) <==> Bit(n, 6))
            && (Bit(m, 8) <==> Bit(n, 9)) && (Bit(m, 9) <==> Bit(n, 8)) && (Bit(m, 10) <==> Bit(n, 11))
            && (Bit(m, 11) <==> Bit(n, 10))
            && (Bit(m, 12) <==> Bit(n, 13)) && (Bit(m, 13) <==> Bit(n, 12)) && (Bit(m, 14) <==> Bit(n, 15))
            && (Bit(m, 15) <==> Bit(n, 14))
  {
    hide Bit, Swap;
    Digits(0xAAAA, 0xAAA, 0xAA, 0xA);
    Digits(0x5555, 0x555, 0x55, 0x5);
    SwapBit(n, 0xAAAA, 0x5555, 1, 0); SwapBit(n, 0xAAAA, 0x5555, 1, 1); SwapBit(n, 0xAAAA, 0x5555, 1, 2);
    SwapBit(n, 0xAAAA, 0x5555, 1, 3);
    SwapBit(n, 0xAAAA, 0x5555, 1, 4); SwapBit(n, 0xAAAA, 0x5555, 1, 5); SwapBit(n, 0xAAAA, 0x5555, 1, 6);
    SwapBit(n, 0xAAAA, 0x5555, 1, 7);
    SwapBit(n, 0xAAAA, 0x5555, 1, 8); SwapBit(n, 0xAAAA, 0x5555, 1, 9); SwapBit(n, 0xAAAA, 0x5555, 1, 10);
    SwapBit(n, 0xAAAA, 0x5555, 1, 11);
    SwapBit(n, 0xAAAA, 0x5555, 1, 12); SwapBit(n, 0xAAAA, 0x5555, 1, 13); SwapBit(n, 0xAAAA, 0x5555, 1, 14);
    SwapBit(n, 0xAAAA, 0x5555, 1, 15);
    HighBits(0xAAAA, 16);
  }

  lemma Swapped2(n: nat)
    ensures var m := Swap(n, 0xCCCC, 0x3333, 2);
            && (Bit(m, 0) <==> Bit(n, 2)) && (Bit(m, 1) <==> Bit(n, 3)) && (Bit(m, 2) <==> Bit(n, 0))
            && (Bit(m, 3) <==> Bit(n, 1))
            && (Bit(m, 4) <==> Bit(n, 6)) && (Bit(m, 5) <==> Bit(n, 7)) && (Bit(m, 6) <==> Bit(n, 4))
            && (Bit(m, 7) <==> Bit(n, 5))
            && (Bit(m, 8) <==> Bit(n, 10)) && (Bit(m, 9) <==> Bit(n, 11)) && (Bit(m, 10) <==> Bit(n, 8))
            && (Bit(m, 11) <==> Bit(n, 9))
            && (Bit(m, 12) <==> Bit(n, 14)) && (Bit(m, 13) <==> Bit(n, 15)) && (Bit(m, 14) <==> Bit(n, 12))
            && (Bit(m, 15) <==> Bit(n, 13))
  {
    hide Bit, Swap;
    Digits(0xCCCC, 0xCCC, 0xCC, 0xC);
    Digits(0x3333, 0x333, 0x33, 0x3);
    SwapBit(n, 0xCCCC, 0x3333, 2, 0); SwapBit(n, 0xCCCC, 0x3333, 2, 1); SwapBit(n, 0xCCCC, 0x3333, 2, 2);
    SwapBit(n, 0xCCCC, 0x3333, 2, 3);
    SwapBit(n, 0xCCCC, 0x3333, 2, 4); SwapBit(n, 0xCCCC, 0x3333, 2, 5); SwapBit(n, 0xCCCC, 0x3333, 2, 6);
    SwapBit(n, 0xCCCC, 0x3333, 2, 7);
    SwapBit(n, 0xCCCC, 0x3333, 2, 8); SwapBit(n, 0xCCCC, 0x3333, 2, 9); SwapBit(n, 0xCCCC, 0x3333, 2, 10);
    SwapBit(n, 0xCCCC, 0x3333, 2, 11);
    SwapBit(n, 0xCCCC, 0x3333, 2, 12); SwapBit(n, 0xCCCC, 0x3333, 2, 13); SwapBit(n, 0xCCCC, 0x3333, 2, 14);
    SwapBit(n, 0xCCCC, 0x3333, 2, 15);
    HighBits(0xCCCC, 16); HighBits(0xCCCC, 17);
  }

  lemma Swapped4(n: nat)
    ensures var m := Swap(n, 0xF0F0, 0x0F0F, 4);
            && (Bit(m, 0) <==> Bit(n, 4)) && (Bit(m, 1) <==> Bit(n, 5)) && (Bit(m, 2) <==> Bit(n, 6))
            && (Bit(m, 3) <==> Bit(n, 7))
            && (Bit(m, 4) <==> Bit(n, 0)) && (Bit(m, 5) <==> Bit(n, 1)) && (Bit(m, 6) <==> Bit(n, 2))
            && (Bit(m, 7) <==> Bit(n, 3))
            && (Bit(m, 8) <==> Bit(n, 12)) && (Bit(m, 9) <==> Bit(n, 13)) && (Bit(m, 10) <==> Bit(n, 14))
            && (Bit(m, 11) <==> Bit(n, 15))
            && (Bit(m, 12) <==> Bit(n, 8)) && (Bit(m, 13) <==> Bit(n, 9)) && (Bit(m, 14) <==> Bit(n, 10))
            && (Bit(m, 15) <==> Bit(n, 11))
  {
    hide Bit, Swap;
    Digits(0xF0F0, 0xF0F, 0xF0, 0xF);
    Digits(0x0F0F, 0xF0, 0xF, 0x0);
    SwapBit(n, 0xF0F0, 0x0F0F, 4, 0); SwapBit(n, 0xF0F0, 0x0F0F, 4, 1); SwapBit(n, 0xF0F0, 0x0F0F, 4, 2);
    SwapBit(n, 0xF0F0, 0x0F0F, 4, 3);
    SwapBit(n, 0xF0F0, 0x0F0F, 4, 4); SwapBit(n, 0xF0F0, 0x0F0F, 4, 5); SwapBit(n, 0xF0F0, 0x0F0F, 4, 6);
    SwapBit(n, 0xF0F0, 0x0F0F, 4, 7);
    SwapBit(n, 0xF0F0, 0x0F0F, 4, 8); SwapBit(n, 0xF0F0, 0x0F0F, 4, 9); SwapBit(n, 0xF0F0, 0x0F0F, 4, 10);
    SwapBit(n, 0xF0F0, 0x0F0F, 4, 11);
    SwapBit(n, 0xF0F0, 0x0F0F, 4, 12); SwapBit(n, 0xF0F0, 0x0F0F, 4, 13); SwapBit(n, 0xF0F0, 0x0F0F, 4, 14);
    SwapBit(n, 0xF0F0, 0x0F0F, 4, 15);
    HighBits(0xF0F0, 16); HighBits(0xF0F0, 17); HighBits(0xF0F0, 18); HighBits(0xF0F0, 19);
  }

  lemma Swapped8(n: nat)
    ensures var m := Swap(n, 0xFF00, 0x00FF, 8);
            && (Bit(m, 0) <==> Bit(n, 8)) && (Bit(m, 1) <==> Bit(n, 9)) && (Bit(m, 2) <==> Bit(n, 10))
            && (Bit(m, 3) <==> Bit(n, 11))
            && (Bit(m, 4) <==> Bit(n, 12)) && (Bit(m, 5) <==> Bit(n, 13)) && (Bit(m, 6) <==> Bit(n, 14))
            && (Bit(m, 7) <==> Bit(n, 15))
            && (Bit(m, 8) <==> Bit(n, 0)) && (Bit(m, 9) <==> Bit(n, 1)) && (Bit(m, 10) <==> Bit(n, 2))
            && (Bit(m, 11) <==> Bit(n, 3))
            && (Bit(m, 12) <==> Bit(n, 4)) && (Bit(m, 13) <==> Bit(n, 5)) && (Bit(m, 14) <==> Bit(n, 6))
            && (Bit(m, 15) <==> Bit(n, 7))
  {
    hide Bit, Swap;
    Digits(0xFF00, 0xFF0, 0xFF, 0xF);
    Digits(0x00FF, 0xF, 0x0, 0x0);
    SwapBit(n, 0xFF00, 0x00FF, 8, 0); SwapBit(n, 0xFF00, 0x00FF, 8, 1); SwapBit(n, 0xFF00, 0x00FF, 8, 2);
    SwapBit(n, 0xFF00, 0x00FF, 8, 3);
    SwapBit(n, 0xFF00, 0x00FF, 8, 4); SwapBit(n, 0xFF00, 0x00FF, 8, 5); SwapBit(n, 0xFF00, 0x00FF, 8, 6);
    SwapBit(n, 0xFF00, 0x00FF, 8, 7);
    SwapBit(n, 0xFF00, 0x00FF, 8, 8); SwapBit(n, 0xFF00, 0x00FF, 8, 9); SwapBit(n, 0xFF00, 0x00FF, 8, 10);
    SwapBit(n, 0xFF00, 0x00FF, 8, 11);
    SwapBit(n, 0xFF00, 0x00FF, 8, 12); SwapBit(n, 0xFF00, 0x00FF, 8, 13); SwapBit(n, 0xFF00, 0x00FF, 8, 14);
    SwapBit(n, 0xFF00, 0x00FF, 8, 15);
    HighBits(0xFF00, 16); HighBits(0xFF00, 17); HighBits(0xFF00, 18); HighBits(0xFF00, 19); HighBits(0xFF00, 20);
    HighBits(0xFF00, 21); HighBits(0xFF00, 22); HighBits(0xFF00, 23);
  }

  lemma ReversedBits(n: nat)
    ensures var r := BitReverse16(n);
            && (Bit(r, 0) <==> Bit(n, 15)) && (Bit(r, 1) <==> Bit(n, 14)) && (Bit(r, 2) <==> Bit(n, 13))
            && (Bit(r, 3) <==> Bit(n, 12))
            && (Bit(r, 4) <==> Bit(n, 11)) && (Bit(r, 5) <==> Bit(n, 10)) && (Bit(r, 6) <==> Bit(n, 9))
            && (Bit(r, 7) <==> Bit(n, 8))
            && (Bit(r, 8) <==> Bit(n, 7)) && (Bit(r, 9) <==> Bit(n, 6)) && (Bit(r, 10) <==> Bit(n, 5))
            && (Bit(r, 11) <==> Bit(n, 4))
            && (Bit(r, 12) <==> Bit(n, 3)) && (Bit(r, 13) <==> Bit(n, 2)) && (Bit(r, 14) <==> Bit(n, 1))
            && (Bit(r, 15) <==> Bit(n, 0))
  {
    hide Bit, Swap;
    var n1 := Swap(n, 0xAAAA, 0x5555, 1);
    var n2 := Swap(n1, 0xCCCC, 0x3333, 2);
    var n3 := Swap(n2, 0xF0F0, 0x0F0F, 4);
    Swapped1(n);
    Swapped2(n1);
    Swapped4(n2);
    Swapped8(n3);
  }

  lemma {:induction false} RevBit(v: nat, n: nat, i: nat)
    ensures Bit(Rev(v, n), i) <==> i < n && Bit(v, n - 1 - i)
  {
    if n == 0 {
      ZeroBits(i);
    } else if i > 0 {
      RevBit(v, n - 1, i - 1);
    }
  }

  lemma ReversedAbove(n: nat, i: nat)
    requires 16 <= i
    ensures !Bit(BitReverse16(n), i)
  {
    hide Bit, Swap;
    var n1 := Swap(n, 0xAAAA, 0x5555, 1);
    var n2 := Swap(n1, 0xCCCC, 0x3333, 2);
    SwapBit(Swap(n2, 0xF0F0, 0x0F0F, 4), 0xFF00, 0x00FF, 8, i);
    HighBits(0xFF00, i + 8);
    Digits(0x00FF, 0xF, 0, 0);
    if i < 24 {
      assert i == 16 || i == 17 || i == 18 || i == 19 || i == 20 || i == 21 || i == 22 || i == 23;
    } else {
      HighBits(0x00FF, i - 8);
    }
  }

  lemma ReversedBit(n: nat, i: nat)
    ensures Bit(BitReverse16(n), i) <==> i < 16 && Bit(n, 15 - i)
  {
    hide Bit, BitReverse16;
    if i < 16 {
      ReversedBits(n);
      assert i == 0 || i == 1 || i == 2 || i == 3 || i == 4 || i == 5 || i == 6 || i == 7 || i == 8 || i == 9 || i == 10
             || i == 11 || i == 12 || i == 13 || i == 14 || i == 15;
    } else {
      ReversedAbove(n, i);
    }
  }

  /** The mask-and-shift reversal reverses the low bits, whatever stands above the 16th. */
  lemma BitReverseIsRev(v: nat, bits: nat)
    requires bits <= 16
    ensures BitReverse(v, bits) == Rev(v, bits)
  {
    hide Bit, BitReverse16, Rev, Shr;
    forall i: nat ensures Bit(BitReverse(v, bits), i) <==> Bit(Rev(v, bits), i) {
      BitShr(BitReverse16(v), 16 - bits, i);
      ReversedBit(v, 16 - bits + i);
      RevBit(v, bits, i);
    }
    SameBits(BitReverse(v, bits), Rev(v, bits));
  }
}
