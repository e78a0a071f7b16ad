/** What a JSON string means - escapes after section 7 of RFC 8259, bytes after RFC 3629 - and exactly when the chat
    client prints that. */
module JsonMeaning {
  import opened Bytes
  import opened Json

  // ------------------------------------------------------------------ UTF-8

  predicate Trail(b: byte) {
    0x80 <= b <= 0xBF
  }

  /** A character by the grammar of section 4 of RFC 3629. */
  predicate Utf8Char(b: seq<byte>) {
    match |b|
    case 1 => b[0] <= 0x7F
    case 2 => 0xC2 <= b[0] <= 0xDF && Trail(b[1])
    case 3 =>
      && 0xE0 <= b[0] <= 0xEF && Trail(b[1]) && Trail(b[2])
      && (b[0] == 0xE0 ==> 0xA0 <= b[1]) && (b[0] == 0xED ==> b[1] <= 0x9F)
    case 4 =>
      && 0xF0 <= b[0] <= 0xF4 && Trail(b[1]) && Trail(b[2]) && Trail(b[3])
      && (b[0] == 0xF0 ==> 0x90 <= b[1]) && (b[0] == 0xF4 ==> b[1] <= 0x8F)
    case _ => false
  }

  /** The bits that a leading byte and trailing bytes carry, by the table of section 3 of RFC 3629. */
  function Payload(b: seq<byte>): int
    requires 1 <= |b| <= 4
  {
    match |b|
    case 1 => b[0] as int
    case 2 => (b[0] as int - 0xC0) * 0x40 + (b[1] as int - 0x80)
    case 3 => (b[0] as int - 0xE0) * 0x1000 + (b[1] as int - 0x80) * 0x40 + (b[2] as int - 0x80)
    case _ =>
      (b[0] as int - 0xF0) * 0x40000 + (b[1] as int - 0x80) * 0x1000 + (b[2] as int - 0x80) * 0x40
      + (b[3] as int - 0x80)
  }

  predicate Surrogate(v: nat) {
    0xD800 <= v <= 0xDFFF
  }

  /** A number in digits of six bits. */
  lemma SixBits(u: nat)
    ensures u == u / 0x40 * 0x40 + u % 0x40 && u / 0x40 == u / 0x1000 * 0x40 + u / 0x40 % 0x40
    ensures u / 0x1000 == u / 0x40000 * 0x40 + u / 0x1000 % 0x40
  {
    assert u / 0x1000 == u / 0x40 / 0x40 && u / 0x40000 == u / 0x1000 / 0x40;
  }

  /** A code unit comes back from its printed bytes, and they are UTF-8 if and only if it is no surrogate. */
  lemma Utf8Back(v: nat)
    requires v < 0x10000
    ensures 1 <= |Utf8(v)| <= 3 && Payload(Utf8(v)) == v
    ensures Utf8Char(Utf8(v)) <==> !Surrogate(v)
  {
    SixBits(v);
  }

  /** No character has two forms. */
  lemma OneForm(b: seq<byte>, c: seq<byte>)
    requires Utf8Char(b) && Utf8Char(c) && Payload(b) == Payload(c)
    ensures b == c
  {
    FormRange(b);
    FormRange(c);
    hide Utf8Char;
    match |b| {
      case 1 =>
      case 2 => SameDigits(b[0] as int, b[1] as int, c[0] as int, c[1] as int);
      case 3 =>
        SameDigits(b[0] as int * 0x40 + b[1] as int, b[2] as int, c[0] as int * 0x40 + c[1] as int, c[2] as int);
        SameDigits(b[0] as int, b[1] as int, c[0] as int, c[1] as int);
      case _ =>
        var x, y := b[0] as int * 0x40 + b[1] as int, c[0] as int * 0x40 + c[1] as int;
        SameDigits(x * 0x40 + b[2] as int, b[3] as int, y * 0x40 + c[2] as int, c[3] as int);
        SameDigits(x, b[2] as int, y, c[2] as int);
        SameDigits(b[0] as int, b[1] as int, c[0] as int, c[1] as int);
    }
  }

  lemma SameDigits(q: int, t: int, q': int, t': int)
    requires 0x80 <= t < 0xC0 && 0x80 <= t' < 0xC0 && q * 0x40 + t == q' * 0x40 + t'
    ensures q == q' && t == t'
  {
  }

  /** The length of a form follows from what it carries. */
  lemma FormRange(b: seq<byte>)
    requires Utf8Char(b)
    ensures |b| == if Payload(b) < 0x80 then 1 else if Payload(b) < 0x800 then 2
                   else if Payload(b) < 0x10000 then 3 else 4
    ensures forall i :: 0 < i < |b| ==> Trail(b[i])
  {
  }

  /** The UTF-8 form of a code point. */
  function Encode(u: nat): (b: seq<byte>)
    requires u <= 0x10FFFF
    ensures 1 <= |b| <= 4
  {
    if u < 0x80 then [u as byte]
    else if u < 0x800 then [(0xC0 + u / 0x40) as byte, (0x80 + u % 0x40) as byte]
    else if u < 0x10000 then
      [(0xE0 + u / 0x1000) as byte, (0x80 + u / 0x40 % 0x40) as byte, (0x80 + u % 0x40) as byte]
    else
      [(0xF0 + u / 0x40000) as byte, (0x80 + u / 0x1000 % 0x40) as byte, (0x80 + u / 0x40 % 0x40) as byte,
       (0x80 + u % 0x40) as byte]
  }

  lemma EncodeBack(u: nat)
    requires u <= 0x10FFFF && !Surrogate(u)
    ensures Utf8Char(Encode(u)) && Payload(Encode(u)) == u
  {
    SixBits(u);
    if u < 0x800 {
    } else if u < 0x10000 {
      ThreeBytes(u);
    } else {
      FourBytes(u);
    }
  }

  lemma ThreeBytes(u: nat)
    requires 0x800 <= u < 0x10000 && !Surrogate(u)
    ensures Utf8Char(Encode(u)) && Payload(Encode(u)) == u
  {
    SixBits(u);
  }

  lemma FourBytes(u: nat)
    requires 0x10000 <= u <= 0x10FFFF
    ensures Utf8Char(Encode(u)) && Payload(Encode(u)) == u
  {
    SixBits(u);
  }

  // ------------------------------------------------------------------ digits

  /** c is the hexadecimal digit of value x, in lower or upper case. */
  predicate DigitOf(c: byte, x: nat) {
    x < 16 && (c as int == "0123456789abcdef"[x] as int || c as int == "0123456789ABCDEF"[x] as int)
  }

  lemma DigitExactly(c: byte, x: nat)
    requires x < 16
    ensures HexValue(c) == x <==> DigitOf(c, x)
  {
  }

  /** Four bytes are read as v exactly if they are its four digits, the highest first. */
  lemma DigitsExactly(s: seq<byte>, p: nat, v: nat)
    requires v < 0x10000
    ensures FourHex(s, p) && FourHexValue(s, p) == v <==>
        DigitOf(At(s, p), v / 0x1000) && DigitOf(At(s, p + 1), v / 0x100 % 0x10)
        && DigitOf(At(s, p + 2), v / 0x10 % 0x10) && DigitOf(At(s, p + 3), v % 0x10)
  {
    hide DigitOf, HexValue, At;
    DigitExactly(At(s, p), v / 0x1000);
    DigitExactly(At(s, p + 1), v / 0x100 % 0x10);
    DigitExactly(At(s, p + 2), v / 0x10 % 0x10);
    DigitExactly(At(s, p + 3), v % 0x10);
    HexRange(At(s, p));
    HexRange(At(s, p + 1));
    HexRange(At(s, p + 2));
    HexRange(At(s, p + 3));
    FourParts(HexValue(At(s, p)), HexValue(At(s, p + 1)), HexValue(At(s, p + 2)), HexValue(At(s, p + 3)), v);
  }

  lemma HexRange(c: byte)
    ensures -1 <= HexValue(c) < 16
  {
  }

  lemma FourParts(a: int, b: int, c: int, d: int, v: nat)
    requires -1 <= a < 16 && -1 <= b < 16 && -1 <= c < 16 && -1 <= d < 16 && v < 0x10000
    ensures a >= 0 && b >= 0 && c >= 0 && d >= 0 && a * 4096 + b * 256 + c * 16 + d == v <==>
        a == v / 0x1000 && b == v / 0x100 % 0x10 && c == v / 0x10 % 0x10 && d == v % 0x10
  {
    HexParts(v);
    if a >= 0 && b >= 0 && c >= 0 && d >= 0 {
      var x, y := a * 256 + b * 16 + c, a * 16 + b;
      LastDigit(x, d);
      LastDigit(y, c);
      LastDigit(a, b);
    }
  }

  lemma HexParts(v: nat)
    ensures v / 0x100 == v / 0x10 / 0x10 && v / 0x1000 == v / 0x100 / 0x10
    ensures v == v / 0x1000 * 4096 + v / 0x100 % 0x10 * 256 + v / 0x10 % 0x10 * 16 + v % 0x10
  {
  }

  lemma LastDigit(x: nat, d: nat)
    requires d < 16
    ensures (16 * x + d) / 16 == x && (16 * x + d) % 16 == d
  {
  }

  // ------------------------------------------------------------------ strings

  const SLASH: byte := 47
  const LETTER_B: byte := 98
  const LETTER_F: byte := 102
  const LETTER_R: byte := 114

  /** The character of a two-byte escape. */
  function Short(c: byte): (r: int)
    ensures r < 256
  {
    if c == QUOTE || c == BACKSLASH || c == SLASH then c as int
    else if c == LETTER_B then 8
    else if c == LETTER_F then 12
    else if c == LETTER_N then 10
    else if c == LETTER_R then 13
    else if c == LETTER_T then 9
    else -1
  }

  predicate UnitAt(s: seq<byte>, p: nat) {
    p + 6 <= |s| && s[p] == BACKSLASH && s[p + 1] == LETTER_U && FourHex(s, p + 2)
  }

  /** The two halves of a character outside the basic plane. */
  predicate PairAt(s: seq<byte>, p: nat) {
    && UnitAt(s, p) && UnitAt(s, p + 6)
    && 0xD800 <= FourHexValue(s, p + 2) <= 0xDBFF && 0xDC00 <= FourHexValue(s, p + 8) <= 0xDFFF
  }

  function PairValue(s: seq<byte>, p: nat): (u: nat)
    requires PairAt(s, p)
    ensures 0x10000 <= u <= 0x10FFFF
  {
    0x10000 + (FourHexValue(s, p + 2) - 0xD800) * 0x400 + (FourHexValue(s, p + 8) - 0xDC00)
  }

  /** The rest of a string by the grammar, in which surrogates come in pairs, up to its closing quote. */
  predicate StringAt(s: seq<byte>, p: nat)
    decreases |s| - p
  {
    if p >= |s| then false
    else if s[p] == QUOTE then true
    else if s[p] != BACKSLASH then s[p] >= 0x20 && StringAt(s, p + 1)
    else if UnitAt(s, p) then
      if Surrogate(FourHexValue(s, p + 2)) then PairAt(s, p) && StringAt(s, p + 12) else StringAt(s, p + 6)
    else p + 1 < |s| && Short(s[p + 1]) >= 0 && StringAt(s, p + 2)
  }

  /** Its bytes in UTF-8. */
  function Meant(s: seq<byte>, p: nat): seq<byte>
    requires StringAt(s, p)
    decreases |s| - p
  {
    if s[p] == QUOTE then []
    else if s[p] != BACKSLASH then [s[p]] + Meant(s, p + 1)
    else if UnitAt(s, p) then
      if PairAt(s, p) then Encode(PairValue(s, p)) + Meant(s, p + 12)
      else Encode(FourHexValue(s, p + 2)) + Meant(s, p + 6)
    else [Short(s[p + 1]) as byte] + Meant(s, p + 2)
  }

  /** The string has none of the escapes for backspace, form feed and carriage return, and none for a surrogate. */
  predicate Understood(s: seq<byte>, p: nat)
    requires StringAt(s, p)
    decreases |s| - p
  {
    if s[p] == QUOTE then true
    else if s[p] != BACKSLASH then Understood(s, p + 1)
    else if UnitAt(s, p) then !PairAt(s, p) && Understood(s, p + 6)
    else s[p + 1] != LETTER_B && s[p + 1] != LETTER_F && s[p + 1] != LETTER_R && Understood(s, p + 2)
  }

  lemma SameHead(a: seq<byte>, b: seq<byte>, x: seq<byte>, y: seq<byte>)
    requires |a| == |b|
    ensures a + x == b + y <==> a == b && x == y
  {
    if a + x == b + y {
      assert a == (a + x)[..|a|] == b;
      assert x == (a + x)[|a|..] == y;
    }
  }

  /** The client prints the halves of a pair one by one, which is not UTF-8. */
  lemma PairDiffers(s: seq<byte>, p: nat)
    requires StringAt(s, p) && s[p] == BACKSLASH && PairAt(s, p) && Clean(s, p + 12)
    ensures Clean(s, p) && Emitted(s, p) != Meant(s, p)
  {
    hide FourHexValue, FourHex, StringAt;
    assert Clean(s, p + 6);
    assert Emitted(s, p)[0] == 0xED;
    assert Meant(s, p)[0] >= 0xF0;
  }

  /** A two-byte escape. */
  lemma ShortExactly(s: seq<byte>, p: nat)
    requires StringAt(s, p) && s[p] == BACKSLASH && !UnitAt(s, p) && Clean(s, p + 2)
    requires Emitted(s, p + 2) == Meant(s, p + 2) <==> Understood(s, p + 2)
    ensures Clean(s, p) && (Emitted(s, p) == Meant(s, p) <==> Understood(s, p))
  {
    var c := s[p + 1];
    var printed := if c == LETTER_N then 10 else if c == LETTER_T then 9 else c;
    assert Emitted(s, p) == [printed] + Emitted(s, p + 2);
    assert Meant(s, p) == [Short(c) as byte] + Meant(s, p + 2);
    SameHead([printed], [Short(c) as byte], Emitted(s, p + 2), Meant(s, p + 2));
  }

  /** Every string of the grammar is printed to its end, and what is printed is what it means if and only if it is free
      of the escapes that the client does not know. */
  lemma {:induction false} PrintedExactly(s: seq<byte>, p: nat)
    requires StringAt(s, p)
    ensures Clean(s, p) && (Emitted(s, p) == Meant(s, p) <==> Understood(s, p))
    decreases |s| - p
  {
    if s[p] == QUOTE {
    } else if s[p] != BACKSLASH {
      PrintedExactly(s, p + 1);
      SameHead([s[p]], [s[p]], Emitted(s, p + 1), Meant(s, p + 1));
    } else if PairAt(s, p) {
      PrintedExactly(s, p + 12);
      PairDiffers(s, p);
    } else if UnitAt(s, p) {
      PrintedExactly(s, p + 6);
      var v := FourHexValue(s, p + 2);
      Utf8Back(v);
      EncodeBack(v);
      OneForm(Utf8(v), Encode(v));
      SameHead(Utf8(v), Encode(v), Emitted(s, p + 6), Meant(s, p + 6));
    } else {
      PrintedExactly(s, p + 2);
      ShortExactly(s, p);
    }
  }

  /** An escaped carriage return is printed as the letter r. */
  lemma ReturnMisprinted(s: seq<byte>)
    requires s == [92, 114, 34]
    ensures StringAt(s, 0) && Meant(s, 0) == [13] && Emitted(s, 0) == [114]
  {
    assert Emitted(s, 2) == [] && Meant(s, 2) == [];
  }

  /** An escaped character outside the basic plane is printed as six bytes that are not UTF-8. */
  lemma PairMisprinted(s: seq<byte>)
    requires s == [92, 117, 100, 56, 51, 100, 92, 117, 100, 101, 48, 48, 34]
    ensures StringAt(s, 0) && Meant(s, 0) == [0xF0, 0x9F, 0x98, 0x80]
    ensures Clean(s, 0) && Emitted(s, 0) == [0xED, 0xA0, 0xBD, 0xED, 0xB8, 0x80]
  {
    assert FourHex(s, 2) && FourHexValue(s, 2) == 0xD83D && FourHex(s, 8) && FourHexValue(s, 8) == 0xDE00;
    hide FourHexValue, FourHex;
    assert Clean(s, 12) && Emitted(s, 12) == [] && StringAt(s, 12) && Meant(s, 12) == [];
    assert Clean(s, 6) && Emitted(s, 6) == [0xED, 0xB8, 0x80];
    assert PairAt(s, 0) && PairValue(s, 0) == 0x1F600;
  }
}
