/** The chat client's JSON strings: writer, reader and the scan for the closing quote (section 7 of RFC 8259). */
module Json {
  import opened Bytes

  const QUOTE: byte := 34
  const BACKSLASH: byte := 92
  const CR: byte := 13
  const LETTER_N: byte := 110
  const LETTER_T: byte := 116
  const LETTER_U: byte := 117

  /** `"content":` */
  const CONTENT: seq<byte> := [34, 99, 111, 110, 116, 101, 110, 116, 34, 58]

  // ------------------------------------------------------------------ writing

  /** A hexadecimal digit in lower case. */
  function HexDigit(x: nat): byte
    requires x < 16
  {
    if x < 10 then (48 + x) as byte else (87 + x) as byte
  }

  /** What one byte becomes: carriage returns vanish. */
  function Escape(c: byte): (e: seq<byte>)
    ensures |e| <= 6
  {
    if c == QUOTE || c == BACKSLASH then [BACKSLASH, c]
    else if c == 10 then [BACKSLASH, LETTER_N]
    else if c == CR then []
    else if c == 9 then [BACKSLASH, LETTER_T]
    else if c < 0x20 then [BACKSLASH, LETTER_U, 48, 48, HexDigit(c as nat / 16), HexDigit(c as nat % 16)]
    else [c]
  }

  function EscapeAll(s: seq<byte>): (e: seq<byte>)
    ensures |e| <= 6 * |s|
  {
    if s == [] then [] else EscapeAll(s[..|s| - 1]) + Escape(s[|s| - 1])
  }

  function Literal(s: seq<byte>): seq<byte> {
    [QUOTE] + EscapeAll(s) + [QUOTE]
  }

  /** Stores b behind the first n bytes. */
  method Append(o: array<byte>, n: nat, b: seq<byte>)
    requires n + |b| <= o.Length
    modifies o
    ensures o[..n + |b|] == old(o[..n]) + b
  {
    forall i | 0 <= i < |b| { o[n + i] := b[i]; }
  }

  /** json_str: the literal and a final zero fit into 6n + 3 bytes. */
  method JsonStr(s: seq<byte>) returns (o: array<byte>, n: nat)
    ensures fresh(o) && o.Length == 6 * |s| + 3 && n < o.Length
    ensures o[..n] == Literal(s) && o[n] == 0
  {
    o := new byte[6 * |s| + 3];
    Append(o, 0, [QUOTE]);
    n := AppendEscaped(o, s);
    hide EscapeAll;
    Append(o, n, [QUOTE]);
    n := n + 1;
    o[n] := 0;
  }

  /** The escaping loop, behind the opening quote. */
  method AppendEscaped(o: array<byte>, s: seq<byte>) returns (n: nat)
    requires o.Length == 6 * |s| + 3 && o[..1] == [QUOTE]
    modifies o
    ensures n <= 1 + 6 * |s| && o[..n] == [QUOTE] + EscapeAll(s)
  {
    hide *;
    n := 1;
    NothingEscaped(s);
    for i := 0 to |s|
      invariant n <= 1 + 6 * i && o[..n] == [QUOTE] + EscapeAll(s[..i])
    {
      EscapedNext(s, i);
      var e := Escape(s[i]);
      Append(o, n, e);
      n := n + |e|;
    }
    assert s[..|s|] == s;
  }

  lemma NothingEscaped(s: seq<byte>)
    ensures EscapeAll(s[..0]) == []
  {
  }

  lemma EscapedNext(s: seq<byte>, i: nat)
    requires i < |s|
    ensures EscapeAll(s[..i + 1]) == EscapeAll(s[..i]) + Escape(s[i])
  {
    assert s[..i + 1][..i] == s[..i];
  }

  // ------------------------------------------------------------------ reading

  /** The byte at position p; strings end with a zero. */
  function At(s: seq<byte>, p: nat): byte {
    if p < |s| then s[p] else 0
  }

  function HexValue(c: byte): int {
    if 48 <= c <= 57 then c as int - 48
    else if 97 <= c <= 102 then c as int - 87
    else if 65 <= c <= 70 then c as int - 55
    else -1
  }

  /** Four hexadecimal digits stand at p. */
  predicate FourHex(s: seq<byte>, p: nat) {
    HexValue(At(s, p)) >= 0 && HexValue(At(s, p + 1)) >= 0 && HexValue(At(s, p + 2)) >= 0 && HexValue(At(s, p + 3)) >= 0
  }

  function FourHexValue(s: seq<byte>, p: nat): (v: nat)
    requires FourHex(s, p)
    ensures v < 0x10000
  {
    HexValue(At(s, p)) * 4096 + HexValue(At(s, p + 1)) * 256 + HexValue(At(s, p + 2)) * 16 + HexValue(At(s, p + 3))
  }

  /** One code unit in UTF-8. */
  function Utf8(v: nat): seq<byte>
    requires v < 0x10000
  {
    if v < 128 then [v as byte]
    else if v < 0x800 then [(0xC0 + v / 64) as byte, (0x80 + v % 64) as byte]
    else [(0xE0 + v / 4096) as byte, (0x80 + v / 64 % 64) as byte, (0x80 + v % 64) as byte]
  }

  /** Every \\u on the way to the end of the string has its four digits. */
  predicate Clean(s: seq<byte>, p: nat)
    decreases |s| - p
  {
    if p >= |s| || s[p] == QUOTE then true
    else if s[p] != BACKSLASH then Clean(s, p + 1)
    else if p + 1 >= |s| then true
    else if s[p + 1] == LETTER_U then FourHex(s, p + 2) && p + 6 <= |s| && Clean(s, p + 6)
    else Clean(s, p + 2)
  }

  /** What is printed from p on. */
  function Emitted(s: seq<byte>, p: nat): seq<byte>
    requires Clean(s, p)
    decreases |s| - p
  {
    if p >= |s| || s[p] == QUOTE then []
    else if s[p] != BACKSLASH then [s[p]] + Emitted(s, p + 1)
    else if p + 1 >= |s| then []
    else if s[p + 1] == LETTER_U then Utf8(FourHexValue(s, p + 2)) + Emitted(s, p + 6)
    else (if s[p + 1] == LETTER_N then [10] else if s[p + 1] == LETTER_T then [9] else [s[p + 1]]) + Emitted(s, p + 2)
  }

  /** Where the history scan stops: at the closing quote, stepping over escaped bytes. */
  function ScanEnd(s: seq<byte>, p: nat): (e: nat)
    ensures e >= p && (p <= |s| ==> e <= |s|)
    decreases |s| - p
  {
    if p >= |s| || s[p] == QUOTE then p
    else if s[p] != BACKSLASH then ScanEnd(s, p + 1)
    else if p + 1 >= |s| then p + 1
    else ScanEnd(s, p + 2)
  }

  /** Whether the pattern stands at p. */
  predicate StandsAt(s: seq<byte>, pat: seq<byte>, p: nat) {
    p + |pat| <= |s| && s[p..p + |pat|] == pat
  }

  /** The first place of the pattern from p on, -1 if there is none. */
  function FirstPlace(s: seq<byte>, pat: seq<byte>, p: nat): (i: int)
    ensures i == -1 || (p <= i && StandsAt(s, pat, i) && forall k :: p <= k < i ==> !StandsAt(s, pat, k))
    decreases |s| - p
  {
    if StandsAt(s, pat, p) then p
    else if p >= |s| then -1
    else FirstPlace(s, pat, p + 1)
  }

  /** strstr */
  method Find(s: seq<byte>, pat: seq<byte>) returns (p: int)
    ensures p == FirstPlace(s, pat, 0)
  {
    var i := 0;
    while i < |s| && !StandsAt(s, pat, i)
      invariant i <= |s| && FirstPlace(s, pat, 0) == FirstPlace(s, pat, i)
    {
      i := i + 1;
    }
    return if StandsAt(s, pat, i) then i else -1;
  }

  /** Past any blanks. */
  function AfterBlanks(s: seq<byte>, p: nat): (q: nat)
    ensures q >= p
    decreases |s| - p
  {
    if p < |s| && s[p] == 32 then AfterBlanks(s, p + 1) else p
  }

  /** Where the string after the first `"content":` begins, -1 if there is none. */
  function ContentStart(line: seq<byte>): (p: int)
    ensures -1 <= p <= |line|
  {
    var i := FirstPlace(line, CONTENT, 0);
    if i < 0 then -1 else
      var q := AfterBlanks(line, i + |CONTENT|);
      if At(line, q) == QUOTE then q + 1 else -1
  }

  /** emit_content's first lines, and the history code's: find the string's first byte. */
  method FindContent(line: seq<byte>) returns (p: int)
    ensures p == ContentStart(line)
  {
    var i := Find(line, CONTENT);
    if i < 0 { return -1; }
    p := i + |CONTENT|;
    while At(line, p) == 32
      invariant p >= i + |CONTENT| && AfterBlanks(line, i + |CONTENT|) == AfterBlanks(line, p)
      decreases |line| - p
    {
      p := p + 1;
    }
    return if At(line, p) == QUOTE then p + 1 else -1;
  }

  /** A C string: no zero before its end. */
  ghost predicate CString(s: seq<byte>) {
    forall i :: 0 <= i < |s| ==> s[i] != 0
  }

  /** One turn of the printing loop inside the string. A backslash at the end of the line ends the loop. */
  method EmitOne(line: seq<byte>, at: nat) returns (b: seq<byte>, p: nat, stop: bool)
    requires CString(line) && at < |line| && line[at] != QUOTE && Clean(line, at)
    ensures if stop then b == [] && Emitted(line, at) == []
            else p > at && Clean(line, p) && Emitted(line, at) == b + Emitted(line, p)
  {
    hide Utf8, FourHexValue, FourHex;
    p, b, stop := at, [], false;
    if line[p] == BACKSLASH {
      p := p + 1;
      if At(line, p) == 0 { return [], p, true; }
      if line[p] == LETTER_N {
        b := [10];
      } else if line[p] == LETTER_T {
        b := [9];
      } else if line[p] == LETTER_U {
        b := Utf8(FourHexValue(line, p + 1));
        p := p + 4;
      } else {
        b := [line[p]];
      }
    } else {
      b := [line[p]];
    }
    p := p + 1;
  }

  /** emit_content: prints the unescaped string after the first `"content":`. */
  method EmitContent(line: seq<byte>) returns (out: seq<byte>)
    requires CString(line) && (ContentStart(line) >= 0 ==> Clean(line, ContentStart(line)))
    ensures out == if ContentStart(line) < 0 then [] else Emitted(line, ContentStart(line))
  {
    out := [];
    var start := FindContent(line);
    if start < 0 { return; }
    var p: nat, stop := start, false;
    EmittedEnds(line);
    hide Emitted, Clean;
    while !stop && At(line, p) != 0 && At(line, p) != QUOTE
      invariant p >= start && Clean(line, p)
      invariant if stop then out == Emitted(line, start) else out + Emitted(line, p) == Emitted(line, start)
      decreases !stop, |line| - p
    {
      var b, next, ended := EmitOne(line, p);
      ghost var rest := Emitted(line, p);
      if ended {
        assert out + rest == out;
        stop := true;
      } else {
        assert out + (b + Emitted(line, next)) == out + b + Emitted(line, next);
        out := out + b;
        p := next;
      }
    }
    if !stop {
      assert Emitted(line, p) == [];
    }
  }

  lemma EmittedEnds(line: seq<byte>)
    requires CString(line)
    ensures forall p: nat :: (At(line, p) == 0 || At(line, p) == QUOTE) && Clean(line, p) ==> Emitted(line, p) == []
  {
  }

  /** The history code's scan: the string up to its closing quote, still escaped. */
  method CollectContent(line: seq<byte>) returns (body: seq<byte>)
    requires CString(line)
    ensures body == if ContentStart(line) < 0 then [] else line[ContentStart(line)..ScanEnd(line, ContentStart(line))]
  {
    var start := FindContent(line);
    if start < 0 { return []; }
    var p: nat := start;
    while At(line, p) != 0 && At(line, p) != QUOTE
      invariant start <= p <= |line| && ScanEnd(line, p) == ScanEnd(line, start)
      decreases |line| - p
    {
      if line[p] == BACKSLASH {
        p := p + 1;
        if At(line, p) == 0 { break; }
      }
      p := p + 1;
    }
    body := line[start..p];
  }

  // ------------------------------------------------------------------ round trip

  function WithoutCR(s: seq<byte>): seq<byte> {
    if s == [] then [] else (if s[0] == CR then [] else [s[0]]) + WithoutCR(s[1..])
  }

  lemma HexBack(x: nat)
    requires x < 16
    ensures HexValue(HexDigit(x)) == x
  {
  }

  lemma Pieces(L: seq<byte>, a: seq<byte>, b: seq<byte>, p: nat)
    requires StandsAt(L, a + b, p)
    ensures StandsAt(L, a, p) && StandsAt(L, b, p + |a|)
  {
    var w := L[p..p + |a + b|];
    assert w[..|a|] == L[p..p + |a|] && w[|a|..] == L[p + |a|..p + |a| + |b|];
    assert (a + b)[..|a|] == a && (a + b)[|a|..] == b;
  }

  /** A control character: its six bytes print as the character, and the scan steps over them. */
  lemma ControlBack(c: byte, L: seq<byte>, p: nat)
    requires c < 0x20 && c != 0 && p + 6 <= |L| && Clean(L, p + 6)
    requires L[p] == BACKSLASH && L[p + 1] == LETTER_U && L[p + 2] == 48 && L[p + 3] == 48
    requires L[p + 4] == HexDigit(c as nat / 16) && L[p + 5] == HexDigit(c as nat % 16)
    ensures Clean(L, p) && Emitted(L, p) == [c] + Emitted(L, p + 6) && ScanEnd(L, p) == ScanEnd(L, p + 6)
  {
    HexBack(c as nat / 16);
    HexBack(c as nat % 16);
    assert HexDigit(c as nat / 16) != QUOTE && HexDigit(c as nat / 16) != BACKSLASH;
    assert HexDigit(c as nat % 16) != QUOTE && HexDigit(c as nat % 16) != BACKSLASH;
    hide HexDigit;
    assert FourHex(L, p + 2) && FourHexValue(L, p + 2) == c as nat;
    assert ScanEnd(L, p) == ScanEnd(L, p + 2);
    assert ScanEnd(L, p + 2) == ScanEnd(L, p + 3) && ScanEnd(L, p + 3) == ScanEnd(L, p + 4);
    assert ScanEnd(L, p + 4) == ScanEnd(L, p + 5) && ScanEnd(L, p + 5) == ScanEnd(L, p + 6);
  }

  /** Reading one escaped byte back. */
  lemma EscapeBack(c: byte, L: seq<byte>, p: nat)
    requires c != 0 && StandsAt(L, Escape(c), p) && Clean(L, p + |Escape(c)|)
    ensures Clean(L, p) && Emitted(L, p) == WithoutCR([c]) + Emitted(L, p + |Escape(c)|)
    ensures ScanEnd(L, p) == ScanEnd(L, p + |Escape(c)|)
  {
    BytesAt(L, Escape(c), p);
    hide StandsAt;
    var e := Escape(c);
    if |e| == 6 {
      SixBytes(c);
      hide Escape, Clean, Emitted, ScanEnd, WithoutCR, HexDigit;
      assert L[p + 1] == e[1] && L[p + 4] == e[4];
      ControlBack(c, L, p);
      OneByte(c);
    } else if |e| == 2 {
      PairBack(c, L, p);
    } else {
      PlainBack(c, L, p);
    }
  }

  lemma BytesAt(L: seq<byte>, e: seq<byte>, p: nat)
    requires StandsAt(L, e, p)
    ensures p + |e| <= |L| && forall i :: 0 <= i < |e| ==> L[p + i] == e[i]
  {
    forall i | 0 <= i < |e| ensures L[p + i] == e[i] { assert L[p..p + |e|][i] == L[p + i]; }
  }

  lemma OneByte(c: byte)
    ensures WithoutCR([c]) == if c == CR then [] else [c]
  {
  }

  lemma SixBytes(c: byte)
    requires |Escape(c)| == 6
    ensures c < 0x20 && c != CR
    ensures Escape(c) == [BACKSLASH, LETTER_U, 48, 48, HexDigit(c as nat / 16), HexDigit(c as nat % 16)]
  {
  }

  /** Bytes with an escape of two. */
  lemma PairBack(c: byte, L: seq<byte>, p: nat)
    requires |Escape(c)| == 2 && p + 2 <= |L| && Clean(L, p + 2) && L[p] == Escape(c)[0] && L[p + 1] == Escape(c)[1]
    ensures Clean(L, p) && Emitted(L, p) == WithoutCR([c]) + Emitted(L, p + 2) && ScanEnd(L, p) == ScanEnd(L, p + 2)
  {
    OneByte(c);
    hide WithoutCR, HexDigit;
  }

  /** Bytes that stand for themselves, and those that vanish. */
  lemma PlainBack(c: byte, L: seq<byte>, p: nat)
    requires |Escape(c)| <= 1 && c != 0 && p + |Escape(c)| <= |L| && Clean(L, p + |Escape(c)|)
    requires Escape(c) != [] ==> L[p] == Escape(c)[0]
    ensures Clean(L, p) && Emitted(L, p) == WithoutCR([c]) + Emitted(L, p + |Escape(c)|)
    ensures ScanEnd(L, p) == ScanEnd(L, p + |Escape(c)|)
  {
    OneByte(c);
    hide WithoutCR, HexDigit;
  }

  lemma {:induction false} EscapeFront(s: seq<byte>)
    requires s != []
    ensures EscapeAll(s) == Escape(s[0]) + EscapeAll(s[1..])
  {
    hide Escape;
    var n := |s| - 1;
    if n > 0 {
      EscapeFront(s[..n]);
      assert s[..n][1..] == s[1..][..n - 1] && s[1..][n - 1] == s[n];
    } else {
      assert s[..0] == [] && s[1..] == [];
    }
  }

  /** Printing an escaped string gives the string back, and the scan stops at its closing quote. */
  lemma {:induction false} StringBack(s: seq<byte>, L: seq<byte>, p: nat)
    requires CString(s) && StandsAt(L, EscapeAll(s) + [QUOTE], p)
    ensures Clean(L, p) && Emitted(L, p) == WithoutCR(s) && ScanEnd(L, p) == p + |EscapeAll(s)|
    decreases |s|
  {
    hide *;
    if s == [] {
      AtQuote(s, L, p);
    } else {
      CStringTail(s);
      var e, rest := Escape(s[0]), EscapeAll(s[1..]);
      EscapeFront(s);
      assert e + rest + [QUOTE] == e + (rest + [QUOTE]);
      Pieces(L, e, rest + [QUOTE], p);
      StringBack(s[1..], L, p + |e|);
      EscapeBack(s[0], L, p);
      OneWithoutCR(s);
    }
  }

  lemma CStringTail(s: seq<byte>)
    requires CString(s) && s != []
    ensures CString(s[1..]) && s[0] != 0
  {
  }

  lemma AtQuote(s: seq<byte>, L: seq<byte>, p: nat)
    requires s == [] && StandsAt(L, EscapeAll(s) + [QUOTE], p)
    ensures Clean(L, p) && Emitted(L, p) == WithoutCR(s) && ScanEnd(L, p) == p + |EscapeAll(s)|
  {
    assert L[p..p + 1][0] == QUOTE;
  }

  lemma OneWithoutCR(s: seq<byte>)
    requires s != []
    ensures WithoutCR(s) == WithoutCR([s[0]]) + WithoutCR(s[1..])
  {
  }

  function Blanks(k: nat): (b: seq<byte>)
    ensures |b| == k
  {
    seq(k, _ => 32)
  }

  /** A line with a written literal somewhere: what comes before, the key, blanks, the literal, and the rest. */
  function Carrying(prefix: seq<byte>, k: nat, s: seq<byte>, tail: seq<byte>): seq<byte> {
    prefix + CONTENT + Blanks(k) + Literal(s) + tail
  }

  lemma {:induction false} SkipBlanks(line: seq<byte>, p: nat, k: nat)
    requires p + k < |line| && line[p + k] == QUOTE && forall i :: p <= i < p + k ==> line[i] == 32
    ensures AfterBlanks(line, p) == p + k
    decreases k
  {
    if k > 0 { SkipBlanks(line, p + 1, k - 1); }
  }

  lemma Places(prefix: seq<byte>, k: nat, s: seq<byte>, tail: seq<byte>)
    ensures var line := Carrying(prefix, k, s, tail); var q := |prefix| + |CONTENT|; var body := EscapeAll(s);
            && q + k + 1 + |body| < |line| && line[q + k] == QUOTE && (forall i :: q <= i < q + k ==> line[i] == 32)
            && StandsAt(line, body + [QUOTE], q + k + 1) && line[q + k + 1..q + k + 1 + |body|] == body
  {
    hide EscapeAll;
    var line, q, body := Carrying(prefix, k, s, tail), |prefix| + |CONTENT|, EscapeAll(s);
    var head := prefix + CONTENT + Blanks(k) + [QUOTE];
    assert line == head + (body + [QUOTE]) + tail;
    assert line[|head|..|head| + |body + [QUOTE]|] == body + [QUOTE];
    assert line[|head|..|head| + |body|] == body;
    forall i | q <= i < q + k ensures line[i] == 32 { assert line[i] == Blanks(k)[i - q]; }
  }

  /** The round trip: a line that carries the written literal after the first key, with anything before it, prints the
      text less its carriage returns, and the history scan cuts out exactly what was written between the quotes. */
  lemma RoundTrip(prefix: seq<byte>, k: nat, s: seq<byte>, tail: seq<byte>)
    requires CString(s) && FirstPlace(Carrying(prefix, k, s, tail), CONTENT, 0) == |prefix|
    ensures var line := Carrying(prefix, k, s, tail); var start := |prefix| + |CONTENT| + k + 1;
            && ContentStart(line) == start && Clean(line, start) && Emitted(line, start) == WithoutCR(s)
            && line[start..ScanEnd(line, start)] == EscapeAll(s)
  {
    hide Carrying, EscapeAll, Clean, Emitted, ScanEnd, AfterBlanks, FirstPlace, WithoutCR;
    var line, q := Carrying(prefix, k, s, tail), |prefix| + |CONTENT|;
    Places(prefix, k, s, tail);
    SkipBlanks(line, q, k);
    StringBack(s, line, q + k + 1);
  }

  // ------------------------------------------------------------------ what is written is JSON

  /** A string's characters by the grammar: unescaped ones from 0x20 on except quote and backslash, and the escapes. */
  predicate Grammar(b: seq<byte>)
    decreases |b|
  {
    if b == [] then true
    else if b[0] == BACKSLASH then
      if |b| >= 2 && b[1] in {QUOTE, BACKSLASH, 47, 98, 102, LETTER_N, 114, LETTER_T} then Grammar(b[2..])
      else |b| >= 6 && b[1] == LETTER_U && FourHex(b, 2) && Grammar(b[6..])
    else b[0] >= 0x20 && b[0] != QUOTE && Grammar(b[1..])
  }

  lemma EscapeGrammar(c: byte, rest: seq<byte>)
    requires c != 0 && Grammar(rest)
    ensures Grammar(Escape(c) + rest)
  {
    var b := Escape(c) + rest;
    if |Escape(c)| == 6 {
      HexBack(c as nat / 16);
      HexBack(c as nat % 16);
      assert b[6..] == rest;
    } else if |Escape(c)| == 2 {
      assert b[2..] == rest;
    } else if |Escape(c)| == 1 {
      assert b[1..] == rest;
    } else {
      assert b == rest;
    }
  }

  /** Between its quotes the writer only puts what the grammar of JSON strings allows. */
  lemma {:induction false} WritesJson(s: seq<byte>)
    requires CString(s)
    ensures Grammar(EscapeAll(s))
    decreases |s|
  {
    if s != [] {
      EscapeFront(s);
      WritesJson(s[1..]);
      hide Escape, Grammar;
      EscapeGrammar(s[0], EscapeAll(s[1..]));
    }
  }
}
