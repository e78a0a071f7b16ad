/** From reconstructed scanlines to output pixels (stbi__create_png_image_raw, stbi__create_png_alpha_expand8). */
module PngRows {
  import opened Bytes
  import opened Unfilter

  // ------------------------------------------------------------------ what an output row is

  /** The sample in the high `depth` bits. */
  function Top(b: byte, depth: nat): nat
    requires depth == 1 || depth == 2 || depth == 4
  {
    if depth == 4 then b as nat / 16 else if depth == 2 then b as nat / 64 else b as nat / 128
  }

  /** Shifting out one sample. */
  function ShiftOut(b: byte, depth: nat): byte
    requires depth == 1 || depth == 2 || depth == 4
  {
    Low8(if depth == 4 then b as int * 16 else if depth == 2 then b as int * 4 else b as int * 2)
  }

  /** The byte b after q samples have been shifted out. */
  function Shifted(b: byte, depth: nat, q: nat): byte
    requires depth == 1 || depth == 2 || depth == 4
  {
    if q == 0 then b else ShiftOut(Shifted(b, depth, q - 1), depth)
  }

  /** Sample q of a byte that packs samples of `depth` bits. */
  function Packed(b: byte, depth: nat, q: nat): nat
    requires depth == 1 || depth == 2 || depth == 4
  {
    Top(Shifted(b, depth, q), depth)
  }

  lemma ShiftStep(b: byte, depth: nat)
    requires depth == 1 || depth == 2 || depth == 4
    ensures depth == 1 ==> Top(b, 1) <= 1 && ShiftOut(b, 1) as int == 2 * b as int - 256 * Top(b, 1)
    ensures depth == 2 ==> Top(b, 2) <= 3 && ShiftOut(b, 2) as int == 4 * b as int - 256 * Top(b, 2)
    ensures depth == 4 ==> Top(b, 4) <= 15 && ShiftOut(b, 4) as int == 16 * b as int - 256 * Top(b, 4)
  {
  }

  /** The samples are the byte's digits, the first one in the high bits. */
  lemma DigitsOfByte(b: byte)
    ensures b as int == 16 * Packed(b, 4, 0) + Packed(b, 4, 1)
    ensures b as int == 64 * Packed(b, 2, 0) + 16 * Packed(b, 2, 1) + 4 * Packed(b, 2, 2) + Packed(b, 2, 3)
  {
    hide Top, ShiftOut;
    ShiftStep(b, 4);
    ShiftStep(Shifted(b, 4, 1), 4);
    assert Shifted(b, 4, 1) == ShiftOut(b, 4);
    ShiftStep(b, 2);
    ShiftStep(Shifted(b, 2, 1), 2);
    ShiftStep(Shifted(b, 2, 2), 2);
    ShiftStep(Shifted(b, 2, 3), 2);
    assert Shifted(b, 2, 1) == ShiftOut(b, 2);
    assert Shifted(b, 2, 2) == ShiftOut(Shifted(b, 2, 1), 2);
    assert Shifted(b, 2, 3) == ShiftOut(Shifted(b, 2, 2), 2);
  }

  lemma BitsOfByte(b: byte)
    ensures b as int == 128 * Packed(b, 1, 0) + 64 * Packed(b, 1, 1) + 32 * Packed(b, 1, 2) + 16 * Packed(b, 1, 3)
                        + 8 * Packed(b, 1, 4) + 4 * Packed(b, 1, 5) + 2 * Packed(b, 1, 6) + Packed(b, 1, 7)
  {
    hide Top, ShiftOut;
    var b1 := ShiftOut(b, 1); var b2 := ShiftOut(b1, 1); var b3 := ShiftOut(b2, 1); var b4 := ShiftOut(b3, 1);
    var b5 := ShiftOut(b4, 1); var b6 := ShiftOut(b5, 1); var b7 := ShiftOut(b6, 1);
    ShiftStep(b, 1); ShiftStep(b1, 1); ShiftStep(b2, 1); ShiftStep(b3, 1);
    ShiftStep(b4, 1); ShiftStep(b5, 1); ShiftStep(b6, 1); ShiftStep(b7, 1);
    assert Shifted(b, 1, 1) == b1;
    assert Shifted(b, 1, 2) == b2;
    assert Shifted(b, 1, 3) == b3;
    assert Shifted(b, 1, 4) == b4;
    assert Shifted(b, 1, 5) == b5;
    assert Shifted(b, 1, 6) == b6;
    assert Shifted(b, 1, 7) == b7;
  }

  /** The factor that spreads gray samples over 0 to 255. */
  function Scale(depth: nat, color: nat): byte
    requires depth == 1 || depth == 2 || depth == 4
  {
    if color != 0 then 1 else if depth == 1 then 0xff else if depth == 2 then 0x55 else 0x11
  }

  /** The brightest gray sample becomes 255, and palette indices stay as they are. */
  lemma BrightestIsWhite(depth: nat, color: nat)
    requires depth == 1 || depth == 2 || depth == 4
    ensures Scale(depth, color) as int * (if color != 0 then 1 else [0, 1, 3, 0, 15][depth])
         == if color != 0 then 1 else 255
  {
  }

  /** n samples of less than 8 bits, one per output byte. */
  function Unpacked(row: seq<byte>, depth: nat, color: nat, n: nat): (r: seq<byte>)
    requires depth == 1 || depth == 2 || depth == 4
    requires n * depth <= 8 * |row|
    ensures |r| == n
  {
    seq(n, i requires 0 <= i < n => Sample(row, depth, color, i))
  }

  function Sample(row: seq<byte>, depth: nat, color: nat, i: nat): byte
    requires depth == 1 || depth == 2 || depth == 4
    requires (i + 1) * depth <= 8 * |row|
  {
    var per := PerByte(depth);
    Low8(Scale(depth, color) as int * Packed(row[i / per], depth, i % per))
  }

  /** Samples per byte. */
  function PerByte(depth: nat): nat
    requires depth == 1 || depth == 2 || depth == 4
  {
    if depth == 4 then 2 else if depth == 2 then 4 else 8
  }

  /** Big-endian 16-bit samples in the platform's little-endian order. */
  function Native(row: seq<byte>): (r: seq<byte>)
    ensures |r| == |row|
  {
    seq(|row|, k requires 0 <= k < |row| => if k % 2 == 1 then row[k - 1] else if k + 1 < |row| then row[k + 1]
        else row[k])
  }

  /** A little-endian reader finds in sample i the value a big-endian reader found before. */
  lemma NativeValue(row: seq<byte>, i: nat)
    requires 2 * i + 2 <= |row|
    ensures Native(row)[2 * i] as nat + 256 * Native(row)[2 * i + 1] as nat == 256 * row[2 * i] as nat
        + row[2 * i + 1] as nat
  {
    assert (2 * i) % 2 == 0 && (2 * i + 1) % 2 == 1;
  }

  function Full(n: nat): (r: seq<byte>)
    ensures |r| == n
  {
    seq(n, _ => 255 as byte)
  }

  /** Every pixel of `pix` bytes followed by `extra` bytes of full opacity. */
  function WithAlpha(row: seq<byte>, pix: nat, extra: nat, x: nat): (r: seq<byte>)
    requires |row| == x * pix
    ensures |r| == x * (pix + extra)
  {
    if x == 0 then [] else
      assert x * pix == pix + (x - 1) * pix;
      assert (x - 1) * pix >= 0;
      assert x * (pix + extra) == pix + extra + (x - 1) * (pix + extra);
      row[..pix] + Full(extra) + WithAlpha(row[pix..], pix, extra, x - 1)
  }

  // ------------------------------------------------------------------ the loops

  lemma GrayFront(row: seq<byte>, i: nat, x: nat)
    requires i < x == |row|
    ensures WithAlpha(row[i..], 1, 1, x - i) == [row[i], 255] + WithAlpha(row[i + 1..], 1, 1, x - i - 1)
  {
    var s := row[i..];
    assert s[1..] == row[i + 1..] && s[..1] == [row[i]];
    OneFull();
    assert [row[i]] + [255] == [row[i], 255];
  }

  lemma ColorFront(row: seq<byte>, i: nat, x: nat)
    requires i < x && |row| == 3 * x
    ensures WithAlpha(row[3 * i..], 3, 1, x - i)
         == [row[3 * i], row[3 * i + 1], row[3 * i + 2], 255] + WithAlpha(row[3 * (i + 1)..], 3, 1, x - i - 1)
  {
    var s := row[3 * i..];
    assert s[3..] == row[3 * (i + 1)..] && s[..3] == [row[3 * i], row[3 * i + 1], row[3 * i + 2]];
    OneFull();
    assert s[..3] + [255] == [row[3 * i], row[3 * i + 1], row[3 * i + 2], 255];
  }

  lemma Joined(a: array<byte>, i: nat, j: nat, k: nat)
    requires i <= j <= k <= a.Length
    ensures a[i..k] == a[i..j] + a[j..k]
  {
  }

  lemma Unmoved(part: seq<byte>, a: array<byte>, i: nat, k: nat)
    requires i <= k <= a.Length && |part| == k - i && forall m :: i <= m < k ==> a[m] == part[m - i]
    ensures a[i..k] == part
  {
  }

  lemma FartherTail(a: seq<byte>, b: seq<byte>, i: nat, j: nat)
    requires |a| == |b| && i <= j <= |a| && a[i..] == b[i..]
    ensures a[j..] == b[j..]
  {
    assert a[j..] == a[i..][j - i..] && b[j..] == b[i..][j - i..];
  }

  /** What lies around a pixel lies around its row. */
  lemma Around(was: seq<byte>, dest: array<byte>, d: nat, at: nat, next: nat, end: nat)
    requires d <= at <= next <= end <= |was| == dest.Length
    requires forall k :: 0 <= k < dest.Length && !(at <= k < next) ==> dest[k] == was[k]
    ensures dest[..d] == was[..d] && dest[end..] == was[end..]
  {
  }

  /** The assignments of one gray pixel, in the order that lets dest be src. */
  method MoveGray(dest: array<byte>, at: nat, src: array<byte>, from: nat)
    requires at + 2 <= dest.Length && from < src.Length && (dest == src ==> from <= at)
    modifies dest
    ensures dest[at..at + 2] == [old(src[from]), 255]
    ensures forall k :: 0 <= k < dest.Length && !(at <= k < at + 2) ==> dest[k] == old(dest[k])
  {
    dest[at + 1] := 255;
    dest[at] := src[from];
  }

  method MoveColor(dest: array<byte>, at: nat, src: array<byte>, from: nat)
    requires at + 4 <= dest.Length && from + 3 <= src.Length && (dest == src ==> from <= at)
    modifies dest
    ensures dest[at..at + 4] == [old(src[from]), old(src[from + 1]), old(src[from + 2]), 255]
    ensures forall k :: 0 <= k < dest.Length && !(at <= k < at + 4) ==> dest[k] == old(dest[k])
  {
    dest[at + 3] := 255;
    dest[at + 2] := src[from + 2];
    dest[at + 1] := src[from + 1];
    dest[at] := src[from];
  }

  /** A stretch of a line that holds the front of a row holds each of its bytes, and every shorter front. */
  lemma Part(line: seq<byte>, s: nat, n: nat, m: nat, row: seq<byte>)
    requires m <= n <= |row| && s + n <= |line| && line[s..s + n] == row[..n]
    ensures line[s..s + m] == row[..m] && forall k :: m <= k < n ==> line[s + k] == row[k]
  {
    var part := line[s..s + n];
    forall k | 0 <= k < n ensures line[s + k] == row[k] { assert part[k] == row[..n][k]; }
  }

  lemma KeptPart(line: seq<byte>, now: seq<byte>, s: nat, m: nat, row: seq<byte>)
    requires m <= |row| && s + m <= |line| == |now| && line[s..s + m] == row[..m]
    requires forall k :: 0 <= k < s + m ==> now[k] == line[k]
    ensures now[s..s + m] == row[..m]
  {
    assert now[s..s + m] == line[s..s + m];
  }

  /** Pixel i in front of the pixels that are in place. */
  lemma GrayPlaced(was: seq<byte>, now: seq<byte>, d: nat, i: nat, x: nat, row: seq<byte>)
    requires i < x && |row| == x && d + 2 * x <= |was| == |now|
    requires was[d + 2 * (i + 1)..d + 2 * x] == WithAlpha(row[(i + 1)..], 1, 1, x - i - 1)
    requires now[d + 2 * i..d + 2 * i + 2] == [row[i], 255]
    requires forall k :: 0 <= k < |now| && !(d + 2 * i <= k < d + 2 * i + 2) ==> now[k] == was[k]
    ensures now[d + 2 * i..d + 2 * x] == WithAlpha(row[i..], 1, 1, x - i)
  {
    hide WithAlpha, Full;
    GrayFront(row, i, x);
    var at, next, end := d + 2 * i, d + 2 * (i + 1), d + 2 * x;
    assert now[next..end] == was[next..end];
    assert now[at..end] == now[at..next] + now[next..end];
  }

  method GrayPixel(dest: array<byte>, d: nat, src: array<byte>, s: nat, i: nat, x: nat, ghost row: seq<byte>)
    requires i < x && |row| == x && d + 2 * x <= dest.Length && s + x <= src.Length && (dest == src ==> d == s)
    requires src[s..s + (i + 1)] == row[..(i + 1)]
    requires dest[d + 2 * (i + 1)..d + 2 * x] == WithAlpha(row[(i + 1)..], 1, 1, x - i - 1)
    modifies dest
    ensures src[s..s + i] == row[..i]
    ensures dest[d + 2 * i..d + 2 * x] == WithAlpha(row[i..], 1, 1, x - i)
    ensures forall k :: 0 <= k < dest.Length && !(d + 2 * i <= k < d + 2 * i + 2) ==> dest[k] == old(dest[k])
  {
    hide *;
    ghost var was, line := dest[..], src[..];
    Part(line, s, (i + 1), i, row);
    MoveGray(dest, d + 2 * i, src, s + i);
    forall k | 0 <= k < s + i ensures src[..][k] == line[k] {
      assert src[k] == old(src[k]);
    }
    KeptPart(line, src[..], s, i, row);
    GrayPlaced(was, dest[..], d, i, x, row);
  }

  /** Pixel i in front of the pixels that are in place. */
  lemma ColorPlaced(was: seq<byte>, now: seq<byte>, d: nat, i: nat, x: nat, row: seq<byte>)
    requires i < x && |row| == 3 * x && d + 4 * x <= |was| == |now|
    requires was[d + 4 * (i + 1)..d + 4 * x] == WithAlpha(row[3 * (i + 1)..], 3, 1, x - i - 1)
    requires now[d + 4 * i..d + 4 * i + 4] == [row[3 * i], row[3 * i + 1], row[3 * i + 2], 255]
    requires forall k :: 0 <= k < |now| && !(d + 4 * i <= k < d + 4 * i + 4) ==> now[k] == was[k]
    ensures now[d + 4 * i..d + 4 * x] == WithAlpha(row[3 * i..], 3, 1, x - i)
  {
    hide WithAlpha, Full;
    ColorFront(row, i, x);
    var at, next, end := d + 4 * i, d + 4 * (i + 1), d + 4 * x;
    assert now[next..end] == was[next..end];
    assert now[at..end] == now[at..next] + now[next..end];
  }

  method ColorPixel(dest: array<byte>, d: nat, src: array<byte>, s: nat, i: nat, x: nat, ghost row: seq<byte>)
    requires i < x && |row| == 3 * x && d + 4 * x <= dest.Length && s + 3 * x <= src.Length && (dest == src ==> d == s)
    requires src[s..s + 3 * (i + 1)] == row[..3 * (i + 1)]
    requires dest[d + 4 * (i + 1)..d + 4 * x] == WithAlpha(row[3 * (i + 1)..], 3, 1, x - i - 1)
    modifies dest
    ensures src[s..s + 3 * i] == row[..3 * i]
    ensures dest[d + 4 * i..d + 4 * x] == WithAlpha(row[3 * i..], 3, 1, x - i)
    ensures forall k :: 0 <= k < dest.Length && !(d + 4 * i <= k < d + 4 * i + 4) ==> dest[k] == old(dest[k])
  {
    hide *;
    ghost var was, line := dest[..], src[..];
    Part(line, s, 3 * (i + 1), 3 * i, row);
    MoveColor(dest, d + 4 * i, src, s + 3 * i);
    forall k | 0 <= k < s + 3 * i ensures src[..][k] == line[k] {
      assert src[k] == old(src[k]);
    }
    KeptPart(line, src[..], s, 3 * i, row);
    ColorPlaced(was, dest[..], d, i, x, row);
  }

  /** stbi__create_png_alpha_expand8: from the last pixel to the first, so that dest may be src. */
  method ExpandGray(dest: array<byte>, d: nat, src: array<byte>, s: nat, x: nat)
    requires d + 2 * x <= dest.Length && s + x <= src.Length && (dest == src ==> d == s)
    modifies dest
    ensures dest[d..d + 2 * x] == WithAlpha(old(src[s..s + x]), 1, 1, x)
    ensures dest[..d] == old(dest[..d]) && dest[d + 2 * x..] == old(dest[d + 2 * x..])
  {
    hide *;
    ghost var row := src[s..s + x];
    NoPixels(1, 1);
    var i := x;
    while i > 0
      invariant 0 <= i <= x
      invariant src[s..s + i] == row[..i] && dest[d + 2 * i..d + 2 * x] == WithAlpha(row[i..], 1, 1, x - i)
      invariant dest[..d] == old(dest[..d]) && dest[d + 2 * x..] == old(dest[d + 2 * x..])
    {
      i := i - 1;
      ghost var was := dest[..];
      GrayPixel(dest, d, src, s, i, x, row);
      Around(was, dest, d, d + 2 * i, d + 2 * i + 2, d + 2 * x);
    }
    assert row[0..] == row;
  }

  method ExpandColor(dest: array<byte>, d: nat, src: array<byte>, s: nat, x: nat)
    requires d + 4 * x <= dest.Length && s + 3 * x <= src.Length && (dest == src ==> d == s)
    modifies dest
    ensures dest[d..d + 4 * x] == WithAlpha(old(src[s..s + 3 * x]), 3, 1, x)
    ensures dest[..d] == old(dest[..d]) && dest[d + 4 * x..] == old(dest[d + 4 * x..])
  {
    hide *;
    ghost var row := src[s..s + 3 * x];
    NoPixels(3, 1);
    var i := x;
    while i > 0
      invariant 0 <= i <= x
      invariant src[s..s + 3 * i] == row[..3 * i] && dest[d + 4 * i..d + 4 * x] == WithAlpha(row[3 * i..], 3, 1, x - i)
      invariant dest[..d] == old(dest[..d]) && dest[d + 4 * x..] == old(dest[d + 4 * x..])
    {
      i := i - 1;
      ghost var was := dest[..];
      ColorPixel(dest, d, src, s, i, x, row);
      Around(was, dest, d, d + 4 * i, d + 4 * i + 4, d + 4 * x);
    }
    assert row[0..] == row;
  }

  lemma OneFull()
    ensures Full(1) == [255]
  {
  }

  lemma NoPixels(pix: nat, extra: nat)
    ensures WithAlpha([], pix, extra, 0) == []
  {
  }

  /** Before sample i is taken from the line at cur: the next byte to read lies at p, and inb is what is left of the
      one before. */
  ghost predicate Reading(row: seq<byte>, depth: nat, cur: nat, i: nat, p: nat, inb: byte)
    requires depth == 1 || depth == 2 || depth == 4
  {
    var m, q := i / PerByte(depth), i % PerByte(depth);
    if q == 0 then p == cur + m else p == cur + m + 1 && m < |row| && inb == Shifted(row[m], depth, q)
  }

  lemma NextPosition(depth: nat, i: nat)
    requires depth == 1 || depth == 2 || depth == 4
    ensures var per := PerByte(depth);
            if i % per + 1 == per then (i + 1) / per == i / per + 1 && (i + 1) % per == 0
            else (i + 1) / per == i / per && (i + 1) % per == i % per + 1
  {
  }

  lemma PositionInside(depth: nat, i: nat, n: nat, size: nat)
    requires depth == 1 || depth == 2 || depth == 4
    requires i < n && n * depth <= 8 * size
    ensures i / PerByte(depth) < size && (i + 1) * depth <= 8 * size
  {
  }

  /** Takes sample i: a new byte at every multiple of the samples per byte, then the high bits. */
  method TakeSample(buf: array<byte>, cur: nat, size: nat, i: nat, n: nat, depth: nat, color: nat, p: nat, inb: byte)
    returns (v: byte, p': nat, inb': byte)
    requires (depth == 1 || depth == 2 || depth == 4) && i < n && n * depth <= 8 * size && cur + size <= buf.Length
    requires Reading(buf[cur..cur + size], depth, cur, i, p, inb)
    ensures v == Unpacked(buf[cur..cur + size], depth, color, n)[i]
    ensures Reading(buf[cur..cur + size], depth, cur, i + 1, p', inb')
  {
    PositionInside(depth, i, n, size);
    NextPosition(depth, i);
    var per := PerByte(depth);
    hide PerByte, Top, ShiftOut, Low8, Scale;
    p', inb' := p, inb;
    if i % per == 0 {
      inb' := buf[p];
      p' := p + 1;
    }
    v := Low8(Scale(depth, color) as int * Top(inb', depth));
    inb' := ShiftOut(inb', depth);
  }

  /** The bit-expansion loops: one packed sample after another, scaled. */
  method UnpackRow(dest: array<byte>, d: nat, buf: array<byte>, cur: nat, size: nat, n: nat, depth: nat, color: nat)
    requires (depth == 1 || depth == 2 || depth == 4) && n * depth <= 8 * size
    requires d + n <= dest.Length && cur + size <= buf.Length && dest != buf
    modifies dest
    ensures dest[d..d + n] == Unpacked(buf[cur..cur + size], depth, color, n)
    ensures dest[..d] == old(dest[..d]) && dest[d + n..] == old(dest[d + n..])
  {
    ghost var row := buf[cur..cur + size];
    ghost var all := Unpacked(row, depth, color, n);
    assert Reading(row, depth, cur, 0, cur, 0);
    hide Reading, Unpacked;
    var inb: byte, p := 0, cur;
    for i := 0 to n
      invariant Reading(row, depth, cur, i, p, inb)
      invariant forall k :: 0 <= k < i ==> dest[d + k] == all[k]
      invariant forall k :: 0 <= k < d || d + n <= k < dest.Length ==> dest[k] == old(dest[k])
    {
      assert buf[cur..cur + size] == row;
      var v;
      v, p, inb := TakeSample(buf, cur, size, i, n, depth, color, p, inb);
      dest[d + i] := v;
    }
  }

  // ------------------------------------------------------------------ one output row, and the image

  /** Image parameters: channels in the file and in the output, bits per sample, color type. */
  datatype Format = Format(imgN: nat, outN: nat, depth: nat, color: nat)
  {
    predicate Valid() {
      && 1 <= imgN <= 4 && (outN == imgN || (outN == imgN + 1 && (imgN == 1 || imgN == 3)))
      && (depth == 1 || depth == 2 || depth == 4 || depth == 8 || depth == 16)
    }

    /** Bytes per output pixel. */
    function OutBytes(): nat {
      if depth == 16 then 2 * outN else outN
    }

    /** Bytes per output row of x pixels. */
    function Stride(x: nat): nat {
      OutBytes() * x
    }

    /** Bytes per scanline of x pixels, rounded up. */
    function RowBytes(x: nat): nat {
      (imgN * x * depth + 7) / 8
    }

    /** The distance to the byte on the left, at least one. */
    function PixelBytes(): nat {
      if depth < 8 then 1 else if depth == 16 then 2 * imgN else imgN
    }
  }

  lemma RowHolds(f: Format, x: nat)
    requires f.Valid() && x >= 1
    ensures f.imgN * x * f.depth <= 8 * f.RowBytes(x) < f.imgN * x * f.depth + 8 && 1 <= f.PixelBytes() <= f.RowBytes(x)
    ensures f.depth == 8 ==> f.RowBytes(x) == f.imgN * x
    ensures f.depth == 16 ==> f.RowBytes(x) == 2 * (f.imgN * x)
  {
    var n := f.imgN * x;
    assert n >= f.imgN by { assert n - f.imgN == f.imgN * (x - 1); assert f.imgN * (x - 1) >= 0; }
    assert n * f.depth == f.imgN * x * f.depth;
    assert f.depth == 8 ==> n * f.depth == 8 * n;
    assert f.depth == 16 ==> n * f.depth == 16 * n;
  }

  /** The samples of a scanline in output form: one byte each, or two for 16 bits. */
  function Samples(f: Format, row: seq<byte>, x: nat): (r: seq<byte>)
    requires f.Valid() && x >= 1 && |row| == f.RowBytes(x)
    ensures |r| == (if f.depth == 16 then 2 * (f.imgN * x) else f.imgN * x)
  {
    RowHolds(f, x);
    if f.depth < 8 then Unpacked(row, f.depth, f.color, f.imgN * x) else if f.depth == 8 then row else Native(row)
  }

  /** What one scanline becomes: its samples, with an opaque alpha sample per pixel if the output wants one. */
  function OutRow(f: Format, row: seq<byte>, x: nat): (r: seq<byte>)
    requires f.Valid() && x >= 1 && |row| == f.RowBytes(x)
    ensures |r| == f.Stride(x)
  {
    var s := Samples(f, row, x);
    if f.outN == f.imgN then (Doubled(f.imgN, x); s)
    else if f.depth
        == 16 then (Commutes(x, f.imgN); Doubled(f.imgN, x); Doubled(f.outN, x); WithAlpha(s, 2 * f.imgN, 2, x))
    else (Commutes(x, f.imgN); WithAlpha(s, f.imgN, 1, x))
  }

  lemma Doubled(n: nat, x: nat)
    ensures 2 * n * x == 2 * (n * x) && x * (2 * n) == 2 * (n * x)
  {
    assert x * n == n * x;
  }

  lemma Commutes(x: nat, n: nat)
    ensures x * n == n * x && x * (n + 1) == (n + 1) * x
  {
  }

  lemma OutRowPlain(f: Format, row: seq<byte>, x: nat)
    requires f.Valid() && f.depth <= 8 && x >= 1 && |row| == f.RowBytes(x) && f.outN == f.imgN
    ensures OutRow(f, row, x) == Samples(f, row, x) && f.outN * x == f.imgN * x
  {
  }

  lemma OutRowAlpha(f: Format, row: seq<byte>, x: nat)
    requires f.Valid() && f.depth <= 8 && x >= 1 && |row| == f.RowBytes(x) && f.outN != f.imgN
    ensures x * f.imgN == f.imgN * x && OutRow(f, row, x) == WithAlpha(Samples(f, row, x), f.imgN, 1, x)
    ensures f.outN == f.imgN + 1 && f.imgN * x <= f.outN * x
  {
  }

  /** Fewer than 8 bits per sample: expand the bits, then add alpha in place. */
  method EmitPacked(f: Format, dest: array<byte>, d: nat, buf: array<byte>, cur: nat, x: nat)
    requires f.Valid() && f.depth < 8 && x >= 1 && dest != buf
    requires d + f.outN * x <= dest.Length && cur + f.RowBytes(x) <= buf.Length
    modifies dest
    ensures dest[..d + f.outN * x] == old(dest[..d]) + OutRow(f, buf[cur..cur + f.RowBytes(x)], x)
    ensures dest[d + f.outN * x..] == old(dest[d + f.outN * x..])
  {
    hide WithAlpha, Unpacked, OutRow, Samples, Format.RowBytes;
    ghost var row := buf[cur..cur + f.RowBytes(x)];
    RowHolds(f, x);
    if f.outN == f.imgN { OutRowPlain(f, row, x); } else { OutRowAlpha(f, row, x); }
    SamplesPacked(f, row, x);
    ghost var n, end, was := f.imgN * x, d + f.outN * x, dest[..];
    UnpackRow(dest, d, buf, cur, f.RowBytes(x), f.imgN * x, f.depth, f.color);
    FartherTail(was, dest[..], d + n, end);
    assert dest[end..] == was[end..];
    if f.imgN != f.outN { ExpandAlpha(f.imgN, dest, d, dest, d, x); }
    Joined(dest, 0, d, d + f.outN * x);
  }

  lemma SamplesPacked(f: Format, row: seq<byte>, x: nat)
    requires f.Valid() && x >= 1 && |row| == f.RowBytes(x)
    ensures f.depth < 8 ==>
        f.imgN * x * f.depth <= 8 * |row| && Samples(f, row, x) == Unpacked(row, f.depth, f.color, f.imgN * x)
    ensures f.depth == 8 ==> |row| == f.imgN * x && Samples(f, row, x) == row
  {
    RowHolds(f, x);
  }

  /** 8 bits per sample: copy, or expand straight from the scanline. */
  method EmitBytes(f: Format, dest: array<byte>, d: nat, buf: array<byte>, cur: nat, x: nat)
    requires f.Valid() && f.depth == 8 && x >= 1 && dest != buf
    requires d + f.outN * x <= dest.Length && cur + f.RowBytes(x) <= buf.Length
    modifies dest
    ensures dest[..d + f.outN * x] == old(dest[..d]) + OutRow(f, buf[cur..cur + f.RowBytes(x)], x)
    ensures dest[d + f.outN * x..] == old(dest[d + f.outN * x..])
  {
    hide WithAlpha, Unpacked, OutRow, Samples, Format.RowBytes;
    ghost var row := buf[cur..cur + f.RowBytes(x)];
    if f.outN == f.imgN { OutRowPlain(f, row, x); } else { OutRowAlpha(f, row, x); }
    SamplesPacked(f, row, x);
    if f.imgN == f.outN {
      CopyBytes(dest, d, buf, cur, f.imgN * x);
    } else {
      ExpandAlpha(f.imgN, dest, d, buf, cur, x);
    }
    Joined(dest, 0, d, d + f.outN * x);
  }

  method CopyBytes(dest: array<byte>, d: nat, src: array<byte>, s: nat, n: nat)
    requires d + n <= dest.Length && s + n <= src.Length && dest != src
    modifies dest
    ensures dest[d..d + n] == src[s..s + n]
    ensures dest[..d] == old(dest[..d]) && dest[d + n..] == old(dest[d + n..])
  {
    forall i | 0 <= i < n { dest[d + i] := src[s + i]; }
  }

  lemma StrideIs(f: Format, x: nat)
    requires f.Valid() && f.depth <= 8
    ensures f.Stride(x) == f.outN * x
  {
  }

  method EmitRow(f: Format, dest: array<byte>, d: nat, buf: array<byte>, cur: nat, x: nat)
    requires f.Valid() && x >= 1 && dest != buf
    requires d + f.Stride(x) <= dest.Length && cur + f.RowBytes(x) <= buf.Length
    modifies dest
    ensures dest[..d + f.Stride(x)] == old(dest[..d]) + OutRow(f, buf[cur..cur + f.RowBytes(x)], x)
    ensures dest[d + f.Stride(x)..] == old(dest[d + f.Stride(x)..])
  {
    if f.depth <= 8 { StrideIs(f, x); }
    hide OutRow, Format.RowBytes, Format.Stride;
    if f.depth < 8 {
      EmitPacked(f, dest, d, buf, cur, x);
    } else if f.depth == 8 {
      EmitBytes(f, dest, d, buf, cur, x);
    } else {
      EmitWide(f, dest, d, buf, cur, x);
    }
  }

  // ------------------------------------------------------------------ 16 bits per sample

  /** Stores b behind the first `at` bytes. */
  method Store(dest: array<byte>, at: nat, b: seq<byte>)
    requires at + |b| <= dest.Length
    modifies dest
    ensures dest[..at + |b|] == old(dest[..at]) + b && dest[at + |b|..] == old(dest[at + |b|..])
  {
    forall i | 0 <= i < |b| { dest[at + i] := b[i]; }
  }

  /** No alpha: every sample's two bytes change places. */
  method SwapRow(dest: array<byte>, d: nat, buf: array<byte>, cur: nat, n: nat)
    requires d + 2 * n <= dest.Length && cur + 2 * n <= buf.Length && dest != buf
    modifies dest
    ensures dest[d..d + 2 * n] == Native(buf[cur..cur + 2 * n])
    ensures dest[..d] == old(dest[..d]) && dest[d + 2 * n..] == old(dest[d + 2 * n..])
  {
    for i := 0 to n
      invariant forall k :: 0 <= k < 2 * i ==> dest[d + k] == if k % 2 == 0 then buf[cur + k + 1] else buf[cur + k - 1]
      invariant forall k :: 0 <= k < d || d + 2 * n <= k < dest.Length ==> dest[k] == old(dest[k])
    {
      dest[d + 2 * i], dest[d + 2 * i + 1] := buf[cur + 2 * i + 1], buf[cur + 2 * i];
    }
  }

  lemma GrayAhead(s: seq<byte>, i: nat, x: nat)
    requires i < x && |s| == 2 * x
    ensures WithAlpha(s[2 * i..], 2, 2, x - i) == s[2 * i..2 * i + 2] + Full(2)
        + WithAlpha(s[2 * (i + 1)..], 2, 2, x - i - 1)
  {
    var r := s[2 * i..];
    assert r[2..] == s[2 * (i + 1)..] && r[..2] == s[2 * i..2 * i + 2];
  }

  lemma ColorAhead(s: seq<byte>, i: nat, x: nat)
    requires i < x && |s| == 6 * x
    ensures WithAlpha(s[6 * i..], 6, 2, x - i) == s[6 * i..6 * i + 6] + Full(2)
        + WithAlpha(s[6 * (i + 1)..], 6, 2, x - i - 1)
  {
    var r := s[6 * i..];
    assert r[6..] == s[6 * (i + 1)..] && r[..6] == s[6 * i..6 * i + 6];
  }

  lemma NativePair(row: seq<byte>, k: nat)
    requires 2 * k + 2 <= |row|
    ensures Native(row)[2 * k..2 * k + 2] == [row[2 * k + 1], row[2 * k]]
  {
  }

  lemma TwoFull()
    ensures Full(2) == [255, 255]
  {
  }

  lemma WideGrayFront(row: seq<byte>, i: nat, x: nat)
    requires i < x && |row| == 2 * x
    ensures WithAlpha(Native(row)[2 * i..], 2, 2, x - i)
         == [row[2 * i + 1], row[2 * i]] + [255, 255] + WithAlpha(Native(row)[2 * (i + 1)..], 2, 2, x - i - 1)
  {
    hide WithAlpha, Native, Full;
    GrayAhead(Native(row), i, x);
    NativePair(row, i);
    TwoFull();
  }

  lemma NativeColor(row: seq<byte>, i: nat)
    requires 6 * i + 6 <= |row|
    ensures Native(row)[6 * i..6 * i + 6]
        == [row[6 * i + 1], row[6 * i], row[6 * i + 3], row[6 * i + 2], row[6 * i + 5], row[6 * i + 4]]
  {
    NativePair(row, 3 * i);
    NativePair(row, 3 * i + 1);
    NativePair(row, 3 * i + 2);
    hide Native;
    var s := Native(row);
    assert s[6 * i..6 * i + 6] == s[6 * i..6 * i + 2] + s[6 * i + 2..6 * i + 4] + s[6 * i + 4..6 * i + 6];
  }

  lemma WideColorFront(row: seq<byte>, i: nat, x: nat)
    requires i < x && |row| == 6 * x
    ensures WithAlpha(Native(row)[6 * i..], 6, 2, x - i)
         == [row[6 * i + 1], row[6 * i], row[6 * i + 3], row[6 * i + 2], row[6 * i + 5], row[6 * i + 4]] + [255, 255]
            + WithAlpha(Native(row)[6 * (i + 1)..], 6, 2, x - i - 1)
  {
    hide WithAlpha, Native, Full;
    ColorAhead(Native(row), i, x);
    NativeColor(row, i);
    TwoFull();
  }

  /** What is in place, then what is still to come. */
  ghost predicate Partly(now: seq<byte>, rest: seq<byte>, all: seq<byte>) {
    now + rest == all
  }

  lemma PartlyNext(now: seq<byte>, px: seq<byte>, rest: seq<byte>, all: seq<byte>)
    requires Partly(now, px + rest, all)
    ensures Partly(now + px, rest, all)
  {
    assert now + (px + rest) == now + px + rest;
  }

  lemma PartlyDone(now: seq<byte>, all: seq<byte>)
    requires Partly(now, [], all)
    ensures now == all
  {
  }

  lemma NothingYet(now: seq<byte>, rest: seq<byte>)
    ensures Partly(now, rest, now + rest)
  {
  }

  lemma AtEnds(s: seq<byte>, n: nat)
    requires n == |s|
    ensures s[0..] == s && s[n..] == []
  {
  }

  /** Pixel i, when the pixels before it are in place. */
  method WideGrayPixel(dest: array<byte>, d: nat, buf: array<byte>, cur: nat, i: nat, x: nat, ghost row: seq<byte>,
      ghost all: seq<byte>)
    requires i < x && d + 4 * x <= dest.Length && cur + 2 * x <= buf.Length && dest != buf
      && row == buf[cur..cur + 2 * x]
    requires Partly(dest[..d + 4 * i], WithAlpha(Native(row)[2 * i..], 2, 2, x - i), all)
    modifies dest
    ensures Partly(dest[..d + 4 * (i + 1)], WithAlpha(Native(row)[2 * (i + 1)..], 2, 2, x - i - 1), all)
    ensures dest[d + 4 * x..] == old(dest[d + 4 * x..])
  {
    hide *;
    WideGrayFront(row, i, x);
    var c := cur + 2 * i;
    var px := [buf[c + 1], buf[c]];
    assert px == [row[2 * i + 1], row[2 * i]];
    PartlyNext(dest[..d + 4 * i], px + [255, 255], WithAlpha(Native(row)[2 * (i + 1)..], 2, 2, x - i - 1), all);
    ghost var was, end := dest[..], d + 4 * x;
    Store(dest, d + 4 * i, px + [255, 255]);
    FartherTail(was, dest[..], d + 4 * i + 4, end);
    assert dest[end..] == was[end..];
  }

  method WideGray(dest: array<byte>, d: nat, buf: array<byte>, cur: nat, x: nat)
    requires d + 4 * x <= dest.Length && cur + 2 * x <= buf.Length && dest != buf
    modifies dest
    ensures dest[..d + 4 * x] == old(dest[..d]) + WithAlpha(Native(buf[cur..cur + 2 * x]), 2, 2, x)
    ensures dest[d + 4 * x..] == old(dest[d + 4 * x..])
  {
    hide *;
    ghost var row := buf[cur..cur + 2 * x];
    ghost var all := dest[..d] + WithAlpha(Native(row), 2, 2, x);
    AtEnds(Native(row), 2 * x);
    NothingYet(dest[..d], WithAlpha(Native(row), 2, 2, x));
    NoPixels(2, 2);
    for i := 0 to x
      invariant Partly(dest[..d + 4 * i], WithAlpha(Native(row)[2 * i..], 2, 2, x - i), all)
      invariant dest[d + 4 * x..] == old(dest[d + 4 * x..])
    {
      WideGrayPixel(dest, d, buf, cur, i, x, row, all);
    }
    PartlyDone(dest[..d + 4 * x], all);
  }

  /** Pixel i, when the pixels before it are in place. */
  method WideColorPixel(dest: array<byte>, d: nat, buf: array<byte>, cur: nat, i: nat, x: nat, ghost row: seq<byte>,
      ghost all: seq<byte>)
    requires i < x && d + 8 * x <= dest.Length && cur + 6 * x <= buf.Length && dest != buf
      && row == buf[cur..cur + 6 * x]
    requires Partly(dest[..d + 8 * i], WithAlpha(Native(row)[6 * i..], 6, 2, x - i), all)
    modifies dest
    ensures Partly(dest[..d + 8 * (i + 1)], WithAlpha(Native(row)[6 * (i + 1)..], 6, 2, x - i - 1), all)
    ensures dest[d + 8 * x..] == old(dest[d + 8 * x..])
  {
    hide *;
    WideColorFront(row, i, x);
    var c := cur + 6 * i;
    var px := [buf[c + 1], buf[c], buf[c + 3], buf[c + 2], buf[c + 5], buf[c + 4]];
    assert px == [row[6 * i + 1], row[6 * i], row[6 * i + 3], row[6 * i + 2], row[6 * i + 5], row[6 * i + 4]];
    PartlyNext(dest[..d + 8 * i], px + [255, 255], WithAlpha(Native(row)[6 * (i + 1)..], 6, 2, x - i - 1), all);
    ghost var was, end := dest[..], d + 8 * x;
    Store(dest, d + 8 * i, px + [255, 255]);
    FartherTail(was, dest[..], d + 8 * i + 8, end);
    assert dest[end..] == was[end..];
  }

  method WideColor(dest: array<byte>, d: nat, buf: array<byte>, cur: nat, x: nat)
    requires d + 8 * x <= dest.Length && cur + 6 * x <= buf.Length && dest != buf
    modifies dest
    ensures dest[..d + 8 * x] == old(dest[..d]) + WithAlpha(Native(buf[cur..cur + 6 * x]), 6, 2, x)
    ensures dest[d + 8 * x..] == old(dest[d + 8 * x..])
  {
    hide *;
    ghost var row := buf[cur..cur + 6 * x];
    ghost var all := dest[..d] + WithAlpha(Native(row), 6, 2, x);
    AtEnds(Native(row), 6 * x);
    NothingYet(dest[..d], WithAlpha(Native(row), 6, 2, x));
    NoPixels(6, 2);
    for i := 0 to x
      invariant Partly(dest[..d + 8 * i], WithAlpha(Native(row)[6 * i..], 6, 2, x - i), all)
      invariant dest[d + 8 * x..] == old(dest[d + 8 * x..])
    {
      WideColorPixel(dest, d, buf, cur, i, x, row, all);
    }
    PartlyDone(dest[..d + 8 * x], all);
  }

  lemma WidePlain(f: Format, row: seq<byte>, x: nat)
    requires f.Valid() && f.depth == 16 && x >= 1 && |row| == f.RowBytes(x) && f.outN == f.imgN
    ensures |row| == 2 * (f.imgN * x) && OutRow(f, row, x) == Native(row) && f.Stride(x) == 2 * (f.imgN * x)
  {
    RowHolds(f, x);
    Doubled(f.imgN, x);
  }

  lemma WideGrayRow(f: Format, row: seq<byte>, x: nat)
    requires f.Valid() && f.depth == 16 && x >= 1 && |row| == f.RowBytes(x) && f.outN != f.imgN && f.imgN == 1
    ensures |row| == 2 * x && OutRow(f, row, x) == WithAlpha(Native(row), 2, 2, x) && f.Stride(x) == 4 * x
  {
    RowHolds(f, x);
  }

  lemma WideColorRow(f: Format, row: seq<byte>, x: nat)
    requires f.Valid() && f.depth == 16 && x >= 1 && |row| == f.RowBytes(x) && f.outN != f.imgN && f.imgN == 3
    ensures |row| == 6 * x && OutRow(f, row, x) == WithAlpha(Native(row), 6, 2, x) && f.Stride(x) == 8 * x
  {
    RowHolds(f, x);
  }

  /** 16 bits per sample: to the platform's byte order, with two opaque bytes per pixel if asked. */
  method EmitWide(f: Format, dest: array<byte>, d: nat, buf: array<byte>, cur: nat, x: nat)
    requires f.Valid() && f.depth == 16 && x >= 1 && dest != buf
    requires d + f.Stride(x) <= dest.Length && cur + f.RowBytes(x) <= buf.Length
    modifies dest
    ensures dest[..d + f.Stride(x)] == old(dest[..d]) + OutRow(f, buf[cur..cur + f.RowBytes(x)], x)
    ensures dest[d + f.Stride(x)..] == old(dest[d + f.Stride(x)..])
  {
    ghost var row := buf[cur..cur + f.RowBytes(x)];
    if f.imgN == f.outN {
      WidePlain(f, row, x);
      hide OutRow, Format.RowBytes, Format.Stride, Native, WithAlpha;
      SwapRow(dest, d, buf, cur, f.imgN * x);
      Joined(dest, 0, d, d + 2 * (f.imgN * x));
    } else if f.imgN == 1 {
      EmitWideGray(f, dest, d, buf, cur, x);
    } else {
      EmitWideColor(f, dest, d, buf, cur, x);
    }
  }

  method EmitWideGray(f: Format, dest: array<byte>, d: nat, buf: array<byte>, cur: nat, x: nat)
    requires f.Valid() && f.depth == 16 && x >= 1 && dest != buf && f.imgN != f.outN && f.imgN == 1
    requires d + f.Stride(x) <= dest.Length && cur + f.RowBytes(x) <= buf.Length
    modifies dest
    ensures dest[..d + f.Stride(x)] == old(dest[..d]) + OutRow(f, buf[cur..cur + f.RowBytes(x)], x)
    ensures dest[d + f.Stride(x)..] == old(dest[d + f.Stride(x)..])
  {
    hide *;
    WideGrayRow(f, buf[cur..cur + f.RowBytes(x)], x);
    WideGray(dest, d, buf, cur, x);
  }

  method EmitWideColor(f: Format, dest: array<byte>, d: nat, buf: array<byte>, cur: nat, x: nat)
    requires f.Valid() && f.depth == 16 && x >= 1 && dest != buf && f.imgN != f.outN && f.imgN == 3
    requires d + f.Stride(x) <= dest.Length && cur + f.RowBytes(x) <= buf.Length
    modifies dest
    ensures dest[..d + f.Stride(x)] == old(dest[..d]) + OutRow(f, buf[cur..cur + f.RowBytes(x)], x)
    ensures dest[d + f.Stride(x)..] == old(dest[d + f.Stride(x)..])
  {
    hide *;
    WideColorRow(f, buf[cur..cur + f.RowBytes(x)], x);
    WideColor(dest, d, buf, cur, x);
  }

  /** stbi__create_png_alpha_expand8 dispatches on the number of channels. */
  method ExpandAlpha(imgN: nat, dest: array<byte>, d: nat, src: array<byte>, s: nat, x: nat)
    requires (imgN == 1 || imgN == 3) && d + (imgN + 1) * x <= dest.Length && s + imgN * x <= src.Length
      && (dest == src ==> d == s)
    modifies dest
    ensures x * imgN == imgN * x && dest[d..d + (imgN + 1) * x] == WithAlpha(old(src[s..s + imgN * x]), imgN, 1, x)
    ensures dest[..d] == old(dest[..d]) && dest[d + (imgN + 1) * x..] == old(dest[d + (imgN + 1) * x..])
  {
    if imgN == 1 { ExpandGray(dest, d, src, s, x); } else { ExpandColor(dest, d, src, s, x); }
  }
}
