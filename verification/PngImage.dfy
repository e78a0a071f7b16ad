/** Decoding the scanlines of one image or one interlace pass (stbi__create_png_image_raw). */
module PngImage {
  import opened Bytes
  import opened Unfilter
  import opened PngRows

  const INT_MAX: nat := 0x7FFF_FFFF

  datatype Outcome = Done | OutOfMemory | TooLarge | NotEnough | BadFilter

  predicate MulFits(a: nat, b: nat) {
    b == 0 || a <= INT_MAX / b
  }

  /** The size checks before any row is decoded. */
  function Checked(f: Format, x: nat, y: nat, size: nat): Outcome {
    var w := f.RowBytes(x);
    if !(MulFits(x, y) && MulFits(x * y, f.OutBytes())) then OutOfMemory
    else if !(MulFits(f.imgN, x) && MulFits(f.imgN * x, f.depth) && f.imgN * x * f.depth <= INT_MAX - 7) then TooLarge
    else if !(MulFits(w, y) && w * y <= INT_MAX - w) then TooLarge
    else if size < (w + 1) * y then NotEnough
    else Done
  }

  lemma MulFitsExactly(a: nat, b: nat)
    ensures MulFits(a, b) <==> a * b <= INT_MAX
  {
    if b > 0 { QuotientBounds(INT_MAX, a, b); }
  }

  /** a is at most m / b exactly if a * b is at most m. */
  lemma QuotientBounds(m: nat, a: nat, b: nat)
    requires b > 0
    ensures a <= m / b <==> a * b <= m
  {
    var q := m / b;
    assert m == q * b + m % b;
    if a <= q { TimesGrows(a, q, b); } else { TimesGrows(q + 1, a, b); }
  }

  lemma TimesGrows(a: nat, c: nat, b: nat)
    requires a <= c
    ensures a * b <= c * b && (c >= 1 ==> c * b == (c - 1) * b + b)
  {
    assert c * b - a * b == (c - a) * b;
  }

  lemma Grows(a: nat, b: nat)
    requires b >= 1
    ensures a <= a * b
  {
    assert a * b - a == a * (b - 1);
    assert a * (b - 1) >= 0;
  }

  /** The output image fits 31 bits. */
  predicate OutputFits(f: Format, x: nat, y: nat) {
    f.Stride(x) * y <= INT_MAX
  }

  /** The bits of a scanline, rounded up, and all scanlines with one to spare do. */
  predicate InputFits(f: Format, x: nat, y: nat) {
    f.imgN * x * f.depth + 7 <= INT_MAX && f.RowBytes(x) * (y + 1) <= INT_MAX
  }

  lemma OutputProduct(f: Format, x: nat, y: nat)
    requires f.Valid() && x >= 1 && y >= 1
    ensures MulFits(x, y) && MulFits(x * y, f.OutBytes()) <==> OutputFits(f, x, y)
  {
    var o := f.OutBytes();
    MulFitsExactly(x, y);
    MulFitsExactly(x * y, o);
    Grows(x * y, o);
    assert x * y * o == o * x * y;
  }

  lemma InputProduct(f: Format, x: nat, y: nat)
    requires f.Valid() && x >= 1 && y >= 1
    ensures var w := f.RowBytes(x);
            (MulFits(f.imgN, x) && MulFits(f.imgN * x, f.depth) && f.imgN * x * f.depth <= INT_MAX - 7
             && MulFits(w, y) && w * y <= INT_MAX - w) <==> InputFits(f, x, y)
  {
    var w := f.RowBytes(x);
    MulFitsExactly(f.imgN, x);
    MulFitsExactly(f.imgN * x, f.depth);
    Grows(f.imgN * x, f.depth);
    MulFitsExactly(w, y);
    assert w * (y + 1) == w * y + w;
  }

  /** What the size checks decide. */
  function Verdict(f: Format, x: nat, y: nat, size: nat): Outcome {
    if !OutputFits(f, x, y) then OutOfMemory
    else if !InputFits(f, x, y) then TooLarge
    else if size < (f.RowBytes(x) + 1) * y then NotEnough
    else Done
  }

  /** The checks, each for its own overflow, decide exactly whether output and input fit. */
  lemma CheckedExactly(f: Format, x: nat, y: nat, size: nat)
    requires f.Valid() && x >= 1 && y >= 1
    ensures Checked(f, x, y, size) == Verdict(f, x, y, size)
  {
    OutputProduct(f, x, y);
    InputProduct(f, x, y);
    hide MulFits, OutputFits, InputFits, Format.OutBytes, Format.RowBytes;
  }

  lemma Lengths(w: nat, y: nat)
    requires w >= 1 && y >= 1 && w * (y + 1) <= INT_MAX
    ensures (w + 1) * y <= 0xFFFF_FFFF && w * 2 <= INT_MAX
  {
    assert w * (y + 1) == w * y + w && (w + 1) * y == w * y + y;
    Grows(w, y);
    assert y * w == w * y;
    Grows(y, w);
  }

  lemma Offsets(n: nat, y: nat, j: nat)
    requires n * y <= INT_MAX && j < y
    ensures n * j + n <= INT_MAX
  {
    var rest := y - j - 1;
    assert n * y == n * j + n + n * rest;
  }

  /** After the checks no size or offset that the decoder computes overflows: the input length in 32 bits, both lines
      and every output row in 31. */
  lemma SizesFit(f: Format, x: nat, y: nat, size: nat, j: nat)
    requires f.Valid() && x >= 1 && y >= 1 && Checked(f, x, y, size) == Done && j < y
    ensures (f.RowBytes(x) + 1) * y <= 0xFFFF_FFFF && f.RowBytes(x) * 2 <= INT_MAX
    ensures f.Stride(x) * j + f.Stride(x) <= INT_MAX
  {
    CheckedExactly(f, x, y, size);
    hide Checked;
    RowHolds(f, x);
    hide Format.RowBytes, Format.Stride;
    Lengths(f.RowBytes(x), y);
    Offsets(f.Stride(x), y, j);
  }

  /** The output pixels of reconstructed rows, row after row. */
  function Pixels(f: Format, rows: seq<seq<byte>>, x: nat): seq<byte>
    requires f.Valid() && x >= 1 && AllRows(f, rows, x)
  {
    if rows == [] then [] else Pixels(f, rows[..|rows| - 1], x) + OutRow(f, rows[|rows| - 1], x)
  }

  /** y rows of n bytes each. */
  function Area(n: nat, y: nat): nat {
    if y == 0 then 0 else n + Area(n, y - 1)
  }

  lemma {:induction false} AreaIsProduct(n: nat, y: nat)
    ensures Area(n, y) == n * y
  {
    if y > 0 { AreaIsProduct(n, y - 1); }
  }

  /** Rows already decoded, then those still to come. */
  function Prepend(done: seq<seq<byte>>, rest: Option<seq<seq<byte>>>): Option<seq<seq<byte>>> {
    if rest.None? then None else Some(done + rest.value)
  }

  /** What remains of the decoding after `done` rows: reading `raw` under the row `above`. */
  ghost predicate Remaining(all: Option<seq<seq<byte>>>, done: seq<seq<byte>>, raw: seq<byte>, bpp: nat, nk: nat,
      above: seq<byte>, y: nat) {
    bpp >= 1 && |above| == nk && |raw| >= Need(nk, y) && all == Prepend(done, ReconRows(raw, bpp, nk, above, y))
  }

  lemma NextRow(all: Option<seq<seq<byte>>>, done: seq<seq<byte>>, raw: seq<byte>, bpp: nat, nk: nat, above: seq<byte>,
      y: nat)
    requires Remaining(all, done, raw, bpp, nk, above, y) && y > 0
    ensures |raw| >= nk + 1
    ensures raw[0] > 4 ==> all == None
    ensures raw[0] <= 4 ==> var row := Recon(raw[0], bpp, raw[1..nk + 1], above, nk);
                            Remaining(all, done + [row], raw[nk + 1..], bpp, nk, row, y - 1)
  {
    hide Recon;
    if raw[0] <= 4 {
      var row := Recon(raw[0], bpp, raw[1..nk + 1], above, nk);
      var rest := ReconRows(raw[nk + 1..], bpp, nk, row, y - 1);
      if rest.Some? { assert done + ([row] + rest.value) == done + [row] + rest.value; }
    }
  }

  lemma LastRow(all: Option<seq<seq<byte>>>, done: seq<seq<byte>>, raw: seq<byte>, bpp: nat, nk: nat, above: seq<byte>)
    requires Remaining(all, done, raw, bpp, nk, above, 0)
    ensures all == Some(done)
  {
    assert done + [] == done;
  }

  lemma MorePixels(f: Format, rows: seq<seq<byte>>, row: seq<byte>, x: nat)
    requires f.Valid() && x >= 1 && |row| == f.RowBytes(x) && AllRows(f, rows, x)
    ensures AllRows(f, rows + [row], x) && Pixels(f, rows + [row], x) == Pixels(f, rows, x) + OutRow(f, row, x)
  {
    assert (rows + [row])[..|rows + [row]| - 1] == rows;
  }

  // ------------------------------------------------------------------ the filter distance

  /** Section 9.2 of the PNG Specification: a filter looks back by the bytes of a complete pixel, by one byte if pixels
      are smaller. */
  function FilterDistance(f: Format): (d: nat)
    requires f.Valid()
    ensures d >= 1
  {
    if f.depth < 8 then 1 else f.imgN * (f.depth / 8)
  }

  /** Where byte k of a scanline of whole bytes belongs: pixel, channel, and byte of the sample. */
  datatype Place = Place(pixel: nat, channel: nat, part: nat)

  function PlaceOf(f: Format, k: nat): Place
    requires f.Valid() && f.depth >= 8
  {
    var sample := k / (f.depth / 8);
    Place(sample / f.imgN, sample % f.imgN, k % (f.depth / 8))
  }

  /** At that distance stands the same byte of the same channel of the pixel to the left; the first pixel has none. */
  lemma NeighbourByte(f: Format, k: nat)
    requires f.Valid() && f.depth >= 8
    ensures k < FilterDistance(f) <==> PlaceOf(f, k).pixel == 0
    ensures k >= FilterDistance(f) ==>
              var p := PlaceOf(f, k); PlaceOf(f, k - FilterDistance(f)) == p.(pixel := p.pixel - 1)
  {
    if f.depth == 8 {
      SampleBack(f.imgN, k);
    } else {
      SampleBack(f.imgN, k / 2);
    }
  }

  lemma SampleBack(n: nat, s: nat)
    requires 1 <= n <= 4
    ensures s < n <==> s / n == 0
    ensures s >= n ==> (s - n) / n == s / n - 1 && (s - n) % n == s % n
  {
  }

  class RowDecoder {
    const f: Format
    const x: nat
    const lines: Lines
    const out: array<byte>

    ghost predicate Valid()
    {
      && f.Valid() && x >= 1 && lines.Valid() && lines.nk == f.RowBytes(x) && lines.bpp == FilterDistance(f)
      && lines.buf != out
    }

    constructor (format: Format, width: nat, size: nat)
      requires format.Valid() && width >= 1
      ensures Valid() && f == format && x == width && fresh(out) && fresh(lines.buf) && out.Length == size
    {
      RowHolds(format, width);
      f, x := format, width;
      lines := new Lines(format.RowBytes(width), format.PixelBytes());
      out := new byte[size];
    }

    /** Expands the reconstructed line at cur into the output at d. */
    method Emit(cur: nat, d: nat, stride: nat, ghost row: seq<byte>)
      requires Valid() && cur <= lines.nk && lines.Line(cur) == row && stride == f.Stride(x) && d + stride <= out.Length
      modifies out
      ensures out[..d + stride] == old(out[..d]) + OutRow(f, row, x)
    {
      hide OutRow, Format.RowBytes;
      EmitRow(f, out, d, lines.buf, cur, x);
    }

    /** One row: unfilter it into one of the two lines, then expand it into the output at d. */
    method OneRow(first: bool, cur: nat, prior: nat, t: byte, data: seq<byte>, d: nat, stride: nat,
        ghost above: seq<byte>)
      requires Valid() && lines.Split(cur, prior) && t <= 4 && |data| == |above| == lines.nk
      requires stride == f.Stride(x) && d + stride <= out.Length
      requires if first then above == Zeros(lines.nk) else lines.Line(prior) == above
      modifies lines.buf, out
      ensures lines.Line(cur) == Recon(t, lines.bpp, data, above, lines.nk)
      ensures out[..d + stride] == old(out[..d]) + OutRow(f, Recon(t, lines.bpp, data, above, lines.nk), x)
    {
      hide Recon, OutRow, Format.RowBytes, Zeros, Lines.Line;
      lines.Row(cur, prior, first, t, data, above);
      Emit(cur, d, stride, lines.Line(cur));
    }

    /** Where decoding stands: `done` rows are out, the rest of the data is `raw`, the last line lies at `prior`. */
    ghost predicate At(all: Option<seq<seq<byte>>>, done: seq<seq<byte>>, raw: seq<byte>, above: seq<byte>,
                       first: bool, prior: nat, d: nat, left: nat)
      requires Valid() && prior <= lines.nk
      reads lines.buf, out
    {
      && d <= out.Length && Remaining(all, done, raw, lines.bpp, lines.nk, above, left)
      && (if first then above == Zeros(lines.nk) else lines.Line(prior) == above)
      && AllRows(f, done, x) && out[..d] == Pixels(f, done, x)
    }

    method NextOne(ghost all: Option<seq<seq<byte>>>, ghost done: seq<seq<byte>>, raw: seq<byte>,
        ghost above: seq<byte>,
                   first: bool, cur: nat, prior: nat, d: nat, stride: nat, ghost left: nat)
                       returns (ok: bool, ghost row: seq<byte>)
      requires Valid() && lines.Split(cur, prior) && left > 0 && At(all, done, raw, above, first, prior, d, left)
      requires stride == f.Stride(x) && d + stride <= out.Length
      modifies lines.buf, out
      ensures |raw| >= lines.nk + 1
      ensures ok ==> At(all, done + [row], raw[lines.nk + 1..], row, false, cur, d + stride, left - 1)
      ensures !ok ==> all == None
    {
      NextRow(all, done, raw, lines.bpp, lines.nk, above, left);
      hide Remaining, Recon, ReconRows, Pixels, Zeros, Lines.Line, Format.RowBytes, AllRows;
      if raw[0] > 4 { return false, []; }
      RemainingShape(all, done, raw, lines.bpp, lines.nk, above, left);
      OneRow(first, cur, prior, raw[0], raw[1..lines.nk + 1], d, stride, above);
      row := lines.Line(cur);
      MorePixels(f, done, row, x);
      return true, row;
    }

    lemma AtStart(raw: seq<byte>, y: nat)
      requires Valid() && |raw| >= Need(lines.nk, y)
      ensures At(ReconRows(raw, lines.bpp, lines.nk, Zeros(lines.nk), y), [], raw, Zeros(lines.nk), true, lines.nk, 0,
          y)
    {
      FirstRemaining(ReconRows(raw, lines.bpp, lines.nk, Zeros(lines.nk), y), raw, lines.bpp, lines.nk, y);
      NoRows(f, x);
    }

    lemma AtEnd(all: Option<seq<seq<byte>>>, done: seq<seq<byte>>, raw: seq<byte>, above: seq<byte>, first: bool,
        prior: nat)
      requires Valid() && prior <= lines.nk && At(all, done, raw, above, first, prior, out.Length, 0)
      ensures all == Some(done) && AllRows(f, done, x) && out[..] == Pixels(f, done, x)
    {
      LastRow(all, done, raw, lines.bpp, lines.nk, above);
      assert out[..] == out[..out.Length];
    }

    /** The two lines, and that they may change places. */
    lemma BothWays(cur: nat, prior: nat)
      requires Valid()
      ensures lines.Split(0, lines.nk)
      ensures lines.Split(cur, prior) ==> lines.Split(prior, cur)
    {
    }

    /** The row loop: the current and the prior line swap places on every row. */
    method Rows(raw: seq<byte>, y: nat, stride: nat) returns (ok: bool)
      requires Valid() && |raw| >= Need(lines.nk, y) && stride == f.Stride(x) && out.Length == Area(stride, y)
      modifies lines.buf, out
      ensures var rows := ReconRows(raw, lines.bpp, lines.nk, Zeros(lines.nk), y);
              if ok then rows.Some? && AllRows(f, rows.value, x) && out[..] == Pixels(f, rows.value, x) else rows.None?
    {
      hide At, ReconRows, Pixels, Zeros, AllRows, Area, Need, Lines.Split, Format.RowBytes, FilterDistance;
      ghost var all := ReconRows(raw, lines.bpp, lines.nk, Zeros(lines.nk), y);
      ghost var done: seq<seq<byte>>, above, first := [], Zeros(lines.nk), true;
      var rest, d: nat, cur: nat, prior: nat := raw, 0, 0, lines.nk;
      AtStart(raw, y);
      BothWays(0, lines.nk);
      for j := 0 to y
        invariant cur <= lines.nk && prior <= lines.nk && lines.Split(cur, prior) && first == (j == 0)
        invariant At(all, done, rest, above, first, prior, d, y - j)
        invariant d + Area(stride, y - j) == out.Length
      {
        AreaStep(stride, y - j);
        var good, row := NextOne(all, done, rest, above, j == 0, cur, prior, d, stride, y - j);
        if !good { return false; }
        done, above, first := done + [row], row, false;
        rest := rest[lines.nk + 1..];
        d := d + stride;
        BothWays(cur, prior);
        cur, prior := prior, cur;
      }
      AreaStart(stride);
      AtEnd(all, done, rest, above, first, prior);
      return true;
    }
  }

  lemma AreaStep(n: nat, y: nat)
    requires y > 0
    ensures Area(n, y) == n + Area(n, y - 1)
  {
  }

  lemma AreaStart(n: nat)
    ensures Area(n, 0) == 0
  {
  }

  lemma RemainingShape(all: Option<seq<seq<byte>>>, done: seq<seq<byte>>, raw: seq<byte>, bpp: nat, nk: nat,
      above: seq<byte>, y: nat)
    requires Remaining(all, done, raw, bpp, nk, above, y)
    ensures |above| == nk
  {
  }

  predicate AllRows(f: Format, rows: seq<seq<byte>>, x: nat) {
    forall i :: 0 <= i < |rows| ==> |rows[i]| == f.RowBytes(x)
  }

  lemma NoRows(f: Format, x: nat)
    requires f.Valid() && x >= 1
    ensures AllRows(f, [], x) && Pixels(f, [], x) == []
  {
  }

  lemma FirstRemaining(all: Option<seq<seq<byte>>>, raw: seq<byte>, bpp: nat, nk: nat, y: nat)
    requires bpp >= 1 && |raw| >= Need(nk, y) && all == ReconRows(raw, bpp, nk, Zeros(nk), y)
    ensures Remaining(all, [], raw, bpp, nk, Zeros(nk), y)
  {
    if all.Some? { assert [] + all.value == all.value; }
  }

  /** stbi__create_png_image_raw */
  method DecodeRaw(f: Format, raw: seq<byte>, x: nat, y: nat) returns (outcome: Outcome, out: array<byte>)
    requires f.Valid() && x >= 1 && y >= 1
    ensures Verdict(f, x, y, |raw|) != Done ==> outcome == Verdict(f, x, y, |raw|)
    ensures Verdict(f, x, y, |raw|) == Done ==> outcome == Done || outcome == BadFilter
    ensures Checked(f, x, y, |raw|) == Done ==> (outcome == BadFilter <==> Decoded(f, raw, x, y).None?)
    ensures fresh(out) && (outcome.Done? ==> out.Length == f.Stride(x) * y)
    ensures outcome.Done? ==> Checked(f, x, y, |raw|) == Done && AllRows(f, Decoded(f, raw, x, y).value, x)
    ensures outcome.Done? ==> out[..] == Pixels(f, Decoded(f, raw, x, y).value, x)
  {
    outcome := Checked(f, x, y, |raw|);
    CheckedExactly(f, x, y, |raw|);
    RowHolds(f, x);
    NeedIsProduct(f.RowBytes(x), y);
    AreaIsProduct(f.Stride(x), y);
    hide Format.RowBytes, Need, Area, Checked, Verdict, Decoded;
    if outcome != Done {
      out := new byte[0];
      return;
    }
    var decoder := new RowDecoder(f, x, f.Stride(x) * y);
    var ok := decoder.Rows(raw, y, f.Stride(x));
    out := decoder.out;
    if !ok { outcome := BadFilter; }
  }

  /** The scanlines behind the data, None if a filter type is not 0 to 4. */
  function Decoded(f: Format, raw: seq<byte>, x: nat, y: nat): Option<seq<seq<byte>>>
    requires f.Valid() && x >= 1 && Checked(f, x, y, |raw|) == Done
  {
    RowHolds(f, x);
    NeedIsProduct(f.RowBytes(x), y);
    ReconRows(raw, FilterDistance(f), f.RowBytes(x), Zeros(f.RowBytes(x)), y)
  }

  /** Whatever filter an encoder chose for each row, decoding gives back the rows. */
  lemma RawRoundTrip(f: Format, rows: seq<seq<byte>>, types: seq<byte>, x: nat, tail: seq<byte>)
    requires f.Valid() && x >= 1 && |types| == |rows| && AllRows(f, rows, x) && forall i :: 0 <= i < |types| ==>
        types[i] <= 4
    requires var raw := Written(f, rows, types, x) + tail; Checked(f, x, |rows|, |raw|) == Done
    ensures Decoded(f, Written(f, rows, types, x) + tail, x, |rows|) == Some(rows)
  {
    RowHolds(f, x);
    hide Encoded, ReconRows, Checked;
    ImageRoundTrip(rows, types, FilterDistance(f), f.RowBytes(x), Zeros(f.RowBytes(x)), tail);
  }

  /** An encoder's output for the rows of an image. */
  function Written(f: Format, rows: seq<seq<byte>>, types: seq<byte>, x: nat): seq<byte>
    requires f.Valid() && x >= 1 && |types| == |rows| && AllRows(f, rows, x)
  {
    Encoded(rows, types, FilterDistance(f), f.RowBytes(x), Zeros(f.RowBytes(x)))
  }
}
