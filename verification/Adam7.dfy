/** De-interlacing (section 8.2 of the PNG Specification; stbi__create_png_image). */
module Adam7 {
  import opened Bytes
  import opened Grid
  import opened Unfilter
  import opened PngRows
  import opened PngImage

  /** The standard's 8 x 8 pattern: the pass, from 0, that transmits a pixel. */
  const PATTERN: seq<seq<nat>> := [
    [0, 5, 3, 5, 1, 5, 3, 5],
    [6, 6, 6, 6, 6, 6, 6, 6],
    [4, 5, 4, 5, 4, 5, 4, 5],
    [6, 6, 6, 6, 6, 6, 6, 6],
    [2, 5, 3, 5, 2, 5, 3, 5],
    [6, 6, 6, 6, 6, 6, 6, 6],
    [4, 5, 4, 5, 4, 5, 4, 5],
    [6, 6, 6, 6, 6, 6, 6, 6]]

  function PassOf(X: nat, Y: nat): nat {
    PATTERN[Y % 8][X % 8]
  }

  /** The decoder's tables: where pass p starts and how far apart its pixels lie. */
  const XORIG: seq<nat> := [0, 4, 0, 2, 0, 1, 0]
  const YORIG: seq<nat> := [0, 0, 4, 0, 2, 0, 1]
  const XSPC: seq<nat> := [8, 8, 4, 4, 2, 2, 1]
  const YSPC: seq<nat> := [8, 8, 8, 4, 4, 2, 2]

  /** The pixels of pass p in a line of W: in unsigned arithmetic the sum before the division never drops below zero. */
  function PassWidth(p: nat, W: nat): nat
    requires p < 7 && W >= 1
  {
    (W + XSPC[p] - 1 - XORIG[p]) / XSPC[p]
  }

  function PassHeight(p: nat, H: nat): nat
    requires p < 7 && H >= 1
  {
    (H + YSPC[p] - 1 - YORIG[p]) / YSPC[p]
  }

  /** Where pixel i of line j of pass p goes. */
  function OutX(p: nat, i: nat): nat
    requires p < 7
  {
    i * XSPC[p] + XORIG[p]
  }

  function OutY(p: nat, j: nat): nat
    requires p < 7
  {
    j * YSPC[p] + YORIG[p]
  }

  /** The pass, and the place in it, of an output pixel. */
  function SourceX(X: nat, Y: nat): nat {
    var p := PassOf(X, Y);
    if p < 7 && X >= XORIG[p] then (X - XORIG[p]) / XSPC[p] else 0
  }

  function SourceY(X: nat, Y: nat): nat {
    var p := PassOf(X, Y);
    if p < 7 && Y >= YORIG[p] then (Y - YORIG[p]) / YSPC[p] else 0
  }

  /** Every pass pixel lies in the image, and is of that pass. */
  lemma PassPixel(p: nat, i: nat, j: nat, W: nat, H: nat)
    requires p < 7 && W >= 1 && H >= 1 && i < PassWidth(p, W) && j < PassHeight(p, H)
    ensures OutX(p, i) < W && OutY(p, j) < H && PassOf(OutX(p, i), OutY(p, j)) == p
    ensures SourceX(OutX(p, i), OutY(p, j)) == i && SourceY(OutX(p, i), OutY(p, j)) == j
  {
  }

  /** The pattern as a rule: the last pass has the odd lines, the one before it the odd columns of the rest, and so
      on. */
  lemma PatternRule(X: nat, Y: nat)
    ensures PassOf(X, Y) == if Y % 2 == 1 then 6 else if X % 2 == 1 then 5 else if Y % 4 == 2 then 4
                            else if X % 4 == 2 then 3 else if Y % 8 == 4 then 2 else if X % 8 == 4 then 1 else 0
  {
    Digits(X);
    Digits(Y);
    PatternSmall(X % 8, Y % 8);
    hide PATTERN;
  }

  lemma Digits(X: nat)
    ensures X % 2 == X % 8 % 2 && X % 4 == X % 8 % 4
  {
    var k, r := X / 8, X % 8;
    assert X == 8 * k + r;
    LastDigits(4 * k, 2 * k, r);
  }

  lemma LastDigits(t: nat, u: nat, r: nat)
    ensures (2 * t + r) % 2 == r % 2 && (4 * u + r) % 4 == r % 4
  {
  }

  lemma PatternSmall(x: nat, y: nat)
    requires x < 8 && y < 8
    ensures PATTERN[y][x] == if y % 2 == 1 then 6 else if x % 2 == 1 then 5 else if y % 4 == 2 then 4
                             else if x % 4 == 2 then 3 else if y == 4 then 2 else if x == 4 then 1 else 0
  {
  }

  /** One coordinate: of the numbers o, o + s, o + 2s, ... below `limit`, v is number (v - o) / s. */
  lemma Coordinate(v: nat, o: nat, s: nat, limit: nat)
    requires o < s && v % s == o && v < limit && (s == 1 || s == 2 || s == 4 || s == 8)
    ensures v >= o && (v - o) / s < (limit + s - 1 - o) / s && (v - o) / s * s + o == v
  {
    var q := v / s;
    if s == 1 {
      assert v - o == q;
    } else if s == 2 {
      assert v - o == 2 * q && (v - o) / 2 == q && (limit + 1 - o) / 2 >= q + 1;
    } else if s == 4 {
      assert v - o == 4 * q && (v - o) / 4 == q && (limit + 3 - o) / 4 >= q + 1;
    } else {
      assert v - o == 8 * q && (v - o) / 8 == q && (limit + 7 - o) / 8 >= q + 1;
    }
  }

  lemma ImageColumn(X: nat, Y: nat, W: nat)
    requires X < W
    ensures var p := PassOf(X, Y); p < 7 && SourceX(X, Y) < PassWidth(p, W) && OutX(p, SourceX(X, Y)) == X
  {
    PatternRule(X, Y);
    Digits(X);
    var p := PassOf(X, Y);
    assert X % XSPC[p] == XORIG[p];
    hide PassOf;
    Coordinate(X, XORIG[p], XSPC[p], W);
  }

  lemma ImageLine(X: nat, Y: nat, H: nat)
    requires Y < H
    ensures var p := PassOf(X, Y); p < 7 && SourceY(X, Y) < PassHeight(p, H) && OutY(p, SourceY(X, Y)) == Y
  {
    PatternRule(X, Y);
    Digits(Y);
    var p := PassOf(X, Y);
    assert Y % YSPC[p] == YORIG[p];
    hide PassOf;
    Coordinate(Y, YORIG[p], YSPC[p], H);
  }

  /** Every image pixel is sent in exactly one pass, at exactly one place. */
  lemma ImagePixel(X: nat, Y: nat, W: nat, H: nat)
    requires X < W && Y < H
    ensures var p := PassOf(X, Y);
            && p < 7 && SourceX(X, Y) < PassWidth(p, W) && SourceY(X, Y) < PassHeight(p, H)
            && OutX(p, SourceX(X, Y)) == X && OutY(p, SourceY(X, Y)) == Y
  {
    hide *;
    ImageColumn(X, Y, W);
    ImageLine(X, Y, H);
  }

  // ------------------------------------------------------------------ the passes in the data

  /** Pass p has pixels. */
  predicate Present(p: nat, W: nat, H: nat)
    requires p < 7 && W >= 1 && H >= 1
  {
    PassWidth(p, W) > 0 && PassHeight(p, H) > 0
  }

  /** How many bytes pass p takes in the data. */
  function PassBytes(f: Format, p: nat, W: nat, H: nat): nat
    requires p < 7 && W >= 1 && H >= 1
  {
    if Present(p, W, H) then Need(f.RowBytes(PassWidth(p, W)), PassHeight(p, H)) else 0
  }

  /** Where pass p starts in the data. */
  function Offset(f: Format, p: nat, W: nat, H: nat): nat
    requires p <= 7 && W >= 1 && H >= 1
  {
    if p == 0 then 0 else Offset(f, p - 1, W, H) + PassBytes(f, p - 1, W, H)
  }

  /** The data from pass p on. */
  function From(f: Format, data: seq<byte>, p: nat, W: nat, H: nat): seq<byte>
    requires p <= 7 && W >= 1 && H >= 1
  {
    if Offset(f, p, W, H) <= |data| then data[Offset(f, p, W, H)..] else []
  }

  /** Pass p decodes to pixels. */
  predicate PassGood(f: Format, data: seq<byte>, p: nat, W: nat, H: nat)
    requires f.Valid() && p < 7 && W >= 1 && H >= 1
  {
    !Present(p, W, H) ||
    (var raw := From(f, data, p, W, H); var x, y := PassWidth(p, W), PassHeight(p, H);
     Checked(f, x, y, |raw|) == Done && Decoded(f, raw, x, y).Some? && AllRows(f, Decoded(f, raw, x, y).value, x))
  }

  /** The pixels of pass p as a small image. */
  function PassImage(f: Format, data: seq<byte>, p: nat, W: nat, H: nat): seq<byte>
    requires f.Valid() && p < 7 && W >= 1 && H >= 1 && PassGood(f, data, p, W, H)
  {
    if !Present(p, W, H) then [] else
      Pixels(f, Decoded(f, From(f, data, p, W, H), PassWidth(p, W), PassHeight(p, H)).value, PassWidth(p, W))
  }

  /** The flat index of byte k of pixel (x, y) in an image of width w. */
  function Cell(w: nat, n: nat, x: nat, y: nat, k: nat): nat {
    At(At(y, w, x), n, k)
  }

  lemma CellBound(w: nat, h: nat, n: nat, x: nat, y: nat, k: nat)
    requires x < w && y < h && k < n
    ensures Cell(w, n, x, y, k) < h * w * n
  {
    AtBound(y, h, w, x);
    AtBound(At(y, w, x), h * w, n, k);
  }

  lemma CellInjective(w: nat, n: nat, x: nat, y: nat, k: nat, x': nat, y': nat, k': nat)
    requires x < w && x' < w && k < n && k' < n && Cell(w, n, x, y, k) == Cell(w, n, x', y', k')
    ensures x == x' && y == y' && k == k'
  {
    AtInjective(At(y, w, x), k, At(y', w, x'), k', n);
    AtInjective(y, x, y', x', w);
  }

  // ------------------------------------------------------------------ spreading one pass

  /** A pass, its small image and the image it is spread into. */
  datatype Job = Job(p: nat, W: nat, H: nat, n: nat)
  {
    predicate Valid() {
      p < 7 && W >= 1 && H >= 1 && n >= 1
    }

    function Small(): nat
      requires Valid()
    {
      PassHeight(p, H) * PassWidth(p, W) * n
    }

    function Large(): nat {
      H * W * n
    }
  }

  /** Pixel (X, Y) is one of the first j lines, or of the first i pixels of line j, of the pass. */
  predicate Reached(job: Job, X: nat, Y: nat, i: nat, j: nat) {
    PassOf(X, Y) == job.p && (SourceY(X, Y) < j || (SourceY(X, Y) == j && SourceX(X, Y) < i))
  }

  /** The byte that belongs at byte k of pixel (X, Y) once the pass is spread. */
  function Wanted(job: Job, pass: seq<byte>, X: nat, Y: nat, k: nat): byte
    requires job.Valid() && X < job.W && Y < job.H && k < job.n && PassOf(X, Y) == job.p && |pass| == job.Small()
  {
    ImagePixel(X, Y, job.W, job.H);
    CellBound(PassWidth(job.p, job.W), PassHeight(job.p, job.H), job.n, SourceX(X, Y), SourceY(X, Y), k);
    pass[Cell(PassWidth(job.p, job.W), job.n, SourceX(X, Y), SourceY(X, Y), k)]
  }

  /** The reached pixels hold the pass, all others what they held before. */
  ghost predicate Spread(job: Job, pass: seq<byte>, before: seq<byte>, now: seq<byte>, i: nat, j: nat)
    requires job.Valid() && |pass| == job.Small() && |before| == |now| == job.Large()
  {
    forall X: nat, Y: nat, k: nat :: X < job.W && Y < job.H && k < job.n ==>
      Cell(job.W, job.n, X, Y, k) < job.Large()
      && now[Cell(job.W, job.n, X, Y, k)]
         == if Reached(job, X, Y, i, j) then Wanted(job, pass, X, Y, k) else before[Cell(job.W, job.n, X, Y, k)]
  }

  /** A pixel's bytes are contiguous, and no other pixel's lie among them. */
  lemma PixelRange(W: nat, n: nat, X: nat, Y: nat, k: nat, base: nat, x: nat, y: nat)
    requires X < W && x < W && k < n && base == At(y, W, x) * n
    ensures base <= Cell(W, n, X, Y, k) < base + n <==> X == x && Y == y
    ensures X == x && Y == y ==> Cell(W, n, X, Y, k) == base + k
  {
    var c := Cell(W, n, X, Y, k);
    if base <= c < base + n {
      assert c == Cell(W, n, x, y, c - base);
      CellInjective(W, n, X, Y, k, x, y, c - base);
    }
  }

  /** Copying pixel i of line j takes the spread one pixel further. */
  lemma SpreadStep(job: Job, pass: seq<byte>, before: seq<byte>, now: seq<byte>, now': seq<byte>, i: nat, j: nat,
      from: nat, to: nat)
    requires job.Valid() && |pass| == job.Small() && |before| == |now| == |now'| == job.Large()
    requires i < PassWidth(job.p, job.W) && j < PassHeight(job.p, job.H)
    requires from == At(j, PassWidth(job.p, job.W), i) * job.n
      && to == At(OutY(job.p, j), job.W, OutX(job.p, i)) * job.n
    requires from + job.n <= |pass| && to + job.n <= |now'|
    requires forall m :: 0 <= m < |now'| ==> now'[m] == if to <= m < to + job.n then pass[from + m - to] else now[m]
    requires Spread(job, pass, before, now, i, j)
    ensures Spread(job, pass, before, now', i + 1, j)
  {
    PassPixel(job.p, i, j, job.W, job.H);
    hide PassOf, SourceX, SourceY, PassWidth, PassHeight, OutX, OutY, At, Cell;
    forall X: nat, Y: nat, k: nat | X < job.W && Y < job.H && k < job.n
      ensures Cell(job.W, job.n, X, Y, k) < job.Large()
        && now'[Cell(job.W, job.n, X, Y, k)]
           == if Reached(job, X, Y, i + 1, j) then Wanted(job, pass, X, Y, k) else before[Cell(job.W, job.n, X, Y, k)]
    {
      var x, y := OutX(job.p, i), OutY(job.p, j);
      PixelRange(job.W, job.n, X, Y, k, to, x, y);
      if X == x && Y == y {
        PixelRange(PassWidth(job.p, job.W), job.n, i, j, k, from, i, j);
      } else if PassOf(X, Y) == job.p {
        ImagePixel(X, Y, job.W, job.H);
      }
    }
  }

  lemma SpreadLine(job: Job, pass: seq<byte>, before: seq<byte>, now: seq<byte>, j: nat)
    requires job.Valid() && |pass| == job.Small() && |before| == |now| == job.Large()
    requires Spread(job, pass, before, now, PassWidth(job.p, job.W), j)
    ensures Spread(job, pass, before, now, 0, j + 1)
  {
    hide PassOf, SourceX, SourceY, PassWidth, PassHeight, OutX, OutY, At, Cell;
    forall X: nat, Y: nat | X < job.W && Y < job.H
      ensures Reached(job, X, Y, 0, j + 1) <==> Reached(job, X, Y, PassWidth(job.p, job.W), j)
    {
      if PassOf(X, Y) == job.p { ImagePixel(X, Y, job.W, job.H); }
    }
  }

  lemma SpreadNothing(job: Job, pass: seq<byte>, before: seq<byte>)
    requires job.Valid() && |pass| == job.Small() && |before| == job.Large()
    ensures Spread(job, pass, before, before, 0, 0)
  {
    forall X: nat, Y: nat, k: nat | X < job.W && Y < job.H && k < job.n
      ensures Cell(job.W, job.n, X, Y, k) < job.Large() {
      CellBound(job.W, job.H, job.n, X, Y, k);
    }
  }

  /** memcpy of one pixel. */
  method CopyPixel(pass: array<byte>, from: nat, final: array<byte>, to: nat, n: nat)
    requires from + n <= pass.Length && to + n <= final.Length && pass != final
    modifies final
    ensures forall m :: 0 <= m < final.Length ==>
        final[m] == if to <= m < to + n then pass[from + m - to] else old(final[m])
  {
    for k := 0 to n
      invariant forall m :: 0 <= m < final.Length ==>
          final[m] == if to <= m < to + k then pass[from + m - to] else old(final[m])
    {
      final[to + k] := pass[from + k];
    }
  }

  /** The inner copy loop: line j of the pass. */
  method SpreadLineOf(job: Job, pass: array<byte>, final: array<byte>, j: nat, ghost before: seq<byte>)
    requires job.Valid() && pass.Length == job.Small() && |before| == final.Length == job.Large() && pass != final
    requires j < PassHeight(job.p, job.H) && Spread(job, pass[..], before, final[..], 0, j)
    modifies final
    ensures Spread(job, pass[..], before, final[..], 0, j + 1)
  {
    hide Spread, PassWidth, PassHeight, OutX, OutY, Job.Small, Job.Large, At;
    var x := PassWidth(job.p, job.W);
    for i := 0 to x
      invariant Spread(job, pass[..], before, final[..], i, j)
    {
      PixelFits(job, i, j);
      ghost var now := final[..];
      var from, to := At(j, x, i) * job.n, At(OutY(job.p, j), job.W, OutX(job.p, i)) * job.n;
      CopyPixel(pass, from, final, to, job.n);
      SpreadStep(job, pass[..], before, now, final[..], i, j, from, to);
    }
    SpreadLine(job, pass[..], before, final[..], j);
  }

  /** The copy loops of one pass. */
  method SpreadPass(job: Job, pass: array<byte>, final: array<byte>)
    requires job.Valid() && pass.Length == job.Small() && final.Length == job.Large() && pass != final
    modifies final
    ensures Spread(job, pass[..], old(final[..]), final[..], 0, PassHeight(job.p, job.H))
  {
    ghost var before := final[..];
    SpreadNothing(job, pass[..], before);
    hide Spread, PassHeight, Job.Small, Job.Large;
    for j := 0 to PassHeight(job.p, job.H)
      invariant Spread(job, pass[..], before, final[..], 0, j)
    {
      SpreadLineOf(job, pass, final, j, before);
    }
  }

  lemma PixelFits(job: Job, i: nat, j: nat)
    requires job.Valid() && i < PassWidth(job.p, job.W) && j < PassHeight(job.p, job.H)
    ensures At(j, PassWidth(job.p, job.W), i) * job.n + job.n <= job.Small()
    ensures At(OutY(job.p, j), job.W, OutX(job.p, i)) * job.n + job.n <= job.Large()
  {
    PassPixel(job.p, i, j, job.W, job.H);
    hide PassWidth, PassHeight, OutX, OutY;
    CellBound(PassWidth(job.p, job.W), PassHeight(job.p, job.H), job.n, i, j, job.n - 1);
    CellBound(job.W, job.H, job.n, OutX(job.p, i), OutY(job.p, j), job.n - 1);
  }

  // ------------------------------------------------------------------ all passes

  /** The passes before p decode to images of the right size. */
  ghost predicate PassesGood(f: Format, data: seq<byte>, W: nat, H: nat, p: nat)
    requires f.Valid() && W >= 1 && H >= 1 && p <= 7
  {
    forall q :: 0 <= q < p ==>
        PassGood(f, data, q, W, H) && |PassImage(f, data, q, W, H)| == Job(q, W, H, f.OutBytes()).Small()
  }

  /** The pixels of the passes before p are in place. */
  ghost predicate Placed(f: Format, data: seq<byte>, W: nat, H: nat, final: seq<byte>, p: nat)
    requires f.Valid() && W >= 1 && H >= 1 && p <= 7
    requires PassesGood(f, data, W, H, p)
  {
    |final| == H * W * f.OutBytes() &&
    forall X: nat, Y: nat, k: nat :: X < W && Y < H && k < f.OutBytes() && PassOf(X, Y) < p ==>
      Cell(W, f.OutBytes(), X, Y, k) < |final|
      && final[Cell(W, f.OutBytes(), X, Y, k)]
          == Wanted(Job(PassOf(X, Y), W, H, f.OutBytes()), PassImage(f, data, PassOf(X, Y), W, H), X, Y, k)
  }

  lemma PlacedNext(f: Format, data: seq<byte>, W: nat, H: nat, before: seq<byte>, final: seq<byte>, p: nat)
    requires f.Valid() && W >= 1 && H >= 1 && p < 7
    requires PassesGood(f, data, W, H, p + 1)
    requires Placed(f, data, W, H, before, p) && |final| == |before|
    requires Spread(Job(p, W, H, f.OutBytes()), PassImage(f, data, p, W, H), before, final, 0, PassHeight(p, H))
    ensures Placed(f, data, W, H, final, p + 1)
  {
    hide PassOf, SourceX, SourceY, PassWidth, PassHeight, PassGood, PassImage, Cell, Wanted;
    forall X: nat, Y: nat, k: nat | X < W && Y < H && k < f.OutBytes() && PassOf(X, Y) <= p
      ensures Cell(W, f.OutBytes(), X, Y, k) < |final|
        && final[Cell(W, f.OutBytes(), X, Y, k)]
            == Wanted(Job(PassOf(X, Y), W, H, f.OutBytes()), PassImage(f, data, PassOf(X, Y), W, H), X, Y, k)
    {
      ImagePixel(X, Y, W, H);
    }
  }

  /** A pass without pixels has nothing to place. */
  lemma PlacedAbsent(f: Format, data: seq<byte>, W: nat, H: nat, final: seq<byte>, p: nat)
    requires f.Valid() && W >= 1 && H >= 1 && p < 7 && !Present(p, W, H)
    requires PassesGood(f, data, W, H, p + 1)
    requires Placed(f, data, W, H, final, p)
    ensures Placed(f, data, W, H, final, p + 1)
  {
    hide PassOf, SourceX, SourceY, PassWidth, PassHeight, PassGood, PassImage, Cell, Wanted;
    forall X: nat, Y: nat | X < W && Y < H ensures PassOf(X, Y) != p {
      ImagePixel(X, Y, W, H);
    }
  }

  lemma PassGoodIff(f: Format, data: seq<byte>, p: nat, W: nat, H: nat, out: seq<byte>, outcome: Outcome)
    requires f.Valid() && p < 7 && W >= 1 && H >= 1 && Present(p, W, H)
    requires var raw, x, y := From(f, data, p, W, H), PassWidth(p, W), PassHeight(p, H);
             && (outcome.Done? <==> Checked(f, x, y, |raw|) == Done && Decoded(f, raw, x, y).Some?)
             && (outcome.Done? ==>
                 AllRows(f, Decoded(f, raw, x, y).value, x) && out == Pixels(f, Decoded(f, raw, x, y).value, x))
             && (outcome.Done? ==> |out| == f.OutBytes() * x * y)
    ensures outcome.Done? <==> PassGood(f, data, p, W, H)
    ensures outcome.Done? ==> out == PassImage(f, data, p, W, H) && |out| == Job(p, W, H, f.OutBytes()).Small()
  {
    hide Checked, Decoded, Pixels, PassWidth, PassHeight, From, AllRows;
    var x, y := PassWidth(p, W), PassHeight(p, H);
    assert f.OutBytes() * x * y == y * x * f.OutBytes();
  }

  /** The decoder's consumption of a pass is the advance of its data pointer. */
  lemma Advance(f: Format, data: seq<byte>, p: nat, W: nat, H: nat, imgLen: nat)
    requires f.Valid() && p < 7 && W >= 1 && H >= 1 && Offset(f, p, W, H) <= |data|
    requires Present(p, W, H) ==> Checked(f, PassWidth(p, W), PassHeight(p, H), |From(f, data, p, W, H)|) == Done
    ensures Offset(f, p + 1, W, H) <= |data|
    ensures Present(p, W, H) && imgLen == (f.RowBytes(PassWidth(p, W)) + 1) * PassHeight(p, H) ==>
              imgLen <= |From(f, data, p, W, H)| && From(f, data, p + 1, W, H) == From(f, data, p, W, H)[imgLen..]
    ensures !Present(p, W, H) ==> From(f, data, p + 1, W, H) == From(f, data, p, W, H)
  {
    hide PassWidth, PassHeight, Format.RowBytes, Need;
    NeedIsProduct(f.RowBytes(PassWidth(p, W)), PassHeight(p, H));
  }

  /** The passes before p are done, and `rest` is the data from pass p on. */
  ghost predicate Underway(f: Format, data: seq<byte>, W: nat, H: nat, p: nat, rest: seq<byte>, final: seq<byte>)
    requires f.Valid() && W >= 1 && H >= 1 && p <= 7
  {
    && Offset(f, p, W, H) <= |data| && rest == From(f, data, p, W, H)
    && PassesGood(f, data, W, H, p) && Placed(f, data, W, H, final, p)
  }

  lemma UnderwayPresent(f: Format, data: seq<byte>, W: nat, H: nat, p: nat, rest: seq<byte>, before: seq<byte>,
      final: seq<byte>,
                        imgLen: nat)
    requires f.Valid() && W >= 1 && H >= 1 && p < 7 && Present(p, W, H) && Underway(f, data, W, H, p, rest, before)
    requires imgLen == (f.RowBytes(PassWidth(p, W)) + 1) * PassHeight(p, H)
    requires PassGood(f, data, p, W, H) && |PassImage(f, data, p, W, H)| == Job(p, W, H, f.OutBytes()).Small()
    requires |final| == |before| == H * W * f.OutBytes()
    requires Spread(Job(p, W, H, f.OutBytes()), PassImage(f, data, p, W, H), before, final, 0, PassHeight(p, H))
    ensures imgLen <= |rest| && Underway(f, data, W, H, p + 1, rest[imgLen..], final)
  {
    Checks(f, data, W, H, p);
    hide PassWidth, PassHeight, PassImage, PassGood, Placed, Format.RowBytes, Offset, From, Checked, Spread;
    OneMorePass(f, data, W, H, p);
    PlacedNext(f, data, W, H, before, final, p);
    Advance(f, data, p, W, H, imgLen);
  }

  lemma Checks(f: Format, data: seq<byte>, W: nat, H: nat, p: nat)
    requires f.Valid() && W >= 1 && H >= 1 && p < 7 && Present(p, W, H) && PassGood(f, data, p, W, H)
    ensures Checked(f, PassWidth(p, W), PassHeight(p, H), |From(f, data, p, W, H)|) == Done
  {
  }

  lemma UnderwayAbsent(f: Format, data: seq<byte>, W: nat, H: nat, p: nat, rest: seq<byte>, final: seq<byte>)
    requires f.Valid() && W >= 1 && H >= 1 && p < 7 && !Present(p, W, H) && Underway(f, data, W, H, p, rest, final)
    ensures Underway(f, data, W, H, p + 1, rest, final)
  {
    hide PassWidth, PassHeight, PassImage, PassGood, Placed, Format.RowBytes, Offset, From, Checked, Spread;
    AbsentGood(f, data, W, H, p);
    OneMorePass(f, data, W, H, p);
    PlacedAbsent(f, data, W, H, final, p);
    Advance(f, data, p, W, H, 0);
  }

  /** One pass: decode it, copy its pixels, advance the data pointer. */
  method OnePass(f: Format, ghost data: seq<byte>, W: nat, H: nat, p: nat, rest: seq<byte>, final: array<byte>)
      returns (outcome: Outcome, rest': seq<byte>)
    requires f.Valid() && W >= 1 && H >= 1 && p < 7 && Present(p, W, H)
    requires final.Length == H * W * f.OutBytes() && Underway(f, data, W, H, p, rest, final[..])
    modifies final
    ensures outcome.Done? ==> Underway(f, data, W, H, p + 1, rest', final[..])
    ensures !outcome.Done? ==> !PassGood(f, data, p, W, H)
  {
    hide Checked, Decoded, Pixels, PassWidth, PassHeight, From, AllRows, Spread, PassImage, PassGood, Placed;
    hide PassesGood, Offset, Format.RowBytes, Job.Small;
    var x, y := PassWidth(p, W), PassHeight(p, H);
    CheckedExactly(f, x, y, |rest|);
    hide Verdict;
    var got, pass := DecodeRaw(f, rest, x, y);
    PassGoodIff(f, data, p, W, H, pass[..], got);
    if got != Done { return got, rest; }
    ghost var before := final[..];
    SpreadPass(Job(p, W, H, f.OutBytes()), pass, final);
    var imgLen: nat := (f.RowBytes(x) + 1) * y;
    UnderwayPresent(f, data, W, H, p, rest, before, final[..], imgLen);
    return Done, rest[imgLen..];
  }

  /** The interlaced branch of stbi__create_png_image. */
  method Deinterlace(f: Format, data: seq<byte>, W: nat, H: nat) returns (outcome: Outcome, final: array<byte>)
    requires f.Valid() && W >= 1 && H >= 1
    ensures !(MulFits(W, H) && MulFits(W * H, f.OutBytes())) ==> outcome.OutOfMemory?
    ensures outcome.Done? ==> PassesGood(f, data, W, H, 7) && Placed(f, data, W, H, final[..], 7)
    ensures !outcome.Done? && MulFits(W, H) && MulFits(W * H, f.OutBytes()) ==>
        exists p :: 0 <= p < 7 && !PassGood(f, data, p, W, H)
  {
    if !(MulFits(W, H) && MulFits(W * H, f.OutBytes())) {
      final := new byte[0];
      return OutOfMemory, final;
    }
    final := new byte[H * W * f.OutBytes()];
    var rest := data;
    NothingPlaced(f, data, W, H, final[..]);
    hide PassWidth, PassHeight, PassGood, Placed, PassesGood, Offset, From, Underway, MulFits;
    for p := 0 to 7
      invariant final.Length == H * W * f.OutBytes() && Underway(f, data, W, H, p, rest, final[..])
    {
      if PassWidth(p, W) > 0 && PassHeight(p, H) > 0 {
        var got, next := OnePass(f, data, W, H, p, rest, final);
        if got != Done { return got, final; }
        rest := next;
      } else {
        UnderwayAbsent(f, data, W, H, p, rest, final[..]);
      }
    }
    AllPlaced(f, data, W, H, rest, final[..]);
    return Done, final;
  }

  lemma AllPlaced(f: Format, data: seq<byte>, W: nat, H: nat, rest: seq<byte>, final: seq<byte>)
    requires f.Valid() && W >= 1 && H >= 1 && Underway(f, data, W, H, 7, rest, final)
    ensures PassesGood(f, data, W, H, 7) && Placed(f, data, W, H, final, 7)
  {
  }

  lemma NothingPlaced(f: Format, data: seq<byte>, W: nat, H: nat, final: seq<byte>)
    requires f.Valid() && W >= 1 && H >= 1 && |final| == H * W * f.OutBytes()
    ensures Underway(f, data, W, H, 0, data, final)
  {
  }

  lemma OneMorePass(f: Format, data: seq<byte>, W: nat, H: nat, p: nat)
    requires f.Valid() && W >= 1 && H >= 1 && p < 7 && PassesGood(f, data, W, H, p)
    requires PassGood(f, data, p, W, H) && |PassImage(f, data, p, W, H)| == Job(p, W, H, f.OutBytes()).Small()
    ensures PassesGood(f, data, W, H, p + 1)
  {
    hide PassGood, PassImage, Job.Small;
  }

  lemma AbsentGood(f: Format, data: seq<byte>, W: nat, H: nat, p: nat)
    requires f.Valid() && W >= 1 && H >= 1 && p < 7 && !Present(p, W, H)
    ensures PassGood(f, data, p, W, H) && |PassImage(f, data, p, W, H)| == Job(p, W, H, f.OutBytes()).Small()
  {
    hide PassWidth, PassHeight;
    var x, y := PassWidth(p, W), PassHeight(p, H);
    assert y * x == 0;
  }
}
