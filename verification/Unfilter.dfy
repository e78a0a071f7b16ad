/** PNG scanline filters (sections 9.2 to 9.4 of the PNG Specification) and their inverse in two alternating rows. */
module Unfilter {
  import opened Bytes

  // ------------------------------------------------------------------ the standard's filters

  function Abs(x: int): nat {
    if x < 0 then -x else x
  }

  /** The reference predictor: of left, above, upper left the one nearest to a + b - c, in that order on ties. */
  function PaethPredictor(a: int, b: int, c: int): int {
    var p := a + b - c;
    var pa, pb, pc := Abs(p - a), Abs(p - b), Abs(p - c);
    if pa <= pb && pa <= pc then a else if pb <= pc then b else c
  }

  /** stbi__paeth: compares a threshold instead of distances. */
  function Paeth(a: int, b: int, c: int): (r: int)
    ensures r == PaethPredictor(a, b, c)
  {
    var thresh := c * 3 - (a + b);
    var lo := if a < b then a else b;
    var hi := if a < b then b else a;
    var t0 := if hi <= thresh then lo else c;
    if thresh <= lo then hi else t0
  }

  /** The filter types 0 to 4. */
  function Predict(t: byte, a: byte, b: byte, c: byte): int {
    if t == 0 then 0
    else if t == 1 then a as int
    else if t == 2 then b as int
    else if t == 3 then (a as int + b as int) / 2
    else PaethPredictor(a as int, b as int, c as int)
  }

  /** The byte one pixel to the left, zero at the left edge. */
  function Left(row: seq<byte>, k: nat, bpp: nat): byte
    requires k < |row| + bpp
  {
    if k < bpp then 0 else row[k - bpp]
  }

  /** What an encoder stores for a row: each byte less its prediction. */
  function Filtered(t: byte, bpp: nat, row: seq<byte>, prior: seq<byte>): (f: seq<byte>)
    requires bpp >= 1 && |prior| == |row|
    ensures |f| == |row|
  {
    seq(|row|, k requires 0 <= k < |row| => Low8(row[k] as int - Predict(t, Left(row, k, bpp), prior[k],
        Left(prior, k, bpp))))
  }

  /** Byte k of a row, from its filtered byte, the bytes before it and the row above. */
  function Next(t: byte, bpp: nat, f: seq<byte>, above: seq<byte>, row: seq<byte>, k: nat): byte
    requires bpp >= 1 && |row| == k && k < |f| && k < |above|
  {
    Low8(f[k] as int + Predict(t, Left(row, k, bpp), above[k], Left(above, k, bpp)))
  }

  /** The first n bytes of a row, from its filtered bytes and the row above. */
  function Recon(t: byte, bpp: nat, f: seq<byte>, prior: seq<byte>, n: nat): (row: seq<byte>)
    requires bpp >= 1 && n <= |f| && n <= |prior|
    ensures |row| == n
  {
    if n == 0 then [] else
      var row := Recon(t, bpp, f, prior, n - 1);
      row + [Next(t, bpp, f, prior, row, n - 1)]
  }

  lemma Low8Undo(x: byte, p: int)
    ensures Low8(Low8(x as int - p) as int + p) == x
  {
  }

  /** Unfiltering inverts filtering, byte by byte. */
  lemma {:induction false} ReconInverts(t: byte, bpp: nat, row: seq<byte>, prior: seq<byte>, n: nat)
    requires bpp >= 1 && |prior| == |row| && n <= |row|
    ensures Recon(t, bpp, Filtered(t, bpp, row, prior), prior, n) == row[..n]
  {
    if n > 0 {
      ReconInverts(t, bpp, row, prior, n - 1);
      assert Left(row[..n - 1], n - 1, bpp) == Left(row, n - 1, bpp);
      hide Predict, Low8;
      Low8Undo(row[n - 1], Predict(t, Left(row, n - 1, bpp), prior[n - 1], Left(prior, n - 1, bpp)));
    }
  }

  function Zeros(n: nat): (z: seq<byte>)
    ensures |z| == n
  {
    seq(n, _ => 0 as byte)
  }

  // ------------------------------------------------------------------ whole images

  datatype Option<T> = None | Some(value: T)

  /** The size of y filtered rows of nk bytes each. */
  function Need(nk: nat, y: nat): nat {
    if y == 0 then 0 else nk + 1 + Need(nk, y - 1)
  }

  lemma {:induction false} NeedIsProduct(nk: nat, y: nat)
    ensures Need(nk, y) == (nk + 1) * y
  {
    if y > 0 { NeedIsProduct(nk, y - 1); }
  }

  /** The rows behind filtered data: each row is its filter type and nk bytes. None if a type is not 0 to 4. */
  function ReconRows(raw: seq<byte>, bpp: nat, nk: nat, prior: seq<byte>, y: nat): Option<seq<seq<byte>>>
    requires bpp >= 1 && |prior| == nk && |raw| >= Need(nk, y)
    decreases y
  {
    if y == 0 then Some([]) else
      if raw[0] > 4 then None else
        var row := Recon(raw[0], bpp, raw[1..nk + 1], prior, nk);
        var rest := ReconRows(raw[nk + 1..], bpp, nk, row, y - 1);
        if rest.None? then None else Some([row] + rest.value)
  }

  /** What an encoder writes for the rows, with a filter type of its choice for each. */
  function Encoded(rows: seq<seq<byte>>, types: seq<byte>, bpp: nat, nk: nat, prior: seq<byte>): seq<byte>
    requires bpp >= 1 && |prior| == nk && |types| == |rows| && forall i :: 0 <= i < |rows| ==> |rows[i]| == nk
  {
    if rows == [] then [] else
      [types[0]] + Filtered(types[0], bpp, rows[0], prior) + Encoded(rows[1..], types[1..], bpp, nk, rows[0])
  }

  /** Any image comes back, whatever filter was chosen for each row. */
  lemma {:induction false} ImageRoundTrip(rows: seq<seq<byte>>, types: seq<byte>, bpp: nat, nk: nat, prior: seq<byte>,
      tail: seq<byte>)
    requires bpp >= 1 && |prior| == nk && |types| == |rows| && forall i :: 0 <= i < |rows| ==> |rows[i]| == nk
    requires forall i :: 0 <= i < |types| ==> types[i] <= 4
    ensures var raw := Encoded(rows, types, bpp, nk, prior) + tail;
            |raw| >= Need(nk, |rows|) && ReconRows(raw, bpp, nk, prior, |rows|) == Some(rows)
    decreases |rows|
  {
    hide *;
    if rows == [] {
      NoRowsBack(bpp, nk, prior, types, tail);
    } else {
      var f := Filtered(types[0], bpp, rows[0], prior);
      var rest := Encoded(rows[1..], types[1..], bpp, nk, rows[0]);
      EncodedFirst(rows, types, bpp, nk, prior);
      ImageRoundTrip(rows[1..], types[1..], bpp, nk, rows[0], tail);
      ReconInverts(types[0], bpp, rows[0], prior, nk);
      OneRowBack(types[0], f, rest + tail, bpp, nk, prior, rows);
      assert [types[0]] + f + rest + tail == [types[0]] + f + (rest + tail);
    }
  }

  lemma NoRowsBack(bpp: nat, nk: nat, prior: seq<byte>, types: seq<byte>, tail: seq<byte>)
    requires bpp >= 1 && |prior| == nk && types == []
    ensures var raw := Encoded([], types, bpp, nk, prior) + tail;
            |raw| >= Need(nk, 0) && ReconRows(raw, bpp, nk, prior, 0) == Some([])
  {
  }

  lemma EncodedFirst(rows: seq<seq<byte>>, types: seq<byte>, bpp: nat, nk: nat, prior: seq<byte>)
    requires bpp >= 1 && |prior| == nk && |types| == |rows| && rows != [] && forall i :: 0 <= i < |rows| ==>
        |rows[i]| == nk
    ensures Encoded(rows, types, bpp, nk, prior)
         == [types[0]] + Filtered(types[0], bpp, rows[0], prior) + Encoded(rows[1..], types[1..], bpp, nk, rows[0])
  {
  }

  lemma OneRowBack(t: byte, f: seq<byte>, rest: seq<byte>, bpp: nat, nk: nat, prior: seq<byte>, rows: seq<seq<byte>>)
    requires bpp >= 1 && |prior| == nk == |f| && t <= 4 && rows != [] && |rows[0]| == nk
    requires Recon(t, bpp, f, prior, nk) == rows[0][..nk]
    requires |rest| >= Need(nk, |rows| - 1) && ReconRows(rest, bpp, nk, rows[0], |rows| - 1) == Some(rows[1..])
    ensures var raw := [t] + f + rest;
            |raw| >= Need(nk, |rows|) && ReconRows(raw, bpp, nk, prior, |rows|) == Some(rows)
  {
    hide Recon;
    var raw := [t] + f + rest;
    assert raw[1..nk + 1] == f && raw[nk + 1..] == rest;
    assert rows[0][..nk] == rows[0] && [rows[0]] + rows[1..] == rows;
  }

  // ------------------------------------------------------------------ the decoder's row loops

  /** The synthetic type for an average filter in the first row. */
  const AVG_FIRST: nat := 5

  /** first_row_filter: the first row never looks at the row above. */
  function FirstRowFilter(t: nat): nat
    requires t <= 4
  {
    [0, 1, 0, AVG_FIRST, 1][t]
  }

  lemma ReconStep(t: byte, bpp: nat, f: seq<byte>, above: seq<byte>, k: nat)
    requires bpp >= 1 && k < |f| && k < |above|
    ensures var row := Recon(t, bpp, f, above, k);
    Recon(t, bpp, f, above, k + 1) == row + [Next(t, bpp, f, above, row, k)]
  {
  }

  lemma ReconStart(t: byte, bpp: nat, f: seq<byte>, above: seq<byte>)
    requires bpp >= 1
    ensures Recon(t, bpp, f, above, 0) == []
  {
  }

  /** A first row may use the substitute for its type. */
  predicate Or0(t: byte, own: byte, substitute: byte, above: seq<byte>) {
    t == own || (t == substitute && above == Zeros(|above|))
  }

  lemma NextCopy(t: byte, bpp: nat, f: seq<byte>, above: seq<byte>, row: seq<byte>, k: nat)
    requires bpp >= 1 && |row| == k && k < |f| && k < |above| && Or0(t, 0, 2, above)
    ensures Next(t, bpp, f, above, row, k) == f[k]
  {
  }

  lemma NextSub(t: byte, bpp: nat, f: seq<byte>, above: seq<byte>, row: seq<byte>, k: nat)
    requires bpp >= 1 && |row| == k && k < |f| && k < |above| && Or0(t, 1, 4, above)
    ensures Next(t, bpp, f, above, row, k) == if k < bpp then f[k] else Low8(f[k] as int + row[k - bpp] as int)
  {
    hide Low8;
    assert Low8(f[k] as int) == f[k] by { Low8Keeps(f[k]); }
  }

  lemma Low8Keeps(x: byte)
    ensures Low8(x as int) == x
  {
  }

  lemma NextUp(bpp: nat, f: seq<byte>, above: seq<byte>, row: seq<byte>, k: nat)
    requires bpp >= 1 && |row| == k && k < |f| && k < |above|
    ensures Next(2, bpp, f, above, row, k) == Low8(f[k] as int + above[k] as int)
  {
    hide Low8;
  }

  lemma NextAvg(bpp: nat, f: seq<byte>, above: seq<byte>, row: seq<byte>, k: nat)
    requires bpp >= 1 && |row| == k && k < |f| && k < |above|
    ensures Next(3, bpp, f, above, row, k) ==
            Low8(f[k] as int + if k < bpp then above[k] as int / 2 else (above[k] as int + row[k - bpp] as int) / 2)
  {
    hide Low8;
  }

  lemma NextPaeth(bpp: nat, f: seq<byte>, above: seq<byte>, row: seq<byte>, k: nat)
    requires bpp >= 1 && |row| == k && k < |f| && k < |above|
    ensures Next(4, bpp, f, above, row, k) ==
            Low8(f[k] as int + if k < bpp then above[k] as int
                else Paeth(row[k - bpp] as int, above[k] as int, above[k - bpp] as int))
  {
    hide Low8;
  }

  lemma NextAvgFirst(bpp: nat, f: seq<byte>, above: seq<byte>, row: seq<byte>, k: nat)
    requires bpp >= 1 && |row| == k && k < |f| && k < |above| && above == Zeros(|above|)
    ensures Next(3, bpp, f, above, row, k) == if k < bpp then f[k] else Low8(f[k] as int + row[k - bpp] as int / 2)
  {
    hide Low8;
    assert Low8(f[k] as int) == f[k] by { Low8Keeps(f[k]); }
  }

  /** Two scanlines in one buffer: the current one at cur, the one above at prior. */
  class Lines {
    const buf: array<byte>
    const nk: nat
    const bpp: nat

    predicate Valid() {
      1 <= bpp <= nk && buf.Length == 2 * nk
    }

    constructor (rowBytes: nat, pixelBytes: nat)
      requires 1 <= pixelBytes <= rowBytes
      ensures Valid() && fresh(buf) && nk == rowBytes && bpp == pixelBytes
    {
      nk, bpp := rowBytes, pixelBytes;
      buf := new byte[2 * rowBytes];
    }

    function Line(at: nat): (r: seq<byte>)
      requires Valid() && at <= nk
      reads buf
      ensures |r| == nk
    {
      buf[at..at + nk]
    }

    predicate Split(cur: nat, prior: nat) {
      (cur == 0 && prior == nk) || (cur == nk && prior == 0)
    }

    /** The first k bytes of the current line are reconstructed. */
    predicate Built(cur: nat, t: byte, f: seq<byte>, above: seq<byte>, k: nat)
      requires Valid() && cur <= nk && |f| == |above| == nk && k <= nk
      reads buf
    {
      buf[cur..cur + k] == Recon(t, bpp, f, above, k)
    }

    /** The bytes a filter looks at, by position in the buffer. */
    lemma Reads(cur: nat, prior: nat, k: nat)
      requires Valid() && Split(cur, prior) && k < nk
      ensures buf[prior + k] == Line(prior)[k]
      ensures bpp <= k ==>
          buf[cur + k - bpp] == buf[cur..cur + k][k - bpp] && buf[prior + k - bpp] == Line(prior)[k - bpp]
    {
    }

    /** Stores the next byte of the current line. */
    method Put(cur: nat, prior: nat, k: nat, v: byte, ghost t: byte, ghost f: seq<byte>, ghost above: seq<byte>)
      requires Valid() && Split(cur, prior) && |f| == |above| == nk && k < nk && Built(cur, t, f, above, k)
      requires v == Next(t, bpp, f, above, buf[cur..cur + k], k)
      modifies buf
      ensures Built(cur, t, f, above, k + 1) && Line(prior) == old(Line(prior))
    {
      ReconStep(t, bpp, f, above, k);
      hide Recon, Next;
      buf[cur + k] := v;
      assert buf[cur..cur + k + 1] == buf[cur..cur + k] + [v];
    }

    method CopyRow(cur: nat, prior: nat, f: seq<byte>, ghost t: byte, ghost above: seq<byte>)
      requires Valid() && Split(cur, prior) && |f| == |above| == nk && Or0(t, 0, 2, above)
      modifies buf
      ensures Built(cur, t, f, above, nk) && Line(prior) == old(Line(prior))
    {
      ReconStart(t, bpp, f, above);
      hide Recon, Next, Or0;
      for k := 0 to nk
        invariant Built(cur, t, f, above, k) && Line(prior) == old(Line(prior))
      {
        NextCopy(t, bpp, f, above, buf[cur..cur + k], k);
        Put(cur, prior, k, f[k], t, f, above);
      }
    }

    method SubRow(cur: nat, prior: nat, f: seq<byte>, ghost t: byte, ghost above: seq<byte>)
      requires Valid() && Split(cur, prior) && |f| == |above| == nk && Or0(t, 1, 4, above)
      modifies buf
      ensures Built(cur, t, f, above, nk) && Line(prior) == old(Line(prior))
    {
      ReconStart(t, bpp, f, above);
      hide Recon, Next, Or0, Low8, Predict, Left, Line;
      for k := 0 to bpp
        invariant Built(cur, t, f, above, k) && Line(prior) == old(Line(prior))
      {
        Reads(cur, prior, k);
        NextSub(t, bpp, f, above, buf[cur..cur + k], k);
        Put(cur, prior, k, f[k], t, f, above);
      }
      SubRest(cur, prior, f, t, above);
    }

    method SubRest(cur: nat, prior: nat, f: seq<byte>, ghost t: byte, ghost above: seq<byte>)
      requires Valid() && Split(cur, prior) && |f| == |above| == nk && Or0(t, 1, 4, above)
      requires Built(cur, t, f, above, bpp)
      modifies buf
      ensures Built(cur, t, f, above, nk) && Line(prior) == old(Line(prior))
    {
      hide Recon, Next, Or0, Low8, Predict, Left, Line;
      for k := bpp to nk
        invariant Built(cur, t, f, above, k) && Line(prior) == old(Line(prior))
      {
        Reads(cur, prior, k);
        NextSub(t, bpp, f, above, buf[cur..cur + k], k);
        Put(cur, prior, k, Low8(f[k] as int + buf[cur + k - bpp] as int), t, f, above);
      }
    }

    method UpRow(cur: nat, prior: nat, f: seq<byte>, ghost above: seq<byte>)
      requires Valid() && Split(cur, prior) && |f| == |above| == nk && Line(prior) == above
      modifies buf
      ensures Built(cur, 2, f, above, nk) && Line(prior) == old(Line(prior))
    {
      ReconStart(2, bpp, f, above);
      hide Recon, Next, Low8, Predict, Left, Line;
      for k := 0 to nk
        invariant Built(cur, 2, f, above, k) && Line(prior) == above
      {
        Reads(cur, prior, k);
        NextUp(bpp, f, above, buf[cur..cur + k], k);
        Put(cur, prior, k, Low8(f[k] as int + buf[prior + k] as int), 2, f, above);
      }
    }

    method AvgRow(cur: nat, prior: nat, f: seq<byte>, ghost above: seq<byte>)
      requires Valid() && Split(cur, prior) && |f| == |above| == nk && Line(prior) == above
      modifies buf
      ensures Built(cur, 3, f, above, nk) && Line(prior) == old(Line(prior))
    {
      ReconStart(3, bpp, f, above);
      hide Recon, Next, Low8, Predict, Left, Line;
      for k := 0 to bpp
        invariant Built(cur, 3, f, above, k) && Line(prior) == above
      {
        Reads(cur, prior, k);
        NextAvg(bpp, f, above, buf[cur..cur + k], k);
        Put(cur, prior, k, Low8(f[k] as int + buf[prior + k] as int / 2), 3, f, above);
      }
      AvgRest(cur, prior, f, above);
    }

    method AvgRest(cur: nat, prior: nat, f: seq<byte>, ghost above: seq<byte>)
      requires Valid() && Split(cur, prior) && |f| == |above| == nk && Line(prior) == above
      requires Built(cur, 3, f, above, bpp)
      modifies buf
      ensures Built(cur, 3, f, above, nk) && Line(prior) == old(Line(prior))
    {
      hide Recon, Next, Low8, Predict, Left, Line;
      for k := bpp to nk
        invariant Built(cur, 3, f, above, k) && Line(prior) == above
      {
        Reads(cur, prior, k);
        NextAvg(bpp, f, above, buf[cur..cur + k], k);
        Put(cur, prior, k, Low8(f[k] as int + (buf[prior + k] as int + buf[cur + k - bpp] as int) / 2), 3, f, above);
      }
    }

    method PaethRow(cur: nat, prior: nat, f: seq<byte>, ghost above: seq<byte>)
      requires Valid() && Split(cur, prior) && |f| == |above| == nk && Line(prior) == above
      modifies buf
      ensures Built(cur, 4, f, above, nk) && Line(prior) == old(Line(prior))
    {
      ReconStart(4, bpp, f, above);
      hide Recon, Next, Low8, Paeth, PaethPredictor, Predict, Left, Line;
      for k := 0 to bpp
        invariant Built(cur, 4, f, above, k) && Line(prior) == above
      {
        Reads(cur, prior, k);
        NextPaeth(bpp, f, above, buf[cur..cur + k], k);
        Put(cur, prior, k, Low8(f[k] as int + buf[prior + k] as int), 4, f, above);
      }
      PaethRest(cur, prior, f, above);
    }

    method PaethRest(cur: nat, prior: nat, f: seq<byte>, ghost above: seq<byte>)
      requires Valid() && Split(cur, prior) && |f| == |above| == nk && Line(prior) == above
      requires Built(cur, 4, f, above, bpp)
      modifies buf
      ensures Built(cur, 4, f, above, nk) && Line(prior) == old(Line(prior))
    {
      hide Recon, Next, Low8, Paeth, PaethPredictor, Predict, Left, Line;
      for k := bpp to nk
        invariant Built(cur, 4, f, above, k) && Line(prior) == above
      {
        Reads(cur, prior, k);
        NextPaeth(bpp, f, above, buf[cur..cur + k], k);
        var p := Paeth(buf[cur + k - bpp] as int, buf[prior + k] as int, buf[prior + k - bpp] as int);
        Put(cur, prior, k, Low8(f[k] as int + p), 4, f, above);
      }
    }

    method AvgFirstRow(cur: nat, prior: nat, f: seq<byte>, ghost above: seq<byte>)
      requires Valid() && Split(cur, prior) && |f| == |above| == nk && above == Zeros(nk)
      modifies buf
      ensures Built(cur, 3, f, above, nk) && Line(prior) == old(Line(prior))
    {
      ReconStart(3, bpp, f, above);
      hide Recon, Next, Low8, Zeros, Predict, Left, Line;
      for k := 0 to bpp
        invariant Built(cur, 3, f, above, k) && Line(prior) == old(Line(prior))
      {
        Reads(cur, prior, k);
        NextAvgFirst(bpp, f, above, buf[cur..cur + k], k);
        Put(cur, prior, k, f[k], 3, f, above);
      }
      AvgFirstRest(cur, prior, f, above);
    }

    method AvgFirstRest(cur: nat, prior: nat, f: seq<byte>, ghost above: seq<byte>)
      requires Valid() && Split(cur, prior) && |f| == |above| == nk && above == Zeros(nk)
      requires Built(cur, 3, f, above, bpp)
      modifies buf
      ensures Built(cur, 3, f, above, nk) && Line(prior) == old(Line(prior))
    {
      hide Recon, Next, Low8, Zeros, Predict, Left, Line;
      for k := bpp to nk
        invariant Built(cur, 3, f, above, k) && Line(prior) == old(Line(prior))
      {
        Reads(cur, prior, k);
        NextAvgFirst(bpp, f, above, buf[cur..cur + k], k);
        Put(cur, prior, k, Low8(f[k] as int + buf[cur + k - bpp] as int / 2), 3, f, above);
      }
    }

    /** One scanline: the substitution for the first row, then the loops of its filter type. */
    method Row(cur: nat, prior: nat, first: bool, t: byte, f: seq<byte>, ghost above: seq<byte>)
      requires Valid() && Split(cur, prior) && |f| == |above| == nk && t <= 4
      requires if first then above == Zeros(nk) else Line(prior) == above
      modifies buf
      ensures Line(cur) == Recon(t, bpp, f, above, nk)
    {
      hide Recon, Zeros;
      var filter := if first then FirstRowFilter(t as nat) else t as nat;
      if filter == 0 {
        CopyRow(cur, prior, f, t, above);
      } else if filter == 1 {
        SubRow(cur, prior, f, t, above);
      } else if filter == 2 {
        UpRow(cur, prior, f, above);
      } else if filter == 3 {
        AvgRow(cur, prior, f, above);
      } else if filter == 4 {
        PaethRow(cur, prior, f, above);
      } else {
        AvgFirstRow(cur, prior, f, above);
      }
    }
  }
}
