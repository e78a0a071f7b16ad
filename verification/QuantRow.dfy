/** Normalising a row to 8 bits for the accelerator (barra_q8_row), over the reals with rounding to a nearest
    integer. */
module QuantRow {

  function Abs(v: real): real {
    if v < 0.0 then -v else v
  }

  /** The largest magnitude of the first n elements. */
  function MaxAbs(x: seq<real>, n: nat): (m: real)
    requires n <= |x|
    ensures m >= 0.0
  {
    if n == 0 then 0.0 else
      var m := MaxAbs(x, n - 1);
      if Abs(x[n - 1]) > m then Abs(x[n - 1]) else m
  }

  lemma {:induction false} MaxAbsBounds(x: seq<real>, n: nat, d: nat)
    requires d < n <= |x|
    ensures Abs(x[d]) <= MaxAbs(x, n)
  {
    if d < n - 1 { MaxAbsBounds(x, n - 1, d); }
  }

  /** lrintf: some nearest integer. */
  ghost predicate Nearest(rint: real -> int) {
    forall v: real :: Abs(rint(v) as real - v) <= 0.5
  }

  function Clamp(v: int): (c: int)
    ensures -128 <= c <= 127
  {
    if v > 127 then 127 else if v < -128 then -128 else v
  }

  /** The code of an integer is the 8-bit integer nearest to it. */
  lemma ClampNearest(v: int, w: int)
    requires -128 <= w <= 127
    ensures (if Clamp(v) < v then v - Clamp(v) else Clamp(v) - v) <= (if w < v then v - w else w - v)
  {
  }

  /** An element times the inverse of row scale and input scale. */
  function Norm(v: real, k: real): real {
    v * k
  }

  /** The value a code stands for: times input scale and row scale. */
  function Value(q: real, isc: real, s: real): real {
    q * isc * s
  }

  predicate Inverse(k: real, s: real, isc: real) {
    k * (s * isc) == 1.0
  }

  /** The row scale brings the largest magnitude to qmax; a row of zeros has scale 1. */
  predicate ScaleOf(s: real, mx: real, qmax: real) {
    s > 0.0 && (if mx > 0.0 then s * qmax == mx else s == 1.0)
  }

  /** What the row scale s, its inverse k (with the input scale) and the codes of a row are. */
  ghost predicate Quantised(x: seq<real>, qmax: real, isc: real, izp: int, rint: real -> int, s: real, k: real,
      z: seq<int>) {
    && ScaleOf(s, MaxAbs(x, |x|), qmax) && Inverse(k, s, isc) && |z| == |x|
    && forall d :: 0 <= d < |x| ==> z[d] == Clamp(rint(Norm(x[d], k)) + izp)
  }

  method RowMax(x: seq<real>) returns (mx: real)
    ensures mx == MaxAbs(x, |x|)
  {
    mx := 0.0;
    for d := 0 to |x|
      invariant mx == MaxAbs(x, d)
    {
      var a := Abs(x[d]);
      if a > mx { mx := a; }
    }
  }

  lemma Product(a: real, b: real)
    requires a > 0.0 && b > 0.0
    ensures a * b > 0.0
  {
  }

  lemma Ratio(a: real, b: real)
    requires a > 0.0 && b > 0.0
    ensures a / b > 0.0 && a / b * b == a
  {
  }

  method Scales(mx: real, qmax: real, isc: real) returns (s: real, k: real)
    requires mx >= 0.0 && qmax > 0.0 && isc > 0.0
    ensures ScaleOf(s, mx, qmax) && Inverse(k, s, isc)
  {
    if mx > 0.0 { Ratio(mx, qmax); }
    s := if mx > 0.0 then mx / qmax else 1.0;
    Product(s, isc);
    Ratio(1.0, s * isc);
    k := 1.0 / (s * isc);
  }

  /** barra_q8_row */
  method Q8Row(x: seq<real>, qmax: real, isc: real, izp: int, rint: real -> int)
      returns (s: real, ghost k: real, z: seq<int>)
    requires qmax > 0.0 && isc > 0.0
    ensures Quantised(x, qmax, isc, izp, rint, s, k, z)
  {
    hide MaxAbs, Clamp, Norm, ScaleOf, Inverse;
    var mx := RowMax(x);
    var f: real;
    s, f := Scales(mx, qmax, isc);
    z := [];
    for d := 0 to |x|
      invariant |z| == d && forall i :: 0 <= i < d ==> z[i] == Clamp(rint(Norm(x[i], f)) + izp)
    {
      z := z + [Clamp(rint(Norm(x[d], f)) + izp)];
    }
    k := f;
  }

  // ------------------------------------------------------------------ what the row is worth

  lemma Cancel(a: real, b: real, s: real)
    requires s > 0.0 && a * s <= b * s
    ensures a <= b
  {
    if a > b { Product(a - b, s); }
  }

  lemma Back(v: real, k: real, isc: real, s: real)
    requires Inverse(k, s, isc)
    ensures Value(Norm(v, k), isc, s) == v
  {
    assert v * k * isc * s == v * (k * (s * isc));
  }

  lemma Bounded(w: real, s: real, qmax: real, mx: real)
    requires ScaleOf(s, mx, qmax) && qmax > 0.0 && mx >= 0.0 && -mx <= w * s <= mx
    ensures -qmax <= w <= qmax
  {
    if mx > 0.0 {
      Cancel(w, qmax, s);
      assert -qmax * s == -(s * qmax);
      Cancel(-qmax, w, s);
    }
  }

  /** Times the input scale, a normalised element stays within qmax. */
  lemma Normalised(x: seq<real>, qmax: real, isc: real, izp: int, rint: real -> int, s: real, k: real, z: seq<int>,
      d: nat)
    requires Quantised(x, qmax, isc, izp, rint, s, k, z) && d < |x| && qmax > 0.0
    ensures -qmax <= Norm(x[d], k) * isc <= qmax
  {
    hide Norm, ScaleOf, Inverse, Clamp, MaxAbs;
    MaxAbsBounds(x, |x|, d);
    Back(x[d], k, isc, s);
    Bounded(Norm(x[d], k) * isc, s, qmax, MaxAbs(x, |x|));
  }

  lemma Within(u: real, isc: real, qmax: real, b: real)
    requires isc > 0.0 && b * isc == qmax && -qmax <= u * isc <= qmax
    ensures -b <= u <= b
  {
    Cancel(u, b, isc);
    assert -b * isc == -(b * isc);
    Cancel(-b, u, isc);
  }

  lemma NearBounds(rint: real -> int, u: real, b: real)
    requires Nearest(rint) && -b <= u <= b
    ensures -b - 0.5 <= rint(u) as real <= b + 0.5
  {
    assert Abs(rint(u) as real - u) <= 0.5;
  }

  /** No element saturates if qmax over the input scale leaves room for zero point and rounding. */
  lemma NoSaturation(x: seq<real>, qmax: real, isc: real, izp: int, rint: real -> int, s: real, k: real, z: seq<int>,
      d: nat, b: real)
    requires Quantised(x, qmax, isc, izp, rint, s, k, z) && Nearest(rint) && d < |x| && isc > 0.0 && qmax > 0.0
      && b * isc == qmax
    requires b + izp as real < 127.5 && b - izp as real < 128.5
    ensures z[d] == rint(Norm(x[d], k)) + izp
  {
    Normalised(x, qmax, isc, izp, rint, s, k, z, d);
    hide Norm, ScaleOf, Inverse, MaxAbs, Nearest;
    Within(Norm(x[d], k), isc, qmax, b);
    NearBounds(rint, Norm(x[d], k), b);
  }

  lemma HalfOf(u: real, q: real, isc: real, s: real)
    requires isc * s > 0.0 && Abs(q - u) <= 0.5
    ensures Abs(Value(q, isc, s) - Value(u, isc, s)) <= 0.5 * (isc * s)
  {
    var w, e := isc * s, q - u;
    assert q * isc * s - u * isc * s == e * w;
    WithinHalf(e, w);
  }

  lemma WithinHalf(e: real, w: real)
    requires w > 0.0 && Abs(e) <= 0.5
    ensures Abs(e * w) <= 0.5 * w
  {
    assert (0.5 - e) * w >= 0.0 && (0.5 + e) * w >= 0.0;
    assert (0.5 - e) * w == 0.5 * w - e * w && (0.5 + e) * w == 0.5 * w + e * w;
  }

  /** An element that did not saturate comes back within half a step. */
  lemma HalfStep(x: seq<real>, qmax: real, isc: real, izp: int, rint: real -> int, s: real, k: real, z: seq<int>,
      d: nat)
    requires Quantised(x, qmax, isc, izp, rint, s, k, z) && Nearest(rint) && d < |x| && isc > 0.0
    requires -128 < z[d] < 127
    ensures Abs(Value((z[d] - izp) as real, isc, s) - x[d]) <= 0.5 * (isc * s)
  {
    assert s > 0.0;
    hide Norm, ScaleOf, Inverse, MaxAbs, Value;
    var u := Norm(x[d], k);
    assert z[d] - izp == rint(u);
    assert Abs(rint(u) as real - u) <= 0.5;
    Back(x[d], k, isc, s);
    Product(isc, s);
    HalfOf(u, rint(u) as real, isc, s);
  }
}
