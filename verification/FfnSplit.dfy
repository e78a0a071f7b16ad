/** The tiled, multi-pass FFN path (barra_ffn_split): every row ends written from unclipped elements, or on the
    fallback list - and exactly which rows an accelerator failure loses. */
module FfnSplit {

  /** Element values are only moved and compared by position; no arithmetic is done on them here. */
  type Float = real

  /** What the accelerator returned in one call: which passes failed, and per pass each element's value and clip flag.
      Tiles start at row t; rows, passes (from 1), sub-tile bases and elements are counted inside the tile. */
  datatype Device = Device(
    guFails: (nat, nat) -> bool,                        // t, pass
    guClips: (nat, nat, nat, nat) -> bool,              // t, pass, row, element
    guValue: (nat, nat, nat, nat) -> Float,
    dnFails: (nat, nat, nat) -> bool,                   // t, base, pass
    dnClips: (nat, nat, nat, nat, nat) -> bool,         // t, base, pass, row, element
    dnValue: (nat, nat, nat, nat, nat) -> Float)

  datatype Shape = Shape(T: nat, B: nat, Bd: nat, FF: nat, D: nat, guPasses: nat, dnPasses: nat)
  {
    /** Pass limits are at least one: they are BARRA_MAX_PASS, or 1 where the divisor is not above 1. */
    predicate Valid() {
      B >= 1 && Bd >= 1 && FF >= 1 && D >= 1 && guPasses >= 1 && dnPasses >= 1
    }

    function Tile(t: nat): nat {
      if t >= T then 0 else if T - t < B then T - t else B
    }
  }

  // ------------------------------------------------------------------ gate/up

  /** The earliest of the first p passes in which the element did not clip, 0 if there is none. */
  function GuFirst(dev: Device, t: nat, r: nat, j: nat, p: nat): (q: nat)
    ensures q <= p && (q > 0 ==> !dev.guClips(t, q, r, j)) && forall k :: 1 <= k <= p && (q == 0 || k < q) ==>
        dev.guClips(t, k, r, j)
  {
    if p == 0 then 0 else
      var q := GuFirst(dev, t, r, j, p - 1);
      if q != 0 then q else if !dev.guClips(t, p, r, j) then p else 0
  }

  ghost predicate GuDone(dev: Device, sh: Shape, t: nat, r: nat, p: nat) {
    forall j :: 0 <= j < sh.FF ==> GuFirst(dev, t, r, j, p) != 0
  }

  /** How many of the first p passes come before the first one that fails. */
  function GuLimit(dev: Device, t: nat, p: nat): (l: nat)
    ensures l <= p && (l < p ==> dev.guFails(t, l + 1)) && forall k :: 1 <= k <= l ==> !dev.guFails(t, k)
  {
    if p == 0 then 0 else
      var l := GuLimit(dev, t, p - 1);
      if l < p - 1 || dev.guFails(t, p) then l else p
  }

  /** Passes that count for the tile. */
  function GuPasses(dev: Device, sh: Shape, t: nat): nat {
    GuLimit(dev, t, sh.guPasses)
  }

  /** A gate/up pass that was needed failed: the tile is given up. */
  ghost predicate TileFailed(dev: Device, sh: Shape, t: nat) {
    GuPasses(dev, sh, t) < sh.guPasses
    && exists r :: 0 <= r < sh.Tile(t) && !GuDone(dev, sh, t, r, GuPasses(dev, sh, t))
  }

  // ------------------------------------------------------------------ down

  function DnFirst(dev: Device, t: nat, base: nat, r: nat, d: nat, p: nat): (q: nat)
    ensures q <= p && (q > 0 ==> !dev.dnClips(t, base, q, r, d)) && forall k :: 1 <= k <= p && (q == 0 || k < q) ==>
        dev.dnClips(t, base, k, r, d)
  {
    if p == 0 then 0 else
      var q := DnFirst(dev, t, base, r, d, p - 1);
      if q != 0 then q else if !dev.dnClips(t, base, p, r, d) then p else 0
  }

  ghost predicate DnDone(dev: Device, sh: Shape, t: nat, base: nat, r: nat, p: nat) {
    forall d :: 0 <= d < sh.D ==> DnFirst(dev, t, base, r, d, p) != 0
  }

  function DnLimit(dev: Device, t: nat, base: nat, p: nat): (l: nat)
    ensures l <= p && (l < p ==> dev.dnFails(t, base, l + 1)) && forall k :: 1 <= k <= l ==> !dev.dnFails(t, base, k)
  {
    if p == 0 then 0 else
      var l := DnLimit(dev, t, base, p - 1);
      if l < p - 1 || dev.dnFails(t, base, p) then l else p
  }

  function DnPasses(dev: Device, sh: Shape, t: nat, base: nat): nat {
    DnLimit(dev, t, base, sh.dnPasses)
  }

  // ------------------------------------------------------------------ what becomes of a row

  /** Fate of row r of the tile at t. */
  datatype Fate = Written | Fallback | Lost

  function Base(sh: Shape, r: nat): nat
    requires sh.Valid()
  {
    r / sh.Bd * sh.Bd
  }

  ghost function RowFate(dev: Device, sh: Shape, t: nat, r: nat): Fate
    requires sh.Valid()
  {
    if !GuDone(dev, sh, t, r, GuPasses(dev, sh, t)) then Fallback
    else if TileFailed(dev, sh, t) then Lost
    else if DnDone(dev, sh, t, Base(sh, r), r, DnPasses(dev, sh, t, Base(sh, r))) then Written
    else Fallback
  }

  /** The value element d of a written row ends with: from the earliest down pass in which it did not clip. */
  function Result(dev: Device, sh: Shape, t: nat, r: nat, d: nat): Float
    requires sh.Valid()
  {
    var b := Base(sh, r);
    dev.dnValue(t, b, DnFirst(dev, t, b, r, d, DnPasses(dev, sh, t, b)), r, d)
  }

  /** More passes do not change an element that is resolved. */
  lemma {:induction false} GuStable(dev: Device, t: nat, r: nat, j: nat, p: nat, p': nat)
    requires p <= p' && GuFirst(dev, t, r, j, p) != 0
    ensures GuFirst(dev, t, r, j, p') == GuFirst(dev, t, r, j, p)
  {
    if p < p' { GuStable(dev, t, r, j, p, p' - 1); }
  }

  lemma GuDoneStays(dev: Device, sh: Shape, t: nat, r: nat, p: nat, p': nat)
    requires p <= p' && GuDone(dev, sh, t, r, p)
    ensures GuDone(dev, sh, t, r, p')
  {
    forall j | 0 <= j < sh.FF ensures GuFirst(dev, t, r, j, p') != 0 { GuStable(dev, t, r, j, p, p'); }
  }

  lemma NoPassYet(dev: Device, sh: Shape, t: nat, r: nat)
    requires sh.Valid()
    ensures !GuDone(dev, sh, t, r, 0)
  {
    assert GuFirst(dev, t, r, 0, 0) == 0;
  }

  lemma {:induction false} DnStable(dev: Device, t: nat, base: nat, r: nat, d: nat, p: nat, p': nat)
    requires p <= p' && DnFirst(dev, t, base, r, d, p) != 0
    ensures DnFirst(dev, t, base, r, d, p') == DnFirst(dev, t, base, r, d, p)
  {
    if p < p' { DnStable(dev, t, base, r, d, p, p' - 1); }
  }

  lemma DnDoneStays(dev: Device, sh: Shape, t: nat, base: nat, r: nat, p: nat, p': nat)
    requires p <= p' && DnDone(dev, sh, t, base, r, p)
    ensures DnDone(dev, sh, t, base, r, p')
  {
    forall d | 0 <= d < sh.D ensures DnFirst(dev, t, base, r, d, p') != 0 { DnStable(dev, t, base, r, d, p, p'); }
  }

  // ------------------------------------------------------------------ the code

  lemma NoDownYet(dev: Device, sh: Shape, t: nat, base: nat, r: nat)
    requires sh.Valid()
    ensures !DnDone(dev, sh, t, base, r, 0)
  {
    assert DnFirst(dev, t, base, r, 0, 0) == 0;
  }

  predicate NoDup(s: seq<nat>) {
    forall i, j :: 0 <= i < j < |s| ==> s[i] != s[j]
  }

  class Split {
    const dev: Device
    const sh: Shape
    const a: array2<Float>
    const clip: array<bool>
    const clip2: array<bool>
    const dst: array2<Float>
    /** Which row's activations lie in each of the Bd places of the down input buffer. */
    const sub: array<nat>
    var fb: seq<nat>

    predicate Valid() {
      && sh.Valid() && a.Length0 == sh.B && a.Length1 == sh.FF && clip.Length == sh.B && clip2.Length == sh.B
      && clip != clip2
      && dst.Length0 == sh.T && dst.Length1 == sh.D && a != dst && sub.Length == sh.Bd
    }

    constructor (device: Device, shape: Shape, work: array2<Float>, out: array2<Float>)
      requires shape.Valid() && work != out
      requires work.Length0 == shape.B && work.Length1 == shape.FF && out.Length0 == shape.T && out.Length1 == shape.D
      ensures Valid() && dev == device && sh == shape && a == work && dst == out && fb == [] && fresh(clip)
        && fresh(clip2) && fresh(sub)
    {
      dev, sh, a, dst, fb := device, shape, work, out, [];
      clip := new bool[shape.B];
      clip2 := new bool[shape.B];
      sub := new nat[shape.Bd];
    }

    /** After p gate/up passes: an element is still clipped, or holds the value of its earliest unclipped pass. */
    ghost predicate GuElement(clipe: array2<bool>, t: nat, r: nat, j: nat, p: nat)
      requires Valid() && r < sh.B && j < sh.FF && clipe.Length0 == sh.B && clipe.Length1 == sh.FF
      reads a, clipe
    {
      var q := GuFirst(dev, t, r, j, p);
      clipe[r, j] == (q == 0) && (q != 0 ==> a[r, j] == dev.guValue(t, q, r, j))
    }

    ghost predicate GuRowState(clipe: array2<bool>, t: nat, r: nat, p: nat)
      requires Valid() && r < sh.B && clipe.Length0 == sh.B && clipe.Length1 == sh.FF
      reads a, clipe
    {
      forall j :: 0 <= j < sh.FF ==> GuElement(clipe, t, r, j, p)
    }

    /** One element of a gate/up pass. */
    method GuOne(clipe: array2<bool>, t: nat, r: nat, j: nat, p: nat, ghost prev: nat) returns (cl: bool)
      requires Valid() && r < sh.B && j < sh.FF && clipe.Length0 == sh.B && clipe.Length1 == sh.FF && p == prev + 1
      requires GuElement(clipe, t, r, j, prev)
      modifies a, clipe
      ensures GuElement(clipe, t, r, j, p) && (cl <==> GuFirst(dev, t, r, j, p) == 0)
      ensures forall k, i :: 0 <= k < sh.B && 0 <= i < sh.FF && !(k == r && i == j) ==>
          a[k, i] == old(a[k, i]) && clipe[k, i] == old(clipe[k, i])
    {
      cl := false;
      if clipe[r, j] {
        cl := dev.guClips(t, p, r, j);
        a[r, j] := dev.guValue(t, p, r, j);
        clipe[r, j] := cl;
      }
    }

    /** One row of a gate/up pass: elements resolved earlier keep their value. */
    method GuRow(clipe: array2<bool>, t: nat, r: nat, p: nat, ghost prev: nat)
      requires Valid() && r < sh.B && clipe.Length0 == sh.B && clipe.Length1 == sh.FF && p == prev + 1
      requires GuRowState(clipe, t, r, prev)
      modifies a, clipe, clip
      ensures GuRowState(clipe, t, r, p)
      ensures clip[r] <==> !GuDone(dev, sh, t, r, p)
      ensures forall k :: 0 <= k < sh.B && k != r ==> clip[k] == old(clip[k])
      ensures forall k, j :: 0 <= k < sh.B && 0 <= j < sh.FF && k != r ==>
          a[k, j] == old(a[k, j]) && clipe[k, j] == old(clipe[k, j])
    {
      var c := false;
      for j := 0 to sh.FF
        invariant forall i :: 0 <= i < j ==> GuElement(clipe, t, r, i, p)
        invariant forall i :: j <= i < sh.FF ==> GuElement(clipe, t, r, i, prev)
        invariant c <==> exists i :: 0 <= i < j && GuFirst(dev, t, r, i, p) == 0
        invariant forall k, i :: 0 <= k < sh.B && 0 <= i < sh.FF && k != r ==>
            a[k, i] == old(a[k, i]) && clipe[k, i] == old(clipe[k, i])
        invariant forall k :: 0 <= k < sh.B ==> clip[k] == old(clip[k])
      {
        label before:
        var cl := GuOne(clipe, t, r, j, p, prev);
        forall i | 0 <= i < sh.FF && i != j
          ensures GuElement(clipe, t, r, i, p) <==> old@before(GuElement(clipe, t, r, i, p))
          ensures GuElement(clipe, t, r, i, prev) <==> old@before(GuElement(clipe, t, r, i, prev))
        {
          assert a[r, i] == old@before(a[r, i]) && clipe[r, i] == old@before(clipe[r, i]);
        }
        c := c || cl;
      }
      if c {
        ghost var i :| 0 <= i < sh.FF && GuFirst(dev, t, r, i, p) == 0;
        assert !GuDone(dev, sh, t, r, p);
      } else {
        assert GuDone(dev, sh, t, r, p);
      }
      clip[r] := c;
    }

    /** All rows of the tile after p gate/up passes. */
    ghost predicate GuState(clipe: array2<bool>, t: nat, n: nat, p: nat)
      requires Valid() && n <= sh.B && clipe.Length0 == sh.B && clipe.Length1 == sh.FF
      reads a, clipe, clip
    {
      && (forall r :: 0 <= r < n ==> GuRowState(clipe, t, r, p))
      && (p > 0 ==> forall r :: 0 <= r < n ==> (clip[r] <==> !GuDone(dev, sh, t, r, p)))
    }

    /** The rows of the tile with an element still clipped after p passes, each once. */
    ghost predicate GuOpen(rows: seq<nat>, t: nat, n: nat, p: nat) {
      NoDup(rows) && forall r: nat :: r in rows <==> r < n && !GuDone(dev, sh, t, r, p)
    }

    lemma GuKeep(clipe: array2<bool>, t: nat, r: nat, p: nat, prev: nat)
      requires Valid() && r < sh.B && clipe.Length0 == sh.B && clipe.Length1 == sh.FF && p == prev + 1
      requires GuRowState(clipe, t, r, prev) && GuDone(dev, sh, t, r, prev)
      ensures GuRowState(clipe, t, r, p) && GuDone(dev, sh, t, r, p)
    {
      GuDoneStays(dev, sh, t, r, prev, p);
      forall j | 0 <= j < sh.FF ensures GuElement(clipe, t, r, j, p) {
        assert GuElement(clipe, t, r, j, prev);
        GuStable(dev, t, r, j, prev, p);
      }
    }

    /** One row of a pass leaves the others as they were. */
    method GuRowAlone(clipe: array2<bool>, t: nat, r: nat, p: nat, ghost prev: nat)
      requires Valid() && r < sh.B && clipe.Length0 == sh.B && clipe.Length1 == sh.FF && p == prev + 1
      requires GuRowState(clipe, t, r, prev)
      modifies a, clipe, clip
      ensures GuRowState(clipe, t, r, p)
      ensures clip[r] <==> !GuDone(dev, sh, t, r, p)
      ensures forall k :: 0 <= k < sh.B && k != r ==> clip[k] == old(clip[k])
      ensures forall k: nat, q: nat :: k < sh.B && k != r ==>
          (GuRowState(clipe, t, k, q) <==> old(GuRowState(clipe, t, k, q)))
    {
      GuRow(clipe, t, r, p, prev);
      forall k: nat, q: nat | k < sh.B && k != r
        ensures GuRowState(clipe, t, k, q) <==> old(GuRowState(clipe, t, k, q)) {
        forall j | 0 <= j < sh.FF ensures GuElement(clipe, t, k, j, q) <==> old(GuElement(clipe, t, k, j, q)) {
          assert a[k, j] == old(a[k, j]) && clipe[k, j] == old(clipe[k, j]);
        }
      }
    }

    /** A gate/up pass over the rows that still clip. */
    method RunGu(clipe: array2<bool>, t: nat, n: nat, rows: seq<nat>, p: nat, ghost prev: nat) returns (failed: bool)
      requires Valid() && n <= sh.B && clipe.Length0 == sh.B && clipe.Length1 == sh.FF && p == prev + 1
      requires GuState(clipe, t, n, prev) && GuOpen(rows, t, n, prev)
      modifies a, clipe, clip
      ensures failed == dev.guFails(t, p)
      ensures GuState(clipe, t, n, if failed then prev else p)
    {
      if dev.guFails(t, p) { return true; }
      forall i | 0 <= i < |rows| ensures rows[i] < n && rows[i] in rows { assert rows[i] in rows; }
      hide GuRowState, GuDone;
      for k := 0 to |rows|
        invariant forall i :: 0 <= i < k ==>
            GuRowState(clipe, t, rows[i], p) && (clip[rows[i]] <==> !GuDone(dev, sh, t, rows[i], p))
        invariant forall r: nat :: r < n && r !in rows[..k] ==> GuRowState(clipe, t, r, prev) && clip[r] == old(clip[r])
      {
        RowsApart(rows, k);
        GuRowAlone(clipe, t, rows[k], p, prev);
      }
      forall r: nat | r < n ensures GuRowState(clipe, t, r, p) && (clip[r] <==> !GuDone(dev, sh, t, r, p)) {
        if r in rows {
          var i :| 0 <= i < |rows| && rows[i] == r;
        } else {
          assert rows[..|rows|] == rows;
          if prev == 0 { NoPassYet(dev, sh, t, r); }
          GuKeep(clipe, t, r, p, prev);
        }
      }
      return false;
    }

    lemma FirstRows(t: nat, n: nat, clipe: array2<bool>, rows: seq<nat>)
      requires Valid() && n <= sh.B && clipe.Length0 == sh.B && clipe.Length1 == sh.FF
      requires forall r, j :: 0 <= r < sh.B && 0 <= j < sh.FF ==> clipe[r, j]
      requires |rows| == n && forall i :: 0 <= i < n ==> rows[i] == i
      ensures GuState(clipe, t, n, 0) && GuOpen(rows, t, n, 0)
    {
      forall r: nat ensures !GuDone(dev, sh, t, r, 0) { NoPassYet(dev, sh, t, r); }
      forall r: nat | r < n ensures r in rows { assert rows[r] == r; }
      forall r: nat | r < n ensures GuRowState(clipe, t, r, 0) {
        forall j | 0 <= j < sh.FF ensures GuElement(clipe, t, r, j, 0) { assert GuFirst(dev, t, r, j, 0) == 0; }
      }
    }

    /** The rows whose clip flag is set go into the next pass. */
    method StillOpen(clipe: array2<bool>, t: nat, n: nat, rows: seq<nat>, p: nat, ghost prev: nat)
        returns (nxt: seq<nat>)
      requires Valid() && n <= sh.B && clipe.Length0 == sh.B && clipe.Length1 == sh.FF && p == prev + 1
      requires GuOpen(rows, t, n, prev) && GuState(clipe, t, n, p)
      ensures GuOpen(nxt, t, n, p)
    {
      forall i | 0 <= i < |rows| ensures rows[i] < n && rows[i] in rows { assert rows[i] in rows; }
      hide GuDone, GuRowState;
      nxt := [];
      for k := 0 to |rows|
        invariant NoDup(nxt) && forall r: nat :: r in nxt <==> r in rows[..k] && clip[r]
      {
        RowsApart(rows, k);
        if clip[rows[k]] { nxt := nxt + [rows[k]]; }
      }
      assert rows[..|rows|] == rows;
      forall r: nat ensures r in nxt <==> r < n && !GuDone(dev, sh, t, r, p) {
        if r < n && GuDone(dev, sh, t, r, prev) { GuDoneStays(dev, sh, t, r, prev, p); }
      }
    }

    lemma FailedHere(t: nat, n: nat, rows: seq<nat>, pass: nat)
      requires Valid() && n == sh.Tile(t) && pass < sh.guPasses && GuOpen(rows, t, n, pass) && rows != []
      requires GuLimit(dev, t, pass) == pass && dev.guFails(t, pass + 1)
      ensures TileFailed(dev, sh, t) && GuPasses(dev, sh, t) == pass && NoDup(rows)
    {
      LimitFixed(dev, t, pass, sh.guPasses);
      assert rows[0] in rows;
    }

    lemma PassesDone(t: nat, n: nat, rows: seq<nat>, pass: nat, clipe: array2<bool>)
      requires Valid() && n == sh.Tile(t) && n <= sh.B && clipe.Length0 == sh.B && clipe.Length1 == sh.FF
        && 1 <= pass <= sh.guPasses
      requires (pass == sh.guPasses || rows == []) && GuOpen(rows, t, n, pass) && GuLimit(dev, t, pass) == pass
        && GuState(clipe, t, n, pass)
      ensures !TileFailed(dev, sh, t)
      ensures forall r :: 0 <= r < n ==> (clip[r] <==> !GuDone(dev, sh, t, r, GuPasses(dev, sh, t)))
      ensures forall r, j :: 0 <= r < n && 0 <= j < sh.FF && !clip[r] ==>
                a[r, j] == dev.guValue(t, GuFirst(dev, t, r, j, GuPasses(dev, sh, t)), r, j)
    {
      var l := GuPasses(dev, sh, t);
      LimitGrows(dev, t, pass, sh.guPasses);
      forall r: nat | r < n ensures GuDone(dev, sh, t, r, l) <==> GuDone(dev, sh, t, r, pass) {
        if GuDone(dev, sh, t, r, pass) { GuDoneStays(dev, sh, t, r, pass, l); } else { assert r in rows; }
      }
      forall r, j | 0 <= r < n && 0 <= j < sh.FF && !clip[r]
        ensures a[r, j] == dev.guValue(t, GuFirst(dev, t, r, j, l), r, j)
      {
        assert GuRowState(clipe, t, r, pass) && GuElement(clipe, t, r, j, pass) && GuDone(dev, sh, t, r, pass);
        GuStable(dev, t, r, j, pass, l);
      }
    }

    /** The gate/up passes of one tile. On success every row's clip flag says whether it is still unresolved; on
        failure the unresolved rows are on the fallback list. */
    method GatePasses(clipe: array2<bool>, t: nat, n: nat) returns (failed: bool)
      requires Valid() && n == sh.Tile(t) && t < sh.T && clipe.Length0 == sh.B && clipe.Length1 == sh.FF
      requires forall r, j :: 0 <= r < sh.B && 0 <= j < sh.FF ==> clipe[r, j]
      requires NoDup(fb) && forall g <- fb :: g < t
      modifies this`fb, a, clipe, clip
      ensures failed == TileFailed(dev, sh, t)
      ensures !failed ==> fb == old(fb) && forall r :: 0 <= r < n ==>
          (clip[r] <==> !GuDone(dev, sh, t, r, GuPasses(dev, sh, t)))
      ensures !failed ==> forall r, j :: 0 <= r < n && 0 <= j < sh.FF && !clip[r] ==>
                a[r, j] == dev.guValue(t, GuFirst(dev, t, r, j, GuPasses(dev, sh, t)), r, j)
      ensures failed ==> exists rows :: GuOpen(rows, t, n, GuPasses(dev, sh, t)) && Listed(old(fb), fb, t, rows)
    {
      hide GuState, GuOpen, TileFailed, GuDone, NoDup, Listed;
      var rows: seq<nat> := seq(n, i requires 0 <= i < n => i);
      FirstRows(t, n, clipe, rows);
      var pass := 0;
      while pass < sh.guPasses && rows != []
        invariant 0 <= pass <= sh.guPasses && fb == old(fb) && (pass == 0 ==> rows != [])
        invariant GuState(clipe, t, n, pass) && GuOpen(rows, t, n, pass) && GuLimit(dev, t, pass) == pass
      {
        var bad := RunGu(clipe, t, n, rows, pass + 1, pass);
        if bad {
          FailedHere(t, n, rows, pass);
          PushAll(t, rows);
          return true;
        }
        rows := StillOpen(clipe, t, n, rows, pass + 1, pass);
        pass := pass + 1;
      }
      PassesDone(t, n, rows, pass, clipe);
      return false;
    }

    // ---------------------------------------------------------------- down

    /** After p down passes: an element is still clipped, or holds the value of its earliest unclipped pass. */
    ghost predicate DnElement(clipd: array2<bool>, t: nat, base: nat, r: nat, d: nat, p: nat)
      requires Valid() && r < sh.B && t + r < sh.T && d < sh.D && clipd.Length0 == sh.B && clipd.Length1 == sh.D
      reads dst, clipd
    {
      var q := DnFirst(dev, t, base, r, d, p);
      clipd[r, d] == (q == 0) && (q != 0 ==> dst[t + r, d] == dev.dnValue(t, base, q, r, d))
    }

    ghost predicate DnRowState(clipd: array2<bool>, t: nat, base: nat, r: nat, p: nat)
      requires Valid() && r < sh.B && t + r < sh.T && clipd.Length0 == sh.B && clipd.Length1 == sh.D
      reads dst, clipd
    {
      forall d :: 0 <= d < sh.D ==> DnElement(clipd, t, base, r, d, p)
    }

    method DnOne(clipd: array2<bool>, t: nat, base: nat, r: nat, d: nat, p: nat, ghost prev: nat) returns (cl: bool)
      requires Valid() && r < sh.B && t + r < sh.T && d < sh.D && clipd.Length0 == sh.B && clipd.Length1 == sh.D
        && p == prev + 1
      requires base <= r < base + sh.Bd && sub[r - base] == r && DnElement(clipd, t, base, r, d, prev)
      modifies dst, clipd
      ensures DnElement(clipd, t, base, r, d, p) && (cl <==> DnFirst(dev, t, base, r, d, p) == 0)
      ensures forall k, i :: 0 <= k < sh.B && 0 <= i < sh.D && !(k == r && i == d) ==> clipd[k, i] == old(clipd[k, i])
      ensures forall k, i :: 0 <= k < sh.T && 0 <= i < sh.D && !(k == t + r && i == d) ==> dst[k, i] == old(dst[k, i])
    {
      cl := false;
      if clipd[r, d] {
        var row := sub[r - base];
        cl := dev.dnClips(t, base, p, row, d);
        dst[t + r, d] := dev.dnValue(t, base, p, row, d);
        clipd[r, d] := cl;
      }
    }

    /** One row of a down pass. */
    method DnRow(clipd: array2<bool>, t: nat, base: nat, r: nat, p: nat, ghost prev: nat)
      requires Valid() && r < sh.B && t + r < sh.T && clipd.Length0 == sh.B && clipd.Length1 == sh.D && p == prev + 1
      requires base <= r < base + sh.Bd && sub[r - base] == r && DnRowState(clipd, t, base, r, prev)
      modifies dst, clipd, clip2
      ensures DnRowState(clipd, t, base, r, p)
      ensures clip2[r] <==> !DnDone(dev, sh, t, base, r, p)
      ensures forall k :: 0 <= k < sh.B && k != r ==> clip2[k] == old(clip2[k])
      ensures forall k, i :: 0 <= k < sh.B && 0 <= i < sh.D && k != r ==> clipd[k, i] == old(clipd[k, i])
      ensures forall k, i :: 0 <= k < sh.T && 0 <= i < sh.D && k != t + r ==> dst[k, i] == old(dst[k, i])
    {
      var c := false;
      for d := 0 to sh.D
        invariant forall i :: 0 <= i < d ==> DnElement(clipd, t, base, r, i, p)
        invariant forall i :: d <= i < sh.D ==> DnElement(clipd, t, base, r, i, prev)
        invariant c <==> exists i :: 0 <= i < d && DnFirst(dev, t, base, r, i, p) == 0
        invariant forall k, i :: 0 <= k < sh.B && 0 <= i < sh.D && k != r ==> clipd[k, i] == old(clipd[k, i])
        invariant forall k, i :: 0 <= k < sh.T && 0 <= i < sh.D && k != t + r ==> dst[k, i] == old(dst[k, i])
        invariant forall k :: 0 <= k < sh.B ==> clip2[k] == old(clip2[k])
      {
        label before:
        var cl := DnOne(clipd, t, base, r, d, p, prev);
        forall i | 0 <= i < sh.D && i != d
          ensures DnElement(clipd, t, base, r, i, p) <==> old@before(DnElement(clipd, t, base, r, i, p))
          ensures DnElement(clipd, t, base, r, i, prev) <==> old@before(DnElement(clipd, t, base, r, i, prev))
        {
          assert dst[t + r, i] == old@before(dst[t + r, i]) && clipd[r, i] == old@before(clipd[r, i]);
        }
        c := c || cl;
      }
      if c {
        ghost var i :| 0 <= i < sh.D && DnFirst(dev, t, base, r, i, p) == 0;
        assert !DnDone(dev, sh, t, base, r, p);
      } else {
        assert DnDone(dev, sh, t, base, r, p);
      }
      clip2[r] := c;
    }

    /** One row of a pass leaves the others as they were. */
    method DnRowAlone(clipd: array2<bool>, t: nat, base: nat, r: nat, p: nat, ghost prev: nat)
      requires Valid() && r < sh.B && t + r < sh.T && clipd.Length0 == sh.B && clipd.Length1 == sh.D && p == prev + 1
      requires base <= r < base + sh.Bd && sub[r - base] == r && DnRowState(clipd, t, base, r, prev)
      modifies dst, clipd, clip2
      ensures DnRowState(clipd, t, base, r, p)
      ensures clip2[r] <==> !DnDone(dev, sh, t, base, r, p)
      ensures forall k :: 0 <= k < sh.B && k != r ==> clip2[k] == old(clip2[k])
      ensures forall k: nat, q: nat :: k < sh.B && t + k < sh.T && k != r ==>
                (DnRowState(clipd, t, base, k, q) <==> old(DnRowState(clipd, t, base, k, q)))
      ensures forall k, i :: 0 <= k < sh.B && 0 <= i < sh.D && k != r ==> clipd[k, i] == old(clipd[k, i])
      ensures forall k, i :: 0 <= k < sh.T && 0 <= i < sh.D && k != t + r ==> dst[k, i] == old(dst[k, i])
    {
      DnRow(clipd, t, base, r, p, prev);
      forall k: nat, q: nat | k < sh.B && t + k < sh.T && k != r
        ensures DnRowState(clipd, t, base, k, q) <==> old(DnRowState(clipd, t, base, k, q))
      {
        forall i | 0 <= i < sh.D
          ensures DnElement(clipd, t, base, k, i, q) <==> old(DnElement(clipd, t, base, k, i, q)) {
          assert dst[t + k, i] == old(dst[t + k, i]) && clipd[k, i] == old(clipd[k, i]);
        }
      }
    }

    /** The rows that go into the down step and lie in the sub-tile at base. */
    ghost predicate InSub(t: nat, base: nat, r: nat) {
      r < sh.Tile(t) && GuDone(dev, sh, t, r, GuPasses(dev, sh, t)) && base <= r < base + sh.Bd
    }

    ghost predicate DnState(clipd: array2<bool>, t: nat, base: nat, p: nat)
      requires Valid() && clipd.Length0 == sh.B && clipd.Length1 == sh.D
      reads dst, clipd, clip2
    {
      && (forall r: nat :: InSub(t, base, r) ==> DnRowState(clipd, t, base, r, p))
      && (p > 0 ==> forall r: nat :: InSub(t, base, r) ==> (clip2[r] <==> !DnDone(dev, sh, t, base, r, p)))
    }

    ghost predicate DnOpen(rows: seq<nat>, t: nat, base: nat, p: nat) {
      NoDup(rows) && forall r: nat :: r in rows <==> InSub(t, base, r) && !DnDone(dev, sh, t, base, r, p)
    }

    /** Row g of the whole matrix is one of those rows. */
    ghost predicate Touched(t: nat, base: nat, g: nat) {
      t <= g && InSub(t, base, g - t)
    }

    lemma DnKeep(clipd: array2<bool>, t: nat, base: nat, r: nat, p: nat, prev: nat)
      requires Valid() && r < sh.B && t + r < sh.T && clipd.Length0 == sh.B && clipd.Length1 == sh.D && p == prev + 1
      requires DnRowState(clipd, t, base, r, prev) && DnDone(dev, sh, t, base, r, prev)
      ensures DnRowState(clipd, t, base, r, p) && DnDone(dev, sh, t, base, r, p)
    {
      DnDoneStays(dev, sh, t, base, r, prev, p);
      forall d | 0 <= d < sh.D ensures DnElement(clipd, t, base, r, d, p) {
        assert DnElement(clipd, t, base, r, d, prev);
        DnStable(dev, t, base, r, d, prev, p);
      }
    }

    /** Quantises the rows into the down buffer: every place used lies inside it, and no two rows share one. */
    method FillSub(t: nat, base: nat, rows: seq<nat>)
      requires Valid() && NoDup(rows) && forall i :: 0 <= i < |rows| ==> base <= rows[i] < base + sh.Bd
      modifies sub
      ensures forall i :: 0 <= i < |rows| ==> sub[rows[i] - base] == rows[i]
    {
      for k := 0 to |rows|
        invariant forall i :: 0 <= i < k ==> sub[rows[i] - base] == rows[i]
      {
        sub[rows[k] - base] := rows[k];
      }
    }

    /** Row g of the whole matrix is one of the given rows of the tile at t. */
    ghost predicate Among(rows: seq<nat>, t: nat, g: nat) {
      t <= g && g - t in rows
    }

    lemma RowsAmong(rows: seq<nat>, t: nat)
      ensures forall g: nat, i :: 0 <= i < |rows| && g == t + rows[i] ==> Among(rows, t, g)
    {
    }

    /** Takes the results of the given rows. */
    method DnRows(clipd: array2<bool>, t: nat, base: nat, rows: seq<nat>, p: nat, ghost prev: nat)
      requires Valid() && clipd.Length0 == sh.B && clipd.Length1 == sh.D && p == prev + 1 && NoDup(rows)
      requires forall i :: 0 <= i < |rows| ==>
                 rows[i] < sh.B && t + rows[i] < sh.T && base <= rows[i] < base + sh.Bd
      requires forall i :: 0 <= i < |rows| ==> sub[rows[i] - base] == rows[i]
      requires forall i :: 0 <= i < |rows| ==> DnRowState(clipd, t, base, rows[i], prev)
      modifies dst, clipd, clip2
      ensures forall i :: 0 <= i < |rows| ==>
          DnRowState(clipd, t, base, rows[i], p) && (clip2[rows[i]] <==> !DnDone(dev, sh, t, base, rows[i], p))
      ensures forall r: nat :: r < sh.B && t + r < sh.T && r !in rows ==> clip2[r] == old(clip2[r])
      ensures forall r: nat, q: nat :: r < sh.B && t + r < sh.T && r !in rows ==>
                (DnRowState(clipd, t, base, r, q) <==> old(DnRowState(clipd, t, base, r, q)))
      ensures forall k: nat, i :: k < sh.B && 0 <= i < sh.D && k !in rows ==> clipd[k, i] == old(clipd[k, i])
      ensures forall g: nat, i :: g < sh.T && 0 <= i < sh.D && !Among(rows, t, g) ==> dst[g, i] == old(dst[g, i])
    {
      hide DnRowState, DnDone, Among;
      RowsAmong(rows, t);
      for k := 0 to |rows|
        invariant forall i :: 0 <= i < k ==>
            DnRowState(clipd, t, base, rows[i], p) && (clip2[rows[i]] <==> !DnDone(dev, sh, t, base, rows[i], p))
        invariant forall r: nat :: r < sh.B && t + r < sh.T && r !in rows[..k] ==> clip2[r] == old(clip2[r])
        invariant forall r: nat, q: nat :: r < sh.B && t + r < sh.T && r !in rows[..k] ==>
                    (DnRowState(clipd, t, base, r, q) <==> old(DnRowState(clipd, t, base, r, q)))
        invariant forall k: nat, i :: k < sh.B && 0 <= i < sh.D && k !in rows ==> clipd[k, i] == old(clipd[k, i])
        invariant forall g: nat, i :: g < sh.T && 0 <= i < sh.D && !Among(rows, t, g) ==> dst[g, i] == old(dst[g, i])
      {
        RowsApart(rows, k);
        DnRowAlone(clipd, t, base, rows[k], p, prev);
      }
      assert rows[..|rows|] == rows;
    }

    /** A down pass over the rows of a sub-tile that still clip. */
    method RunDn(clipd: array2<bool>, t: nat, base: nat, rows: seq<nat>, p: nat, ghost prev: nat) returns (failed: bool)
      requires Valid() && clipd.Length0 == sh.B && clipd.Length1 == sh.D && p == prev + 1 && t < sh.T
      requires DnState(clipd, t, base, prev) && DnOpen(rows, t, base, prev)
      modifies dst, clipd, clip2, sub
      ensures failed == dev.dnFails(t, base, p)
      ensures DnState(clipd, t, base, if failed then prev else p)
      ensures forall k: nat, i :: k < sh.B && 0 <= i < sh.D && !InSub(t, base, k) ==> clipd[k, i] == old(clipd[k, i])
      ensures forall g: nat, i :: g < sh.T && 0 <= i < sh.D && !Touched(t, base, g) ==> dst[g, i] == old(dst[g, i])
    {
      forall i | 0 <= i < |rows| ensures InSub(t, base, rows[i]) && rows[i] in rows { assert rows[i] in rows; }
      FillSub(t, base, rows);
      if dev.dnFails(t, base, p) { return true; }
      hide DnRowState, DnDone, GuDone;
      DnRows(clipd, t, base, rows, p, prev);
      forall r: nat | InSub(t, base, r)
        ensures DnRowState(clipd, t, base, r, p) && (clip2[r] <==> !DnDone(dev, sh, t, base, r, p))
      {
        if r in rows {
          var i :| 0 <= i < |rows| && rows[i] == r;
        } else {
          if prev == 0 { NoDownYet(dev, sh, t, base, r); }
          DnKeep(clipd, t, base, r, p, prev);
        }
      }
      return false;
    }

    /** The rows whose clip flag is set go into the next pass. */
    method StillOpenDn(clipd: array2<bool>, t: nat, base: nat, rows: seq<nat>, p: nat, ghost prev: nat)
        returns (nxt: seq<nat>)
      requires Valid() && clipd.Length0 == sh.B && clipd.Length1 == sh.D && p == prev + 1
      requires DnOpen(rows, t, base, prev) && DnState(clipd, t, base, p)
      ensures DnOpen(nxt, t, base, p)
    {
      forall i | 0 <= i < |rows| ensures InSub(t, base, rows[i]) && rows[i] in rows { assert rows[i] in rows; }
      hide DnDone, DnRowState, GuDone;
      nxt := [];
      for k := 0 to |rows|
        invariant NoDup(nxt) && forall r: nat :: r in nxt <==> r in rows[..k] && clip2[r]
      {
        RowsApart(rows, k);
        if clip2[rows[k]] { nxt := nxt + [rows[k]]; }
      }
      assert rows[..|rows|] == rows;
      forall r: nat ensures r in nxt <==> InSub(t, base, r) && !DnDone(dev, sh, t, base, r, p) {
        if InSub(t, base, r) && DnDone(dev, sh, t, base, r, prev) { DnDoneStays(dev, sh, t, base, r, prev, p); }
      }
    }

    /** The fallback list after `more` rows of the tile have been added to `before`. */
    ghost predicate Listed(before: seq<nat>, now: seq<nat>, t: nat, rows: seq<nat>) {
      NoDup(now) && forall g: nat :: g in now <==> g in before || Among(rows, t, g)
    }

    method PushAll(t: nat, rows: seq<nat>)
      requires NoDup(fb) && NoDup(rows) && forall i :: 0 <= i < |rows| ==> t + rows[i] !in fb
      modifies this`fb
      ensures Listed(old(fb), fb, t, rows)
    {
      ghost var before := fb;
      for k := 0 to |rows|
        invariant NoDup(fb) && forall g: nat :: g in fb <==> g in before || Among(rows[..k], t, g)
      {
        RowsApart(rows, k);
        fb := fb + [t + rows[k]];
      }
      assert rows[..|rows|] == rows;
    }

    lemma DownDone(clipd: array2<bool>, t: nat, base: nat, rows: seq<nat>, pass: nat)
      requires Valid() && clipd.Length0 == sh.B && clipd.Length1 == sh.D && pass <= sh.dnPasses && t < sh.T
      requires DnState(clipd, t, base, pass) && DnOpen(rows, t, base, pass) && DnLimit(dev, t, base, pass) == pass
      requires pass == sh.dnPasses || rows == [] || dev.dnFails(t, base, pass + 1)
      ensures DnOpen(rows, t, base, DnPasses(dev, sh, t, base))
      ensures forall r: nat, d ::
                InSub(t, base, r) && 0 <= d < sh.D && DnDone(dev, sh, t, base, r, DnPasses(dev, sh, t, base)) ==>
                dst[t + r, d] == dev.dnValue(t, base, DnFirst(dev, t, base, r, d, DnPasses(dev, sh, t, base)), r, d)
    {
      var l := DnPasses(dev, sh, t, base);
      if pass < sh.dnPasses && dev.dnFails(t, base, pass + 1) {
        DnLimitFixed(dev, t, base, pass, sh.dnPasses);
      } else {
        DnLimitGrows(dev, t, base, pass, sh.dnPasses);
      }
      forall r: nat | InSub(t, base, r) ensures DnDone(dev, sh, t, base, r, l) <==> DnDone(dev, sh, t, base, r, pass) {
        if DnDone(dev, sh, t, base, r, pass) {
          DnDoneStays(dev, sh, t, base, r, pass, l);
        } else {
          assert r in rows;
        }
      }
      forall r: nat, d | InSub(t, base, r) && 0 <= d < sh.D && DnDone(dev, sh, t, base, r, l)
        ensures dst[t + r, d] == dev.dnValue(t, base, DnFirst(dev, t, base, r, d, l), r, d)
      {
        assert DnRowState(clipd, t, base, r, pass) && DnElement(clipd, t, base, r, d, pass)
          && DnDone(dev, sh, t, base, r, pass);
        DnStable(dev, t, base, r, d, pass, l);
      }
    }

    /** The down passes of one sub-tile: on failure or at the limit, the rows still clipped go on the fallback list. */
    method DownPasses(clipd: array2<bool>, t: nat, base: nat, first: seq<nat>)
      requires Valid() && clipd.Length0 == sh.B && clipd.Length1 == sh.D && t < sh.T
      requires DnState(clipd, t, base, 0) && DnOpen(first, t, base, 0)
      requires NoDup(fb) && forall g <- fb :: !Touched(t, base, g)
      modifies this`fb, dst, clipd, clip2, sub
      ensures exists rows :: DnOpen(rows, t, base, DnPasses(dev, sh, t, base)) && Listed(old(fb), fb, t, rows)
      ensures forall r: nat, d ::
                InSub(t, base, r) && 0 <= d < sh.D && DnDone(dev, sh, t, base, r, DnPasses(dev, sh, t, base)) ==>
                dst[t + r, d] == dev.dnValue(t, base, DnFirst(dev, t, base, r, d, DnPasses(dev, sh, t, base)), r, d)
      ensures forall k: nat, i :: k < sh.B && 0 <= i < sh.D && !InSub(t, base, k) ==> clipd[k, i] == old(clipd[k, i])
      ensures forall g: nat, i :: g < sh.T && 0 <= i < sh.D && !Touched(t, base, g) ==> dst[g, i] == old(dst[g, i])
    {
      var rows, pass, sfailed := first, 0, false;
      hide DnState, DnOpen, InSub, Touched, Listed, NoDup, DnDone;
      while pass < sh.dnPasses && rows != [] && !sfailed
        invariant 0 <= pass <= sh.dnPasses && fb == old(fb) && (sfailed ==> dev.dnFails(t, base, pass + 1))
        invariant DnState(clipd, t, base, pass) && DnOpen(rows, t, base, pass) && DnLimit(dev, t, base, pass) == pass
        invariant forall k: nat, i :: k < sh.B && 0 <= i < sh.D && !InSub(t, base, k) ==>
            clipd[k, i] == old(clipd[k, i])
        invariant forall g: nat, i :: g < sh.T && 0 <= i < sh.D && !Touched(t, base, g) ==> dst[g, i] == old(dst[g, i])
        decreases sh.dnPasses - pass, !sfailed
      {
        sfailed := RunDn(clipd, t, base, rows, pass + 1, pass);
        if !sfailed {
          rows := StillOpenDn(clipd, t, base, rows, pass + 1, pass);
          pass := pass + 1;
        }
      }
      DownDone(clipd, t, base, rows, pass);
      NotListed(rows, t, base, pass);
      PushAll(t, rows);
    }

    lemma NotListed(rows: seq<nat>, t: nat, base: nat, pass: nat)
      requires DnOpen(rows, t, base, pass) && forall g <- fb :: !Touched(t, base, g)
      ensures NoDup(rows) && forall i :: 0 <= i < |rows| ==> t + rows[i] !in fb
    {
      forall i | 0 <= i < |rows| ensures t + rows[i] !in fb {
        assert rows[i] in rows;
        assert Touched(t, base, t + rows[i]);
      }
    }

    // ---------------------------------------------------------------- a tile

    /** The rows of the tile that go into the down step. */
    ghost predicate OkRows(rows: seq<nat>, t: nat) {
      NoDup(rows) && forall r: nat :: r in rows <==> r < sh.Tile(t) && GuDone(dev, sh, t, r, GuPasses(dev, sh, t))
    }

    /** Row r of the tile has been through its sub-tile, and clips there to the end. */
    ghost predicate FellDown(t: nat, r: nat, upTo: nat)
      requires sh.Valid()
    {
      r < upTo && r < sh.Tile(t) && GuDone(dev, sh, t, r, GuPasses(dev, sh, t))
      && !DnDone(dev, sh, t, Base(sh, r), r, DnPasses(dev, sh, t, Base(sh, r)))
    }

    /** Row r of the tile has been through its sub-tile, and every element came out unclipped. */
    ghost predicate CameThrough(t: nat, r: nat, upTo: nat)
      requires sh.Valid()
    {
      r < upTo && r < sh.Tile(t) && GuDone(dev, sh, t, r, GuPasses(dev, sh, t))
      && DnDone(dev, sh, t, Base(sh, r), r, DnPasses(dev, sh, t, Base(sh, r)))
    }

    method SubRows(okrows: seq<nat>, t: nat, base: nat) returns (rows: seq<nat>)
      requires Valid() && OkRows(okrows, t)
      ensures DnOpen(rows, t, base, 0)
    {
      rows := [];
      hide GuDone, DnDone;
      for k := 0 to |okrows|
        invariant NoDup(rows) && forall r: nat :: r in rows <==> r in okrows[..k] && base <= r < base + sh.Bd
      {
        RowsApart(okrows, k);
        if base <= okrows[k] < base + sh.Bd { rows := rows + [okrows[k]]; }
      }
      assert okrows[..|okrows|] == okrows;
      forall r: nat ensures !DnDone(dev, sh, t, base, r, 0) { NoDownYet(dev, sh, t, base, r); }
    }

    lemma SubStart(clipd: array2<bool>, t: nat, base: nat)
      requires Valid() && clipd.Length0 == sh.B && clipd.Length1 == sh.D && t < sh.T
      requires forall r, d :: base <= r < sh.B && 0 <= d < sh.D ==> clipd[r, d]
      ensures DnState(clipd, t, base, 0)
    {
      forall r: nat | InSub(t, base, r) ensures DnRowState(clipd, t, base, r, 0) {
        forall d | 0 <= d < sh.D
          ensures DnElement(clipd, t, base, r, d, 0) { assert DnFirst(dev, t, base, r, d, 0) == 0; }
      }
    }

    /** How far the down step of a tile has come: sub-tiles below `base` are finished. */
    ghost predicate DownTo(t: nat, base: nat, before: seq<nat>)
      requires Valid() && t < sh.T
      reads this`fb, dst
    {
      && NoDup(fb) && (forall g: nat :: g in fb <==> g in before || (t <= g && FellDown(t, g - t, base)))
      && forall r: nat, d :: CameThrough(t, r, base) && 0 <= d < sh.D ==> dst[t + r, d] == Result(dev, sh, t, r, d)
    }

    /** One sub-tile of the down step. */
    method DownSub(clipd: array2<bool>, t: nat, base: nat, okrows: seq<nat>, ghost before: seq<nat>)
      requires Valid() && clipd.Length0 == sh.B && clipd.Length1 == sh.D && t < sh.T && base % sh.Bd == 0
        && OkRows(okrows, t)
      requires DownTo(t, base, before)
        && (forall g <- before :: g < t || (g < t + sh.Tile(t) && !GuDone(dev, sh, t, g - t, GuPasses(dev, sh, t))))
      requires forall r, d :: base <= r < sh.B && 0 <= d < sh.D ==> clipd[r, d]
      modifies this`fb, dst, clipd, clip2, sub
      ensures DownTo(t, base + sh.Bd, before)
      ensures forall r, d :: base + sh.Bd <= r < sh.B && 0 <= d < sh.D ==> clipd[r, d]
      ensures forall g: nat, i :: g < sh.T && 0 <= i < sh.D && !Touched(t, base, g) ==> dst[g, i] == old(dst[g, i])
    {
      var rows := SubRows(okrows, t, base);
      SubStart(clipd, t, base);
      NotYetListed(t, base, before);
      ghost var listed := fb;
      DownPasses(clipd, t, base, rows);
      hide GuDone, DnDone;
      ghost var open :| DnOpen(open, t, base, DnPasses(dev, sh, t, base)) && Listed(listed, fb, t, open);
      forall r: nat | base <= r < base + sh.Bd ensures Base(sh, r) == base { BaseOf(sh, base, r); }
    }

    lemma NotYetListed(t: nat, base: nat, before: seq<nat>)
      requires Valid() && t < sh.T && DownTo(t, base, before)
      requires forall g <- before :: g < t || (g < t + sh.Tile(t) && !GuDone(dev, sh, t, g - t, GuPasses(dev, sh, t)))
      ensures NoDup(fb) && forall g <- fb :: !Touched(t, base, g)
    {
      hide GuDone, DnDone;
      forall g | g in fb ensures !Touched(t, base, g) {
        assert g in fb;
      }
    }

    /** The down step of a tile, in sub-tiles of Bd rows. */
    method Down(clipd: array2<bool>, t: nat, n: nat, okrows: seq<nat>, ghost before: seq<nat>)
      requires Valid() && clipd.Length0 == sh.B && clipd.Length1 == sh.D && t < sh.T && n == sh.Tile(t)
        && OkRows(okrows, t)
      requires NoDup(fb) && fb == before
        && (forall g <- before :: g < t || (g < t + n && !GuDone(dev, sh, t, g - t, GuPasses(dev, sh, t))))
      requires forall r, d :: 0 <= r < sh.B && 0 <= d < sh.D ==> clipd[r, d]
      modifies this`fb, dst, clipd, clip2, sub
      ensures DownTo(t, n, before)
      ensures forall g: nat, i :: g < sh.T && 0 <= i < sh.D && !(t <= g < t + n) ==> dst[g, i] == old(dst[g, i])
    {
      hide GuDone, DnDone;
      var base := 0;
      assert DownTo(t, 0, before);
      while base < n
        invariant base % sh.Bd == 0 && DownTo(t, base, before)
        invariant forall r, d :: base <= r < sh.B && 0 <= d < sh.D ==> clipd[r, d]
        invariant forall g: nat, i :: g < sh.T && 0 <= i < sh.D && !(t <= g < t + n) ==> dst[g, i] == old(dst[g, i])
        decreases n - base
      {
        hide DownTo;
        DownSub(clipd, t, base, okrows, before);
        NextBase(base, sh.Bd);
        base := base + sh.Bd;
      }
    }

    /** Rows that still clip go on the fallback list, the others into the down step. */
    method Sort(t: nat, n: nat) returns (okrows: seq<nat>)
      requires Valid() && n == sh.Tile(t) && t < sh.T && NoDup(fb) && forall g <- fb :: g < t
      requires forall r :: 0 <= r < n ==> (clip[r] <==> !GuDone(dev, sh, t, r, GuPasses(dev, sh, t)))
      modifies this`fb
      ensures OkRows(okrows, t) && NoDup(fb)
      ensures forall g: nat :: g in fb <==>
          g in old(fb) || (t <= g < t + n && !GuDone(dev, sh, t, g - t, GuPasses(dev, sh, t)))
    {
      hide GuDone;
      okrows := [];
      ghost var before := fb;
      for r := 0 to n
        invariant forall g <- before :: g < t
        invariant NoDup(okrows) && forall k: nat :: k in okrows <==> k < r && !clip[k]
        invariant NoDup(fb) && forall g: nat :: g in fb <==> g in before || (t <= g < t + r && clip[g - t])
      {
        assert t + r !in fb;
        if clip[r] { fb := fb + [t + r]; } else { okrows := okrows + [r]; }
      }
    }

    /** The fallback list and the output after the tile at t. */
    ghost predicate TileDone(t: nat, before: seq<nat>)
      requires Valid() && t < sh.T
      reads this`fb, dst
    {
      && NoDup(fb)
      && (forall g: nat :: g in fb <==>
          g in before || (t <= g < t + sh.Tile(t) && RowFate(dev, sh, t, g - t).Fallback?))
      && forall r: nat, d :: r < sh.Tile(t) && 0 <= d < sh.D && RowFate(dev, sh, t, r).Written? ==>
          dst[t + r, d] == Result(dev, sh, t, r, d)
    }

    /** One tile of B rows. */
    method Tile(t: nat)
      requires Valid() && t < sh.T && NoDup(fb) && forall g <- fb :: g < t
      modifies this`fb, a, clip, clip2, sub, dst
      ensures TileDone(t, old(fb))
      ensures forall g: nat, i ::
                g < sh.T && 0 <= i < sh.D && (!(t <= g < t + sh.Tile(t)) || RowFate(dev, sh, t, g - t).Lost?) ==>
                dst[g, i] == old(dst[g, i])
    {
      hide TileDone, RowFate, NoDup, GuOpen, Listed, OkRows, DownTo;
      var n := sh.Tile(t);
      var clipe := new bool[sh.B, sh.FF]((_, _) => true);
      var clipd := new bool[sh.B, sh.D]((_, _) => true);
      hide GuDone, DnDone;
      ghost var listed := fb;
      var failed := GatePasses(clipe, t, n);
      if failed {
        TileGivenUp(t, listed);
        return;
      }
      var okrows := Sort(t, n);
      ghost var before := fb;
      Down(clipd, t, n, okrows, before);
      TileFinished(t, listed, before);
    }

    lemma TileGivenUp(t: nat, listed: seq<nat>)
      requires Valid() && t < sh.T && TileFailed(dev, sh, t) && forall g <- listed :: g < t
      requires exists rows :: GuOpen(rows, t, sh.Tile(t), GuPasses(dev, sh, t)) && Listed(listed, fb, t, rows)
      ensures TileDone(t, listed)
    {
      hide GuDone, DnDone, TileFailed, NoDup;
      var rows :| GuOpen(rows, t, sh.Tile(t), GuPasses(dev, sh, t)) && Listed(listed, fb, t, rows);
    }

    lemma TileFinished(t: nat, listed: seq<nat>, before: seq<nat>)
      requires Valid() && t < sh.T && !TileFailed(dev, sh, t) && DownTo(t, sh.Tile(t), before)
      requires forall g: nat :: g in before <==>
          g in listed || (t <= g < t + sh.Tile(t) && !GuDone(dev, sh, t, g - t, GuPasses(dev, sh, t)))
      ensures TileDone(t, listed)
      ensures forall r: nat :: r < sh.Tile(t) ==> !RowFate(dev, sh, t, r).Lost?
    {
      hide GuDone, DnDone, TileFailed, NoDup, Base;
    }

    /** All rows before `upTo` are accounted for; the rows after are untouched. */
    ghost predicate Accounted(upTo: nat)
      requires Valid()
      reads this`fb, dst
    {
      && NoDup(fb)
      && (forall g: nat :: g in fb <==> g < upTo && g < sh.T && FateOf(dev, sh, g).Fallback?)
      && forall g: nat, d :: g < upTo && g < sh.T && 0 <= d < sh.D && FateOf(dev, sh, g).Written? ==>
           dst[g, d] == Result(dev, sh, TileOf(sh, g), g - TileOf(sh, g), d)
    }

    /** Row g holds the values of its earliest unclipped down passes. */
    ghost predicate HoldsResult(g: nat)
      requires Valid() && g < sh.T
      reads dst
    {
      forall d :: 0 <= d < sh.D ==> dst[g, d] == Result(dev, sh, TileOf(sh, g), g - TileOf(sh, g), d)
    }

    lemma EachRow(g: nat)
      requires Valid() && g < sh.T && Accounted(sh.T)
      ensures g in fb <==> FateOf(dev, sh, g).Fallback?
      ensures FateOf(dev, sh, g).Written? ==> HoldsResult(g)
      ensures FateOf(dev, sh, g).Lost? <==> LateFailure(dev, sh, g)
    {
      LostExactlyWhen(dev, sh, g);
      hide LateFailure, Result, FateOf;
    }

    /** barra_ffn_split: exactly the rows with that fate are on the fallback list, once each; exactly the written
        rows hold the values of their earliest unclipped down passes. A row that a late failure overtook is in neither
        place and its output is untouched; every other row is in one of them. */
    method Run()
      requires Valid() && fb == []
      modifies this`fb, a, clip, clip2, sub, dst
      ensures Accounted(sh.T)
      ensures forall g: nat, d :: g < sh.T && 0 <= d < sh.D && FateOf(dev, sh, g).Lost? ==> dst[g, d] == old(dst[g, d])
      ensures forall g: nat :: g < sh.T && !old(HoldsResult(g)) ==>
                (LateFailure(dev, sh, g) <==> g !in fb && forall d :: 0 <= d < sh.D ==> dst[g, d] == old(dst[g, d]))
      ensures forall g: nat :: g < sh.T && !LateFailure(dev, sh, g) ==> g in fb || HoldsResult(g)
    {
      AllTiles();
      forall g: nat | g < sh.T
        ensures LateFailure(dev, sh, g) ==> g !in fb && forall d :: 0 <= d < sh.D ==> dst[g, d] == old(dst[g, d])
        ensures !LateFailure(dev, sh, g) ==> g in fb || HoldsResult(g)
      {
        hide LateFailure, FateOf, Result, Accounted;
        EachRow(g);
      }
    }

    /** The loop over the tiles. */
    method AllTiles()
      requires Valid() && fb == []
      modifies this`fb, a, clip, clip2, sub, dst
      ensures Accounted(sh.T)
      ensures forall g: nat, d :: g < sh.T && 0 <= d < sh.D && FateOf(dev, sh, g).Lost? ==> dst[g, d] == old(dst[g, d])
    {
      hide RowFate, FateOf, Result, TileOf;
      var t := 0;
      while t < sh.T
        invariant t % sh.B == 0 && Accounted(t)
        invariant forall g: nat, d :: g < sh.T && 0 <= d < sh.D && (g >= t || FateOf(dev, sh, g).Lost?) ==>
            dst[g, d] == old(dst[g, d])
        decreases sh.T - t
      {
        TileFates(dev, sh, t);
        Tile(t);
        NextBase(t, sh.B);
        t := t + sh.B;
      }
    }
  }

  /** The tile a row belongs to. */
  function TileOf(sh: Shape, g: nat): (t: nat)
    requires sh.Valid()
    ensures t <= g
  {
    g - g % sh.B
  }

  ghost function FateOf(dev: Device, sh: Shape, g: nat): Fate
    requires sh.Valid()
  {
    RowFate(dev, sh, TileOf(sh, g), g - TileOf(sh, g))
  }

  lemma TileFates(dev: Device, sh: Shape, t: nat)
    requires sh.Valid() && t % sh.B == 0
    ensures forall g: nat :: t <= g < t + sh.B ==>
        TileOf(sh, g) == t && FateOf(dev, sh, g) == RowFate(dev, sh, t, g - t)
  {
    hide RowFate;
    TileRows(sh, t);
  }

  lemma TileRows(sh: Shape, t: nat)
    requires sh.Valid() && t % sh.B == 0
    ensures forall g: nat :: t <= g < t + sh.B ==> TileOf(sh, g) == t
  {
    forall g: nat | t <= g < t + sh.B ensures TileOf(sh, g) == t {
      var k := t / sh.B;
      assert t == k * sh.B;
      Quotient(g, sh.B, k, g - t);
      assert g == k * sh.B + g % sh.B;
    }
  }

  // ------------------------------------------------------------------ exactly when every row is accounted for

  /** Element j of row r clipped in every gate/up pass before p. */
  ghost predicate ClipsBefore(dev: Device, t: nat, r: nat, j: nat, p: nat) {
    forall q :: 1 <= q < p ==> dev.guClips(t, q, r, j)
  }

  /** No element of row r did. */
  ghost predicate RowClear(dev: Device, sh: Shape, t: nat, r: nat, p: nat) {
    forall j :: 0 <= j < sh.FF ==> !ClipsBefore(dev, t, r, j, p)
  }

  /** Pass p is the first of its tile to fail and not the first pass; by then row g has come out unclipped in every
      element, and some row of the tile has not. */
  ghost predicate LatePass(dev: Device, sh: Shape, g: nat, p: nat)
    requires sh.Valid()
  {
    var t := TileOf(sh, g);
    && 2 <= p <= sh.guPasses && dev.guFails(t, p) && (forall q :: 1 <= q < p ==> !dev.guFails(t, q))
    && RowClear(dev, sh, t, g - t, p) && exists r: nat :: r < sh.Tile(t) && !RowClear(dev, sh, t, r, p)
  }

  ghost predicate LateFailure(dev: Device, sh: Shape, g: nat)
    requires sh.Valid()
  {
    exists p :: LatePass(dev, sh, g, p)
  }

  lemma OpenIsClipped(dev: Device, t: nat, r: nat, j: nat, p: nat)
    ensures GuFirst(dev, t, r, j, p) == 0 <==> ClipsBefore(dev, t, r, j, p + 1)
  {
    var q := GuFirst(dev, t, r, j, p);
    if q != 0 { assert !dev.guClips(t, q, r, j); }
  }

  lemma ClearIsDone(dev: Device, sh: Shape, t: nat, r: nat, p: nat)
    ensures GuDone(dev, sh, t, r, p) <==> RowClear(dev, sh, t, r, p + 1)
  {
    hide ClipsBefore, GuFirst;
    var n := p + 1;
    forall j | 0 <= j < sh.FF ensures GuFirst(dev, t, r, j, p) == 0 <==> ClipsBefore(dev, t, r, j, n) {
      OpenIsClipped(dev, t, r, j, p);
    }
  }

  lemma {:induction false} LimitIs(dev: Device, t: nat, l: nat, p: nat)
    requires l <= p && (forall q :: 1 <= q <= l ==> !dev.guFails(t, q)) && (l < p ==> dev.guFails(t, l + 1))
    ensures GuLimit(dev, t, p) == l
  {
    if p > 0 { LimitIs(dev, t, if l < p then l else l - 1, p - 1); }
  }

  /** A row that is in neither place is one that a late failure overtook. */
  lemma LostIsLate(dev: Device, sh: Shape, g: nat)
    requires sh.Valid() && FateOf(dev, sh, g).Lost?
    ensures LateFailure(dev, sh, g)
  {
    hide DnDone, GuDone, RowClear;
    var t := TileOf(sh, g);
    var l := GuPasses(dev, sh, t);
    if l == 0 { NoPassYet(dev, sh, t, g - t); }
    ClearIsDone(dev, sh, t, g - t, l);
    var r: nat :| r < sh.Tile(t) && !GuDone(dev, sh, t, r, l);
    ClearIsDone(dev, sh, t, r, l);
    assert LatePass(dev, sh, g, l + 1);
  }

  lemma LateIsLost(dev: Device, sh: Shape, g: nat, p: nat)
    requires sh.Valid() && LatePass(dev, sh, g, p)
    ensures FateOf(dev, sh, g).Lost?
  {
    hide DnDone, GuDone, RowClear;
    var t := TileOf(sh, g);
    LimitIs(dev, t, p - 1, sh.guPasses);
    ClearIsDone(dev, sh, t, g - t, p - 1);
    var r: nat :| r < sh.Tile(t) && !RowClear(dev, sh, t, r, p);
    ClearIsDone(dev, sh, t, r, p - 1);
  }

  /** A row is lost exactly if a gate/up pass after the first fails once the row is resolved and while another row of
      its tile is not. */
  lemma LostExactlyWhen(dev: Device, sh: Shape, g: nat)
    requires sh.Valid()
    ensures FateOf(dev, sh, g).Lost? <==> LateFailure(dev, sh, g)
  {
    hide *;
    if FateOf(dev, sh, g).Lost? { LostIsLate(dev, sh, g); }
    if LateFailure(dev, sh, g) {
      var p := FailingPass(dev, sh, g);
      LateIsLost(dev, sh, g, p);
    }
  }

  lemma FailingPass(dev: Device, sh: Shape, g: nat) returns (p: nat)
    requires sh.Valid() && LateFailure(dev, sh, g)
    ensures LatePass(dev, sh, g, p)
  {
    p :| LatePass(dev, sh, g, p);
  }

  /** Some pass before the first failing one left the gate/up element unclipped. */
  ghost predicate GuResolved(dev: Device, sh: Shape, t: nat, r: nat, j: nat) {
    exists q :: 1 <= q <= sh.guPasses && !dev.guClips(t, q, r, j) && forall k :: 1 <= k <= q ==> !dev.guFails(t, k)
  }

  ghost predicate DnResolved(dev: Device, sh: Shape, t: nat, base: nat, r: nat, d: nat) {
    exists q :: 1 <= q <= sh.dnPasses && !dev.dnClips(t, base, q, r, d)
                && forall k :: 1 <= k <= q ==> !dev.dnFails(t, base, k)
  }

  lemma GuResolvedExactly(dev: Device, sh: Shape, t: nat, r: nat, j: nat)
    ensures GuFirst(dev, t, r, j, GuPasses(dev, sh, t)) != 0 <==> GuResolved(dev, sh, t, r, j)
  {
    var l := GuPasses(dev, sh, t);
    hide GuFirst, GuLimit;
  }

  lemma DnResolvedExactly(dev: Device, sh: Shape, t: nat, base: nat, r: nat, d: nat)
    ensures DnFirst(dev, t, base, r, d, DnPasses(dev, sh, t, base)) != 0 <==> DnResolved(dev, sh, t, base, r, d)
  {
    var l := DnPasses(dev, sh, t, base);
    hide DnFirst, DnLimit;
  }

  /** A row is written exactly if every gate/up and every down element of it came out unclipped before its passes
      failed, and it is not lost; all other rows that are not lost go to the fallback list. */
  lemma WrittenExactlyWhen(dev: Device, sh: Shape, g: nat)
    requires sh.Valid()
    ensures var t := TileOf(sh, g); var r := g - t;
            FateOf(dev, sh, g).Written? <==>
              && (forall j :: 0 <= j < sh.FF ==> GuResolved(dev, sh, t, r, j)) && !LateFailure(dev, sh, g)
              && (forall d :: 0 <= d < sh.D ==> DnResolved(dev, sh, t, r / sh.Bd * sh.Bd, r, d))
  {
    hide GuFirst, DnFirst, GuResolved, DnResolved, LateFailure, TileFailed, TileOf, GuPasses, DnPasses;
    var t := TileOf(sh, g);
    var r := g - t;
    LostExactlyWhen(dev, sh, g);
    forall j | 0 <= j < sh.FF
      ensures GuFirst(dev, t, r, j, GuPasses(dev, sh, t)) != 0 <==> GuResolved(dev, sh, t, r, j)
    {
      GuResolvedExactly(dev, sh, t, r, j);
    }
    var base := Base(sh, r);
    forall d | 0 <= d < sh.D
      ensures DnFirst(dev, t, base, r, d, DnPasses(dev, sh, t, base)) != 0 <==> DnResolved(dev, sh, t, base, r, d)
    {
      DnResolvedExactly(dev, sh, t, base, r, d);
    }
  }

  /** In particular none is lost if no gate/up pass after the first ever fails. */
  lemma NothingLost(dev: Device, sh: Shape, g: nat)
    requires sh.Valid() && g < sh.T
    requires forall t: nat, p: nat :: p >= 2 ==> !dev.guFails(t, p)
    ensures !FateOf(dev, sh, g).Lost?
  {
    var t := TileOf(sh, g);
    var l := GuPasses(dev, sh, t);
    if l < sh.guPasses {
      assert dev.guFails(t, l + 1);
      assert l == 0;
      NoPassYet(dev, sh, t, g - t);
    }
  }

  /** Pass 2 fails; row 1 clips in every pass, row 0 never. */
  function LateDevice(): Device {
    Device((t, p) => p == 2, (t, p, r, j) => r == 1, (t, p, r, j) => 0.0,
           (t, b, p) => false, (t, b, p, r, d) => false, (t, b, p, r, d) => 0.0)
  }

  /** One tile of two rows of one element, two gate/up passes, one down pass. */
  function SmallShape(): (sh: Shape)
    ensures sh.Valid()
  {
    Shape(2, 2, 2, 1, 1, 2, 1)
  }

  lemma LateRows(dev: Device, sh: Shape)
    requires sh == SmallShape()
    requires !dev.guFails(0, 1) && dev.guFails(0, 2) && !dev.guClips(0, 1, 0, 0) && dev.guClips(0, 1, 1, 0)
    ensures LateFailure(dev, sh, 0) && FateOf(dev, sh, 1).Fallback? && FateOf(dev, sh, 0).Lost?
  {
    assert TileOf(sh, 0) == 0 && TileOf(sh, 1) == 0;
    hide GuFirst, GuLimit, TileOf, DnDone, GuDone, TileFailed, Base;
    assert !ClipsBefore(dev, 0, 0, 0, 2);
    assert ClipsBefore(dev, 0, 1, 0, 2);
    assert RowClear(dev, sh, 0, 0, 2) && !RowClear(dev, sh, 0, 1, 2);
    assert LatePass(dev, sh, 0, 2);
    LostExactlyWhen(dev, sh, 0);
    LimitIs(dev, 0, 1, 2);
    ClearIsDone(dev, sh, 0, 1, 1);
  }

  lemma LateFacts(dev: Device, sh: Shape)
    requires dev == LateDevice() && sh == SmallShape()
    ensures LateFailure(dev, sh, 0) && FateOf(dev, sh, 1).Fallback? && FateOf(dev, sh, 0).Lost?
  {
    hide LateFailure, FateOf, SmallShape;
    LateRows(dev, sh);
  }

  lemma OneIndex(fb: seq<nat>)
    requires NoDup(fb) && 1 in fb && forall g: nat :: g in fb ==> g == 1
    ensures fb == [1]
  {
    var last := |fb| - 1;
    assert fb[0] in fb && fb[last] in fb;
  }

  lemma SmallRun(split: Split)
    requires split.Valid() && split.dev == LateDevice() && split.sh == SmallShape() && split.Accounted(split.sh.T)
    ensures split.fb == [1]
  {
    hide FateOf, LateFailure, LateDevice, NoDup;
    LateFacts(split.dev, split.sh);
    OneIndex(split.fb);
  }

  /** A late failure does lose a row: of two, the first is resolved in pass 1 and the second still clips when pass 2
      fails. Only the second one is on the fallback list, and the output of the first is what was there before. */
  method LateFailureLoses(v: Float) returns (fb: seq<nat>, left: Float)
    ensures fb == [1] && left == v
  {
    hide *;
    var dev, sh := LateDevice(), SmallShape();
    SmallSizes();
    LateFacts(dev, sh);
    var work := new Float[2, 1];
    var out := new Float[2, 1]((_, _) => v);
    var split := new Split(dev, sh, work, out);
    split.Run();
    SmallRun(split);
    fb, left := split.fb, out[0, 0];
  }

  lemma SmallSizes()
    ensures var sh := SmallShape(); sh.B == 2 && sh.FF == 1 && sh.T == 2 && sh.D == 1
  {
  }

  lemma BaseOf(sh: Shape, base: nat, r: nat)
    requires sh.Valid() && base % sh.Bd == 0 && base <= r < base + sh.Bd
    ensures Base(sh, r) == base
  {
    var k := base / sh.Bd;
    assert base == k * sh.Bd;
    assert r == k * sh.Bd + (r - base);
    Quotient(r, sh.Bd, k, r - base);
  }

  lemma Quotient(v: nat, m: nat, q: nat, rem: nat)
    requires m >= 1 && v == q * m + rem && rem < m
    ensures v / m == q
  {
    var d := v / m;
    assert v == d * m + v % m;
    if d < q {
      TimesGrows(d + 1, q, m);
    } else if q < d {
      TimesGrows(q + 1, d, m);
    }
  }

  lemma NextBase(base: nat, m: nat)
    requires m >= 1 && base % m == 0
    ensures (base + m) % m == 0
  {
    var k := base / m;
    assert base == k * m;
    Quotient(base + m, m, k + 1, 0);
    assert base + m == (k + 1) * m + (base + m) % m;
  }

  lemma TimesGrows(a: nat, b: nat, m: nat)
    requires a <= b
    ensures a * m <= b * m
  {
  }

  /** The first failing pass fixes the limit. */
  lemma {:induction false} LimitFixed(dev: Device, t: nat, pass: nat, p: nat)
    requires GuLimit(dev, t, pass) == pass && dev.guFails(t, pass + 1) && pass < p
    ensures GuLimit(dev, t, p) == pass
  {
    if pass + 1 < p { LimitFixed(dev, t, pass, p - 1); }
  }

  lemma {:induction false} LimitGrows(dev: Device, t: nat, pass: nat, p: nat)
    requires GuLimit(dev, t, pass) == pass && pass <= p
    ensures pass <= GuLimit(dev, t, p)
  {
    if pass < p { LimitGrows(dev, t, pass, p - 1); }
  }

  lemma {:induction false} DnLimitFixed(dev: Device, t: nat, base: nat, pass: nat, p: nat)
    requires DnLimit(dev, t, base, pass) == pass && dev.dnFails(t, base, pass + 1) && pass < p
    ensures DnLimit(dev, t, base, p) == pass
  {
    if pass + 1 < p { DnLimitFixed(dev, t, base, pass, p - 1); }
  }

  lemma {:induction false} DnLimitGrows(dev: Device, t: nat, base: nat, pass: nat, p: nat)
    requires DnLimit(dev, t, base, pass) == pass && pass <= p
    ensures pass <= DnLimit(dev, t, base, p)
  {
    if pass < p { DnLimitGrows(dev, t, base, pass, p - 1); }
  }

  lemma RowsApart(rows: seq<nat>, k: nat)
    requires NoDup(rows) && k < |rows|
    ensures rows[k] !in rows[..k] && rows[..k + 1] == rows[..k] + [rows[k]]
  {
  }
}