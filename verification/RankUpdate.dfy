/** The column-blocked, parallel rank-k update C += A * W. Floats are left uninterpreted: nothing is assumed of
    addition and multiplication, so equal results mean bit-identical ones. */
module RankUpdate {
  import opened Grid

  const BLK: nat := 512

  /** The operands: row r uses channel idx[c] of A, weighted by row c of W. */
  datatype Problem<!F, !H> = Problem(nrow: nat, ncol: nat, lda: nat, k: nat, A: seq<F>, idx: seq<nat>, W: seq<H>,
                                     conv: H -> F, add: (F, F) -> F, mul: (F, F) -> F, isZero: F -> bool)
  {
    ghost predicate Valid() {
      && |idx| == k && |W| == k * ncol
      && forall r, c :: 0 <= r < nrow && 0 <= c < k ==> 0 <= At(r, lda, idx[c]) < |A|
    }

    function Alpha(r: nat, c: nat): F
      requires Valid() && r < nrow && c < k
    {
      A[At(r, lda, idx[c])]
    }

    function Weight(c: nat, j: nat): F
      requires Valid() && c < k && j < ncol
    {
      AtBound(c, k, ncol, j);
      conv(W[At(c, ncol, j)])
    }

    function Blocks(): nat {
      (ncol + BLK - 1) / BLK
    }

    /** Columns First(b) .. First(b) + Width(b). */
    function First(b: nat): nat {
      b * BLK
    }

    function Width(b: nat): nat
      requires b < Blocks()
    {
      if ncol - First(b) < BLK then ncol - First(b) else BLK
    }
  }

  // ------------------------------------------------------------------ element updates

  /** C[r][j] += Alpha(r, c) * Weight(c, j). */
  datatype Update = Update(r: nat, c: nat, j: nat)

  ghost predicate In<F, H>(p: Problem<F, H>, u: Update) {
    u.r < p.nrow && u.c < p.k && u.j < p.ncol
  }

  function Plus<F, H>(p: Problem<F, H>, x: F, u: Update): F
    requires p.Valid() && In(p, u)
  {
    p.add(x, p.mul(p.Alpha(u.r, u.c), p.Weight(u.c, u.j)))
  }

  ghost predicate AllIn<F, H>(p: Problem<F, H>, us: seq<Update>) {
    forall i :: 0 <= i < |us| ==> In(p, us[i])
  }

  /** The matrix after a sequence of updates. */
  ghost function Effect<F, H>(p: Problem<F, H>, us: seq<Update>, m: seq<F>): (m': seq<F>)
    requires p.Valid() && AllIn(p, us) && |m| == p.nrow * p.ncol
    ensures |m'| == |m|
  {
    if us == [] then m else
      var u := us[|us| - 1];
      var m1 := Effect(p, us[..|us| - 1], m);
      AtBound(u.r, p.nrow, p.ncol, u.j);
      var i := At(u.r, p.ncol, u.j);
      m1[i := Plus(p, m1[i], u)]
  }

  /** One element after the updates that concern it. */
  ghost function Folded<F, H>(p: Problem<F, H>, us: seq<Update>, x: F): F
    requires p.Valid() && AllIn(p, us)
  {
    if us == [] then x else Plus(p, Folded(p, us[..|us| - 1], x), us[|us| - 1])
  }

  function OnCell(us: seq<Update>, r: nat, j: nat): seq<Update> {
    if us == [] then [] else
      var u := us[|us| - 1];
      OnCell(us[..|us| - 1], r, j) + if u.r == r && u.j == j then [u] else []
  }

  /** The updates that lie in block b. */
  function OnBlock(us: seq<Update>, b: nat): seq<Update> {
    if us == [] then [] else
      var u := us[|us| - 1];
      OnBlock(us[..|us| - 1], b) + if u.j / BLK == b then [u] else []
  }

  lemma {:induction false} OnCellIn<F, H>(p: Problem<F, H>, us: seq<Update>, r: nat, j: nat)
    requires AllIn(p, us)
    ensures AllIn(p, OnCell(us, r, j))
  {
    if us != [] { OnCellIn(p, us[..|us| - 1], r, j); }
  }

  lemma FoldedLast<F, H>(p: Problem<F, H>, a: seq<Update>, u: Update, x: F)
    requires p.Valid() && AllIn(p, a) && In(p, u)
    ensures AllIn(p, a + [u]) && Folded(p, a + [u], x) == Plus(p, Folded(p, a, x), u)
  {
    hide Plus, In;
    assert (a + [u])[..|a + [u]| - 1] == a;
  }

  lemma EffectLast<F, H>(p: Problem<F, H>, us: seq<Update>, m: seq<F>, r: nat, j: nat)
    requires p.Valid() && AllIn(p, us) && us != [] && |m| == p.nrow * p.ncol && r < p.nrow && j < p.ncol
    ensures At(r, p.ncol, j) < |m|
    ensures var u := us[|us| - 1]; var i := At(r, p.ncol, j); var m1 := Effect(p, us[..|us| - 1], m);
            Effect(p, us, m)[i] == if u.r == r && u.j == j then Plus(p, m1[i], u) else m1[i]
  {
    hide Plus, At;
    var u := us[|us| - 1];
    AtBound(r, p.nrow, p.ncol, j);
    AtBound(u.r, p.nrow, p.ncol, u.j);
    if At(u.r, p.ncol, u.j) == At(r, p.ncol, j) { AtInjective(u.r, u.j, r, j, p.ncol); }
  }

  /** An element only feels its own updates, in their order. */
  lemma {:induction false} EffectAt<F, H>(p: Problem<F, H>, us: seq<Update>, m: seq<F>, r: nat, j: nat)
    requires p.Valid() && AllIn(p, us) && |m| == p.nrow * p.ncol && r < p.nrow && j < p.ncol
    ensures At(r, p.ncol, j) < |m| && AllIn(p, OnCell(us, r, j))
    ensures Effect(p, us, m)[At(r, p.ncol, j)] == Folded(p, OnCell(us, r, j), m[At(r, p.ncol, j)])
  {
    AtBound(r, p.nrow, p.ncol, j);
    OnCellIn(p, us, r, j);
    if us != [] {
      var u, init := us[|us| - 1], us[..|us| - 1];
      EffectAt(p, init, m, r, j);
      EffectLast(p, us, m, r, j);
      OnCellIn(p, init, r, j);
      OnCellLast(us, r, j);
      hide *;
      if u.r == r && u.j == j { FoldedLast(p, OnCell(init, r, j), u, m[At(r, p.ncol, j)]); }
    }
  }

  lemma OnCellLast(us: seq<Update>, r: nat, j: nat)
    requires us != []
    ensures var u, init := us[|us| - 1], us[..|us| - 1];
            OnCell(us, r, j) == if u.r == r && u.j == j then OnCell(init, r, j) + [u] else OnCell(init, r, j)
  {
  }

  lemma {:induction false} CellOfBlock(us: seq<Update>, r: nat, j: nat)
    ensures OnCell(OnBlock(us, j / BLK), r, j) == OnCell(us, r, j)
  {
    if us != [] {
      var u, init := us[|us| - 1], us[..|us| - 1];
      CellOfBlock(init, r, j);
      if u.j / BLK == j / BLK {
        var a := OnBlock(init, j / BLK);
        assert (a + [u])[..|a + [u]| - 1] == a;
      } else {
        assert OnBlock(us, j / BLK) == OnBlock(init, j / BLK);
      }
    }
  }

  lemma {:induction false} OnCellConcat(a: seq<Update>, b: seq<Update>, r: nat, j: nat)
    ensures OnCell(a + b, r, j) == OnCell(a, r, j) + OnCell(b, r, j)
  {
    if b == [] {
      assert a + b == a;
    } else {
      OnCellConcat(a, b[..|b| - 1], r, j);
      assert (a + b)[..|a + b| - 1] == a + b[..|b| - 1];
    }
  }

  // ------------------------------------------------------------------ what one block does

  function RowUpdates(r: nat, c: nat, j0: nat, n: nat): seq<Update> {
    if n == 0 then [] else RowUpdates(r, c, j0, n - 1) + [Update(r, c, j0 + n - 1)]
  }

  /** The first n channels of row r. */
  ghost function ChannelUpdates<F, H>(p: Problem<F, H>, b: nat, r: nat, n: nat): seq<Update>
    requires p.Valid() && b < p.Blocks() && r < p.nrow && n <= p.k
  {
    if n == 0 then [] else
      ChannelUpdates(p, b, r, n - 1)
      + if p.isZero(p.Alpha(r, n - 1)) then [] else RowUpdates(r, n - 1, p.First(b), p.Width(b))
  }

  /** The first n rows. */
  ghost function BlockUpdates<F, H>(p: Problem<F, H>, b: nat, n: nat): seq<Update>
    requires p.Valid() && b < p.Blocks() && n <= p.nrow
  {
    if n == 0 then [] else BlockUpdates(p, b, n - 1) + ChannelUpdates(p, b, n - 1, p.k)
  }

  lemma BlockBounds<F, H>(p: Problem<F, H>, b: nat)
    requires b < p.Blocks()
    ensures p.First(b) + p.Width(b) <= p.ncol && p.Width(b) <= BLK
    ensures forall j: nat :: j < p.ncol ==> (j / BLK == b <==> p.First(b) <= j < p.First(b) + p.Width(b))
  {
  }

  lemma OnCellAppend(a: seq<Update>, u: Update, r: nat, j: nat)
    ensures OnCell(a + [u], r, j) == OnCell(a, r, j) + if u.r == r && u.j == j then [u] else []
  {
    assert (a + [u])[..|a + [u]| - 1] == a;
  }

  lemma RowLast(r: nat, c: nat, j0: nat, n: nat)
    ensures RowUpdates(r, c, j0, n + 1) == RowUpdates(r, c, j0, n) + [Update(r, c, j0 + n)]
    ensures RowUpdates(r, c, j0, 0) == []
  {
  }

  lemma NoneOnCell(r: nat, j: nat)
    ensures OnCell([], r, j) == []
  {
  }

  lemma {:induction false} RowOnCell(r: nat, c: nat, j0: nat, n: nat, r': nat, j: nat)
    ensures OnCell(RowUpdates(r, c, j0, n), r', j) == if r == r' && j0 <= j < j0 + n then [Update(r, c, j)] else []
  {
    hide *;
    if n == 0 {
      RowLast(r, c, j0, 0);
      NoneOnCell(r', j);
    } else {
      RowOnCell(r, c, j0, n - 1, r', j);
      RowLast(r, c, j0, n - 1);
      OnCellAppend(RowUpdates(r, c, j0, n - 1), Update(r, c, j0 + n - 1), r', j);
    }
  }

  /** The naive update of one element, straight from the arrays: adds A[r][idx[c]] * W[c][j] for ascending channels c,
      without those whose coefficient is zero. */
  ghost function Naive<F, H>(p: Problem<F, H>, x: F, r: nat, j: nat, n: nat): F
    requires p.Valid() && r < p.nrow && j < p.ncol && n <= p.k
  {
    if n == 0 then x else
      var c := n - 1;
      InArrays(p, r, c, j);
      var a := p.A[r * p.lda + p.idx[c]];
      var sum := Naive(p, x, r, j, c);
      if p.isZero(a) then sum else p.add(sum, p.mul(a, p.conv(p.W[c * p.ncol + j])))
  }

  lemma InArrays<F, H>(p: Problem<F, H>, r: nat, c: nat, j: nat)
    requires p.Valid() && r < p.nrow && c < p.k && j < p.ncol
    ensures 0 <= r * p.lda + p.idx[c] < |p.A| && 0 <= c * p.ncol + j < |p.W|
  {
    assert At(r, p.lda, p.idx[c]) == r * p.lda + p.idx[c];
    AtBound(c, p.k, p.ncol, j);
  }

  /** Channel n of row r contributes one update to each element of the row's part of the block. */
  lemma ChannelStep<F, H>(p: Problem<F, H>, b: nat, r: nat, n: nat, r': nat, j: nat)
    requires p.Valid() && b < p.Blocks() && r < p.nrow && n < p.k && j < p.ncol && j / BLK == b
    ensures OnCell(ChannelUpdates(p, b, r, n + 1), r', j)
         == OnCell(ChannelUpdates(p, b, r, n), r', j) + if r == r'
           && !p.isZero(p.Alpha(r, n)) then [Update(r, n, j)] else []
  {
    hide OnCell, RowUpdates, Problem.Alpha;
    var a := ChannelUpdates(p, b, r, n);
    if p.isZero(p.Alpha(r, n)) {
      assert ChannelUpdates(p, b, r, n + 1) == a + [];
      assert a + [] == a;
    } else {
      BlockBounds(p, b);
      hide Problem.First, Problem.Width;
      OnCellConcat(a, RowUpdates(r, n, p.First(b), p.Width(b)), r', j);
      RowOnCell(r, n, p.First(b), p.Width(b), r', j);
    }
  }

  lemma {:induction false} ChannelsOnCell<F, H>(p: Problem<F, H>, b: nat, r: nat, n: nat, j: nat, x: F)
    requires p.Valid() && b < p.Blocks() && r < p.nrow && n <= p.k && j < p.ncol && j / BLK == b
    ensures AllIn(p, OnCell(ChannelUpdates(p, b, r, n), r, j))
    ensures Folded(p, OnCell(ChannelUpdates(p, b, r, n), r, j), x) == Naive(p, x, r, j, n)
  {
    hide *;
    if n == 0 {
      NothingYet(p, b, r, j, x);
    } else {
      ChannelsOnCell(p, b, r, n - 1, j, x);
      ChannelStep(p, b, r, n - 1, r, j);
      NaiveLast(p, x, r, j, n - 1);
      var a := OnCell(ChannelUpdates(p, b, r, n - 1), r, j);
      if p.isZero(p.Alpha(r, n - 1)) {
        assert a + [] == a;
      } else {
        FoldedLast(p, a, Update(r, n - 1, j), x);
      }
    }
  }

  lemma NothingYet<F, H>(p: Problem<F, H>, b: nat, r: nat, j: nat, x: F)
    requires p.Valid() && b < p.Blocks() && r < p.nrow && j < p.ncol
    ensures AllIn(p, OnCell(ChannelUpdates(p, b, r, 0), r, j))
    ensures Folded(p, OnCell(ChannelUpdates(p, b, r, 0), r, j), x) == Naive(p, x, r, j, 0)
  {
  }

  lemma NaiveLast<F, H>(p: Problem<F, H>, x: F, r: nat, j: nat, n: nat)
    requires p.Valid() && r < p.nrow && j < p.ncol && n < p.k
    ensures In(p, Update(r, n, j))
    ensures Naive(p, x, r, j, n + 1) ==
            if p.isZero(p.Alpha(r, n)) then Naive(p, x, r, j, n) else Plus(p, Naive(p, x, r, j, n), Update(r, n, j))
  {
  }

  lemma NoChannels<F, H>(p: Problem<F, H>, b: nat, r: nat, r': nat, j: nat)
    requires p.Valid() && b < p.Blocks() && r < p.nrow
    ensures OnCell(ChannelUpdates(p, b, r, 0), r', j) == []
  {
  }

  lemma {:induction false} ChannelsOffCell<F, H>(p: Problem<F, H>, b: nat, r: nat, n: nat, r': nat, j: nat)
    requires p.Valid() && b < p.Blocks() && r < p.nrow && n <= p.k && r != r' && j < p.ncol && j / BLK == b
    ensures OnCell(ChannelUpdates(p, b, r, n), r', j) == []
  {
    hide *;
    if n == 0 {
      NoChannels(p, b, r, r', j);
    } else {
      ChannelsOffCell(p, b, r, n - 1, r', j);
      ChannelStep(p, b, r, n - 1, r', j);
    }
  }

  lemma BlockStep<F, H>(p: Problem<F, H>, b: nat, n: nat)
    requires p.Valid() && b < p.Blocks() && n < p.nrow
    ensures BlockUpdates(p, b, n + 1) == BlockUpdates(p, b, n) + ChannelUpdates(p, b, n, p.k)
  {
  }

  lemma BlockStart<F, H>(p: Problem<F, H>, b: nat, r: nat, j: nat)
    requires p.Valid() && b < p.Blocks()
    ensures OnCell(BlockUpdates(p, b, 0), r, j) == []
  {
  }

  lemma {:induction false} BlockOnCell<F, H>(p: Problem<F, H>, b: nat, n: nat, r: nat, j: nat)
    requires p.Valid() && b < p.Blocks() && n <= p.nrow && r < p.nrow && j < p.ncol && j / BLK == b
    ensures OnCell(BlockUpdates(p, b, n), r, j) == if r < n then OnCell(ChannelUpdates(p, b, r, p.k), r, j) else []
  {
    hide *;
    if n == 0 {
      BlockStart(p, b, r, j);
    } else {
      BlockOnCell(p, b, n - 1, r, j);
      BlockStep(p, b, n - 1);
      OnCellConcat(BlockUpdates(p, b, n - 1), ChannelUpdates(p, b, n - 1, p.k), r, j);
      if r != n - 1 { ChannelsOffCell(p, b, n - 1, p.k, r, j); }
    }
  }

  // ------------------------------------------------------------------ every interleaving of the blocks

  /** The pool runs each block once, on whatever thread: any merge of the blocks' update sequences. */
  ghost predicate Interleaves<F, H>(p: Problem<F, H>, us: seq<Update>)
    requires p.Valid()
  {
    AllIn(p, us) && forall b :: 0 <= b < p.Blocks() ==> OnBlock(us, b) == BlockUpdates(p, b, p.nrow)
  }

  /** Element r, j of the matrix c is what the naive loop makes of it in m. */
  ghost predicate NaiveAt<F, H>(p: Problem<F, H>, m: seq<F>, c: seq<F>, r: nat, j: nat)
    requires p.Valid() && r < p.nrow && j < p.ncol
  {
    r * p.ncol + j < |m| == |c| && c[r * p.ncol + j] == Naive(p, m[r * p.ncol + j], r, j, p.k)
  }

  /** Whatever the interleaving, every element ends as the naive loop leaves it. */
  lemma UpdateIsNaive<F, H>(p: Problem<F, H>, us: seq<Update>, m: seq<F>, r: nat, j: nat)
    requires p.Valid() && Interleaves(p, us) && |m| == p.nrow * p.ncol && r < p.nrow && j < p.ncol
    ensures NaiveAt(p, m, Effect(p, us, m), r, j)
  {
    hide Problem.Valid, Interleaves, OnCell, Folded, Naive, Effect, OnBlock, BlockUpdates, ChannelUpdates;
    var b := j / BLK;
    OwnBlock(p, us, j);
    EffectAt(p, us, m, r, j);
    CellOfBlock(us, r, j);
    BlockOnCell(p, b, p.nrow, r, j);
    ChannelsOnCell(p, b, r, p.k, j, m[At(r, p.ncol, j)]);
  }

  lemma OwnBlock<F, H>(p: Problem<F, H>, us: seq<Update>, j: nat)
    requires p.Valid() && Interleaves(p, us) && j < p.ncol
    ensures j / BLK < p.Blocks() && AllIn(p, us) && OnBlock(us, j / BLK) == BlockUpdates(p, j / BLK, p.nrow)
  {
  }

  // ------------------------------------------------------------------ the code of one block

  lemma {:induction false} EffectConcat<F, H>(p: Problem<F, H>, a: seq<Update>, b: seq<Update>, m: seq<F>)
    requires p.Valid() && AllIn(p, a) && AllIn(p, b) && |m| == p.nrow * p.ncol
    ensures AllIn(p, a + b) && Effect(p, a + b, m) == Effect(p, b, Effect(p, a, m))
  {
    hide In, Plus, At;
    if b == [] {
      assert a + b == a;
    } else {
      EffectConcat(p, a, b[..|b| - 1], m);
      assert (a + b)[..|a + b| - 1] == a + b[..|b| - 1];
    }
  }

  lemma {:induction false} RowIn<F, H>(p: Problem<F, H>, r: nat, c: nat, j0: nat, n: nat)
    requires r < p.nrow && c < p.k && j0 + n <= p.ncol
    ensures |RowUpdates(r, c, j0, n)| == n && AllIn(p, RowUpdates(r, c, j0, n))
  {
    if n > 0 { RowIn(p, r, c, j0, n - 1); }
  }

  lemma {:induction false} ChannelsIn<F, H>(p: Problem<F, H>, b: nat, r: nat, n: nat)
    requires p.Valid() && b < p.Blocks() && r < p.nrow && n <= p.k
    ensures AllIn(p, ChannelUpdates(p, b, r, n))
  {
    if n > 0 {
      ChannelsIn(p, b, r, n - 1);
      BlockBounds(p, b);
      RowIn(p, r, n - 1, p.First(b), p.Width(b));
    }
  }

  lemma {:induction false} BlockIn<F, H>(p: Problem<F, H>, b: nat, n: nat)
    requires p.Valid() && b < p.Blocks() && n <= p.nrow
    ensures AllIn(p, BlockUpdates(p, b, n))
  {
    if n > 0 {
      BlockIn(p, b, n - 1);
      ChannelsIn(p, b, n - 1, p.k);
    }
  }

  /** w holds the block's weights of all channels, row by row. */
  ghost predicate Unpacked<F, H>(p: Problem<F, H>, b: nat, w: seq<F>)
    requires p.Valid() && b < p.Blocks()
  {
    forall c: nat, j: nat :: c < p.k && j < p.Width(b) ==> Holds(p, b, w, c, j)
  }

  /** Place j of row c holds the channel's weight of the block's column j. */
  ghost predicate Holds<F, H>(p: Problem<F, H>, b: nat, w: seq<F>, c: nat, j: nat)
    requires p.Valid() && b < p.Blocks() && c < p.k
  {
    && At(c, p.Width(b), j) < |w| && p.First(b) + j < p.ncol && c * p.ncol + (p.First(b) + j) < |p.W|
    && w[At(c, p.Width(b), j)] == p.conv(p.W[c * p.ncol + (p.First(b) + j)])
  }

  /** Unpacks the block's weights of all channels, row by row. */
  method Unpack<F(0), H>(p: Problem<F, H>, b: nat) returns (w: array<F>)
    requires p.Valid() && b < p.Blocks()
    ensures fresh(w) && w.Length == p.k * p.Width(b) && Unpacked(p, b, w[..])
  {
    hide *;
    BlockBounds(p, b);
    var jn := p.Width(b);
    w := new F[p.k * jn];
    NothingUnpacked(p, b, w[..]);
    for c := 0 to p.k
      invariant UnpackedTo(p, b, w[..], c, 0)
    {
      for j := 0 to jn
        invariant UnpackedTo(p, b, w[..], c, j)
      {
        UnpackedNext(p, b, w[..], c, j);
        w[At(c, jn, j)] := p.Weight(c, p.First(b) + j);
      }
      RowUnpacked(p, b, w[..], c);
    }
    AllUnpacked(p, b, w[..]);
  }

  /** The rows before c are unpacked, and the first j places of row c. */
  ghost predicate UnpackedTo<F, H>(p: Problem<F, H>, b: nat, w: seq<F>, c: nat, j: nat)
    requires p.Valid() && b < p.Blocks()
  {
    && |w| == p.k * p.Width(b)
    && forall c': nat, j': nat :: c' < p.k && j' < p.Width(b) && (c' < c || (c' == c && j' < j)) ==>
         Holds(p, b, w, c', j')
  }

  lemma NothingUnpacked<F, H>(p: Problem<F, H>, b: nat, w: seq<F>)
    requires p.Valid() && b < p.Blocks() && |w| == p.k * p.Width(b)
    ensures UnpackedTo(p, b, w, 0, 0)
  {
  }

  lemma UnpackedNext<F, H>(p: Problem<F, H>, b: nat, w: seq<F>, c: nat, j: nat)
    requires p.Valid() && b < p.Blocks() && c < p.k && j < p.Width(b) && UnpackedTo(p, b, w, c, j)
    ensures At(c, p.Width(b), j) < |w| && p.First(b) + j < p.ncol
    ensures UnpackedTo(p, b, w[At(c, p.Width(b), j) := p.Weight(c, p.First(b) + j)], c, j + 1)
  {
    BlockBounds(p, b);
    hide Problem.First, Problem.Width, Problem.Weight, At;
    var jn := p.Width(b);
    AtBound(c, p.k, jn, j);
    WeightIs(p, c, p.First(b) + j);
    var w' := w[At(c, jn, j) := p.Weight(c, p.First(b) + j)];
    forall c': nat, j': nat | c' < p.k && j' < jn && (c' < c || (c' == c && j' < j + 1))
      ensures Holds(p, b, w', c', j')
    {
      if At(c', jn, j') == At(c, jn, j) { AtInjective(c', j', c, j, jn); } else { assert Holds(p, b, w, c', j'); }
    }
  }

  lemma WeightIs<F, H>(p: Problem<F, H>, c: nat, j: nat)
    requires p.Valid() && c < p.k && j < p.ncol
    ensures c * p.ncol + j < |p.W| && p.Weight(c, j) == p.conv(p.W[c * p.ncol + j])
  {
    AtBound(c, p.k, p.ncol, j);
  }

  lemma RowUnpacked<F, H>(p: Problem<F, H>, b: nat, w: seq<F>, c: nat)
    requires p.Valid() && b < p.Blocks() && UnpackedTo(p, b, w, c, p.Width(b))
    ensures UnpackedTo(p, b, w, c + 1, 0)
  {
    hide Problem.First, Problem.Width, Problem.Weight, At;
  }

  lemma AllUnpacked<F, H>(p: Problem<F, H>, b: nat, w: seq<F>)
    requires p.Valid() && b < p.Blocks() && UnpackedTo(p, b, w, p.k, 0)
    ensures Unpacked(p, b, w)
  {
    hide Problem.First, Problem.Width, Problem.Weight, At;
  }

  /** Adds one weighted channel to the block's part of row r. */
  method AddChannel<F, H>(p: Problem<F, H>, C: array<F>, w: array<F>, b: nat, r: nat, c: nat)
    requires p.Valid() && b < p.Blocks() && r < p.nrow && c < p.k && C.Length == p.nrow * p.ncol && C != w
    requires Unpacked(p, b, w[..])
    modifies C
    ensures AllIn(p, RowUpdates(r, c, p.First(b), p.Width(b)))
    ensures C[..] == Effect(p, RowUpdates(r, c, p.First(b), p.Width(b)), old(C[..]))
  {
    BlockBounds(p, b);
    var j0, jn := p.First(b), p.Width(b);
    hide *;
    ghost var m, row := C[..], w[..];
    var alpha := p.Alpha(r, c);
    RowStart(p, r, c, j0, m);
    for j := 0 to jn
      invariant AllIn(p, RowUpdates(r, c, j0, j)) && C[..] == Effect(p, RowUpdates(r, c, j0, j), m) && w[..] == row
    {
      UnpackedAt(p, b, row, c, j);
      RowIn(p, r, c, j0, j + 1);
      RowStep(p, r, c, j0, j, m);
      var i := At(r, p.ncol, j0 + j);
      C[i] := p.add(C[i], p.mul(alpha, w[At(c, jn, j)]));
    }
  }

  lemma UnpackedAt<F, H>(p: Problem<F, H>, b: nat, w: seq<F>, c: nat, j: nat)
    requires p.Valid() && b < p.Blocks() && c < p.k && Unpacked(p, b, w) && j < p.Width(b)
    ensures At(c, p.Width(b), j) < |w| && p.First(b) + j < p.ncol
    ensures w[At(c, p.Width(b), j)] == p.Weight(c, p.First(b) + j)
  {
    assert Holds(p, b, w, c, j);
    WeightIs(p, c, p.First(b) + j);
  }

  lemma RowStart<F, H>(p: Problem<F, H>, r: nat, c: nat, j0: nat, m: seq<F>)
    requires p.Valid() && |m| == p.nrow * p.ncol
    ensures AllIn(p, RowUpdates(r, c, j0, 0)) && Effect(p, RowUpdates(r, c, j0, 0), m) == m
  {
  }

  lemma RowStep<F, H>(p: Problem<F, H>, r: nat, c: nat, j0: nat, j: nat, m: seq<F>)
    requires p.Valid() && r < p.nrow && c < p.k && j0 + j < p.ncol && |m| == p.nrow * p.ncol
    requires AllIn(p, RowUpdates(r, c, j0, j)) && AllIn(p, RowUpdates(r, c, j0, j + 1))
    ensures var before := Effect(p, RowUpdates(r, c, j0, j), m); var i := At(r, p.ncol, j0 + j);
            i < |m| && Effect(p, RowUpdates(r, c, j0, j + 1), m)
                         == before[i := p.add(before[i], p.mul(p.Alpha(r, c), p.Weight(c, j0 + j)))]
  {
    AtBound(r, p.nrow, p.ncol, j0 + j);
    var us := RowUpdates(r, c, j0, j + 1);
    assert us[..|us| - 1] == RowUpdates(r, c, j0, j);
  }

  /** One row of a block: all channels with a nonzero coefficient. */
  method UpdateRow<F, H>(p: Problem<F, H>, C: array<F>, w: array<F>, b: nat, r: nat)
    requires p.Valid() && b < p.Blocks() && r < p.nrow && C.Length == p.nrow * p.ncol && C != w
    requires Unpacked(p, b, w[..])
    modifies C
    ensures AllIn(p, ChannelUpdates(p, b, r, p.k))
    ensures C[..] == Effect(p, ChannelUpdates(p, b, r, p.k), old(C[..]))
  {
    hide *;
    ghost var m := C[..];
    ChannelsEmpty(p, b, r, m);
    for c := 0 to p.k
      invariant AllIn(p, ChannelUpdates(p, b, r, c)) && C[..] == Effect(p, ChannelUpdates(p, b, r, c), m)
    {
      ChannelsIn(p, b, r, c + 1);
      if !p.isZero(p.Alpha(r, c)) {
        AddChannel(p, C, w, b, r, c);
        ChannelAdded(p, b, r, c, m);
      } else {
        ChannelSkipped(p, b, r, c);
      }
    }
  }

  /** One block: all rows. */
  method UpdateBlock<F(0), H>(p: Problem<F, H>, C: array<F>, b: nat)
    requires p.Valid() && b < p.Blocks() && C.Length == p.nrow * p.ncol
    modifies C
    ensures AllIn(p, BlockUpdates(p, b, p.nrow))
    ensures C[..] == Effect(p, BlockUpdates(p, b, p.nrow), old(C[..]))
  {
    hide *;
    ghost var m := C[..];
    var w := Unpack(p, b);
    BlockEmpty(p, b, m);
    for r := 0 to p.nrow
      invariant Unpacked(p, b, w[..])
      invariant AllIn(p, BlockUpdates(p, b, r)) && C[..] == Effect(p, BlockUpdates(p, b, r), m)
    {
      UpdateRow(p, C, w, b, r);
      BlockStep(p, b, r);
      EffectConcat(p, BlockUpdates(p, b, r), ChannelUpdates(p, b, r, p.k), m);
    }
  }

  lemma BlockEmpty<F, H>(p: Problem<F, H>, b: nat, m: seq<F>)
    requires p.Valid() && b < p.Blocks() && |m| == p.nrow * p.ncol
    ensures AllIn(p, BlockUpdates(p, b, 0)) && Effect(p, BlockUpdates(p, b, 0), m) == m
  {
  }

  lemma ChannelsEmpty<F, H>(p: Problem<F, H>, b: nat, r: nat, m: seq<F>)
    requires p.Valid() && b < p.Blocks() && r < p.nrow && |m| == p.nrow * p.ncol
    ensures AllIn(p, ChannelUpdates(p, b, r, 0)) && Effect(p, ChannelUpdates(p, b, r, 0), m) == m
  {
  }

  lemma ChannelSkipped<F, H>(p: Problem<F, H>, b: nat, r: nat, c: nat)
    requires p.Valid() && b < p.Blocks() && r < p.nrow && c < p.k && p.isZero(p.Alpha(r, c))
    ensures ChannelUpdates(p, b, r, c + 1) == ChannelUpdates(p, b, r, c)
  {
    assert ChannelUpdates(p, b, r, c + 1) == ChannelUpdates(p, b, r, c) + [];
  }

  lemma ChannelAdded<F, H>(p: Problem<F, H>, b: nat, r: nat, c: nat, m: seq<F>)
    requires p.Valid() && b < p.Blocks() && r < p.nrow && c < p.k && !p.isZero(p.Alpha(r, c)) && |m| == p.nrow * p.ncol
    requires AllIn(p, ChannelUpdates(p, b, r, c)) && AllIn(p, RowUpdates(r, c, p.First(b), p.Width(b)))
    requires AllIn(p, ChannelUpdates(p, b, r, c + 1))
    ensures Effect(p, ChannelUpdates(p, b, r, c + 1), m)
         == Effect(p, RowUpdates(r, c, p.First(b), p.Width(b)), Effect(p, ChannelUpdates(p, b, r, c), m))
  {
    hide Effect, In, RowUpdates;
    EffectConcat(p, ChannelUpdates(p, b, r, c), RowUpdates(r, c, p.First(b), p.Width(b)), m);
  }

  // ------------------------------------------------------------------ the whole update

  /** The blocks one after another, as a single thread runs them. */
  ghost function AllBlocks<F, H>(p: Problem<F, H>, n: nat): seq<Update>
    requires p.Valid() && n <= p.Blocks()
  {
    if n == 0 then [] else AllBlocks(p, n - 1) + BlockUpdates(p, n - 1, p.nrow)
  }

  lemma {:induction false} OnBlockConcat(a: seq<Update>, c: seq<Update>, b: nat)
    ensures OnBlock(a + c, b) == OnBlock(a, b) + OnBlock(c, b)
  {
    if c == [] {
      assert a + c == a;
    } else {
      OnBlockConcat(a, c[..|c| - 1], b);
      assert (a + c)[..|a + c| - 1] == a + c[..|c| - 1];
    }
  }

  /** All of us lie in block b. */
  ghost predicate Inside(us: seq<Update>, b: nat) {
    forall i :: 0 <= i < |us| ==> us[i].j / BLK == b
  }

  lemma {:induction false} OnOwnBlock(us: seq<Update>, a: nat, b: nat)
    requires Inside(us, a)
    ensures OnBlock(us, b) == if a == b then us else []
  {
    if us != [] { OnOwnBlock(us[..|us| - 1], a, b); }
  }

  lemma {:induction false} RowInside(r: nat, c: nat, j0: nat, n: nat, b: nat)
    requires forall j: nat :: j0 <= j < j0 + n ==> j / BLK == b
    ensures Inside(RowUpdates(r, c, j0, n), b)
  {
    if n > 0 { RowInside(r, c, j0, n - 1, b); }
  }

  lemma {:induction false} ChannelsInside<F, H>(p: Problem<F, H>, b: nat, r: nat, n: nat)
    requires p.Valid() && b < p.Blocks() && r < p.nrow && n <= p.k
    ensures Inside(ChannelUpdates(p, b, r, n), b)
  {
    if n > 0 {
      ChannelsInside(p, b, r, n - 1);
      BlockBounds(p, b);
      RowInside(r, n - 1, p.First(b), p.Width(b), b);
    }
  }

  lemma {:induction false} BlockInside<F, H>(p: Problem<F, H>, b: nat, n: nat)
    requires p.Valid() && b < p.Blocks() && n <= p.nrow
    ensures Inside(BlockUpdates(p, b, n), b)
  {
    if n > 0 {
      BlockInside(p, b, n - 1);
      ChannelsInside(p, b, n - 1, p.k);
    }
  }

  lemma {:induction false} AllBlocksIn<F, H>(p: Problem<F, H>, n: nat)
    requires p.Valid() && n <= p.Blocks()
    ensures AllIn(p, AllBlocks(p, n))
  {
    hide *;
    if n == 0 {
      NoBlocksIn(p);
    } else {
      AllBlocksIn(p, n - 1);
      BlockIn(p, n - 1, p.nrow);
      AllBlocksNext(p, n - 1);
      InConcat(p, AllBlocks(p, n - 1), BlockUpdates(p, n - 1, p.nrow));
    }
  }

  lemma NoBlocksIn<F, H>(p: Problem<F, H>)
    requires p.Valid()
    ensures AllIn(p, AllBlocks(p, 0))
  {
  }

  lemma InConcat<F, H>(p: Problem<F, H>, a: seq<Update>, b: seq<Update>)
    requires AllIn(p, a) && AllIn(p, b)
    ensures AllIn(p, a + b)
  {
  }

  lemma {:induction false} AllBlocksOn<F, H>(p: Problem<F, H>, n: nat, b: nat)
    requires p.Valid() && n <= p.Blocks() && b < p.Blocks()
    ensures OnBlock(AllBlocks(p, n), b) == if b < n then BlockUpdates(p, b, p.nrow) else []
  {
    hide *;
    if n == 0 {
      NoBlocksOn(p, b);
    } else {
      var last := BlockUpdates(p, n - 1, p.nrow);
      AllBlocksOn(p, n - 1, b);
      AllBlocksNext(p, n - 1);
      BlockInside(p, n - 1, p.nrow);
      OnBlockConcat(AllBlocks(p, n - 1), last, b);
      OnOwnBlock(last, n - 1, b);
    }
  }

  lemma NoBlocksOn<F, H>(p: Problem<F, H>, b: nat)
    requires p.Valid()
    ensures OnBlock(AllBlocks(p, 0), b) == []
  {
  }

  /** barra_rank_update on one thread: every element gets its naive value. */
  method RankUpdate<F(0), H>(p: Problem<F, H>, C: array<F>)
    requires p.Valid() && C.Length == p.nrow * p.ncol
    modifies C
    ensures forall r: nat, j: nat :: r < p.nrow && j < p.ncol ==> NaiveAt(p, old(C[..]), C[..], r, j)
  {
    hide *;
    ghost var m := C[..];
    NoBlocks(p, m);
    for b := 0 to p.Blocks()
      invariant AllIn(p, AllBlocks(p, b)) && C[..] == Effect(p, AllBlocks(p, b), m)
    {
      AllBlocksIn(p, b + 1);
      AllBlocksNext(p, b);
      BlockIn(p, b, p.nrow);
      UpdateBlock(p, C, b);
      EffectConcat(p, AllBlocks(p, b), BlockUpdates(p, b, p.nrow), m);
    }
    AllBlocksInterleave(p);
    forall r: nat, j: nat | r < p.nrow && j < p.ncol ensures NaiveAt(p, m, C[..], r, j) {
      UpdateIsNaive(p, AllBlocks(p, p.Blocks()), m, r, j);
    }
  }

  lemma NoBlocks<F, H>(p: Problem<F, H>, m: seq<F>)
    requires p.Valid() && |m| == p.nrow * p.ncol
    ensures AllIn(p, AllBlocks(p, 0)) && Effect(p, AllBlocks(p, 0), m) == m
  {
  }

  lemma AllBlocksNext<F, H>(p: Problem<F, H>, b: nat)
    requires p.Valid() && b < p.Blocks()
    ensures AllBlocks(p, b + 1) == AllBlocks(p, b) + BlockUpdates(p, b, p.nrow)
  {
  }

  lemma AllBlocksInterleave<F, H>(p: Problem<F, H>)
    requires p.Valid()
    ensures Interleaves(p, AllBlocks(p, p.Blocks()))
  {
    hide AllBlocks, In, BlockUpdates;
    AllBlocksIn(p, p.Blocks());
    forall b | 0 <= b < p.Blocks() ensures OnBlock(AllBlocks(p, p.Blocks()), b) == BlockUpdates(p, b, p.nrow) {
      AllBlocksOn(p, p.Blocks(), b);
    }
  }
}
