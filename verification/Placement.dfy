/** Placing barriers in a sequence of stages so that every clashing pair is split.
    Greedy placement (a barrier only where the current segment clashes) is optimal. */
module Placement {

  /** `bars[j]`: a barrier in front of stage j. */
  function Count(bars: seq<bool>): nat {
    if bars == [] then 0 else
      Count(bars[..|bars| - 1]) + if bars[|bars| - 1] then 1 else 0
  }

  /** Where the last segment begins. */
  function LastBar(bars: seq<bool>): nat {
    if bars == [] then 0 else
    if bars[|bars| - 1] then |bars| - 1 else LastBar(bars[..|bars| - 1])
  }

  /** Every clashing pair has a barrier in between. */
  ghost predicate Splits(clash: (nat, nat) -> bool, bars: seq<bool>) {
    forall i, j :: 0 <= i < j < |bars| && clash(i, j) ==> exists b :: i < b <= j && bars[b]
  }

  /** A barrier exactly where a stage clashes with the segment before it. */
  ghost predicate Greedy(clash: (nat, nat) -> bool, bars: seq<bool>) {
    forall j :: 0 <= j < |bars| ==> (bars[j] <==> exists k :: LastBar(bars[..j]) <= k < j && clash(k, j))
  }

  lemma {:induction false} LastBarIsLast(bars: seq<bool>, b: nat)
    requires b < |bars| && bars[b]
    ensures b <= LastBar(bars)
  {
    if b < |bars| - 1 {
      LastBarIsLast(bars[..|bars| - 1], b);
    }
  }

  lemma {:induction false} LastBarInside(bars: seq<bool>)
    ensures LastBar(bars) <= |bars|
    ensures LastBar(bars) > 0 ==> LastBar(bars) < |bars| && bars[LastBar(bars)]
  {
    if bars != [] {
      LastBarInside(bars[..|bars| - 1]);
    }
  }

  /** Greedy never has more barriers on a prefix, and with equally many its last one lies at least as far right. */
  lemma {:induction false} StaysAhead(clash: (nat, nat) -> bool, greedy: seq<bool>, bars: seq<bool>, n: nat)
    requires |greedy| == |bars| && n <= |bars|
    requires Greedy(clash, greedy) && Splits(clash, bars)
    ensures Count(greedy[..n]) <= Count(bars[..n])
    ensures Count(greedy[..n]) == Count(bars[..n]) ==> LastBar(bars[..n]) <= LastBar(greedy[..n])
  {
    if n > 0 {
      var j := n - 1;
      StaysAhead(clash, greedy, bars, j);
      assert greedy[..n][..j] == greedy[..j] && bars[..n][..j] == bars[..j];
      LastBarInside(bars[..j]);
      if greedy[j] && !bars[j] {
        var k :| LastBar(greedy[..j]) <= k < j && clash(k, j);
        var b :| k < b <= j && bars[b];
        LastBarIsLast(bars[..j], b);
      }
    }
  }

  /** No valid placement has fewer barriers than the greedy one. */
  lemma GreedyIsOptimal(clash: (nat, nat) -> bool, greedy: seq<bool>, bars: seq<bool>)
    requires |greedy| == |bars| && Greedy(clash, greedy) && Splits(clash, bars)
    ensures Count(greedy) <= Count(bars)
  {
    StaysAhead(clash, greedy, bars, |bars|);
    assert greedy[..|bars|] == greedy && bars[..|bars|] == bars;
  }

  /** The greedy placement is itself valid. */
  lemma GreedySplits(clash: (nat, nat) -> bool, greedy: seq<bool>)
    requires Greedy(clash, greedy)
    ensures Splits(clash, greedy)
  {
    forall i, j | 0 <= i < j < |greedy| && clash(i, j)
      ensures exists b :: i < b <= j && greedy[b]
    {
      var start := LastBar(greedy[..j]);
      LastBarInside(greedy[..j]);
      if start <= i {
        assert greedy[j];
      } else {
        assert greedy[start];
      }
    }
  }
}
