/** The specification shared by RunLikeHell.maxGain and NonConsecutiveSum.maxSum: the
    dynamic-programming table both routines fill, the value they return, and what that
    value means as a sum of pairwise non-adjacent blocks. */
module NonAdjacentSum {

  /** Java's Math.max on int. */
  function Max(a: int, b: int): (m: int)
    ensures m >= a && m >= b && (m == a || m == b)
  {
    if a >= b then a else b
  }

  /** Cell i of the table: the three seeded cells, then b[i] plus the better of the cells two
      and three places back. */
  function Dp(b: seq<int>, i: nat): int
    requires i < |b|
    decreases i
  {
    if i == 0 then b[0]
    else if i == 1 then b[1]
    else if i == 2 then b[0] + b[2]
    else Max(b[i] + Dp(b, i - 2), b[i] + Dp(b, i - 3))
  }

  /** The table's recurrence from cell 3 on. */
  lemma DpStep(b: seq<int>, i: nat)
    requires 3 <= i < |b|
    ensures Dp(b, i) == Max(b[i] + Dp(b, i - 2), b[i] + Dp(b, i - 3))
  {
  }

  /** What both routines return for the blocks b: the answers for lengths 0 to 3 directly,
      otherwise the better of the last two cells of the table. */
  function Answer(b: seq<int>): int {
    var n := |b|;
    if n == 0 then 0
    else if n == 1 then b[0]
    else if n == 2 then Max(b[0], b[1])
    else if n == 3 then Max(b[0] + b[2], b[1])
    else Max(Dp(b, n - 1), Dp(b, n - 2))
  }

  /** idx lists indices below n in increasing order, no two of them next to each other. */
  ghost predicate NonAdjacent(idx: seq<int>, n: int) {
    && (forall k :: 0 <= k < |idx| ==> 0 <= idx[k] < n)
    && (forall j, k :: 0 <= j < k < |idx| ==> idx[j] + 2 <= idx[k])
  }

  predicate InBounds(b: seq<int>, idx: seq<int>) {
    forall k :: 0 <= k < |idx| ==> 0 <= idx[k] < |b|
  }

  /** The sum of the blocks at the indices idx. */
  function SumAt(b: seq<int>, idx: seq<int>): int
    requires InBounds(b, idx)
    decreases |idx|
  {
    if idx == [] then 0 else SumAt(b, idx[..|idx| - 1]) + b[idx[|idx| - 1]]
  }

  ghost predicate NonNegative(b: seq<int>) {
    forall k :: 0 <= k < |b| ==> b[k] >= 0
  }

  /** v is the sum of some set of pairwise non-adjacent blocks (possibly the empty set). */
  ghost predicate Achievable(b: seq<int>, v: int) {
    exists idx :: NonAdjacent(idx, |b|) && SumAt(b, idx) == v
  }

  /** No set of pairwise non-adjacent blocks sums to more than v. */
  ghost predicate Dominates(b: seq<int>, v: int) {
    forall idx :: NonAdjacent(idx, |b|) ==> SumAt(b, idx) <= v
  }

  lemma SumAtSnoc(b: seq<int>, idx: seq<int>, i: int)
    requires InBounds(b, idx) && 0 <= i < |b|
    ensures InBounds(b, idx + [i]) && SumAt(b, idx + [i]) == SumAt(b, idx) + b[i]
  {
    assert (idx + [i])[..|idx|] == idx;
  }

  lemma NonAdjacentSnoc(idx: seq<int>, i: int)
    requires NonAdjacent(idx, i - 1) && 0 <= i
    ensures NonAdjacent(idx + [i], i + 1)
  {
  }

  /** Cell i of the table is the sum of a non-adjacent index set whose largest index is i. */
  function DpWitness(b: seq<int>, i: nat): (idx: seq<int>)
    requires i < |b|
    ensures NonAdjacent(idx, i + 1) && InBounds(b, idx)
    ensures |idx| > 0 && idx[|idx| - 1] == i
    ensures SumAt(b, idx) == Dp(b, i)
    decreases i
  {
    if i < 3 then SeedWitness(b, i)
    else
      var prev := Prev(b, i);
      var w := DpWitness(b, prev);
      WitnessSnoc(b, w, prev, i);
      w + [i]
  }

  /** The cell, two or three places back, that cell i of the table builds on. */
  function Prev(b: seq<int>, i: nat): (prev: nat)
    requires 3 <= i < |b|
    ensures (prev == i - 2 || prev == i - 3) && Dp(b, i) == b[i] + Dp(b, prev)
  {
    if b[i] + Dp(b, i - 2) >= b[i] + Dp(b, i - 3) then i - 2 else i - 3
  }

  /** The witnesses of the three seeded cells. */
  function SeedWitness(b: seq<int>, i: nat): (idx: seq<int>)
    requires i < |b| && i < 3
    ensures NonAdjacent(idx, i + 1) && InBounds(b, idx)
    ensures |idx| > 0 && idx[|idx| - 1] == i
    ensures SumAt(b, idx) == Dp(b, i)
  {
    if i == 0 then [0]
    else if i == 1 then [1]
    else
      SumAtSnoc(b, [0], 2);
      [0, 2]
  }

  /** Extending a witness for cell prev, two or three places back, by index i. */
  lemma WitnessSnoc(b: seq<int>, w: seq<int>, prev: nat, i: nat)
    requires i < |b| && (prev == i - 2 || prev == i - 3)
    requires NonAdjacent(w, prev + 1) && InBounds(b, w)
    requires |w| > 0 && w[|w| - 1] == prev
    ensures NonAdjacent(w + [i], i + 1) && InBounds(b, w + [i])
    ensures (w + [i])[|w|] == i
    ensures SumAt(b, w + [i]) == SumAt(b, w) + b[i]
  {
    assert NonAdjacent(w, i - 1);
    NonAdjacentSnoc(w, i);
    SumAtSnoc(b, w, i);
  }

  /** Whatever the signs of the blocks, the answer is the sum of some non-adjacent set. */
  function AnswerWitness(b: seq<int>): (idx: seq<int>)
    ensures NonAdjacent(idx, |b|) && InBounds(b, idx)
    ensures SumAt(b, idx) == Answer(b)
  {
    var n := |b|;
    if n == 0 then []
    else if n == 1 then [0]
    else if n == 2 then (if b[0] >= b[1] then [0] else [1])
    else if n == 3 then
      if b[0] + b[2] >= b[1] then SeedWitness(b, 2) else [1]
    else if Dp(b, n - 1) >= Dp(b, n - 2) then DpWitness(b, n - 1)
    else DpWitness(b, n - 2)
  }

  lemma AnswerAchievable(b: seq<int>)
    ensures Achievable(b, Answer(b))
  {
    var idx := AnswerWitness(b);
    assert NonAdjacent(idx, |b|) && SumAt(b, idx) == Answer(b);
  }

  /** The better of the table's cells k and k - 1. */
  function Best(b: seq<int>, k: nat): int
    requires k < |b|
  {
    if k == 0 then Dp(b, 0) else Max(Dp(b, k), Dp(b, k - 1))
  }

  lemma {:induction false} DpAtLeastBlock(b: seq<int>, i: nat)
    requires NonNegative(b) && i < |b|
    ensures Dp(b, i) >= b[i] >= 0
    decreases i
  {
    if i >= 3 {
      DpAtLeastBlock(b, i - 2);
    }
  }

  /** On non-negative blocks no earlier cell exceeds Best(b, k). */
  lemma {:induction false} DpBoundedByBest(b: seq<int>, j: nat, k: nat)
    requires NonNegative(b) && j <= k < |b|
    ensures Dp(b, j) <= Best(b, k)
    decreases k - j
  {
    if j < k {
      DpBoundedByBest(b, j, k - 1);
      if k >= 3 {
        DpAtLeastBlock(b, k);
        DpAtLeastBlock(b, k - 2);
      }
    }
  }

  /** On non-negative blocks a non-adjacent set ending at index i sums to at most cell i. */
  lemma {:induction false} SumBoundedByDp(b: seq<int>, idx: seq<int>)
    requires NonNegative(b) && NonAdjacent(idx, |b|) && |idx| > 0
    ensures InBounds(b, idx) && SumAt(b, idx) <= Dp(b, idx[|idx| - 1])
    decreases |idx|
  {
    var i := idx[|idx| - 1];
    var w := idx[..|idx| - 1];
    if |idx| == 1 {
      DpAtLeastBlock(b, i);
    } else {
      assert NonAdjacent(w, |b|);
      var j := w[|w| - 1];
      assert j + 2 <= i;
      SumBoundedByDp(b, w);
      if i >= 3 {
        DpBoundedByBest(b, j, i - 2);
      }
    }
  }

  lemma AnswerIsBest(b: seq<int>)
    requires |b| > 0
    ensures Answer(b) == Best(b, |b| - 1)
  {
  }

  /** On non-negative blocks the answer is the largest sum over non-adjacent index sets. */
  lemma AnswerDominates(b: seq<int>)
    requires NonNegative(b)
    ensures Dominates(b, Answer(b))
  {
    forall idx | NonAdjacent(idx, |b|)
      ensures SumAt(b, idx) <= Answer(b)
    {
      if |b| > 0 {
        AnswerIsBest(b);
        DpBoundedByBest(b, 0, |b| - 1);
        DpAtLeastBlock(b, 0);
        if |idx| > 0 {
          var last := idx[|idx| - 1];
          SumBoundedByDp(b, idx);
          DpBoundedByBest(b, last, |b| - 1);
        }
      }
    }
  }

  /** The answers for a few small block sequences, one for each branch of the code. */
  lemma Examples()
    ensures Answer([]) == 0 && Answer([5]) == 5 && Answer([3, 7]) == 7
    ensures Answer([3, 7, 2]) == 7 && Answer([3, 7, 2, 8, 1]) == 15
  {
    var b := [3, 7, 2, 8, 1];
    assert Dp(b, 2) == 5 && Dp(b, 3) == 15 && Dp(b, 4) == 8;
  }
}
