/** NonConsecutiveSum.maxSum: the largest sum of numbers when no two neighbouring blocks may both
    be taken, computed by filling a table left to right. */
module NonConsecutiveSum {
  import opened NonAdjacentSum

  method MaxSum(blocks: array<int>) returns (sum: int)
    ensures sum == Answer(blocks[..])
  {
    var length := blocks.Length;
    var dpArr := new int[length];
    if length == 0 {
      return 0;
    } else if length == 1 {
      return blocks[0];
    } else if length == 2 {
      return Max(blocks[0], blocks[1]);
    } else if length == 3 {
      return Max(blocks[0] + blocks[2], blocks[1]);
    }
    ghost var b := blocks[..];
    dpArr[0] := blocks[0];
    dpArr[1] := blocks[1];
    dpArr[2] := blocks[0] + blocks[2];
    assert dpArr[0] == Dp(b, 0) && dpArr[1] == Dp(b, 1) && dpArr[2] == Dp(b, 2);
    for i := 3 to length
      invariant forall k {:trigger dpArr[k]} :: 0 <= k < i ==> dpArr[k] == Dp(b, k)
    {
      DpStep(b, i);
      dpArr[i] := Max(blocks[i] + dpArr[i - 2], blocks[i] + dpArr[i - 3]);
    }
    assert b == blocks[..];
    assert Answer(b) == Max(Dp(b, length - 1), Dp(b, length - 2));
    return Max(dpArr[length - 1], dpArr[length - 2]);
  }
}
