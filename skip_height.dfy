/** The static helpers of ProbLinkedList.java: the height a list of n nodes should have, the
    probabilistic height of a new node, and the 32-bit subtraction the list uses to compare
    heights. */
module SkipHeight {

  const MIN_INT: int := -0x8000_0000
  const MAX_INT: int := 0x7fff_ffff

  function Pow2(k: nat): (p: nat)
    ensures p >= 1
  {
    if k == 0 then 1 else 2 * Pow2(k - 1)
  }

  /** The least k with n <= 2^k. */
  function CeilLog2(n: nat): (k: nat)
    requires n >= 1
    ensures n <= Pow2(k)
    ensures k > 0 ==> Pow2(k - 1) < n
    decreases n
  {
    if n == 1 then 0 else 1 + CeilLog2((n + 1) / 2)
  }

  /** getMaxHeight(n): 1 for a single node, otherwise ceil(log2 n) in exact integer arithmetic.
      Java's (int)Math.ceil(Math.log(n) / Math.log(2)) gives Integer.MIN_VALUE for n == 0
      (the logarithm is minus infinity) and 0 for negative n (it is NaN). */
  function GetMaxHeight(n: int): (h: int)
    ensures n == 1 ==> h == 1
    ensures n >= 2 ==> h >= 1 && Pow2(h - 1) < n <= Pow2(h)
    ensures n == 0 ==> h == MIN_INT
    ensures n < 0 ==> h == 0
  {
    if n == 1 then 1
    else if n >= 2 then CeilLog2(n)
    else if n == 0 then MIN_INT
    else 0
  }

  lemma {:induction false} CeilLog2Monotone(a: nat, b: nat)
    requires 1 <= a <= b
    ensures CeilLog2(a) <= CeilLog2(b)
    decreases b
  {
    if a > 1 {
      CeilLog2Monotone((a + 1) / 2, (b + 1) / 2);
    }
  }

  /** A list with more nodes never asks for a lower height. */
  lemma GetMaxHeightMonotone(a: int, b: int)
    requires 1 <= a <= b
    ensures 1 <= GetMaxHeight(a) <= GetMaxHeight(b)
  {
    if a >= 2 {
      CeilLog2Monotone(a, b);
    }
  }

  lemma {:induction false} CeilLog2Below(n: nat)
    requires n >= 1
    ensures CeilLog2(n) < n
    decreases n
  {
    if n > 1 {
      CeilLog2Below((n + 1) / 2);
    }
  }

  /** The height never exceeds the number of nodes. */
  lemma GetMaxHeightAtMostSize(n: int)
    requires n >= 1
    ensures GetMaxHeight(n) <= n
  {
    if n >= 2 {
      CeilLog2Below(n);
    }
  }

  lemma {:induction false} Pow2Monotone(a: nat, b: nat)
    requires a <= b
    ensures Pow2(a) <= Pow2(b)
    decreases b
  {
    if a < b {
      Pow2Monotone(a, b - 1);
    }
  }

  /** CeilLog2(n) is the least k with n <= 2^k. */
  lemma {:induction false} CeilLog2Least(n: nat, k: nat)
    requires 1 <= n <= Pow2(k)
    ensures CeilLog2(n) <= k
    decreases n
  {
    if n > 1 {
      CeilLog2Least((n + 1) / 2, k - 1);
    }
  }

  /** The height a list of n nodes should have, and 1 for the empty list. */
  function ExpectedHeight(n: nat): (h: int)
    ensures 1 <= h && (n >= 1 ==> h == GetMaxHeight(n))
  {
    if n == 0 then 1 else GetMaxHeight(n)
  }

  /** One more node raises the expected height by at most one level, and never lowers it. */
  lemma ExpectedHeightStep(n: nat)
    ensures ExpectedHeight(n) <= ExpectedHeight(n + 1) <= ExpectedHeight(n) + 1
  {
    if n >= 1 {
      GetMaxHeightMonotone(n, n + 1);
    }
    if n >= 2 {
      var k := CeilLog2(n);
      Pow2Monotone(0, k);
      CeilLog2Least(n + 1, k + 1);
    }
  }

  /** Java's a - b on int: the mathematical difference wrapped into [MIN_INT, MAX_INT]. */
  function Sub32(a: int, b: int): (d: int)
    ensures MIN_INT <= d <= MAX_INT
    ensures (d - (a - b)) % 0x1_0000_0000 == 0
    ensures MIN_INT <= a - b <= MAX_INT ==> d == a - b
  {
    (a - b - MIN_INT) % 0x1_0000_0000 + MIN_INT
  }

  /** Once a delete empties the list, getMaxHeight(0) - maxHeight overflows to a positive
      number, so the shrink test `newMaxHeight - oldMaxHeight < 0` fails for every height. */
  lemma EmptiedListIsNotShrunk(maxHeight: int)
    requires 1 <= maxHeight <= MAX_INT
    ensures Sub32(GetMaxHeight(0), maxHeight) == 0x8000_0000 - maxHeight
    ensures Sub32(GetMaxHeight(0), maxHeight) > 0
  {
    var d := GetMaxHeight(0) - maxHeight - MIN_INT;
    assert d == -maxHeight;
    assert (d % 0x1_0000_0000) == 0x1_0000_0000 - maxHeight;
  }

  /** What the list keeps of its height m for n nodes: at least the height n calls for, and
      exactly that height unless the list was created with a height of its own. */
  ghost predicate HeightFits(n: nat, m: int, manual: bool) {
    ExpectedHeight(n) <= m <= MAX_INT && (!manual ==> m == ExpectedHeight(n))
  }

  /** After an insert brings the size to n + 1, the test `newMaxHeight - oldMaxHeight > 0`
      asks for exactly one more level when the height no longer fits, and for none otherwise. */
  lemma InsertedHeight(n: nat, m: int, manual: bool)
    requires HeightFits(n, m, manual) && n < MAX_INT
    ensures Sub32(GetMaxHeight(n + 1), m) > 0 ==> GetMaxHeight(n + 1) == m + 1 && HeightFits(n + 1, m + 1, manual)
    ensures Sub32(GetMaxHeight(n + 1), m) <= 0 ==> HeightFits(n + 1, m, manual)
  {
    ExpectedHeightStep(n);
    GetMaxHeightAtMostSize(n + 1);
  }

  /** When a delete brings the size n down to n - 1, the test `newMaxHeight - oldMaxHeight < 0`
      holds only for a list left non-empty whose height is above the one its size calls for. */
  lemma ShrinkTest(n: nat, m: int, manual: bool)
    requires n >= 1 && HeightFits(n, m, manual)
    ensures Sub32(GetMaxHeight(n - 1), m) < 0 <==> n >= 2 && GetMaxHeight(n - 1) < m
  {
    if n == 1 {
      EmptiedListIsNotShrunk(m);
    } else {
      GetMaxHeightMonotone(n - 1, n);
    }
  }

  /** The height m1 a delete leaves (trimSkipList's choice when the shrink test holds, m
      otherwise) fits the new size n - 1. */
  lemma DeletedHeight(n: nat, m: int, m1: int, manual: bool)
    requires n >= 1 && HeightFits(n, m, manual)
    requires m1 == if Sub32(GetMaxHeight(n - 1), m) < 0
      then (if manual && m > GetMaxHeight(n - 1) then GetMaxHeight(n - 1) else m - 1)
      else m
    ensures HeightFits(n - 1, m1, manual)
  {
    ShrinkTest(n, m, manual);
    if n >= 2 {
      GetMaxHeightMonotone(n - 1, n);
      ExpectedHeightStep(n - 1);
    }
  }

  /** The height generateRandomHeight reaches from height h: one more level for every further
      draw above one half, as long as the height is below maxHeight. */
  function HeightFrom(maxHeight: int, draw: nat -> bool, h: nat): (r: int)
    requires h >= 1
    ensures h <= r && (h <= maxHeight ==> r <= maxHeight)
    ensures forall j :: h - 1 <= j < r - 1 ==> draw(j)
    ensures r < maxHeight ==> !draw(r - 1)
    decreases maxHeight - h
  {
    if draw(h - 1) && h < maxHeight then HeightFrom(maxHeight, draw, h + 1) else h
  }

  /** generateRandomHeight(maxHeight): start at 1 and add a level while the next draw is above
      one half and the height is below maxHeight. draw(j) is the outcome of the j-th draw
      (Math.random() > 0.5). */
  method GenerateRandomHeight(maxHeight: int, draw: nat -> bool) returns (height: int)
    ensures height == HeightFrom(maxHeight, draw, 1)
    ensures 1 <= height
    ensures maxHeight >= 1 ==> height <= maxHeight
    ensures maxHeight <= 1 ==> height == 1
    ensures forall j :: 0 <= j < height - 1 ==> draw(j)
    ensures height < maxHeight ==> !draw(height - 1)
  {
    var j := 0;
    height := 1;
    while draw(j) && height < maxHeight
      invariant height == j + 1
      invariant maxHeight >= 1 ==> height <= maxHeight
      invariant maxHeight <= 1 ==> height == 1
      invariant forall k :: 0 <= k < j ==> draw(k)
      invariant HeightFrom(maxHeight, draw, height) == HeightFrom(maxHeight, draw, 1)
      decreases maxHeight - height
    {
      height := height + 1;
      j := j + 1;
    }
  }
}
