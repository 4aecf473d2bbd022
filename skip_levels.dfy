/** What a skip list holds, seen level by level. The data nodes in level-0 order are a sequence
    of entries (value and height); level l lists, in the same order, the values of the entries
    taller than l. Every operation of the list is specified as a change of this sequence, and
    the lemmas here say what each change does to the levels. */
module SkipLevels {

  /** One data node: its value and its height (number of levels it is linked into). */
  datatype Entry = Entry(value: int, height: nat)

  ghost predicate Sorted(es: seq<Entry>) {
    forall i, j :: 0 <= i < j < |es| ==> es[i].value < es[j].value
  }

  ghost predicate Increasing(s: seq<int>) {
    forall i, j :: 0 <= i < j < |s| ==> s[i] < s[j]
  }

  function Values(es: seq<Entry>): (vs: seq<int>)
    ensures |vs| == |es| && forall k :: 0 <= k < |es| ==> vs[k] == es[k].value
  {
    seq(|es|, k requires 0 <= k < |es| => es[k].value)
  }

  /** The values of level l, in order. */
  function Level(es: seq<Entry>, l: nat): seq<int>
    decreases |es|
  {
    if es == [] then []
    else (if es[0].height > l then [es[0].value] else []) + Level(es[1..], l)
  }

  /** The number of entries whose value is below x: where x goes in a sorted sequence. */
  function Position(es: seq<Entry>, x: int): (p: nat)
    requires Sorted(es)
    ensures p <= |es|
    ensures forall k :: 0 <= k < p ==> es[k].value < x
    ensures forall k :: p <= k < |es| ==> es[k].value >= x
    decreases |es|
  {
    if es == [] || es[0].value >= x then 0 else 1 + Position(es[1..], x)
  }

  /** s with x inserted before the first element not below it. */
  function PlaceInOrder(s: seq<int>, x: int): (r: seq<int>)
    ensures |r| == |s| + 1
    ensures forall y :: y in r <==> y in s || y == x
    decreases |s|
  {
    if s == [] then [x]
    else if s[0] < x then [s[0]] + PlaceInOrder(s[1..], x)
    else [x] + s
  }

  /** s with every occurrence of x removed, the rest in order. */
  function Without(s: seq<int>, x: int): (r: seq<int>)
    ensures forall y :: y in r <==> y in s && y != x
    ensures x !in s ==> r == s
    decreases |s|
  {
    if s == [] then []
    else (if s[0] == x then [] else [s[0]]) + Without(s[1..], x)
  }

  /** a is obtained from b by leaving elements out. */
  ghost predicate IsSubsequence(a: seq<int>, b: seq<int>)
    decreases |b|
  {
    a == [] || (b != [] && ((a[0] == b[0] && IsSubsequence(a[1..], b[1..])) || IsSubsequence(a, b[1..])))
  }

  /** growSkipList: every entry at the old top height `top + 1` whose coin comes up gains a
      level. */
  function Grown(es: seq<Entry>, top: nat, coins: seq<bool>): (r: seq<Entry>)
    requires |coins| == |es|
    ensures |r| == |es|
    ensures forall k :: 0 <= k < |es| ==> r[k].value == es[k].value
    ensures forall k :: 0 <= k < |es| ==>
      r[k].height == es[k].height + (if es[k].height == top + 1 && coins[k] then 1 else 0)
  {
    seq(|es|, k requires 0 <= k < |es| =>
      if es[k].height == top + 1 && coins[k] then Entry(es[k].value, es[k].height + 1) else es[k])
  }

  /** trimSkipList: every entry cut down to at most h levels. */
  function Trimmed(es: seq<Entry>, h: nat): (r: seq<Entry>)
    ensures |r| == |es|
    ensures forall k :: 0 <= k < |es| ==> r[k].value == es[k].value
    ensures forall k :: 0 <= k < |es| ==> r[k].height == if es[k].height <= h then es[k].height else h
  {
    seq(|es|, k requires 0 <= k < |es| =>
      Entry(es[k].value, if es[k].height <= h then es[k].height else h))
  }

  lemma {:induction false} LevelConcat(a: seq<Entry>, b: seq<Entry>, l: nat)
    ensures Level(a + b, l) == Level(a, l) + Level(b, l)
    decreases |a|
  {
    if a != [] {
      var head := if a[0].height > l then [a[0].value] else [];
      assert (a + b)[0] == a[0] && (a + b)[1..] == a[1..] + b;
      assert Level(a + b, l) == head + Level(a[1..] + b, l);
      assert Level(a, l) == head + Level(a[1..], l);
      LevelConcat(a[1..], b, l);
    } else {
      assert a + b == b;
    }
  }

  /** Level l holds exactly the values of the entries taller than l. */
  lemma {:induction false} LevelMembers(es: seq<Entry>, l: nat, y: int)
    ensures y in Level(es, l) <==> exists k :: 0 <= k < |es| && es[k].height > l && es[k].value == y
    decreases |es|
  {
    if es != [] {
      LevelMembers(es[1..], l, y);
      if y in Level(es[1..], l) {
        var k :| 0 <= k < |es[1..]| && es[1..][k].height > l && es[1..][k].value == y;
        assert es[k + 1].height > l && es[k + 1].value == y;
      }
      if exists k :: 0 <= k < |es| && es[k].height > l && es[k].value == y {
        var k :| 0 <= k < |es| && es[k].height > l && es[k].value == y;
        if k > 0 {
          assert es[1..][k - 1] == es[k];
        }
      }
    }
  }

  /** Each level of a sorted list is strictly increasing. */
  lemma {:induction false} LevelIncreasing(es: seq<Entry>, l: nat)
    requires Sorted(es)
    ensures Increasing(Level(es, l))
    decreases |es|
  {
    if es != [] {
      LevelIncreasing(es[1..], l);
      var rest := Level(es[1..], l);
      forall y | y in rest
        ensures es[0].value < y
      {
        LevelMembers(es[1..], l, y);
      }
      var s := Level(es, l);
      if es[0].height > l {
        forall i, j | 0 <= i < j < |s|
          ensures s[i] < s[j]
        {
          if i == 0 {
            assert s[j] == rest[j - 1] && s[j] in rest;
          } else {
            assert s[i] == rest[i - 1] && s[j] == rest[j - 1];
          }
        }
      }
    }
  }

  /** Levels depend only on values and on which entries are taller than the level. */
  lemma {:induction false} LevelPointwise(es1: seq<Entry>, es2: seq<Entry>, l1: nat, l2: nat)
    requires |es1| == |es2|
    requires forall k :: 0 <= k < |es1| ==> es1[k].value == es2[k].value
    requires forall k :: 0 <= k < |es1| ==> (es1[k].height > l1 <==> es2[k].height > l2)
    ensures Level(es1, l1) == Level(es2, l2)
    decreases |es1|
  {
    if es1 != [] {
      LevelPointwise(es1[1..], es2[1..], l1, l2);
    }
  }

  /** If every entry taller than l1 in es1 is taller than l2 in es2, level l1 of es1 keeps a
      subset of the values of level l2 of es2, in their order. */
  lemma {:induction false} LevelSubsequenceOf(es1: seq<Entry>, es2: seq<Entry>, l1: nat, l2: nat)
    requires |es1| == |es2|
    requires forall k :: 0 <= k < |es1| ==> es1[k].value == es2[k].value
    requires forall k :: 0 <= k < |es1| ==> es1[k].height > l1 ==> es2[k].height > l2
    ensures IsSubsequence(Level(es1, l1), Level(es2, l2))
    decreases |es1|
  {
    if es1 != [] {
      LevelSubsequenceOf(es1[1..], es2[1..], l1, l2);
      var a, b := Level(es1, l1), Level(es2, l2);
      if es1[0].height > l1 {
        assert a[0] == b[0] && a[1..] == Level(es1[1..], l1) && b[1..] == Level(es2[1..], l2);
      } else if es2[0].height > l2 {
        assert a == Level(es1[1..], l1) && b[1..] == Level(es2[1..], l2);
        assert b != [] && IsSubsequence(a, b[1..]);
      } else {
        assert a == Level(es1[1..], l1) && b == Level(es2[1..], l2);
      }
    }
  }

  /** Level l + 1 is a subsequence of level l. */
  lemma LevelAboveIsSubsequence(es: seq<Entry>, l: nat)
    ensures IsSubsequence(Level(es, l + 1), Level(es, l))
  {
    LevelSubsequenceOf(es, es, l + 1, l);
  }

  /** When every entry has at least one level, level 0 lists every value. */
  lemma {:induction false} LevelZero(es: seq<Entry>)
    requires forall k :: 0 <= k < |es| ==> es[k].height >= 1
    ensures Level(es, 0) == Values(es)
    decreases |es|
  {
    if es != [] {
      LevelZero(es[1..]);
      assert Values(es) == [es[0].value] + Values(es[1..]);
    }
  }

  /** A level above every entry is empty. */
  lemma {:induction false} LevelEmpty(es: seq<Entry>, l: nat)
    requires forall k :: 0 <= k < |es| ==> es[k].height <= l
    ensures Level(es, l) == []
    decreases |es|
  {
    if es != [] {
      LevelEmpty(es[1..], l);
    }
  }

  /** The tail of an increasing sequence is increasing and above its head. */
  lemma IncreasingTail(s: seq<int>)
    requires Increasing(s) && s != []
    ensures Increasing(s[1..]) && forall y :: y in s[1..] ==> s[0] < y
  {
    forall i, j | 0 <= i < j < |s[1..]|
      ensures s[1..][i] < s[1..][j]
    {
      assert s[1..][i] == s[i + 1] && s[1..][j] == s[j + 1];
    }
  }

  /** A value below every element of an increasing sequence can go in front of it. */
  lemma IncreasingCons(a: int, t: seq<int>)
    requires Increasing(t) && forall y :: y in t ==> a < y
    ensures Increasing([a] + t)
  {
    var r := [a] + t;
    forall i, j | 0 <= i < j < |r|
      ensures r[i] < r[j]
    {
      assert r[j] == t[j - 1] && t[j - 1] in t;
      if i > 0 {
        assert r[i] == t[i - 1];
      }
    }
  }

  /** Placing a new value into an increasing sequence keeps it increasing. */
  lemma {:induction false} PlaceInOrderIncreasing(s: seq<int>, x: int)
    requires Increasing(s) && x !in s
    ensures Increasing(PlaceInOrder(s, x))
    decreases |s|
  {
    if s != [] {
      IncreasingTail(s);
      assert s == [s[0]] + s[1..];
      if s[0] < x {
        PlaceInOrderIncreasing(s[1..], x);
        IncreasingCons(s[0], PlaceInOrder(s[1..], x));
      } else {
        IncreasingCons(x, s);
      }
    }
  }

  lemma {:induction false} PlaceBetween(a: seq<int>, b: seq<int>, x: int)
    requires forall y :: y in a ==> y < x
    requires forall y :: y in b ==> y > x
    ensures PlaceInOrder(a + b, x) == a + [x] + b
    decreases |a|
  {
    if a == [] {
      if b != [] {
        assert b[0] in b;
      }
    } else {
      assert (a + b)[0] == a[0] && (a + b)[1..] == a[1..] + b;
      assert a[0] in a;
      forall y | y in a[1..]
        ensures y < x
      {
        assert y in a;
      }
      PlaceBetween(a[1..], b, x);
    }
  }

  lemma {:induction false} WithoutConcat(a: seq<int>, b: seq<int>, x: int)
    ensures Without(a + b, x) == Without(a, x) + Without(b, x)
    decreases |a|
  {
    if a != [] {
      var head := if a[0] == x then [] else [a[0]];
      assert (a + b)[0] == a[0] && (a + b)[1..] == a[1..] + b;
      assert Without(a + b, x) == head + Without(a[1..] + b, x);
      assert Without(a, x) == head + Without(a[1..], x);
      WithoutConcat(a[1..], b, x);
    } else {
      assert a + b == b;
    }
  }

  lemma LevelValuesBelow(es: seq<Entry>, l: nat, x: int)
    requires forall k :: 0 <= k < |es| ==> es[k].value < x
    ensures forall y :: y in Level(es, l) ==> y < x
  {
    forall y | y in Level(es, l)
      ensures y < x
    {
      LevelMembers(es, l, y);
    }
  }

  lemma LevelValuesAbove(es: seq<Entry>, l: nat, x: int)
    requires forall k :: 0 <= k < |es| ==> es[k].value > x
    ensures forall y :: y in Level(es, l) ==> y > x
  {
    forall y | y in Level(es, l)
      ensures y > x
    {
      LevelMembers(es, l, y);
    }
  }

  /** The levels of a + [e] + b are those of a, then e's value where e is tall enough, then
      those of b. */
  lemma LevelAround(a: seq<Entry>, e: Entry, b: seq<Entry>, l: nat)
    ensures Level(a + [e] + b, l) == Level(a, l) + (if e.height > l then [e.value] else []) + Level(b, l)
  {
    LevelConcat(a + [e], b, l);
    LevelConcat(a, [e], l);
    assert Level([e], l) == (if e.height > l then [e.value] else []) + Level([], l);
  }

  lemma LevelSplit(es: seq<Entry>, p: nat, l: nat)
    requires p <= |es|
    ensures Level(es, l) == Level(es[..p], l) + Level(es[p..], l)
  {
    assert es == es[..p] + es[p..];
    LevelConcat(es[..p], es[p..], l);
  }

  /** In a sorted list without x, the entries from x's position on are all above x. */
  lemma AfterPosition(es: seq<Entry>, x: int)
    requires Sorted(es) && x !in Values(es)
    ensures forall k :: 0 <= k < |es[Position(es, x)..]| ==> es[Position(es, x)..][k].value > x
  {
    var p := Position(es, x);
    forall k | 0 <= k < |es[p..]|
      ensures es[p..][k].value > x
    {
      assert es[p..][k] == es[p + k];
      assert Values(es)[p + k] == es[p + k].value;
    }
  }

  /** Inserting x of height h at its place changes exactly the levels below h: each of them
      gets x placed in order. */
  lemma InsertLevels(es: seq<Entry>, x: int, h: nat, l: nat)
    requires Sorted(es) && x !in Values(es)
    ensures var p := Position(es, x);
      Level(es[..p] + [Entry(x, h)] + es[p..], l)
        == if l < h then PlaceInOrder(Level(es, l), x) else Level(es, l)
  {
    var p := Position(es, x);
    LevelAround(es[..p], Entry(x, h), es[p..], l);
    LevelSplit(es, p, l);
    if l < h {
      AfterPosition(es, x);
      LevelValuesBelow(es[..p], l, x);
      LevelValuesAbove(es[p..], l, x);
      PlaceBetween(Level(es[..p], l), Level(es[p..], l), x);
    }
  }

  /** In a sorted list a + [e] + b, the entries of a are below e and those of b above. */
  lemma AroundEntry(a: seq<Entry>, e: Entry, b: seq<Entry>)
    requires Sorted(a + [e] + b)
    ensures forall k :: 0 <= k < |a| ==> a[k].value < e.value
    ensures forall k :: 0 <= k < |b| ==> b[k].value > e.value
  {
    var es := a + [e] + b;
    assert es[|a|] == e;
    forall k | 0 <= k < |a|
      ensures a[k].value < e.value
    {
      assert es[k] == a[k];
    }
    forall k | 0 <= k < |b|
      ensures b[k].value > e.value
    {
      assert es[|a| + 1 + k] == b[k];
    }
  }

  /** Removing x from la + mid + lb, where only mid may hold x, leaves la + lb. */
  lemma WithoutMiddle(la: seq<int>, mid: seq<int>, lb: seq<int>, x: int)
    requires x !in la && x !in lb && (mid == [] || mid == [x])
    ensures Without(la + mid + lb, x) == la + lb
  {
    if mid == [] {
      assert la + mid + lb == la + lb;
      WithoutConcat(la, lb, x);
    } else {
      WithoutConcat(la + mid, lb, x);
      WithoutConcat(la, mid, x);
      assert mid[1..] == [];
      assert Without(mid, x) == [];
    }
  }

  lemma RemoveBetween(a: seq<Entry>, e: Entry, b: seq<Entry>, l: nat)
    requires forall k :: 0 <= k < |a| ==> a[k].value < e.value
    requires forall k :: 0 <= k < |b| ==> b[k].value > e.value
    ensures Level(a + b, l) == Without(Level(a + [e] + b, l), e.value)
  {
    var x := e.value;
    LevelAround(a, e, b, l);
    LevelConcat(a, b, l);
    LevelValuesBelow(a, l, x);
    LevelValuesAbove(b, l, x);
    WithoutMiddle(Level(a, l), if e.height > l then [x] else [], Level(b, l), x);
  }

  /** Removing the entry at p removes its value from every level and keeps the rest in order. */
  lemma RemoveLevels(es: seq<Entry>, p: nat, l: nat)
    requires Sorted(es) && p < |es|
    ensures Level(es[..p] + es[p + 1..], l) == Without(Level(es, l), es[p].value)
  {
    var a, b := es[..p], es[p + 1..];
    assert es == a + [es[p]] + b;
    AroundEntry(a, es[p], b);
    RemoveBetween(a, es[p], b, l);
  }

  /** Inserting x at its position keeps the entries sorted. */
  lemma InsertSorted(es: seq<Entry>, x: int, h: nat)
    requires Sorted(es) && x !in Values(es)
    ensures Sorted(es[..Position(es, x)] + [Entry(x, h)] + es[Position(es, x)..])
  {
    var p := Position(es, x);
    var es1 := es[..p] + [Entry(x, h)] + es[p..];
    AfterPosition(es, x);
    forall i, j | 0 <= i < j < |es1|
      ensures es1[i].value < es1[j].value
    {
      if j < p {
        assert es1[i] == es[i] && es1[j] == es[j];
      } else if j == p {
        assert es1[i] == es[i];
      } else if i < p {
        assert es1[i] == es[i] && es1[j] == es[j - 1];
      } else if i == p {
        assert es1[j] == es[p..][j - 1 - p];
      } else {
        assert es1[i] == es[i - 1] && es1[j] == es[j - 1];
      }
    }
  }

  /** Removing the entry at p keeps the entries sorted. */
  lemma RemoveSorted(es: seq<Entry>, p: nat)
    requires Sorted(es) && p < |es|
    ensures Sorted(es[..p] + es[p + 1..])
  {
    var es1 := es[..p] + es[p + 1..];
    forall i, j | 0 <= i < j < |es1|
      ensures es1[i].value < es1[j].value
    {
      assert es1[i] == if i < p then es[i] else es[i + 1];
      assert es1[j] == if j < p then es[j] else es[j + 1];
    }
  }

  /** Growing leaves every level up to the old top as it was, and the new level above it keeps
      a subset of the old top level, in order. */
  lemma GrowLevels(es: seq<Entry>, top: nat, coins: seq<bool>, l: nat)
    requires |coins| == |es|
    requires forall k :: 0 <= k < |es| ==> es[k].height <= top + 1
    ensures l <= top ==> Level(Grown(es, top, coins), l) == Level(es, l)
    ensures IsSubsequence(Level(Grown(es, top, coins), top + 1), Level(es, top))
  {
    var g := Grown(es, top, coins);
    if l <= top {
      LevelPointwise(g, es, l, l);
    }
    LevelSubsequenceOf(g, es, top + 1, top);
  }

  /** Trimming to h leaves the levels below h as they were and empties the others. */
  lemma TrimLevels(es: seq<Entry>, h: nat, l: nat)
    ensures l < h ==> Level(Trimmed(es, h), l) == Level(es, l)
    ensures l >= h ==> Level(Trimmed(es, h), l) == []
  {
    if l < h {
      LevelPointwise(Trimmed(es, h), es, l, l);
    } else {
      LevelEmpty(Trimmed(es, h), l);
    }
  }
}
