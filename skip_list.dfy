/** ProbLinkedList: the skip list object. Its nodes live in an arena `nodes` (index 0 is the
    head); the ghost sequence `elems` lists the arena indices of the data nodes in level-0
    order. Every operation is specified by what it does to the sequence of entries (value and
    height of each data node, in order), and through it to every level. */
module ProbLinkedList {
  import opened SkipNode
  import opened SkipHeight
  import opened SkipLevels
  import opened SkipArena

  // ---- the descent shared by contains, get, insert and delete ----

  /** At slot s on level i the search reads the link to the first later node reaching level i. */
  lemma DescentLink(nodes: seq<Node>, elems: seq<nat>, maxHeight: int, s: nat, i: nat)
    requires Wf(nodes, elems, maxHeight) && s <= |elems| && i < maxHeight
    requires s == 0 || EntriesOf(nodes, elems)[s - 1].height > i
    ensures var es := EntriesOf(nodes, elems);
      var q := SuccPos(es, s, i);
      && Slot(elems, s) < |nodes|
      && nodes[Slot(elems, s)].Next(i) == LinkAt(elems, q)
      && (q == |elems| <==> nodes[Slot(elems, s)].Next(i) == Nil)
      && (q < |elems| ==> && nodes[Slot(elems, s)].Next(i).index == elems[q] == Slot(elems, q + 1)
                          && 0 < elems[q] < |nodes| && nodes[elems[q]].Data?
                          && nodes[elems[q]].value == es[q].value && es[q].height > i)
  {
    var es := EntriesOf(nodes, elems);
    if s > 0 {
      assert es[s - 1].height == nodes[elems[s - 1]].Height();
    }
    assert nodes[Slot(elems, s)].ref[i] == LinkAt(elems, SuccPos(es, s, i));
  }

  /** A search that drops from level i at slot s, because the next node on that level is
      missing or not below x, drops where the last node below x on that level is. */
  lemma DescentDrop(es: seq<Entry>, x: int, s: nat, i: nat)
    requires Sorted(es) && s <= |es|
    requires s == 0 || (es[s - 1].value < x && es[s - 1].height > i)
    requires SuccPos(es, s, i) == |es| || es[SuccPos(es, s, i)].value >= x
    ensures PredSlot(es, Position(es, x), i) == s
  {
    var p := Position(es, x);
    PredSlotUnique(es, p, i, s);
  }

  /** A search dropping from level 0 at slot s, past every value below x and before the first
      one above it, shows that x is not in the list. */
  lemma DescentAbsent(es: seq<Entry>, x: int, s: nat)
    requires Sorted(es) && s <= |es|
    requires forall k :: 0 <= k < |es| ==> es[k].height >= 1
    requires s == 0 || es[s - 1].value < x
    requires s == |es| || es[s].value > x
    ensures x !in Level(es, 0)
  {
    LevelZero(es);
    forall k | 0 <= k < |es|
      ensures Values(es)[k] != x
    {
      if k < s - 1 {
        assert es[k].value < es[s - 1].value;
      } else if s < k {
        assert es[s].value < es[k].value;
      }
    }
  }

  /** The node at position q of a list whose heights are at least 1 is on level 0. */
  lemma FoundOnLevelZero(es: seq<Entry>, q: nat)
    requires q < |es| && forall k :: 0 <= k < |es| ==> es[k].height >= 1
    ensures es[q].value in Level(es, 0)
  {
    LevelZero(es);
    assert Values(es)[q] == es[q].value;
  }

  /** Below the height of the node at position p, the descent towards p's value always meets
      p itself before any node above it. */
  lemma DescentReaches(es: seq<Entry>, p: nat, s: nat, i: nat)
    requires Sorted(es) && p < |es| && s <= |es| && es[p].height > i
    requires s == 0 || es[s - 1].value < es[p].value
    ensures s <= p && SuccPos(es, s, i) <= p
  {
  }

  /** In a sorted list the value at position p is found at position p. */
  lemma PositionOfValue(es: seq<Entry>, p: nat)
    requires Sorted(es) && p < |es|
    ensures Position(es, es[p].value) == p
  {
    var q := Position(es, es[p].value);
    assert q <= p;
    assert es[q].value >= es[p].value;
  }

  /** The search for x stands at slot s on level i: the slot is the head, or a node below x
      that reaches level i. */
  ghost predicate Before(nodes: seq<Node>, elems: seq<nat>, x: int, s: nat, i: int)
    requires Members(nodes, elems)
  {
    s <= |elems| && (s == 0 || (EntriesOf(nodes, elems)[s - 1].value < x && EntriesOf(nodes, elems)[s - 1].height > i))
  }

  /** The inner while loop of every descent: on level i, follow the links as long as they lead
      to a node below x. It stops at the last such node, whose link on level i is null or
      leads to a node not below x. */
  method WalkLevel(nodes: seq<Node>, ghost elems: seq<nat>, maxHeight: int, x: int, tempNode0: nat, ghost s0: nat, i: nat)
    returns (tempNode: nat, ghost s: nat, next: Link)
    requires Wf(nodes, elems, maxHeight) && i < maxHeight
    requires Before(nodes, elems, x, s0, i) && tempNode0 == Slot(elems, s0)
    ensures Before(nodes, elems, x, s, i) && tempNode == Slot(elems, s) && s0 <= s
    ensures tempNode < |nodes| && next == nodes[tempNode].Next(i) == LinkAt(elems, SuccPos(EntriesOf(nodes, elems), s, i))
    ensures next != Nil ==>
      && next.index < |nodes| && nodes[next.index].Data?
      && nodes[next.index].value == EntriesOf(nodes, elems)[SuccPos(EntriesOf(nodes, elems), s, i)].value >= x
  {
    ghost var es := EntriesOf(nodes, elems);
    tempNode, s := tempNode0, s0;
    while true
      invariant Before(nodes, elems, x, s, i) && tempNode == Slot(elems, s) && s0 <= s
      decreases |elems| - s
    {
      DescentLink(nodes, elems, maxHeight, s, i);
      next := nodes[tempNode].Next(i);
      if next == Nil {
        return;
      } else if nodes[next.index].value >= x {
        return;
      } else {
        tempNode := next.index;
        s := SuccPos(es, s, i) + 1;
      }
    }
  }

  /** redDot lists, top down from level h - 1, the nodes where the search for position p
      drops from each level. */
  ghost predicate Drops(elems: seq<nat>, es: seq<Entry>, p: nat, h: int, redDot: seq<nat>)
    requires p <= |es| == |elems|
  {
    |redDot| <= h && forall k :: 0 <= k < |redDot| ==> redDot[k] == Slot(elems, PredSlot(es, p, h - 1 - k))
  }

  /** The entry of redDot for level l. */
  lemma DropsAt(elems: seq<nat>, es: seq<Entry>, p: nat, h: int, redDot: seq<nat>, k: nat, l: int)
    requires p <= |es| == |elems| && Drops(elems, es, p, h, redDot)
    requires k < |redDot| && l == h - 1 - k
    ensures l >= 0 && redDot[k] == Slot(elems, PredSlot(es, p, l))
  {
  }

  /** Appending the slot for the next level down keeps redDot right. */
  lemma DropsSnoc(elems: seq<nat>, es: seq<Entry>, p: nat, h: int, redDot: seq<nat>, t: nat)
    requires p <= |es| == |elems| && |redDot| < h
    requires Drops(elems, es, p, h, redDot) && t == Slot(elems, PredSlot(es, p, h - 1 - |redDot|))
    ensures Drops(elems, es, p, h, redDot + [t])
  {
  }

  /** Recording the slot where the walk on level i stopped keeps redDot right. */
  lemma DropRecorded(elems: seq<nat>, es: seq<Entry>, x: int, p: nat, h: int, redDot: seq<nat>, s: nat, i: nat)
    requires Sorted(es) && |es| == |elems| && p == Position(es, x)
    requires s <= |es| && |redDot| == h - 1 - i && i < h
    requires s == 0 || (es[s - 1].value < x && es[s - 1].height > i)
    requires SuccPos(es, s, i) == |es| || es[SuccPos(es, s, i)].value >= x
    requires Drops(elems, es, p, h, redDot)
    ensures Drops(elems, es, p, h, redDot + [Slot(elems, s)])
  {
    DescentDrop(es, x, s, i);
    DropsSnoc(elems, es, p, h, redDot, Slot(elems, s));
  }

  /** The descent of insert(data, nodeHeight): the loops that record, top down, the node
      where the search for data drops from each level below nodeHeight (redDot). */
  method InsertDescent(nodes: seq<Node>, ghost elems: seq<nat>, maxHeight: int, data: int, nodeHeight: int)
    returns (redDot: seq<nat>)
    requires Wf(nodes, elems, maxHeight) && 1 <= nodeHeight <= maxHeight
    ensures |redDot| == nodeHeight
    ensures Drops(elems, EntriesOf(nodes, elems), Position(EntriesOf(nodes, elems), data), nodeHeight, redDot)
  {
    ghost var es := EntriesOf(nodes, elems);
    ghost var p := Position(es, data);
    redDot := [];
    var tempNode := 0;
    ghost var s: nat := 0;
    var i := nodes[0].Height() - 1;
    while i >= 0
      invariant -1 <= i < maxHeight
      invariant Before(nodes, elems, data, s, i) && tempNode == Slot(elems, s)
      invariant |redDot| == if i + 1 >= nodeHeight then 0 else nodeHeight - 1 - i
      invariant Drops(elems, es, p, nodeHeight, redDot)
    {
      var next;
      tempNode, s, next := WalkLevel(nodes, elems, maxHeight, data, tempNode, s, i);
      if i < nodeHeight {
        DropRecorded(elems, es, data, p, nodeHeight, redDot, s, i);
        redDot := redDot + [tempNode];
      }
      i := i - 1;
    }
  }

  /** One round of the first splice loop of insert: level j of the new node takes the link
      its predecessor on level j has, redDot[cnt] with cnt == |redDot| - 1 - j. */
  method LinkLevel(nodes: seq<Node>, ghost elems: seq<nat>, maxHeight: int, n: Node, redDot: seq<nat>, ghost p: nat,
                   j: nat, cnt: int)
    returns (n1: Node)
    requires Wf(nodes, elems, maxHeight) && p <= |elems|
    requires n.Data? && j < n.Height() == |redDot| <= maxHeight && cnt == |redDot| - 1 - j
    requires Drops(elems, EntriesOf(nodes, elems), p, |redDot|, redDot)
    ensures n1.Data? && n1.value == n.value && n1.Height() == n.Height()
    ensures n1.ref == n.ref[j := LinkAt(elems, SuccPos(EntriesOf(nodes, elems), p, j))]
  {
    PredLink(nodes, elems, p, j);
    n1 := n.SetNext(j, nodes[redDot[cnt]].Next(j));
  }

  /** The first splice loop of insert: level j of the new node takes the link its
      predecessor on level j has, redDot[|redDot| - 1 - j]. */
  method LinkNewNode(nodes: seq<Node>, ghost elems: seq<nat>, maxHeight: int, node: Node, redDot: seq<nat>, ghost p: nat)
    returns (n: Node)
    requires Wf(nodes, elems, maxHeight) && p <= |elems|
    requires node.Data? && 1 <= node.Height() == |redDot| <= maxHeight
    requires Drops(elems, EntriesOf(nodes, elems), p, |redDot|, redDot)
    ensures n.Data? && n.value == node.value && n.Height() == node.Height()
    ensures forall j :: 0 <= j < n.Height() ==> n.ref[j] == LinkAt(elems, SuccPos(EntriesOf(nodes, elems), p, j))
  {
    n := node;
    var cnt := |redDot| - 1;
    for j := 0 to |redDot|
      invariant cnt == |redDot| - 1 - j
      invariant n.Data? && n.value == node.value && n.Height() == node.Height()
      invariant forall j' :: 0 <= j' < j ==> n.ref[j'] == LinkAt(elems, SuccPos(EntriesOf(nodes, elems), p, j'))
    {
      n := LinkLevel(nodes, elems, maxHeight, n, redDot, p, j, cnt);
      cnt := cnt - 1;
    }
  }

  /** The second splice loop of insert: the predecessor on level |redDot| - 1 - k,
      redDot[k], points at the new node n on that level. */
  method SpliceNewNode(nodes0: seq<Node>, ghost elems: seq<nat>, maxHeight: int, nodes: seq<Node>, redDot: seq<nat>,
                       n: nat, ghost p: nat, ghost x: int)
    returns (nodes1: seq<Node>)
    requires Wf(nodes0, elems, maxHeight) && p <= |elems| && n == |nodes0| && |redDot| <= maxHeight
    requires InsertSpliced(nodes0, elems, nodes, p, x, |redDot|, |redDot|)
    requires Drops(elems, EntriesOf(nodes0, elems), p, |redDot|, redDot)
    ensures InsertSpliced(nodes0, elems, nodes1, p, x, |redDot|, 0)
  {
    nodes1 := nodes;
    var cnt := |redDot| - 1;
    ghost var lo := |redDot|;
    for k := 0 to |redDot|
      invariant lo == |redDot| - k && cnt == lo - 1
      invariant InsertSpliced(nodes0, elems, nodes1, p, x, |redDot|, lo)
    {
      nodes1 := SpliceLevel(nodes0, elems, maxHeight, nodes1, redDot, n, p, x, k, cnt, lo);
      cnt := cnt - 1;
      lo := lo - 1;
    }
  }

  /** One step of the second splice loop: redDot[k] points at n on level cnt. */
  method SpliceLevel(nodes0: seq<Node>, ghost elems: seq<nat>, maxHeight: int, nodes: seq<Node>, redDot: seq<nat>,
                     n: nat, ghost p: nat, ghost x: int, k: nat, cnt: int, ghost lo: int)
    returns (nodes1: seq<Node>)
    requires Members(nodes0, elems) && p <= |elems| && n == |nodes0| && |redDot| <= nodes0[0].Height()
    requires k < |redDot| && lo == |redDot| - k && cnt == lo - 1
    requires InsertSpliced(nodes0, elems, nodes, p, x, |redDot|, lo)
    requires Drops(elems, EntriesOf(nodes0, elems), p, |redDot|, redDot)
    ensures InsertSpliced(nodes0, elems, nodes1, p, x, |redDot|, lo - 1)
  {
    DropsAt(elems, EntriesOf(nodes0, elems), p, |redDot|, redDot, k, lo - 1);
    InsertSpliceIndex(nodes0, elems, nodes, p, x, |redDot|, lo, redDot[k]);
    nodes1 := nodes[redDot[k] := nodes[redDot[k]].SetNext(cnt, To(n))];
    assert nodes1 == nodes[redDot[k] := nodes[redDot[k]].SetNext(lo - 1, To(|nodes0|))];
    InsertSpliceLinks(nodes0, elems, nodes, nodes1, p, x, |redDot|, lo, redDot[k]);
  }

  /** The descent of delete(data) for the node at position p, of height spotHeight: the loops
      that record, top down, the node whose link on each level below spotHeight leads to it. */
  method DeleteDescent(nodes: seq<Node>, ghost elems: seq<nat>, maxHeight: int, data: int, ghost p: nat, spotHeight: int)
    returns (redDot: seq<nat>)
    requires Wf(nodes, elems, maxHeight) && p < |elems|
    requires EntriesOf(nodes, elems)[p].value == data && EntriesOf(nodes, elems)[p].height == spotHeight
    ensures |redDot| == spotHeight
    ensures Drops(elems, EntriesOf(nodes, elems), p, spotHeight, redDot)
  {
    ghost var es := EntriesOf(nodes, elems);
    PositionOfValue(es, p);
    assert es[p].height == nodes[elems[p]].Height();
    redDot := [];
    var tempNode := 0;
    ghost var s: nat := 0;
    var i := nodes[0].Height() - 1;
    while i >= 0
      invariant -1 <= i < maxHeight
      invariant Before(nodes, elems, data, s, i) && tempNode == Slot(elems, s)
      invariant |redDot| == if i + 1 >= spotHeight then 0 else spotHeight - 1 - i
      invariant Drops(elems, es, p, spotHeight, redDot)
    {
      var next;
      tempNode, s, next := WalkLevel(nodes, elems, maxHeight, data, tempNode, s, i);
      if i < spotHeight {
        DescentReaches(es, p, s, i);
      }
      if next != Nil && nodes[next.index].value == data {
        if i < spotHeight {
          DropRecorded(elems, es, data, p, spotHeight, redDot, s, i);
          redDot := redDot + [tempNode];
        }
      }
      i := i - 1;
    }
  }

  /** The splice loop of delete: the predecessor on level j, redDot[|redDot| - 1 - j], takes
      over the removed node's link on that level. */
  method SpliceOut(nodes0: seq<Node>, ghost elems: seq<nat>, maxHeight: int, redDot: seq<nat>, ghost p: nat, spot: nat)
    returns (nodes1: seq<Node>)
    requires Wf(nodes0, elems, maxHeight) && p < |elems| && spot == elems[p]
    requires |redDot| == nodes0[spot].Height()
    requires Drops(elems, EntriesOf(nodes0, elems), p, |redDot|, redDot)
    ensures DeleteSpliced(nodes0, elems, nodes1, p, |redDot|)
  {
    nodes1 := nodes0;
    DeleteSpliceStart(nodes0, elems, p);
    var cnt := |redDot| - 1;
    for j := 0 to |redDot|
      invariant cnt == |redDot| - 1 - j
      invariant DeleteSpliced(nodes0, elems, nodes1, p, j)
    {
      DropsAt(elems, EntriesOf(nodes0, elems), p, |redDot|, redDot, cnt, j);
      DeleteSpliceStep(nodes0, elems, nodes1, p, j, redDot[cnt]);
      nodes1 := nodes1[redDot[cnt] := nodes1[redDot[cnt]].SetNext(j, nodes1[spot].Next(j))];
      cnt := cnt - 1;
    }
  }

  /** The list without the entry at position p. */
  function Removed(es: seq<Entry>, p: nat): (r: seq<Entry>)
    requires p < |es|
    ensures |r| == |es| - 1
  {
    es[..p] + es[p + 1..]
  }

  /** The list with x inserted, with height h, at its place. */
  function Placed(es: seq<Entry>, x: int, h: nat): (r: seq<Entry>)
    requires Sorted(es)
    ensures |r| == |es| + 1
  {
    es[..Position(es, x)] + [Entry(x, h)] + es[Position(es, x)..]
  }

  /** The list without the entry holding x, when there is one. */
  function Erased(es: seq<Entry>, x: int): (r: seq<Entry>)
    requires Sorted(es)
    ensures |r| <= |es|
  {
    var p := Position(es, x);
    if p < |es| && es[p].value == x then Removed(es, p) else es
  }

  /** Erasing a value the list does not hold changes nothing. */
  lemma ErasedAbsent(es: seq<Entry>, x: int)
    requires Sorted(es) && x !in Values(es)
    ensures Erased(es, x) == es
  {
    var p := Position(es, x);
    if p < |es| {
      assert Values(es)[p] == es[p].value;
    }
  }

  /** Erasing the value of the entry at p removes that entry. */
  lemma ErasedAt(es: seq<Entry>, p: nat)
    requires Sorted(es) && p < |es|
    ensures Erased(es, es[p].value) == Removed(es, p)
  {
    PositionOfValue(es, p);
  }

  /** Erasing x takes x out of every level and leaves the rest of it in order. */
  lemma ErasedLevels(es: seq<Entry>, x: int, l: nat)
    requires Sorted(es)
    ensures Level(Erased(es, x), l) == Without(Level(es, l), x)
  {
    var p := Position(es, x);
    if p < |es| && es[p].value == x {
      RemoveLevels(es, p, l);
    } else {
      LevelMembers(es, l, x);
    }
  }

  /** Where growSkipList's walk stands: spot is the link to position q, a node of the old top
      level (or null), prevSpot the slot of the last node linked in at the new top level, and
      every node as GrowStep describes it. */
  ghost predicate GrowAt(nodes: seq<Node>, elems: seq<nat>, g: seq<Entry>, top: nat,
                         ns: seq<Node>, prevSpot: nat, spot: Link, q: nat, ps: nat)
    requires Members(nodes, elems) && |g| == |elems|
  {
    && q <= |elems| && spot == LinkAt(elems, q)
    && (q < |elems| ==> EntriesOf(nodes, elems)[q].height == top + 1)
    && ps == PredSlot(g, q, top + 1) && prevSpot == Slot(elems, ps)
    && GrowStep(nodes, elems, ns, g, top, q, ps)
  }

  /** One step of growSkipList's walk, at the node `spot` at position q of the old top level
      `top`: it grows when its coin comes up and is then linked in after prevSpot, the last
      node that grew; the walk moves on along level top. */
  method GrowVisit(nodes: seq<Node>, ghost elems: seq<nat>, ghost coins: seq<bool>, ghost g: seq<Entry>, ghost top: nat,
                   flip: nat -> bool, oldHeadHeight: int, ns0: seq<Node>, prevSpot0: nat, spot0: Link, ghost q: nat, ghost ps0: nat)
    returns (ns: seq<Node>, prevSpot: nat, spot: Link, ghost q1: nat, ghost ps: nat)
    requires GrowFrom(nodes, elems, coins, g, top) && Linked(nodes, elems)
    requires coins == CoinsOf(flip, elems) && oldHeadHeight == top + 1
    requires GrowAt(nodes, elems, g, top, ns0, prevSpot0, spot0, q, ps0) && spot0 != Nil
    ensures q < q1 <= |elems|
    ensures GrowAt(nodes, elems, g, top, ns, prevSpot, spot, q1, ps)
  {
    ns, prevSpot, ps := ns0, prevSpot0, ps0;
    q1 := SuccPos(EntriesOf(nodes, elems), q + 1, top);
    GrowSpot(nodes, elems, coins, g, top, ns0, q, ps0);
    var a := spot0.index;
    var spotHeight := ns0[a].Height();
    var node := ns0[a];
    if spotHeight == oldHeadHeight {
      node := node.MaybeGrow(flip(a));
    }
    var newHeight := node.Height();
    if newHeight - spotHeight == 1 {
      GrowUpNext(ns0[a], top);
      var pred := ns0[prevSpot0].SetNext(ns0[prevSpot0].Height() - 1, spot0);
      ns := ns0[a := node][prevSpot0 := pred];
      GrowCoinStep(nodes, elems, coins, g, top, ns0, q, ps0, ns);
      prevSpot := a;
      spot := node.Next(node.Height() - 2);
      ps := q + 1;
    } else {
      GrowSkipStep(nodes, elems, coins, g, top, ns0, q, ps0);
      spot := node.Next(node.Height() - 1);
    }
  }

  /** growSkipList's head.grow() and its first read: the walk starts at the head's old top
      link, with every node still as it was. */
  method GrowBegin(nodes: seq<Node>, ghost elems: seq<nat>, ghost coins: seq<bool>, ghost g: seq<Entry>, ghost top: nat)
      returns (ns: seq<Node>, spot: Link, ghost q: nat)
    requires Wf(nodes, elems, top + 1) && |coins| == |elems|
    requires g == Grown(EntriesOf(nodes, elems), top, coins)
    ensures GrowFrom(nodes, elems, coins, g, top)
    ensures GrowAt(nodes, elems, g, top, ns, 0, spot, q, 0)
  {
    GrowStart(nodes, elems, coins, g, top);
    q := SuccPos(EntriesOf(nodes, elems), 0, top);
    var head := nodes[0].Grow();
    ns := nodes[0 := head];
    spot := head.Next(nodes[0].Height() - 1);
  }

  /** The walk of growSkipList: after head.grow(), every node of the old top level, in order,
      grows when its coin flip(node) comes up and is then linked in at the new top level after
      the last node that grew (or the head). */
  method GrowWalk(nodes: seq<Node>, ghost elems: seq<nat>, maxHeight: int, flip: nat -> bool) returns (ns: seq<Node>)
    requires Wf(nodes, elems, maxHeight) && 1 <= maxHeight
    ensures Members(ns, elems) && Wf(ns, elems, maxHeight + 1)
    ensures EntriesOf(ns, elems) == Grown(EntriesOf(nodes, elems), maxHeight - 1, CoinsOf(flip, elems))
  {
    ghost var es := EntriesOf(nodes, elems);
    ghost var coins := CoinsOf(flip, elems);
    var oldHeadHeight := nodes[0].Height();
    ghost var top: nat := maxHeight - 1;
    ghost var g := Grown(es, top, coins);
    var spot;
    ghost var q;
    ns, spot, q := GrowBegin(nodes, elems, coins, g, top);
    var prevSpot := 0;
    ghost var ps: nat := 0;
    while spot != Nil
      invariant GrowAt(nodes, elems, g, top, ns, prevSpot, spot, q, ps)
      decreases |elems| - q
    {
      ns, prevSpot, spot, q, ps := GrowVisit(nodes, elems, coins, g, top, flip, oldHeadHeight, ns, prevSpot, spot, q, ps);
    }
    GrowEnd(nodes, elems, coins, g, top, ns, ps);
  }

  /** The walk of trimSkipList at the new height newHeight: the head is cut down first, then
      every node that reaches level newHeight, in order, after its link there is read. */
  method TrimWalk(nodes: seq<Node>, ghost elems: seq<nat>, maxHeight: int, newHeight: int) returns (ns: seq<Node>)
    requires Wf(nodes, elems, maxHeight) && 1 <= newHeight < maxHeight
    ensures Members(ns, elems) && Wf(ns, elems, newHeight)
    ensures EntriesOf(ns, elems) == Trimmed(EntriesOf(nodes, elems), newHeight)
  {
    ghost var es := EntriesOf(nodes, elems);
    TrimStart(nodes, elems, maxHeight, newHeight);
    ns := nodes;
    var prevSpot := 0;
    var spot := ns[prevSpot].Next(newHeight);
    var head := Trim(ns[0], newHeight);
    ns := ns[0 := head];
    ghost var q: nat := SuccPos(es, 0, newHeight);
    while spot != Nil
      invariant q <= |elems| && spot == LinkAt(elems, q)
      invariant q < |elems| ==> es[q].height > newHeight
      invariant TrimStep(nodes, elems, ns, newHeight, q)
      decreases |elems| - q
    {
      TrimStepKeeps(nodes, elems, maxHeight, newHeight, ns, q);
      prevSpot := spot.index;
      spot := ns[prevSpot].Next(newHeight);
      var cut := Trim(ns[prevSpot], newHeight);
      ns := ns[prevSpot := cut];
      q := SuccPos(es, q + 1, newHeight);
    }
    TrimEnd(nodes, elems, maxHeight, newHeight, ns);
  }

  /** The part of insert(data, height) that changes links: the descent, the two splice
      loops and the empty-list check. The new node is appended to the arena and takes its
      place among the data nodes. */
  method InsertNode(nodes: seq<Node>, ghost elems: seq<nat>, maxHeight: int, size: nat, data: int, height: int)
    returns (ns: seq<Node>, ghost elems1: seq<nat>)
    requires Wf(nodes, elems, maxHeight) && 1 <= height <= maxHeight && size == |elems|
    requires data !in Values(EntriesOf(nodes, elems))
    ensures Wf(ns, elems1, maxHeight) && |elems1| == |elems| + 1
    ensures EntriesOf(ns, elems1) == Placed(EntriesOf(nodes, elems), data, height)
  {
    ghost var es := EntriesOf(nodes, elems);
    ghost var p := Position(es, data);
    var node := NewNode(data, height);
    var redDot := InsertDescent(nodes, elems, maxHeight, data, height);
    node := LinkNewNode(nodes, elems, maxHeight, node, redDot, p);
    InsertSpliceStart(nodes, elems, node, p, data, height);
    ns := SpliceNewNode(nodes, elems, maxHeight, nodes + [node], redDot, |nodes|, p, data);
    InsertWf(nodes, elems, maxHeight, ns, p, data, height);
    elems1 := elems[..p] + [|nodes|] + elems[p..];
    if size == 0 {
      HeadLinkOfSingle(ns, elems1, maxHeight);
      ns := ns[0 := ns[0].SetNext(0, To(|nodes|))];
    }
  }

  /** In a list of one node the head's bottom link already leads to it. */
  lemma HeadLinkOfSingle(nodes: seq<Node>, elems: seq<nat>, maxHeight: int)
    requires Wf(nodes, elems, maxHeight) && |elems| == 1
    ensures nodes[0 := nodes[0].SetNext(0, To(elems[0]))] == nodes
  {
    var es := EntriesOf(nodes, elems);
    assert 1 <= nodes[elems[0]].Height() <= maxHeight;
    assert nodes[Slot(elems, 0)].ref[0] == LinkAt(elems, SuccPos(es, 0, 0));
    SetNextSame(nodes[0], 0, To(elems[0]));
  }

  /** The part of delete(data) that changes links, for the node `spot` at position p: the
      descent and the splice loop. The node stays in the arena, unreachable. */
  method DeleteNode(nodes: seq<Node>, ghost elems: seq<nat>, maxHeight: int, data: int, spot: nat, ghost p: nat)
    returns (ns: seq<Node>, ghost elems1: seq<nat>)
    requires Wf(nodes, elems, maxHeight) && p < |elems| && spot == elems[p]
    requires EntriesOf(nodes, elems)[p].value == data
    ensures Wf(ns, elems1, maxHeight) && elems1 == elems[..p] + elems[p + 1..]
    ensures EntriesOf(ns, elems1) == Removed(EntriesOf(nodes, elems), p)
  {
    var spotHeight := nodes[spot].Height();
    var redDot := DeleteDescent(nodes, elems, maxHeight, data, p, spotHeight);
    ns := SpliceOut(nodes, elems, maxHeight, redDot, p, spot);
    DeleteWf(nodes, elems, maxHeight, ns, p);
    elems1 := elems[..p] + elems[p + 1..];
  }

  /** growSkipList(): the head and the nodes of the old top level grow, and maxHeight with
      them; every level up to the old top stays as it was. */
  method GrowList(nodes: seq<Node>, ghost elems: seq<nat>, maxHeight: int, flip: nat -> bool)
    returns (ns: seq<Node>, maxHeight1: int)
    requires Wf(nodes, elems, maxHeight) && 1 <= maxHeight
    ensures maxHeight1 == maxHeight + 1 && Wf(ns, elems, maxHeight1)
    ensures EntriesOf(ns, elems) == Grown(EntriesOf(nodes, elems), maxHeight - 1, CoinsOf(flip, elems))
    ensures forall l: nat :: l < maxHeight ==> Level(EntriesOf(ns, elems), l) == Level(EntriesOf(nodes, elems), l)
  {
    ghost var es := EntriesOf(nodes, elems);
    ns := GrowWalk(nodes, elems, maxHeight, flip);
    maxHeight1 := maxHeight + 1;
    forall l: nat | l < maxHeight
      ensures Level(EntriesOf(ns, elems), l) == Level(es, l)
    {
      GrowLevels(es, maxHeight - 1, CoinsOf(flip, elems), l);
    }
  }

  /** trimSkipList(): the height drops to the one the size calls for (a list created with a
      height of its own) or by one level, and the head and every node are cut down to it;
      every level below the new height stays as it was. */
  method TrimList(nodes: seq<Node>, ghost elems: seq<nat>, size: nat, maxHeight: int, manuallyCreated: bool)
    returns (ns: seq<Node>, maxHeight1: int)
    requires Wf(nodes, elems, maxHeight) && size == |elems| >= 1 && GetMaxHeight(size) < maxHeight
    ensures maxHeight1 == if manuallyCreated && maxHeight > GetMaxHeight(size) then GetMaxHeight(size) else maxHeight - 1
    ensures maxHeight1 >= 1 && Wf(ns, elems, maxHeight1)
    ensures EntriesOf(ns, elems) == Trimmed(EntriesOf(nodes, elems), maxHeight1)
    ensures forall l: nat :: l < maxHeight1 ==> Level(EntriesOf(ns, elems), l) == Level(EntriesOf(nodes, elems), l)
  {
    ghost var es := EntriesOf(nodes, elems);
    var expectedHeight := GetMaxHeight(size);
    if manuallyCreated && maxHeight > expectedHeight {
      maxHeight1 := expectedHeight;
    } else {
      maxHeight1 := maxHeight - 1;
    }
    ns := TrimWalk(nodes, elems, maxHeight, maxHeight1);
    forall l: nat | l < maxHeight1
      ensures Level(EntriesOf(ns, elems), l) == Level(es, l)
    {
      TrimLevels(es, maxHeight1, l);
    }
  }

  /** The fields of a list linked correctly with the head as tall as maxHeight, whose size
      counts its nodes and whose maxHeight is at least the height the size calls for,
      exactly that height unless the list was created with a height of its own. */
  ghost predicate Fits(nodes: seq<Node>, elems: seq<nat>, size: nat, maxHeight: int, manuallyCreated: bool) {
    && Wf(nodes, elems, maxHeight)
    && size == |elems|
    && HeightFits(size, maxHeight, manuallyCreated)
  }

  /** The fields (ns, elems1, size1, maxHeight1) that insert(data, height) leaves in a list
      whose fields were (nodes, elems, size, maxHeight): a well-formed list one node larger
      whose height grew by one level exactly when `newMaxHeight - oldMaxHeight > 0`, whose
      entries are the old ones with (data, height) at its place (and then grown at the old top
      level by the coins flip), and whose level 0 is the old one with data in order. */
  ghost predicate Inserted(nodes: seq<Node>, elems: seq<nat>, size: nat, maxHeight: int, manuallyCreated: bool,
                           data: int, height: nat, flip: nat -> bool,
                           ns: seq<Node>, elems1: seq<nat>, size1: nat, maxHeight1: int)
    requires Fits(nodes, elems, size, maxHeight, manuallyCreated)
  {
    && Fits(ns, elems1, size1, maxHeight1, manuallyCreated)
    && size1 == size + 1
    && maxHeight1 == (if Sub32(GetMaxHeight(size1), maxHeight) > 0 then maxHeight + 1 else maxHeight)
    && EntriesOf(ns, elems1) == (if maxHeight1 == maxHeight then Placed(EntriesOf(nodes, elems), data, height)
                                 else Grown(Placed(EntriesOf(nodes, elems), data, height), maxHeight - 1, CoinsOf(flip, elems1)))
    && Level(EntriesOf(ns, elems1), 0) == PlaceInOrder(Level(EntriesOf(nodes, elems), 0), data)
  }

  /** insert(data, height) on the list's fields: the new node is linked in, the size grows
      by one, and the list grows when `newMaxHeight - oldMaxHeight > 0`. */
  method InsertList(nodes: seq<Node>, ghost elems: seq<nat>, size: nat, maxHeight: int, ghost manuallyCreated: bool,
                    data: int, height: int, flip: nat -> bool)
    returns (ns: seq<Node>, ghost elems1: seq<nat>, size1: nat, maxHeight1: int)
    requires Fits(nodes, elems, size, maxHeight, manuallyCreated)
    requires 1 <= height <= maxHeight && size < MAX_INT
    requires data !in Level(EntriesOf(nodes, elems), 0)
    ensures Inserted(nodes, elems, size, maxHeight, manuallyCreated, data, height, flip, ns, elems1, size1, maxHeight1)
  {
    ghost var es := EntriesOf(nodes, elems);
    LevelZero(es);
    InsertLevels(es, data, height, 0);
    InsertedHeight(size, maxHeight, manuallyCreated);
    ns, elems1 := InsertNode(nodes, elems, maxHeight, size, data, height);
    size1 := size + 1;
    maxHeight1 := maxHeight;
    var newMaxHeight := GetMaxHeight(size1);
    if Sub32(newMaxHeight, maxHeight) > 0 {
      ns, maxHeight1 := GrowList(ns, elems1, maxHeight, flip);
    }
  }

  /** The fields (ns, elems1, size1, maxHeight1) that delete(data) leaves in a list whose
      fields were (nodes, elems, size, maxHeight) and which holds data: a well-formed list one
      node smaller, trimmed as trimSkipList does exactly when `newMaxHeight - oldMaxHeight < 0`,
      whose entries are the old ones without data's (cut to the new height when trimmed), and
      whose level 0 is the old one without data. */
  ghost predicate Deleted(nodes: seq<Node>, elems: seq<nat>, size: nat, maxHeight: int, manuallyCreated: bool,
                          data: int, ns: seq<Node>, elems1: seq<nat>, size1: nat, maxHeight1: int)
    requires Fits(nodes, elems, size, maxHeight, manuallyCreated)
  {
    && Fits(ns, elems1, size1, maxHeight1, manuallyCreated)
    && size1 == size - 1
    && maxHeight1 == (if Sub32(GetMaxHeight(size1), maxHeight) < 0
                      then (if manuallyCreated && maxHeight > GetMaxHeight(size1) then GetMaxHeight(size1) else maxHeight - 1)
                      else maxHeight)
    && EntriesOf(ns, elems1) == (if maxHeight1 < maxHeight then Trimmed(Erased(EntriesOf(nodes, elems), data), maxHeight1)
                                 else Erased(EntriesOf(nodes, elems), data))
    && Level(EntriesOf(ns, elems1), 0) == Without(Level(EntriesOf(nodes, elems), 0), data)
  }

  /** The end of delete(data) once the node is unlinked: the size drops by one, and the list
      is trimmed when `newMaxHeight - oldMaxHeight < 0`. */
  method Shrink(nodes: seq<Node>, ghost elems: seq<nat>, size: nat, maxHeight: int, manuallyCreated: bool)
    returns (ns: seq<Node>, size1: nat, maxHeight1: int)
    requires Wf(nodes, elems, maxHeight) && size == |elems| + 1 && HeightFits(size, maxHeight, manuallyCreated)
    ensures Fits(ns, elems, size1, maxHeight1, manuallyCreated)
    ensures maxHeight1 == if Sub32(GetMaxHeight(size1), maxHeight) < 0
      then (if manuallyCreated && maxHeight > GetMaxHeight(size1) then GetMaxHeight(size1) else maxHeight - 1)
      else maxHeight
    ensures EntriesOf(ns, elems) == if maxHeight1 < maxHeight then Trimmed(EntriesOf(nodes, elems), maxHeight1)
      else EntriesOf(nodes, elems)
    ensures Level(EntriesOf(ns, elems), 0) == Level(EntriesOf(nodes, elems), 0)
  {
    ShrinkTest(size, maxHeight, manuallyCreated);
    ns := nodes;
    size1 := size - 1;
    maxHeight1 := maxHeight;
    var newMaxHeight := GetMaxHeight(size1);
    if Sub32(newMaxHeight, maxHeight) < 0 {
      ns, maxHeight1 := TrimList(nodes, elems, size1, maxHeight, manuallyCreated);
    }
    DeletedHeight(size, maxHeight, maxHeight1, manuallyCreated);
  }

  /** delete(data) on the list's fields, for the node `spot` that holds data: the node is
      unlinked, the size drops by one, and the list is trimmed when `newMaxHeight - oldMaxHeight < 0`. */
  method DeleteList(nodes: seq<Node>, ghost elems: seq<nat>, size: nat, maxHeight: int, manuallyCreated: bool,
                    data: int, spot: nat)
    returns (ns: seq<Node>, ghost elems1: seq<nat>, size1: nat, maxHeight1: int)
    requires Fits(nodes, elems, size, maxHeight, manuallyCreated)
    requires spot in elems && nodes[spot].Data? && nodes[spot].value == data
    ensures Deleted(nodes, elems, size, maxHeight, manuallyCreated, data, ns, elems1, size1, maxHeight1)
  {
    ghost var p :| 0 <= p < |elems| && elems[p] == spot;
    var unlinked;
    unlinked, elems1 := DeleteNode(nodes, elems, maxHeight, data, spot, p);
    ns, size1, maxHeight1 := Shrink(unlinked, elems1, size, maxHeight, manuallyCreated);
    DeletedOf(nodes, elems, size, maxHeight, manuallyCreated, data, p, unlinked, elems1, ns, size1, maxHeight1);
  }

  /** Unlinking the node at position p and then shrinking the list is what Deleted describes. */
  lemma DeletedOf(nodes: seq<Node>, elems: seq<nat>, size: nat, maxHeight: int, manuallyCreated: bool,
                  data: int, p: nat, unlinked: seq<Node>, elems1: seq<nat>,
                  ns: seq<Node>, size1: nat, maxHeight1: int)
    requires Fits(nodes, elems, size, maxHeight, manuallyCreated)
    requires p < |elems| && EntriesOf(nodes, elems)[p].value == data
    requires Wf(unlinked, elems1, maxHeight)
    requires EntriesOf(unlinked, elems1) == Removed(EntriesOf(nodes, elems), p)
    requires Fits(ns, elems1, size1, maxHeight1, manuallyCreated) && size1 == size - 1
    requires maxHeight1 == if Sub32(GetMaxHeight(size1), maxHeight) < 0
      then (if manuallyCreated && maxHeight > GetMaxHeight(size1) then GetMaxHeight(size1) else maxHeight - 1)
      else maxHeight
    requires EntriesOf(ns, elems1) == if maxHeight1 < maxHeight then Trimmed(EntriesOf(unlinked, elems1), maxHeight1)
      else EntriesOf(unlinked, elems1)
    requires Level(EntriesOf(ns, elems1), 0) == Level(EntriesOf(unlinked, elems1), 0)
    ensures Deleted(nodes, elems, size, maxHeight, manuallyCreated, data, ns, elems1, size1, maxHeight1)
  {
    var es := EntriesOf(nodes, elems);
    ErasedAt(es, p);
    ErasedLevels(es, data, 0);
  }

  /** The descent shared by contains(data) and get(data): from the top level of the head,
      walk each level while the next node holds less than data, answer the next node as soon
      as it holds data, and drop a level otherwise. */
  method Find(nodes: seq<Node>, ghost elems: seq<nat>, maxHeight: int, data: int) returns (node: Link)
    requires Wf(nodes, elems, maxHeight)
    ensures node != Nil <==> data in Level(EntriesOf(nodes, elems), 0)
    ensures node != Nil ==> node.index in elems && nodes[node.index].Data? && nodes[node.index].value == data
  {
    ghost var es := EntriesOf(nodes, elems);
    var tempNode := 0;
    ghost var s: nat := 0;
    ghost var q: nat := |es|;
    var i := nodes[0].Height() - 1;
    while i >= 0
      invariant -1 <= i < maxHeight
      invariant Before(nodes, elems, data, s, i) && tempNode == Slot(elems, s)
      invariant s <= q <= |es| && (q == |es| || es[q].value > data)
      invariant forall r :: s <= r < q ==> es[r].height <= i + 1
    {
      var next;
      tempNode, s, next := WalkLevel(nodes, elems, maxHeight, data, tempNode, s, i);
      if next != Nil && nodes[next.index].value == data {
        FoundOnLevelZero(es, SuccPos(es, s, i));
        return next;
      }
      q := SuccPos(es, s, i);
      i := i - 1;
    }
    DescentAbsent(es, data, s);
    return Nil;
  }

  /** The height SkipList(int height) stores, as written: the default of 1 for a height below 1
      is assigned and then overwritten by the assignment of the height itself. */
  method WrittenInitialHeight(height: int) returns (maxHeight: int)
    ensures maxHeight == height
  {
    maxHeight := 0;
    if height < 1 {
      maxHeight := 1;
    }
    maxHeight := height;
  }

  /** What WrittenInitialHeight stores for a height below 1 (0, say) is a height no list fits:
      even the empty list calls for one level. */
  lemma WrittenHeightBreaksFit(height: int)
    requires height < 1
    ensures !HeightFits(0, height, true) && !HeightFits(0, height, false)
    ensures ExpectedHeight(0) == 1 > height
  {
  }

  /** The height SkipList(int height) is meant to store: the height asked for, and the minimum
      height 1 in place of a height below 1. */
  function InitialHeight(height: int): (h: int)
    requires height <= MAX_INT
    ensures HeightFits(0, h, true)
    ensures height >= 1 ==> h == height
    ensures height < 1 ==> h == 1
  {
    if height < 1 then 1 else height
  }

  class SkipList {
    var nodes: seq<Node>
    var size: nat
    var maxHeight: int
    const manuallyCreated: bool
    ghost var elems: seq<nat>

    /** The list is linked correctly with the head as tall as maxHeight, size counts its
        nodes, and maxHeight is at least the height the size calls for, exactly that height
        unless the list was created with a height of its own. */
    ghost predicate Valid()
      reads this
    {
      Fits(nodes, elems, size, maxHeight, manuallyCreated)
    }

    /** The data nodes in level-0 order. */
    ghost function Entries(): seq<Entry>
      reads this
      requires Members(nodes, elems)
    {
      EntriesOf(nodes, elems)
    }

    /** SkipList(): an empty list of height 1. */
    constructor ()
      ensures Valid() && Entries() == [] && maxHeight == 1 && !manuallyCreated
    {
      maxHeight := 1;
      size := 0;
      manuallyCreated := false;
      var head := NewHead(1);
      nodes := [head];
      elems := [];
    }

    /** SkipList(int height): an empty list of the given height, and of height 1 when the
        height asked for is below 1 (the default the source intends; see WrittenInitialHeight). */
    constructor WithHeight(height: int)
      requires MIN_INT <= height <= MAX_INT
      ensures Valid() && Entries() == [] && maxHeight == InitialHeight(height) && manuallyCreated
    {
      manuallyCreated := true;
      var h := height;
      if height < 1 {
        h := 1;
      }
      maxHeight := h;
      size := 0;
      var head := NewHead(h);
      nodes := [head];
      elems := [];
    }

    method Size() returns (n: int)
      requires Valid()
      ensures n == |Entries()| == |Level(Entries(), 0)|
    {
      LevelZero(Entries());
      n := size;
    }

    method Height() returns (h: int)
      requires Valid()
      ensures h == maxHeight == nodes[0].Height() && h >= 1
      ensures forall l :: h <= l ==> Level(Entries(), l) == []
    {
      forall l | maxHeight <= l
        ensures Level(Entries(), l) == []
      {
        LevelEmpty(Entries(), l);
      }
      h := maxHeight;
    }

    /** head(): the head node, as tall as the list. */
    method HeadNode() returns (head: Node)
      requires Valid()
      ensures head.Head? && head.Height() == maxHeight
      ensures forall l :: 0 <= l < maxHeight ==> head.Next(l) == LinkAt(elems, SuccPos(Entries(), 0, l))
    {
      head := nodes[0];
      assert forall l :: 0 <= l < maxHeight ==> nodes[Slot(elems, 0)].ref[l] == LinkAt(elems, SuccPos(Entries(), 0, l));
    }

    /** contains(data): the descent of Find, answering whether it reached data. */
    method Contains(data: int) returns (found: bool)
      requires Valid()
      ensures found <==> data in Level(Entries(), 0)
    {
      var node := Find(nodes, elems, maxHeight, data);
      found := node != Nil;
    }

    /** get(data): the descent of Find, answering the node holding data or null. */
    method Get(data: int) returns (node: Link)
      requires Valid()
      ensures node != Nil <==> data in Level(Entries(), 0)
      ensures node != Nil ==> node.index in elems && nodes[node.index].Data? && nodes[node.index].value == data
    {
      node := Find(nodes, elems, maxHeight, data);
    }

    /** insert(data, height): links in a new node of the given height and grows the list when
        the size now calls for more levels than it has. */
    method InsertWithHeight(data: int, height: int, flip: nat -> bool)
      requires Valid() && 1 <= height <= maxHeight && size < MAX_INT
      requires data !in Level(Entries(), 0)
      modifies this
      ensures Inserted(old(nodes), old(elems), old(size), old(maxHeight), manuallyCreated, data, height, flip,
                       nodes, elems, size, maxHeight)
      ensures Valid()
    {
      nodes, elems, size, maxHeight := InsertList(nodes, elems, size, maxHeight, manuallyCreated, data, height, flip);
    }

    /** insert(data): the same insertion with a height drawn by generateRandomHeight. */
    method Insert(data: int, draw: nat -> bool, flip: nat -> bool)
      requires Valid() && size < MAX_INT
      requires data !in Level(Entries(), 0)
      modifies this
      ensures Inserted(old(nodes), old(elems), old(size), old(maxHeight), manuallyCreated,
                       data, HeightFrom(old(maxHeight), draw, 1), flip, nodes, elems, size, maxHeight)
      ensures Valid()
    {
      var nodeHeight := GenerateRandomHeight(maxHeight, draw);
      InsertWithHeight(data, nodeHeight, flip);
    }

    /** The rest of delete(data) once get(data) has found the node `spot`: DeleteList on
        the fields. */
    method Unlink(data: int, spot: nat)
      requires Valid() && spot in elems && nodes[spot].Data? && nodes[spot].value == data
      modifies this
      ensures Deleted(old(nodes), old(elems), old(size), old(maxHeight), manuallyCreated, data,
                      nodes, elems, size, maxHeight)
      ensures Valid()
    {
      nodes, elems, size, maxHeight := DeleteList(nodes, elems, size, maxHeight, manuallyCreated, data, spot);
    }

    /** delete(data): nothing happens unless data is present; otherwise its node is unlinked
        from every level, and the list is trimmed when the size now calls for fewer levels. */
    method Delete(data: int)
      requires Valid()
      modifies this
      ensures data in old(Level(Entries(), 0)) ==>
        Deleted(old(nodes), old(elems), old(size), old(maxHeight), manuallyCreated, data,
                nodes, elems, size, maxHeight)
      ensures data !in old(Level(Entries(), 0)) ==>
        nodes == old(nodes) && elems == old(elems) && size == old(size) && maxHeight == old(maxHeight)
      ensures Valid()
    {
      var present := Contains(data);
      if !present {
        return;
      }
      var spot := Get(data);
      Unlink(data, spot.index);
    }
  }
}
