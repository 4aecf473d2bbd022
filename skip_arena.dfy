/** The skip list's nodes kept in an arena: index 0 is the head, and `elems` lists the arena
    indices of the data nodes in level-0 order. Slot 0 is the head and slot s >= 1 is the data
    node at position s - 1. The list is linked correctly when every link of slot s at level l
    leads to the first later node taller than l, or is null when there is none. The lemmas
    here say that the splices made by insert, delete, grow and trim keep it so. */
module SkipArena {
  import opened SkipNode
  import opened SkipLevels

  ghost predicate Members(nodes: seq<Node>, elems: seq<nat>) {
    && |nodes| >= 1
    && forall k :: 0 <= k < |elems| ==> 0 < elems[k] < |nodes| && nodes[elems[k]].Data?
  }

  /** The data nodes in level-0 order, as entries. */
  ghost function EntriesOf(nodes: seq<Node>, elems: seq<nat>): (es: seq<Entry>)
    requires Members(nodes, elems)
    ensures |es| == |elems|
    ensures forall k :: 0 <= k < |elems| ==>
      es[k] == Entry(nodes[elems[k]].value, nodes[elems[k]].Height())
  {
    seq(|elems|, k requires 0 <= k < |elems| => Entry(nodes[elems[k]].value, nodes[elems[k]].Height()))
  }

  /** The arena index of slot s. */
  function Slot(elems: seq<nat>, s: nat): nat
    requires s <= |elems|
  {
    if s == 0 then 0 else elems[s - 1]
  }

  /** The link to the data node at position q, null past the end. */
  function LinkAt(elems: seq<nat>, q: nat): Link
    requires q <= |elems|
  {
    if q == |elems| then Nil else To(elems[q])
  }

  /** The first position from `from` on whose entry is taller than l (|es| if none). */
  function SuccPos(es: seq<Entry>, from: nat, l: nat): (q: nat)
    requires from <= |es|
    ensures from <= q <= |es|
    ensures q < |es| ==> es[q].height > l
    ensures forall r :: from <= r < q ==> es[r].height <= l
    decreases |es| - from
  {
    if from == |es| || es[from].height > l then from else SuccPos(es, from + 1, l)
  }

  /** The last slot up to p that reaches level l: where a search for position p drops from
      level l. */
  function PredSlot(es: seq<Entry>, p: nat, l: nat): (s: nat)
    requires p <= |es|
    ensures s <= p
    ensures s == 0 || es[s - 1].height > l
    ensures forall r :: s <= r < p ==> es[r].height <= l
  {
    if p == 0 || es[p - 1].height > l then p else PredSlot(es, p - 1, l)
  }

  /** Every link of every slot leads to the next node reaching that level. */
  ghost predicate Linked(nodes: seq<Node>, elems: seq<nat>)
    requires Members(nodes, elems)
  {
    forall s, l :: 0 <= s <= |elems| && 0 <= l < nodes[Slot(elems, s)].Height() ==>
      nodes[Slot(elems, s)].ref[l] == LinkAt(elems, SuccPos(EntriesOf(nodes, elems), s, l))
  }

  /** A well-formed list of height maxHeight. */
  ghost predicate Wf(nodes: seq<Node>, elems: seq<nat>, maxHeight: int) {
    && Members(nodes, elems)
    && nodes[0].Head?
    && nodes[0].Height() == maxHeight
    && Sorted(EntriesOf(nodes, elems))
    && (forall k :: 0 <= k < |elems| ==> 1 <= nodes[elems[k]].Height() <= maxHeight)
    && Linked(nodes, elems)
  }

  /** SuccPos is the only position with its three properties. */
  lemma SuccPosUnique(es: seq<Entry>, from: nat, l: nat, q: nat)
    requires from <= q <= |es|
    requires q < |es| ==> es[q].height > l
    requires forall r :: from <= r < q ==> es[r].height <= l
    ensures SuccPos(es, from, l) == q
  {
  }

  /** PredSlot is the only slot with its three properties. */
  lemma PredSlotUnique(es: seq<Entry>, p: nat, l: nat, s: nat)
    requires s <= p <= |es|
    requires s == 0 || es[s - 1].height > l
    requires forall r :: s <= r < p ==> es[r].height <= l
    ensures PredSlot(es, p, l) == s
  {
  }

  /** Entries not taller than l after p do not change where a search drops from level l. */
  lemma PredSlotSkip(es: seq<Entry>, from: nat, to: nat, l: nat)
    requires from <= to <= |es|
    requires forall r :: from <= r < to ==> es[r].height <= l
    ensures PredSlot(es, to, l) == PredSlot(es, from, l)
  {
    PredSlotUnique(es, to, l, PredSlot(es, from, l));
  }

  /** Skipping entries not taller than l does not change the next one that is. */
  lemma SuccPosSkip(es: seq<Entry>, from: nat, to: nat, l: nat)
    requires from <= to <= |es|
    requires forall r :: from <= r < to ==> es[r].height <= l
    ensures SuccPos(es, from, l) == SuccPos(es, to, l)
  {
    SuccPosUnique(es, from, l, SuccPos(es, to, l));
  }

  /** Two lists whose entries reach level l at the same positions agree on SuccPos there. */
  lemma SuccPosSameAbove(es1: seq<Entry>, es2: seq<Entry>, from: nat, l: nat)
    requires |es1| == |es2| && from <= |es1|
    requires forall r :: 0 <= r < |es1| ==> (es1[r].height > l <==> es2[r].height > l)
    ensures SuccPos(es1, from, l) == SuccPos(es2, from, l)
  {
    SuccPosUnique(es2, from, l, SuccPos(es1, from, l));
  }

  /** Distinct slots of a sorted list are distinct arena nodes. */
  lemma SlotInjective(nodes: seq<Node>, elems: seq<nat>, s1: nat, s2: nat)
    requires Members(nodes, elems) && Sorted(EntriesOf(nodes, elems))
    requires s1 <= |elems| && s2 <= |elems|
    ensures Slot(elems, s1) == Slot(elems, s2) ==> s1 == s2
  {
    var es := EntriesOf(nodes, elems);
    if s1 > 0 && s2 > 0 {
      assert es[s1 - 1].value == nodes[elems[s1 - 1]].value;
      assert es[s2 - 1].value == nodes[elems[s2 - 1]].value;
    }
  }

  /** The link of the slot where a search for position p drops from level l. */
  lemma PredLink(nodes: seq<Node>, elems: seq<nat>, p: nat, l: nat)
    requires Members(nodes, elems) && Linked(nodes, elems)
    requires p <= |elems| && l < nodes[0].Height()
    ensures var s := PredSlot(EntriesOf(nodes, elems), p, l);
      && l < nodes[Slot(elems, s)].Height()
      && nodes[Slot(elems, s)].ref[l] == LinkAt(elems, SuccPos(EntriesOf(nodes, elems), p, l))
  {
    var es := EntriesOf(nodes, elems);
    var s := PredSlot(es, p, l);
    if s > 0 {
      assert es[s - 1].height == nodes[elems[s - 1]].Height();
    }
    SuccPosSkip(es, s, p, l);
  }

  // ---- insert ----

  /** The entries of a sequence with one element inserted at position p. */
  lemma InsertAt<T>(xs: seq<T>, p: nat, y: T)
    requires p <= |xs|
    ensures var xs1 := xs[..p] + [y] + xs[p..];
      && |xs1| == |xs| + 1
      && (forall k :: 0 <= k < p ==> xs1[k] == xs[k])
      && xs1[p] == y
      && (forall k :: p < k < |xs1| ==> xs1[k] == xs[k - 1])
  {
  }

  /** The entries of a sequence with the element at position p removed. */
  lemma RemoveAt<T>(xs: seq<T>, p: nat)
    requires p < |xs|
    ensures var xs1 := xs[..p] + xs[p + 1..];
      && |xs1| == |xs| - 1
      && (forall k :: 0 <= k < p ==> xs1[k] == xs[k])
      && (forall k :: p <= k < |xs1| ==> xs1[k] == xs[k + 1])
  {
  }

  /** Positions and slots of elems with n inserted at position p. */
  lemma ElemsInsert(elems: seq<nat>, p: nat, n: nat)
    requires p <= |elems|
    ensures var e1 := elems[..p] + [n] + elems[p..];
      && (forall s :: 0 <= s <= |e1| ==>
        Slot(e1, s) == if s <= p then Slot(elems, s) else if s == p + 1 then n else Slot(elems, s - 1))
      && (forall q :: 0 <= q < p ==> LinkAt(e1, q) == LinkAt(elems, q))
      && LinkAt(e1, p) == To(n)
      && (forall q :: p < q <= |e1| ==> LinkAt(e1, q) == LinkAt(elems, q - 1))
  {
    var e1 := elems[..p] + [n] + elems[p..];
    InsertAt(elems, p, n);
    forall q | p < q <= |e1|
      ensures LinkAt(e1, q) == LinkAt(elems, q - 1)
    {
      if q < |e1| {
        assert e1[q] == elems[q - 1];
      }
    }
  }

  /** SuccPos in a list with e inserted at position p, in terms of the before list. */
  lemma SuccPosInsert(es: seq<Entry>, p: nat, e: Entry, from: nat, l: nat)
    requires p <= |es| && from <= |es| + 1
    ensures SuccPos(es[..p] + [e] + es[p..], from, l) ==
      if from > p then SuccPos(es, from - 1, l) + 1
      else if SuccPos(es, from, l) < p then SuccPos(es, from, l)
      else if e.height > l then p
      else SuccPos(es, from, l) + 1
  {
    var es1 := es[..p] + [e] + es[p..];
    InsertAt(es, p, e);
    if from > p {
      SuccPosInsertShifted(es, p, e, from, l);
    } else {
      var q := SuccPos(es, from, l);
      if q < p {
        SuccPosUnique(es1, from, l, q);
      } else if e.height > l {
        SuccPosUnique(es1, from, l, p);
      } else {
        SuccPosInsertPassed(es, p, e, from, l);
      }
    }
  }

  /** SuccPosInsert for a walk that starts after the inserted entry. */
  lemma SuccPosInsertShifted(es: seq<Entry>, p: nat, e: Entry, from: nat, l: nat)
    requires p < from <= |es| + 1
    ensures SuccPos(es[..p] + [e] + es[p..], from, l) == SuccPos(es, from - 1, l) + 1
  {
    var es1 := es[..p] + [e] + es[p..];
    InsertAt(es, p, e);
    var q := SuccPos(es, from - 1, l);
    forall r | from <= r < q + 1
      ensures es1[r].height <= l
    {
      assert es1[r] == es[r - 1];
    }
    SuccPosUnique(es1, from, l, q + 1);
  }

  /** SuccPosInsert for a walk that passes over a low inserted entry. */
  lemma SuccPosInsertPassed(es: seq<Entry>, p: nat, e: Entry, from: nat, l: nat)
    requires from <= p <= |es| && p <= SuccPos(es, from, l) && e.height <= l
    ensures SuccPos(es[..p] + [e] + es[p..], from, l) == SuccPos(es, from, l) + 1
  {
    var es1 := es[..p] + [e] + es[p..];
    InsertAt(es, p, e);
    var q := SuccPos(es, from, l);
    forall r | from <= r < q + 1
      ensures es1[r].height <= l
    {
      if r > p {
        assert es1[r] == es[r - 1];
      }
    }
    SuccPosUnique(es1, from, l, q + 1);
  }

  /** The arena after insert's splice loops have set the links of levels lo .. h - 1: node
      n = |nodes0| is the new data node holding x, each of its links points where its
      predecessor's did, and the predecessor at each of those levels points at n. */
  ghost predicate InsertSpliced(nodes0: seq<Node>, elems: seq<nat>, nodes1: seq<Node>, p: nat, x: int, h: nat, lo: int)
    requires Members(nodes0, elems) && p <= |elems|
  {
    var es := EntriesOf(nodes0, elems);
    var n := |nodes0|;
    && InsertShape(nodes0, elems, nodes1, p, x, h)
    && (forall a, l {:trigger nodes1[a].ref[l]} :: 0 <= a < n && 0 <= l < nodes0[a].Height() ==>
         nodes1[a].ref[l] == if lo <= l < h && a == Slot(elems, PredSlot(es, p, l)) then To(n) else nodes0[a].ref[l])
  }

  /** The part of InsertSpliced the second splice loop does not change: the new node n and
      the kind, data and height of every old node. */
  ghost predicate InsertShape(nodes0: seq<Node>, elems: seq<nat>, nodes1: seq<Node>, p: nat, x: int, h: nat)
    requires Members(nodes0, elems) && p <= |elems|
  {
    var n := |nodes0|;
    && |nodes1| == n + 1
    && nodes1[n].Data? && nodes1[n].value == x && nodes1[n].Height() == h
    && (forall j :: 0 <= j < h ==> nodes1[n].ref[j] == LinkAt(elems, SuccPos(EntriesOf(nodes0, elems), p, j)))
    && (forall a :: 0 <= a < n ==>
         nodes1[a].Head? == nodes0[a].Head? && (nodes0[a].Data? ==> nodes1[a].value == nodes0[a].value) && nodes1[a].Height() == nodes0[a].Height())
  }

  /** Setting one link of an old node keeps InsertShape. */
  lemma InsertShapeStep(nodes0: seq<Node>, elems: seq<nat>, nodes: seq<Node>, p: nat, x: int, h: nat, a: nat, l: nat, link: Link)
    requires Members(nodes0, elems) && p <= |elems|
    requires InsertShape(nodes0, elems, nodes, p, x, h) && a < |nodes0|
    ensures InsertShape(nodes0, elems, nodes[a := nodes[a].SetNext(l, link)], p, x, h)
  {
    var n1 := nodes[a := nodes[a].SetNext(l, link)];
    assert n1[|nodes0|] == nodes[|nodes0|];
  }

  /** A link of a slot before the insertion point: the predecessor at a level the new entry
      reaches now points at it; every other link keeps its target. */
  lemma InsertLinkBefore(es: seq<Entry>, elems: seq<nat>, p: nat, e: Entry, n: nat, s1: nat, l: nat,
                         before: Link, after: Link)
    requires |es| == |elems| && s1 <= p <= |es|
    requires s1 == 0 || es[s1 - 1].height > l
    requires before == LinkAt(elems, SuccPos(es, s1, l))
    requires after == if l < e.height && s1 == PredSlot(es, p, l) then To(n) else before
    ensures after == LinkAt(elems[..p] + [n] + elems[p..], SuccPos(es[..p] + [e] + es[p..], s1, l))
  {
    var es1 := es[..p] + [e] + es[p..];
    var e1 := elems[..p] + [n] + elems[p..];
    var q := SuccPos(es, s1, l);
    ElemsInsert(elems, p, n);
    SuccPosInsert(es, p, e, s1, l);
    if q < p {
      assert PredSlot(es, p, l) > s1 by {
        assert es[q].height > l;
      }
      assert SuccPos(es1, s1, l) == q && LinkAt(e1, q) == LinkAt(elems, q);
    } else if l < e.height {
      PredSlotUnique(es, p, l, s1);
      assert SuccPos(es1, s1, l) == p && LinkAt(e1, p) == To(n);
    } else {
      assert SuccPos(es1, s1, l) == q + 1 && LinkAt(e1, q + 1) == LinkAt(elems, q);
    }
  }

  /** The new node's link at level l is the one its predecessor had. */
  lemma InsertLinkNew(es: seq<Entry>, elems: seq<nat>, p: nat, e: Entry, n: nat, l: nat, after: Link)
    requires |es| == |elems| && p <= |es|
    requires after == LinkAt(elems, SuccPos(es, p, l))
    ensures after == LinkAt(elems[..p] + [n] + elems[p..], SuccPos(es[..p] + [e] + es[p..], p + 1, l))
  {
    ElemsInsert(elems, p, n);
    SuccPosInsert(es, p, e, p + 1, l);
  }

  /** A link of a slot after the insertion point keeps its target. */
  lemma InsertLinkAfter(es: seq<Entry>, elems: seq<nat>, p: nat, e: Entry, n: nat, s1: nat, l: nat, before: Link)
    requires |es| == |elems| && p + 1 < s1 <= |es| + 1
    requires before == LinkAt(elems, SuccPos(es, s1 - 1, l))
    ensures before == LinkAt(elems[..p] + [n] + elems[p..], SuccPos(es[..p] + [e] + es[p..], s1, l))
  {
    ElemsInsert(elems, p, n);
    SuccPosInsert(es, p, e, s1, l);
  }

  lemma InsertLinkedBefore(nodes0: seq<Node>, elems: seq<nat>, nodes1: seq<Node>, p: nat, x: int, h: nat, s1: nat, l: nat)
    requires Members(nodes0, elems) && Sorted(EntriesOf(nodes0, elems)) && Linked(nodes0, elems)
    requires p <= |elems| && InsertSpliced(nodes0, elems, nodes1, p, x, h, 0)
    requires s1 <= p && l < nodes0[Slot(elems, s1)].Height()
    ensures var es := EntriesOf(nodes0, elems);
      nodes1[Slot(elems, s1)].ref[l]
        == LinkAt(elems[..p] + [|nodes0|] + elems[p..], SuccPos(es[..p] + [Entry(x, h)] + es[p..], s1, l))
  {
    var es := EntriesOf(nodes0, elems);
    var a := Slot(elems, s1);
    var ps := PredSlot(es, p, l);
    SlotInjective(nodes0, elems, s1, ps);
    if s1 > 0 {
      assert es[s1 - 1].height == nodes0[elems[s1 - 1]].Height();
    }
    assert nodes0[a].ref[l] == LinkAt(elems, SuccPos(es, s1, l));
    assert nodes1[a].ref[l] == if l < h && a == Slot(elems, ps) then To(|nodes0|) else nodes0[a].ref[l];
    InsertLinkBefore(es, elems, p, Entry(x, h), |nodes0|, s1, l, nodes0[a].ref[l], nodes1[a].ref[l]);
  }

  lemma InsertLinkedNew(nodes0: seq<Node>, elems: seq<nat>, nodes1: seq<Node>, p: nat, x: int, h: nat, l: nat)
    requires Members(nodes0, elems) && Sorted(EntriesOf(nodes0, elems))
    requires p <= |elems| && InsertSpliced(nodes0, elems, nodes1, p, x, h, 0)
    requires l < h
    ensures var es := EntriesOf(nodes0, elems);
      nodes1[|nodes0|].ref[l]
        == LinkAt(elems[..p] + [|nodes0|] + elems[p..], SuccPos(es[..p] + [Entry(x, h)] + es[p..], p + 1, l))
  {
    var es := EntriesOf(nodes0, elems);
    InsertLinkNew(es, elems, p, Entry(x, h), |nodes0|, l, nodes1[|nodes0|].ref[l]);
  }

  lemma InsertLinkedAfter(nodes0: seq<Node>, elems: seq<nat>, nodes1: seq<Node>, p: nat, x: int, h: nat, s1: nat, l: nat)
    requires Members(nodes0, elems) && Sorted(EntriesOf(nodes0, elems)) && Linked(nodes0, elems)
    requires p <= |elems| && InsertSpliced(nodes0, elems, nodes1, p, x, h, 0)
    requires p + 1 < s1 <= |elems| + 1 && l < nodes0[Slot(elems, s1 - 1)].Height()
    ensures var es := EntriesOf(nodes0, elems);
      nodes1[Slot(elems, s1 - 1)].ref[l]
        == LinkAt(elems[..p] + [|nodes0|] + elems[p..], SuccPos(es[..p] + [Entry(x, h)] + es[p..], s1, l))
  {
    var es := EntriesOf(nodes0, elems);
    var a := Slot(elems, s1 - 1);
    SlotInjective(nodes0, elems, s1 - 1, PredSlot(es, p, l));
    assert es[s1 - 2].height == nodes0[elems[s1 - 2]].Height();
    InsertLinkAfter(es, elems, p, Entry(x, h), |nodes0|, s1, l, nodes1[a].ref[l]);
  }

  /** The data nodes after insert's splice: x's node at its place, the others as they were. */
  lemma InsertEntries(nodes0: seq<Node>, elems: seq<nat>, nodes1: seq<Node>, p: nat, x: int, h: nat)
    requires Members(nodes0, elems) && Sorted(EntriesOf(nodes0, elems))
    requires p <= |elems| && InsertSpliced(nodes0, elems, nodes1, p, x, h, 0)
    ensures var es := EntriesOf(nodes0, elems);
      var elems1 := elems[..p] + [|nodes0|] + elems[p..];
      && Members(nodes1, elems1)
      && EntriesOf(nodes1, elems1) == es[..p] + [Entry(x, h)] + es[p..]
  {
    var es := EntriesOf(nodes0, elems);
    var n := |nodes0|;
    var elems1 := elems[..p] + [n] + elems[p..];
    var es1 := es[..p] + [Entry(x, h)] + es[p..];
    InsertAt(elems, p, n);
    InsertAt(es, p, Entry(x, h));
    forall k | 0 <= k < |elems1|
      ensures 0 < elems1[k] < |nodes1| && nodes1[elems1[k]].Data?
      ensures Entry(nodes1[elems1[k]].value, nodes1[elems1[k]].Height()) == es1[k]
    {
      if k < p {
        assert elems1[k] == elems[k] && es1[k] == es[k];
      } else if k > p {
        assert elems1[k] == elems[k - 1] && es1[k] == es[k - 1];
      }
    }
    assert Members(nodes1, elems1);
    assert EntriesOf(nodes1, elems1) == es1;
  }

  /** Insert's splice leaves a correctly linked list with x at its place. */
  lemma InsertLinked(nodes0: seq<Node>, elems: seq<nat>, nodes1: seq<Node>, p: nat, x: int, h: nat)
    requires Members(nodes0, elems) && Sorted(EntriesOf(nodes0, elems)) && Linked(nodes0, elems)
    requires p <= |elems| && InsertSpliced(nodes0, elems, nodes1, p, x, h, 0)
    ensures var es := EntriesOf(nodes0, elems);
      var elems1 := elems[..p] + [|nodes0|] + elems[p..];
      && Members(nodes1, elems1)
      && EntriesOf(nodes1, elems1) == es[..p] + [Entry(x, h)] + es[p..]
      && Linked(nodes1, elems1)
  {
    var es := EntriesOf(nodes0, elems);
    var n := |nodes0|;
    var elems1 := elems[..p] + [n] + elems[p..];
    InsertEntries(nodes0, elems, nodes1, p, x, h);
    ElemsInsert(elems, p, n);
    forall s1, l | 0 <= s1 <= |elems1| && 0 <= l < nodes1[Slot(elems1, s1)].Height()
      ensures nodes1[Slot(elems1, s1)].ref[l] == LinkAt(elems1, SuccPos(EntriesOf(nodes1, elems1), s1, l))
    {
      if s1 <= p {
        InsertLinkedBefore(nodes0, elems, nodes1, p, x, h, s1, l);
      } else if s1 == p + 1 {
        InsertLinkedNew(nodes0, elems, nodes1, p, x, h, l);
      } else {
        InsertLinkedAfter(nodes0, elems, nodes1, p, x, h, s1, l);
      }
    }
  }

  /** Before insert's second splice loop: the new node, already linked where its
      predecessors pointed, is appended to the arena and no old link has changed yet. */
  lemma InsertSpliceStart(nodes0: seq<Node>, elems: seq<nat>, node: Node, p: nat, x: int, h: nat)
    requires Members(nodes0, elems) && p <= |elems|
    requires node.Data? && node.value == x && node.Height() == h
    requires forall j :: 0 <= j < h ==> node.ref[j] == LinkAt(elems, SuccPos(EntriesOf(nodes0, elems), p, j))
    ensures InsertSpliced(nodes0, elems, nodes0 + [node], p, x, h, h)
  {
    var nodes1 := nodes0 + [node];
    assert nodes1[|nodes0|] == node;
    assert forall a :: 0 <= a < |nodes0| ==> nodes1[a] == nodes0[a];
  }

  /** In a step of insert's second splice loop, the predecessor at level lo - 1 is an old node
      that reaches that level. */
  lemma InsertSpliceIndex(nodes0: seq<Node>, elems: seq<nat>, nodes: seq<Node>, p: nat, x: int, h: nat, lo: nat, a: nat)
    requires Members(nodes0, elems) && p <= |elems|
    requires h <= nodes0[0].Height()
    requires InsertSpliced(nodes0, elems, nodes, p, x, h, lo) && 0 < lo <= h
    requires a == Slot(elems, PredSlot(EntriesOf(nodes0, elems), p, lo - 1))
    ensures a < |nodes0| && lo - 1 < nodes0[a].Height() && nodes[a].Height() == nodes0[a].Height()
  {
    var es := EntriesOf(nodes0, elems);
    var ps := PredSlot(es, p, lo - 1);
    if ps > 0 {
      assert es[ps - 1].height == nodes0[elems[ps - 1]].Height();
    }
  }

  /** One step of insert's second splice loop: the predecessor at level lo - 1 now points at
      the new node there; every link of an old node is as InsertSpliced says. */
  lemma InsertSpliceLinks(nodes0: seq<Node>, elems: seq<nat>, nodes: seq<Node>, n1: seq<Node>,
                          p: nat, x: int, h: nat, lo: nat, a: nat)
    requires Members(nodes0, elems) && p <= |elems|
    requires InsertSpliced(nodes0, elems, nodes, p, x, h, lo) && 0 < lo <= h
    requires a == Slot(elems, PredSlot(EntriesOf(nodes0, elems), p, lo - 1)) && a < |nodes0|
    requires lo - 1 < nodes0[a].Height()
    requires n1 == nodes[a := nodes[a].SetNext(lo - 1, To(|nodes0|))]
    ensures InsertSpliced(nodes0, elems, n1, p, x, h, lo - 1)
  {
    InsertShapeStep(nodes0, elems, nodes, p, x, h, a, lo - 1, To(|nodes0|));
    forall b, l | 0 <= b < |nodes0| && 0 <= l < nodes0[b].Height()
      ensures n1[b].ref[l] == if lo - 1 <= l < h && b == Slot(elems, PredSlot(EntriesOf(nodes0, elems), p, l)) then To(|nodes0|) else nodes0[b].ref[l]
    {
      InsertSpliceLink(nodes0, elems, nodes, n1, p, x, h, lo, a, b, l);
    }
  }

  /** One link of an old node across a step of insert's second splice loop. */
  lemma InsertSpliceLink(nodes0: seq<Node>, elems: seq<nat>, nodes: seq<Node>, n1: seq<Node>,
                         p: nat, x: int, h: nat, lo: nat, a: nat, b: nat, l: nat)
    requires Members(nodes0, elems) && p <= |elems|
    requires InsertSpliced(nodes0, elems, nodes, p, x, h, lo) && 0 < lo <= h
    requires a == Slot(elems, PredSlot(EntriesOf(nodes0, elems), p, lo - 1)) && a < |nodes0|
    requires lo - 1 < nodes0[a].Height()
    requires b < |nodes0| && l < nodes0[b].Height()
    requires n1 == nodes[a := nodes[a].SetNext(lo - 1, To(|nodes0|))]
    ensures n1[b].ref[l] == if lo - 1 <= l < h && b == Slot(elems, PredSlot(EntriesOf(nodes0, elems), p, l)) then To(|nodes0|) else nodes0[b].ref[l]
  {
    var es := EntriesOf(nodes0, elems);
    InsertSplicedAt(nodes0, elems, nodes, p, x, h, lo, b, l);
    SetNextAt(nodes, a, lo - 1, To(|nodes0|), b, l);
    InsertSpliceAt(es, elems, p, h, lo, |nodes0|, a, b, l, nodes0[b].ref[l], nodes[b].ref[l], n1[b].ref[l]);
  }

  /** The link of an old node at one level, as InsertSpliced gives it. */
  lemma InsertSplicedAt(nodes0: seq<Node>, elems: seq<nat>, nodes: seq<Node>, p: nat, x: int, h: nat, lo: int, b: nat, l: nat)
    requires Members(nodes0, elems) && p <= |elems|
    requires InsertSpliced(nodes0, elems, nodes, p, x, h, lo)
    requires b < |nodes0| && l < nodes0[b].Height()
    ensures l < nodes[b].Height()
    ensures nodes[b].ref[l] == if lo <= l < h && b == Slot(elems, PredSlot(EntriesOf(nodes0, elems), p, l)) then To(|nodes0|) else nodes0[b].ref[l]
  {
  }

  /** Reading a link of an arena after setting the link of node a at one level. */
  lemma SetNextAt(nodes: seq<Node>, a: nat, level: nat, link: Link, b: nat, l: nat)
    requires a < |nodes| && b < |nodes| && level < nodes[a].Height() && l < nodes[b].Height()
    ensures l < nodes[a := nodes[a].SetNext(level, link)][b].Height()
    ensures nodes[a := nodes[a].SetNext(level, link)][b].ref[l] == if b == a && l == level then link else nodes[b].ref[l]
  {
    if b == a {
      NextAfterSetNext(nodes[a], level, link, l);
    }
  }

  /** One link across a step of insert's second splice loop. */
  lemma InsertSpliceAt(es: seq<Entry>, elems: seq<nat>, p: nat, h: nat, lo: nat, n: nat, a: nat, b: nat, l: nat,
                       r0: Link, before: Link, after: Link)
    requires |es| == |elems| && p <= |es| && 0 < lo
    requires a == Slot(elems, PredSlot(es, p, lo - 1))
    requires before == if lo <= l < h && b == Slot(elems, PredSlot(es, p, l)) then To(n) else r0
    requires after == if b == a && l == lo - 1 then To(n) else before
    requires lo <= h
    ensures after == if lo - 1 <= l < h && b == Slot(elems, PredSlot(es, p, l)) then To(n) else r0
  {
  }

  /** Insert's splice leaves a well-formed list of the same height with x at its place. */
  lemma InsertWf(nodes0: seq<Node>, elems: seq<nat>, maxHeight: int, nodes1: seq<Node>, p: nat, x: int, h: nat)
    requires Wf(nodes0, elems, maxHeight) && 1 <= h <= maxHeight
    requires x !in Values(EntriesOf(nodes0, elems)) && p == Position(EntriesOf(nodes0, elems), x)
    requires InsertSpliced(nodes0, elems, nodes1, p, x, h, 0)
    ensures var es := EntriesOf(nodes0, elems);
      var elems1 := elems[..p] + [|nodes0|] + elems[p..];
      && Wf(nodes1, elems1, maxHeight)
      && EntriesOf(nodes1, elems1) == es[..p] + [Entry(x, h)] + es[p..]
  {
    var es := EntriesOf(nodes0, elems);
    var elems1 := elems[..p] + [|nodes0|] + elems[p..];
    InsertLinked(nodes0, elems, nodes1, p, x, h);
    InsertSorted(es, x, h);
    InsertHeights(es, p, Entry(x, h), maxHeight);
    HeightsOfEntries(nodes1, elems1, maxHeight);
  }

  /** Heights stay in [1, maxHeight] when an entry whose height is in that range is added. */
  lemma InsertHeights(es: seq<Entry>, p: nat, e: Entry, maxHeight: int)
    requires p <= |es| && 1 <= e.height <= maxHeight
    requires forall k :: 0 <= k < |es| ==> 1 <= es[k].height <= maxHeight
    ensures forall k :: 0 <= k < |es| + 1 ==> 1 <= (es[..p] + [e] + es[p..])[k].height <= maxHeight
  {
    forall k | 0 <= k < |es| + 1
      ensures 1 <= (es[..p] + [e] + es[p..])[k].height <= maxHeight
    {
      if k < p {
        assert (es[..p] + [e] + es[p..])[k] == es[k];
      } else if k > p {
        assert (es[..p] + [e] + es[p..])[k] == es[k - 1];
      }
    }
  }

  /** The height bound of Wf, read off the entries. */
  lemma HeightsOfEntries(nodes: seq<Node>, elems: seq<nat>, maxHeight: int)
    requires Members(nodes, elems)
    requires forall k :: 0 <= k < |elems| ==> 1 <= EntriesOf(nodes, elems)[k].height <= maxHeight
    ensures forall k :: 0 <= k < |elems| ==> 1 <= nodes[elems[k]].Height() <= maxHeight
  {
    forall k | 0 <= k < |elems|
      ensures 1 <= nodes[elems[k]].Height() <= maxHeight
    {
      assert EntriesOf(nodes, elems)[k].height == nodes[elems[k]].Height();
    }
  }

  // ---- delete ----

  /** Before delete's splice loop nothing has changed. */
  lemma DeleteSpliceStart(nodes0: seq<Node>, elems: seq<nat>, p: nat)
    requires Members(nodes0, elems) && p < |elems|
    ensures DeleteSpliced(nodes0, elems, nodes0, p, 0)
  {
  }

  /** One step of delete's splice loop: the predecessor at level hi takes over the removed
      node's link there. */
  lemma DeleteSpliceStep(nodes0: seq<Node>, elems: seq<nat>, nodes: seq<Node>, p: nat, hi: nat, a: nat)
    requires Members(nodes0, elems) && Sorted(EntriesOf(nodes0, elems)) && p < |elems|
    requires nodes0[elems[p]].Height() <= nodes0[0].Height()
    requires DeleteSpliced(nodes0, elems, nodes, p, hi) && hi < nodes0[elems[p]].Height()
    requires a == Slot(elems, PredSlot(EntriesOf(nodes0, elems), p, hi))
    ensures a < |nodes0| && a != elems[p] && hi < nodes[a].Height()
    ensures nodes[elems[p]] == nodes0[elems[p]]
    ensures DeleteSpliced(nodes0, elems, nodes[a := nodes[a].SetNext(hi, nodes0[elems[p]].Next(hi))], p, hi + 1)
  {
    var es := EntriesOf(nodes0, elems);
    var spot := nodes0[elems[p]];
    var ps := PredSlot(es, p, hi);
    if ps > 0 {
      assert es[ps - 1].height == nodes0[elems[ps - 1]].Height();
    }
    SlotInjective(nodes0, elems, ps, p + 1);
    DeleteSpotKept(nodes0, elems, nodes, p, hi);
    var n1 := nodes[a := nodes[a].SetNext(hi, spot.Next(hi))];
    DeleteSpliceLinks(nodes0, elems, nodes, n1, p, hi, a);
  }

  /** The links of delete's splice step, level by level. */
  lemma DeleteSpliceLinks(nodes0: seq<Node>, elems: seq<nat>, nodes: seq<Node>, n1: seq<Node>, p: nat, hi: nat, a: nat)
    requires Members(nodes0, elems) && p < |elems|
    requires DeleteSpliced(nodes0, elems, nodes, p, hi) && hi < nodes0[elems[p]].Height()
    requires a == Slot(elems, PredSlot(EntriesOf(nodes0, elems), p, hi)) && a < |nodes0|
    requires hi < nodes0[a].Height()
    requires n1 == nodes[a := nodes[a].SetNext(hi, nodes0[elems[p]].Next(hi))]
    ensures DeleteSpliced(nodes0, elems, n1, p, hi + 1)
  {
    DeleteShapeStep(nodes0, nodes, a, hi, nodes0[elems[p]].Next(hi));
    forall b, l | 0 <= b < |nodes0| && 0 <= l < nodes0[b].Height()
      ensures n1[b].ref[l] ==
        if l < hi + 1 && l < nodes0[elems[p]].Height() && b == Slot(elems, PredSlot(EntriesOf(nodes0, elems), p, l))
        then nodes0[elems[p]].ref[l]
        else nodes0[b].ref[l]
    {
      DeleteSpliceLink(nodes0, elems, nodes, n1, p, hi, a, b, l);
    }
  }

  /** One link of an old node across a step of delete's splice loop. */
  lemma DeleteSpliceLink(nodes0: seq<Node>, elems: seq<nat>, nodes: seq<Node>, n1: seq<Node>, p: nat, hi: nat, a: nat,
                         b: nat, l: nat)
    requires Members(nodes0, elems) && p < |elems|
    requires DeleteSpliced(nodes0, elems, nodes, p, hi) && hi < nodes0[elems[p]].Height()
    requires a == Slot(elems, PredSlot(EntriesOf(nodes0, elems), p, hi)) && a < |nodes0|
    requires hi < nodes0[a].Height()
    requires n1 == nodes[a := nodes[a].SetNext(hi, nodes0[elems[p]].Next(hi))]
    requires b < |nodes0| && l < nodes0[b].Height()
    ensures n1[b].ref[l] ==
      if l < hi + 1 && l < nodes0[elems[p]].Height() && b == Slot(elems, PredSlot(EntriesOf(nodes0, elems), p, l))
      then nodes0[elems[p]].ref[l]
      else nodes0[b].ref[l]
  {
    var es := EntriesOf(nodes0, elems);
    var spot := nodes0[elems[p]];
    DeleteSplicedAt(nodes0, elems, nodes, p, hi, b, l);
    assert nodes[a].Height() == nodes0[a].Height();
    SetNextAt(nodes, a, hi, spot.Next(hi), b, l);
    DeleteSpliceAt(es, elems, p, hi, a, b, l, spot.ref, nodes0[b].ref[l], nodes[b].ref[l], n1[b].ref[l]);
  }

  /** The removed node is no predecessor of itself, so delete's splice leaves it as it was. */
  lemma DeleteSpotKept(nodes0: seq<Node>, elems: seq<nat>, nodes: seq<Node>, p: nat, hi: int)
    requires Members(nodes0, elems) && Sorted(EntriesOf(nodes0, elems)) && p < |elems|
    requires DeleteSpliced(nodes0, elems, nodes, p, hi)
    ensures nodes[elems[p]] == nodes0[elems[p]]
  {
    var es := EntriesOf(nodes0, elems);
    var spot := nodes0[elems[p]];
    assert Slot(elems, p + 1) == elems[p];
    var n0 := nodes[elems[p]];
    forall l | 0 <= l < spot.Height()
      ensures n0.ref[l] == spot.ref[l]
    {
      SlotInjective(nodes0, elems, PredSlot(es, p, l), p + 1);
      DeleteSplicedAt(nodes0, elems, nodes, p, hi, elems[p], l);
    }
    assert n0.ref == spot.ref;
  }

  /** The link of a node at one level, as DeleteSpliced gives it. */
  lemma DeleteSplicedAt(nodes0: seq<Node>, elems: seq<nat>, nodes: seq<Node>, p: nat, hi: int, b: nat, l: nat)
    requires Members(nodes0, elems) && p < |elems|
    requires DeleteSpliced(nodes0, elems, nodes, p, hi)
    requires b < |nodes0| && l < nodes0[b].Height()
    ensures l < nodes[b].Height()
    ensures nodes[b].ref[l] ==
      if l < hi && l < nodes0[elems[p]].Height() && b == Slot(elems, PredSlot(EntriesOf(nodes0, elems), p, l))
      then nodes0[elems[p]].ref[l] else nodes0[b].ref[l]
  {
  }

  /** One link across a step of delete's splice loop. */
  lemma DeleteSpliceAt(es: seq<Entry>, elems: seq<nat>, p: nat, hi: nat, a: nat, b: nat, l: nat,
                       spot: seq<Link>, r0: Link, before: Link, after: Link)
    requires |es| == |elems| && p < |es| && hi < |spot|
    requires a == Slot(elems, PredSlot(es, p, hi))
    requires before == if l < hi && l < |spot| && b == Slot(elems, PredSlot(es, p, l)) then spot[l] else r0
    requires after == if b == a && l == hi then spot[hi] else before
    ensures after == if l < hi + 1 && l < |spot| && b == Slot(elems, PredSlot(es, p, l)) then spot[l] else r0
  {
  }

  /** Delete's splice leaves a well-formed list of the same height without position p. */
  lemma DeleteWf(nodes0: seq<Node>, elems: seq<nat>, maxHeight: int, nodes1: seq<Node>, p: nat)
    requires Wf(nodes0, elems, maxHeight) && p < |elems|
    requires DeleteSpliced(nodes0, elems, nodes1, p, nodes0[elems[p]].Height())
    ensures var es := EntriesOf(nodes0, elems);
      var elems1 := elems[..p] + elems[p + 1..];
      && Wf(nodes1, elems1, maxHeight)
      && EntriesOf(nodes1, elems1) == es[..p] + es[p + 1..]
  {
    var es := EntriesOf(nodes0, elems);
    var elems1 := elems[..p] + elems[p + 1..];
    DeleteLinked(nodes0, elems, nodes1, p);
    RemoveSorted(es, p);
    forall k | 0 <= k < |elems1|
      ensures 1 <= nodes1[elems1[k]].Height() <= maxHeight
    {
      assert elems1[k] == if k < p then elems[k] else elems[k + 1];
    }
  }

  /** Positions and slots of elems with the element at position p removed. */
  lemma ElemsRemove(elems: seq<nat>, p: nat)
    requires p < |elems|
    ensures var e1 := elems[..p] + elems[p + 1..];
      && (forall s :: 0 <= s <= |e1| ==> Slot(e1, s) == if s <= p then Slot(elems, s) else Slot(elems, s + 1))
      && (forall q :: 0 <= q < p ==> LinkAt(e1, q) == LinkAt(elems, q))
      && (forall q :: p <= q <= |e1| ==> LinkAt(e1, q) == LinkAt(elems, q + 1))
  {
    var e1 := elems[..p] + elems[p + 1..];
    RemoveAt(elems, p);
    forall q | p <= q <= |e1|
      ensures LinkAt(e1, q) == LinkAt(elems, q + 1)
    {
      if q < |e1| {
        assert e1[q] == elems[q + 1];
      }
    }
  }

  /** SuccPos in a list with position p removed, in terms of the before list. */
  lemma SuccPosRemove(es: seq<Entry>, p: nat, from: nat, l: nat)
    requires p < |es| && from <= |es| - 1
    ensures SuccPos(es[..p] + es[p + 1..], from, l) ==
      if from > p then SuccPos(es, from + 1, l) - 1
      else if SuccPos(es, from, l) < p then SuccPos(es, from, l)
      else if SuccPos(es, from, l) == p then SuccPos(es, p + 1, l) - 1
      else SuccPos(es, from, l) - 1
  {
    var es1 := es[..p] + es[p + 1..];
    RemoveAt(es, p);
    if from > p {
      var q := SuccPos(es, from + 1, l);
      forall r | from <= r < q - 1
        ensures es1[r].height <= l
      {
        assert es1[r] == es[r + 1];
      }
      SuccPosUnique(es1, from, l, q - 1);
    } else {
      var q := SuccPos(es, from, l);
      if q < p {
        SuccPosUnique(es1, from, l, q);
      } else if q == p {
        var q2 := SuccPos(es, p + 1, l);
        forall r | from <= r < q2 - 1
          ensures es1[r].height <= l
        {
          if r >= p {
            assert es1[r] == es[r + 1];
          }
        }
        SuccPosUnique(es1, from, l, q2 - 1);
      } else {
        forall r | from <= r < q - 1
          ensures es1[r].height <= l
        {
          if r >= p {
            assert es1[r] == es[r + 1];
          }
        }
        SuccPosUnique(es1, from, l, q - 1);
      }
    }
  }

  /** The arena after delete's splice loop has set levels 0 .. hi - 1: the predecessor of the
      node at position p at each of those levels below its height now has that node's link. */
  ghost predicate DeleteSpliced(nodes0: seq<Node>, elems: seq<nat>, nodes1: seq<Node>, p: nat, hi: int)
    requires Members(nodes0, elems) && p < |elems|
  {
    var es := EntriesOf(nodes0, elems);
    var spot := nodes0[elems[p]];
    && DeleteShape(nodes0, nodes1)
    && (forall a, l {:trigger nodes1[a].ref[l]} :: 0 <= a < |nodes0| && 0 <= l < nodes0[a].Height() ==>
         nodes1[a].ref[l] ==
           if l < hi && l < spot.Height() && a == Slot(elems, PredSlot(es, p, l)) then spot.ref[l]
           else nodes0[a].ref[l])
  }

  /** The part of DeleteSpliced the splice loop does not change: the kind, data and height
      of every node. */
  ghost predicate DeleteShape(nodes0: seq<Node>, nodes1: seq<Node>) {
    && |nodes1| == |nodes0|
    && (forall a :: 0 <= a < |nodes0| ==>
         nodes1[a].Head? == nodes0[a].Head? && (nodes0[a].Data? ==> nodes1[a].value == nodes0[a].value) && nodes1[a].Height() == nodes0[a].Height())
  }

  /** Setting one link of a node keeps DeleteShape. */
  lemma DeleteShapeStep(nodes0: seq<Node>, nodes: seq<Node>, a: nat, l: nat, link: Link)
    requires DeleteShape(nodes0, nodes) && a < |nodes0|
    ensures DeleteShape(nodes0, nodes[a := nodes[a].SetNext(l, link)])
  {
  }

  /** A link of a slot up to the removed position: the predecessor of the removed node at a
      level it reaches takes over its link; every other link keeps its target. */
  lemma DeleteLinkBefore(es: seq<Entry>, elems: seq<nat>, p: nat, s1: nat, l: nat,
                         before: Link, spotLink: Link, after: Link)
    requires |es| == |elems| && s1 <= p < |es|
    requires s1 == 0 || es[s1 - 1].height > l
    requires before == LinkAt(elems, SuccPos(es, s1, l))
    requires l < es[p].height ==> spotLink == LinkAt(elems, SuccPos(es, p + 1, l))
    requires after == if l < es[p].height && s1 == PredSlot(es, p, l) then spotLink else before
    ensures after == LinkAt(elems[..p] + elems[p + 1..], SuccPos(es[..p] + es[p + 1..], s1, l))
  {
    ElemsRemove(elems, p);
    SuccPosRemove(es, p, s1, l);
    var q := SuccPos(es, s1, l);
    var ps := PredSlot(es, p, l);
    SuccPosSkip(es, ps, p, l);
    if q == p {
      PredSlotUnique(es, p, l, s1);
    }
  }

  /** A link of a slot after the removed position keeps its target. */
  lemma DeleteLinkAfter(es: seq<Entry>, elems: seq<nat>, p: nat, s1: nat, l: nat, before: Link)
    requires |es| == |elems| && p < s1 <= |es| - 1
    requires before == LinkAt(elems, SuccPos(es, s1 + 1, l))
    ensures before == LinkAt(elems[..p] + elems[p + 1..], SuccPos(es[..p] + es[p + 1..], s1, l))
  {
    ElemsRemove(elems, p);
    SuccPosRemove(es, p, s1, l);
  }

  lemma DeleteLinkedBefore(nodes0: seq<Node>, elems: seq<nat>, nodes1: seq<Node>, p: nat, s1: nat, l: nat)
    requires Members(nodes0, elems) && Sorted(EntriesOf(nodes0, elems)) && Linked(nodes0, elems)
    requires p < |elems|
    requires DeleteSpliced(nodes0, elems, nodes1, p, nodes0[elems[p]].Height())
    requires s1 <= p && l < nodes0[Slot(elems, s1)].Height()
    ensures nodes1[Slot(elems, s1)].ref[l]
      == LinkAt(elems[..p] + elems[p + 1..], SuccPos(EntriesOf(nodes0, elems)[..p] + EntriesOf(nodes0, elems)[p + 1..], s1, l))
  {
    var es := EntriesOf(nodes0, elems);
    var spot := nodes0[elems[p]];
    var a := Slot(elems, s1);
    var ps := PredSlot(es, p, l);
    SlotInjective(nodes0, elems, s1, ps);
    if s1 > 0 {
      assert es[s1 - 1].height == nodes0[elems[s1 - 1]].Height();
    }
    assert es[p].height == spot.Height();
    var spotLink := if l < spot.Height() then spot.ref[l] else Nil;
    if l < spot.Height() {
      assert spot == nodes0[Slot(elems, p + 1)];
      assert spotLink == LinkAt(elems, SuccPos(es, p + 1, l));
    }
    assert nodes0[a].ref[l] == LinkAt(elems, SuccPos(es, s1, l));
    assert nodes1[a].ref[l] == if l < spot.Height() && a == Slot(elems, ps) then spot.ref[l] else nodes0[a].ref[l];
    DeleteLinkBefore(es, elems, p, s1, l, nodes0[a].ref[l], spotLink, nodes1[a].ref[l]);
  }

  lemma DeleteLinkedAfter(nodes0: seq<Node>, elems: seq<nat>, nodes1: seq<Node>, p: nat, s1: nat, l: nat)
    requires Members(nodes0, elems) && Sorted(EntriesOf(nodes0, elems)) && Linked(nodes0, elems)
    requires p < s1 < |elems|
    requires DeleteSpliced(nodes0, elems, nodes1, p, nodes0[elems[p]].Height())
    requires l < nodes0[Slot(elems, s1 + 1)].Height()
    ensures nodes1[Slot(elems, s1 + 1)].ref[l]
      == LinkAt(elems[..p] + elems[p + 1..], SuccPos(EntriesOf(nodes0, elems)[..p] + EntriesOf(nodes0, elems)[p + 1..], s1, l))
  {
    var es := EntriesOf(nodes0, elems);
    SlotInjective(nodes0, elems, s1 + 1, PredSlot(es, p, l));
    assert es[s1].height == nodes0[elems[s1]].Height();
    DeleteLinkAfter(es, elems, p, s1, l, nodes1[Slot(elems, s1 + 1)].ref[l]);
  }

  lemma DeleteLinkedAt(nodes0: seq<Node>, elems: seq<nat>, nodes1: seq<Node>, p: nat, s1: nat, l: nat)
    requires Members(nodes0, elems) && Sorted(EntriesOf(nodes0, elems)) && Linked(nodes0, elems)
    requires p < |elems|
    requires DeleteSpliced(nodes0, elems, nodes1, p, nodes0[elems[p]].Height())
    requires s1 <= |elems| - 1
    ensures var es := EntriesOf(nodes0, elems);
      var elems1 := elems[..p] + elems[p + 1..];
      Slot(elems1, s1) < |nodes1| &&
      (l < nodes1[Slot(elems1, s1)].Height() ==>
        nodes1[Slot(elems1, s1)].ref[l] == LinkAt(elems1, SuccPos(es[..p] + es[p + 1..], s1, l)))
  {
    ElemsRemove(elems, p);
    var a := Slot(elems[..p] + elems[p + 1..], s1);
    if l < nodes1[a].Height() {
      if s1 <= p {
        DeleteLinkedBefore(nodes0, elems, nodes1, p, s1, l);
      } else {
        DeleteLinkedAfter(nodes0, elems, nodes1, p, s1, l);
      }
    }
  }

  /** Delete's splice leaves a correctly linked list without the node at position p. */
  lemma DeleteLinked(nodes0: seq<Node>, elems: seq<nat>, nodes1: seq<Node>, p: nat)
    requires Members(nodes0, elems) && Sorted(EntriesOf(nodes0, elems)) && Linked(nodes0, elems)
    requires p < |elems|
    requires DeleteSpliced(nodes0, elems, nodes1, p, nodes0[elems[p]].Height())
    ensures var es := EntriesOf(nodes0, elems);
      var elems1 := elems[..p] + elems[p + 1..];
      && Members(nodes1, elems1)
      && EntriesOf(nodes1, elems1) == es[..p] + es[p + 1..]
      && Linked(nodes1, elems1)
  {
    DeleteEntries(nodes0, elems, nodes1, p);
    var elems1 := elems[..p] + elems[p + 1..];
    forall s1, l | 0 <= s1 <= |elems1| && 0 <= l < nodes1[Slot(elems1, s1)].Height()
      ensures nodes1[Slot(elems1, s1)].ref[l] == LinkAt(elems1, SuccPos(EntriesOf(nodes1, elems1), s1, l))
    {
      DeleteLinkedAt(nodes0, elems, nodes1, p, s1, l);
    }
  }

  /** Delete's splice keeps every other node's data and height, so the entries lose the one at p. */
  lemma DeleteEntries(nodes0: seq<Node>, elems: seq<nat>, nodes1: seq<Node>, p: nat)
    requires Members(nodes0, elems) && p < |elems|
    requires DeleteSpliced(nodes0, elems, nodes1, p, nodes0[elems[p]].Height())
    ensures var es := EntriesOf(nodes0, elems);
      var elems1 := elems[..p] + elems[p + 1..];
      && Members(nodes1, elems1)
      && EntriesOf(nodes1, elems1) == es[..p] + es[p + 1..]
  {
    var es := EntriesOf(nodes0, elems);
    var elems1 := elems[..p] + elems[p + 1..];
    var es1 := es[..p] + es[p + 1..];
    assert forall k :: 0 <= k < |elems1| ==> elems1[k] == if k < p then elems[k] else elems[k + 1];
    assert forall k :: 0 <= k < |es1| ==> es1[k] == if k < p then es[k] else es[k + 1];
    assert Members(nodes1, elems1);
  }

  // ---- growSkipList ----

  /** The coins of growSkipList as a sequence over the data nodes in level-0 order. */
  ghost function CoinsOf(flip: nat -> bool, elems: seq<nat>): (coins: seq<bool>)
    ensures |coins| == |elems| && forall k :: 0 <= k < |elems| ==> coins[k] == flip(elems[k])
  {
    seq(|elems|, k requires 0 <= k < |elems| => flip(elems[k]))
  }

  /** The links of slot s (old links r) while growSkipList walks the old top level `top` with
      the spot at position q and the last grown slot ps: the head and every grown slot before
      the spot has a new top link, null for ps and the next grown node for the others. */
  ghost function GrowRef(elems: seq<nat>, g: seq<Entry>, top: nat, q: nat, ps: nat, s: nat, r: seq<Link>): seq<Link>
    requires |g| == |elems| && s <= |elems|
  {
    if s <= q && (s == 0 || g[s - 1].height > top + 1)
    then r + [if s == ps then Nil else LinkAt(elems, SuccPos(g, s, top + 1))]
    else r
  }

  /** The arena during growSkipList's walk: every slot has the links GrowRef gives it. */
  ghost predicate GrowStep(nodes0: seq<Node>, elems: seq<nat>, nodes: seq<Node>, g: seq<Entry>, top: nat, q: nat, ps: nat)
    requires Members(nodes0, elems) && |g| == |elems|
  {
    && |nodes| == |nodes0|
    && forall s :: 0 <= s <= |elems| ==>
         nodes[Slot(elems, s)].Head? == nodes0[Slot(elems, s)].Head?
         && (nodes0[Slot(elems, s)].Data? ==> nodes[Slot(elems, s)].value == nodes0[Slot(elems, s)].value)
         && nodes[Slot(elems, s)].ref == GrowRef(elems, g, top, q, ps, s, nodes0[Slot(elems, s)].ref)
  }

  /** What growSkipList needs of the list it grows: heights at most top + 1 and g its
      grown entries. */
  ghost predicate GrowFrom(nodes0: seq<Node>, elems: seq<nat>, coins: seq<bool>, g: seq<Entry>, top: nat) {
    && Members(nodes0, elems) && Sorted(EntriesOf(nodes0, elems))
    && nodes0[0].Height() == top + 1
    && |coins| == |elems|
    && (forall k :: 0 <= k < |elems| ==> EntriesOf(nodes0, elems)[k].height <= top + 1)
    && g == Grown(EntriesOf(nodes0, elems), top, coins)
  }

  /** growSkipList after head.grow(): the walk starts at the head's old top link. */
  lemma GrowStart(nodes0: seq<Node>, elems: seq<nat>, coins: seq<bool>, g: seq<Entry>, top: nat)
    requires Wf(nodes0, elems, top + 1) && |coins| == |elems|
    requires g == Grown(EntriesOf(nodes0, elems), top, coins)
    ensures var q := SuccPos(EntriesOf(nodes0, elems), 0, top);
      && GrowFrom(nodes0, elems, coins, g, top)
      && nodes0[0].Grow().Next(top) == LinkAt(elems, q)
      && PredSlot(g, q, top + 1) == 0
      && GrowStep(nodes0, elems, nodes0[0 := nodes0[0].Grow()], g, top, q, 0)
  {
    var es := EntriesOf(nodes0, elems);
    var q := SuccPos(es, 0, top);
    assert nodes0[Slot(elems, 0)].ref[top] == LinkAt(elems, q);
    PredSlotUnique(g, q, top + 1, 0);
    var nodes := nodes0[0 := nodes0[0].Grow()];
    forall s | 0 <= s <= |elems|
      ensures nodes[Slot(elems, s)].Head? == nodes0[Slot(elems, s)].Head?
         && (nodes0[Slot(elems, s)].Data? ==> nodes[Slot(elems, s)].value == nodes0[Slot(elems, s)].value)
         && nodes[Slot(elems, s)].ref == GrowRef(elems, g, top, q, 0, s, nodes0[Slot(elems, s)].ref)
    {
      if s > 0 {
        assert es[s - 1].height == nodes0[elems[s - 1]].Height();
      }
    }
  }

  /** A spot on the old top level, with the walk's slot facts. */
  lemma GrowSpot(nodes0: seq<Node>, elems: seq<nat>, coins: seq<bool>, g: seq<Entry>, top: nat,
                 nodes: seq<Node>, q: nat, ps: nat)
    requires GrowFrom(nodes0, elems, coins, g, top)
    requires Linked(nodes0, elems)
    requires q < |elems| && EntriesOf(nodes0, elems)[q].height == top + 1
    requires ps == PredSlot(g, q, top + 1)
    requires GrowStep(nodes0, elems, nodes, g, top, q, ps)
    ensures var a := elems[q];
      var q1 := SuccPos(EntriesOf(nodes0, elems), q + 1, top);
      var p := Slot(elems, ps);
      && a < |nodes| && p < |nodes| && p != a
      && nodes[a] == nodes0[a] && nodes[a].Height() == top + 1
      && nodes[a].Next(top) == LinkAt(elems, q1)
      && nodes[p].Height() == top + 2
      && PredSlot(g, q1, top + 1) == if coins[q] then q + 1 else ps
  {
    var es := EntriesOf(nodes0, elems);
    var a := elems[q];
    var q1 := SuccPos(es, q + 1, top);
    var p := Slot(elems, ps);
    assert nodes0[Slot(elems, q + 1)].ref[top] == LinkAt(elems, SuccPos(es, q + 1, top));
    SlotInjective(nodes0, elems, ps, q + 1);
    assert nodes[Slot(elems, q + 1)].ref == nodes0[a].ref;
    if ps > 0 {
      assert es[ps - 1].height == nodes0[elems[ps - 1]].Height();
    }
    assert nodes[Slot(elems, ps)].ref == nodes0[p].ref + [Nil];
    GrowPredSlot(es, coins, g, top, q, ps);
  }

  /** Where the walk's last grown slot is once it passes the spot at position q. */
  lemma GrowPredSlot(es: seq<Entry>, coins: seq<bool>, g: seq<Entry>, top: nat, q: nat, ps: nat)
    requires |coins| == |es| && g == Grown(es, top, coins)
    requires q < |es| && es[q].height == top + 1
    requires ps == PredSlot(g, q, top + 1)
    ensures PredSlot(g, SuccPos(es, q + 1, top), top + 1) == if coins[q] then q + 1 else ps
  {
    var q1 := SuccPos(es, q + 1, top);
    var from := if coins[q] then q + 1 else q;
    forall r | from <= r < q1
      ensures g[r].height <= top + 1
    {
      if r > q {
        assert es[r].height <= top;
      }
    }
    PredSlotSkip(g, from, q1, top + 1);
  }

  /** A spot whose coin comes up: it grows, the last grown slot links to it at the new top
      level, and it becomes the last grown slot. */
  lemma GrowCoinStep(nodes0: seq<Node>, elems: seq<nat>, coins: seq<bool>, g: seq<Entry>, top: nat,
                     nodes: seq<Node>, q: nat, ps: nat, n2: seq<Node>)
    requires GrowFrom(nodes0, elems, coins, g, top)
    requires q < |elems| && EntriesOf(nodes0, elems)[q].height == top + 1 && coins[q]
    requires ps == PredSlot(g, q, top + 1)
    requires GrowStep(nodes0, elems, nodes, g, top, q, ps)
    requires Slot(elems, ps) < |nodes| && elems[q] < |nodes| && Slot(elems, ps) != elems[q]
    requires nodes[Slot(elems, ps)].Height() == top + 2
    requires n2 == nodes[elems[q] := nodes[elems[q]].MaybeGrow(true)][Slot(elems, ps) := nodes[Slot(elems, ps)].SetNext(top + 1, To(elems[q]))]
    ensures GrowStep(nodes0, elems, n2, g, top, SuccPos(EntriesOf(nodes0, elems), q + 1, top), q + 1)
  {
    var q1 := SuccPos(EntriesOf(nodes0, elems), q + 1, top);
    forall r | q + 1 <= r < q1
      ensures g[r].height <= top
    {
    }
    GrowCoinSlots(nodes0, elems, coins, g, top, nodes, q, q1, ps, n2);
  }

  /** Every slot across a coin step of growSkipList, once q1 is the next spot. */
  lemma GrowCoinSlots(nodes0: seq<Node>, elems: seq<nat>, coins: seq<bool>, g: seq<Entry>, top: nat,
                      nodes: seq<Node>, q: nat, q1: nat, ps: nat, n2: seq<Node>)
    requires GrowFrom(nodes0, elems, coins, g, top)
    requires q < q1 <= |elems| && EntriesOf(nodes0, elems)[q].height == top + 1 && coins[q]
    requires forall r :: q + 1 <= r < q1 ==> g[r].height <= top
    requires ps == PredSlot(g, q, top + 1)
    requires GrowStep(nodes0, elems, nodes, g, top, q, ps)
    requires Slot(elems, ps) < |nodes| && elems[q] < |nodes| && Slot(elems, ps) != elems[q]
    requires nodes[Slot(elems, ps)].Height() == top + 2
    requires n2 == nodes[elems[q] := nodes[elems[q]].MaybeGrow(true)][Slot(elems, ps) := nodes[Slot(elems, ps)].SetNext(top + 1, To(elems[q]))]
    ensures GrowStep(nodes0, elems, n2, g, top, q1, q + 1)
  {
    var es := EntriesOf(nodes0, elems);
    forall s | 0 <= s <= |elems|
      ensures n2[Slot(elems, s)].Head? == nodes0[Slot(elems, s)].Head?
         && (nodes0[Slot(elems, s)].Data? ==> n2[Slot(elems, s)].value == nodes0[Slot(elems, s)].value)
         && n2[Slot(elems, s)].ref == GrowRef(elems, g, top, q1, q + 1, s, nodes0[Slot(elems, s)].ref)
    {
      if s == ps && ps > 0 {
        assert es[ps - 1].height == nodes0[elems[ps - 1]].Height();
      }
      GrowCoinAt(nodes0, elems, g, top, nodes, q, q1, ps, n2, s);
    }
  }

  /** One slot across a coin step of growSkipList, in the arena. */
  lemma GrowCoinAt(nodes0: seq<Node>, elems: seq<nat>, g: seq<Entry>, top: nat,
                   nodes: seq<Node>, q: nat, q1: nat, ps: nat, n2: seq<Node>, s: nat)
    requires Members(nodes0, elems) && Sorted(EntriesOf(nodes0, elems)) && |g| == |elems|
    requires |nodes| == |nodes0| && q < q1 <= |elems| && s <= |elems|
    requires g[q].height == top + 2
    requires forall r :: q + 1 <= r < q1 ==> g[r].height <= top
    requires ps == PredSlot(g, q, top + 1)
    requires s == ps ==> nodes0[Slot(elems, s)].Height() == top + 1
    requires nodes[Slot(elems, s)].Head? == nodes0[Slot(elems, s)].Head?
    requires nodes0[Slot(elems, s)].Data? ==> nodes[Slot(elems, s)].value == nodes0[Slot(elems, s)].value
    requires nodes[Slot(elems, s)].ref == GrowRef(elems, g, top, q, ps, s, nodes0[Slot(elems, s)].ref)
    requires Slot(elems, ps) != elems[q]
    requires n2 == nodes[elems[q] := nodes[elems[q]].MaybeGrow(true)][Slot(elems, ps) := nodes[Slot(elems, ps)].SetNext(top + 1, To(elems[q]))]
    ensures n2[Slot(elems, s)].Head? == nodes0[Slot(elems, s)].Head?
    ensures nodes0[Slot(elems, s)].Data? ==> n2[Slot(elems, s)].value == nodes0[Slot(elems, s)].value
    ensures n2[Slot(elems, s)].ref == GrowRef(elems, g, top, q1, q + 1, s, nodes0[Slot(elems, s)].ref)
  {
    var ns := q + 1;
    SlotInjective(nodes0, elems, s, ps);
    SlotInjective(nodes0, elems, s, ns);
    var b := nodes[Slot(elems, s)];
    var after := if s == ps then b.ref[top + 1 := To(elems[q])] else if s == ns then b.ref + [Nil] else b.ref;
    assert n2[Slot(elems, s)].ref == after;
    GrowCoinSlot(elems, g, top, q, q1, ps, s, elems[q], nodes0[Slot(elems, s)].ref, b.ref, after);
  }

  /** The links of one slot across a coin step of growSkipList. */
  lemma GrowCoinSlot(elems: seq<nat>, g: seq<Entry>, top: nat, q: nat, q1: nat, ps: nat, s: nat, a: nat,
                     r0: seq<Link>, before: seq<Link>, after: seq<Link>)
    requires |g| == |elems| && q < q1 <= |elems| && s <= |elems|
    requires a == elems[q] && g[q].height == top + 2
    requires forall r :: q + 1 <= r < q1 ==> g[r].height <= top
    requires ps == PredSlot(g, q, top + 1)
    requires s == ps ==> |r0| == top + 1
    requires before == GrowRef(elems, g, top, q, ps, s, r0)
    requires after == if s == ps then before[top + 1 := To(a)] else if s == q + 1 then before + [Nil] else before
    ensures after == GrowRef(elems, g, top, q1, q + 1, s, r0)
  {
    if s == ps {
      SuccPosUnique(g, ps, top + 1, q);
      assert (r0 + [Nil])[top + 1 := To(a)] == r0 + [To(a)];
    } else if q + 1 < s <= q1 {
      assert g[s - 1].height <= top;
    }
  }

  /** A spot whose coin does not come up: nothing changes and the walk moves on. */
  lemma GrowSkipStep(nodes0: seq<Node>, elems: seq<nat>, coins: seq<bool>, g: seq<Entry>, top: nat,
                     nodes: seq<Node>, q: nat, ps: nat)
    requires GrowFrom(nodes0, elems, coins, g, top)
    requires q < |elems| && EntriesOf(nodes0, elems)[q].height == top + 1 && !coins[q]
    requires ps == PredSlot(g, q, top + 1)
    requires GrowStep(nodes0, elems, nodes, g, top, q, ps)
    ensures GrowStep(nodes0, elems, nodes, g, top, SuccPos(EntriesOf(nodes0, elems), q + 1, top), ps)
  {
    var es := EntriesOf(nodes0, elems);
    var q1 := SuccPos(es, q + 1, top);
    GrowSkipHeights(es, coins, g, top, q);
    GrowSkipKeeps(nodes0, elems, nodes, g, top, q, q1, ps);
  }

  /** A spot whose coin does not come up, and the nodes up to the next spot, stay below the
      new top level. */
  lemma GrowSkipHeights(es: seq<Entry>, coins: seq<bool>, g: seq<Entry>, top: nat, q: nat)
    requires |coins| == |es| && g == Grown(es, top, coins)
    requires q < |es| && es[q].height == top + 1 && !coins[q]
    ensures forall r :: q <= r < SuccPos(es, q + 1, top) ==> g[r].height <= top + 1
  {
    forall r | q <= r < SuccPos(es, q + 1, top)
      ensures g[r].height <= top + 1
    {
      if r > q {
        assert es[r].height <= top;
      }
    }
  }

  /** GrowStep survives moving the spot from q to q1 past slots that do not grow. */
  lemma GrowSkipKeeps(nodes0: seq<Node>, elems: seq<nat>, nodes: seq<Node>, g: seq<Entry>, top: nat,
                      q: nat, q1: nat, ps: nat)
    requires Members(nodes0, elems) && |g| == |elems| && q <= q1 <= |elems|
    requires forall r :: q <= r < q1 ==> g[r].height <= top + 1
    requires GrowStep(nodes0, elems, nodes, g, top, q, ps)
    ensures GrowStep(nodes0, elems, nodes, g, top, q1, ps)
  {
    forall s | 0 <= s <= |elems|
      ensures GrowRef(elems, g, top, q1, ps, s, nodes0[Slot(elems, s)].ref)
        == GrowRef(elems, g, top, q, ps, s, nodes0[Slot(elems, s)].ref)
    {
      GrowSkipSlot(elems, g, top, q, q1, ps, s, nodes0[Slot(elems, s)].ref);
    }
  }

  /** The walk passing a slot that does not grow changes no slot's links. */
  lemma GrowSkipSlot(elems: seq<nat>, g: seq<Entry>, top: nat, q: nat, q1: nat, ps: nat, s: nat, r0: seq<Link>)
    requires |g| == |elems| && q <= q1 <= |elems| && s <= |elems|
    requires forall r :: q <= r < q1 ==> g[r].height <= top + 1
    ensures GrowRef(elems, g, top, q1, ps, s, r0) == GrowRef(elems, g, top, q, ps, s, r0)
  {
    if q < s <= q1 {
      assert g[s - 1].height <= top + 1;
    }
  }

  /** The entries of the list when growSkipList's walk has passed the last node. */
  lemma GrowEndEntries(nodes0: seq<Node>, elems: seq<nat>, coins: seq<bool>, g: seq<Entry>, top: nat,
                       nodes: seq<Node>, ps: nat)
    requires GrowFrom(nodes0, elems, coins, g, top)
    requires GrowStep(nodes0, elems, nodes, g, top, |elems|, ps)
    ensures Members(nodes, elems) && EntriesOf(nodes, elems) == g
    ensures nodes[0].Head? == nodes0[0].Head? && nodes[0].Height() == top + 2
  {
    var es := EntriesOf(nodes0, elems);
    assert nodes[Slot(elems, 0)].ref == GrowRef(elems, g, top, |elems|, ps, 0, nodes0[0].ref);
    forall k | 0 <= k < |elems|
      ensures 0 < elems[k] < |nodes| && nodes[elems[k]].Data?
      ensures Entry(nodes[elems[k]].value, nodes[elems[k]].Height()) == g[k]
    {
      var r0 := nodes0[elems[k]].ref;
      assert nodes[Slot(elems, k + 1)].ref == GrowRef(elems, g, top, |elems|, ps, k + 1, r0);
      assert es[k].height == |r0|;
    }
    assert Members(nodes, elems);
    assert EntriesOf(nodes, elems) == g;
  }

  /** Growing keeps the entries sorted and their heights in [1, top + 2]. */
  lemma GrownBounds(es: seq<Entry>, top: nat, coins: seq<bool>, g: seq<Entry>)
    requires |coins| == |es| && g == Grown(es, top, coins) && Sorted(es)
    requires forall k :: 0 <= k < |es| ==> 1 <= es[k].height <= top + 1
    ensures Sorted(g)
    ensures forall k :: 0 <= k < |g| ==> 1 <= g[k].height <= top + 2
  {
  }

  /** Growing changes nobody's membership of the levels up to the old top. */
  lemma GrownHeights(es: seq<Entry>, top: nat, coins: seq<bool>, g: seq<Entry>, l: nat)
    requires |coins| == |es| && g == Grown(es, top, coins) && l <= top
    requires forall k :: 0 <= k < |es| ==> es[k].height <= top + 1
    ensures forall r :: 0 <= r < |es| ==> (g[r].height > l <==> es[r].height > l)
  {
  }

  /** One link of the list when growSkipList's walk has passed the last node: r0 are the
      old links of slot s and r its new ones. A link below the new top level keeps its target,
      which is the same in the grown list; at the new top level the last grown slot's link is
      null and the others lead to the next grown node. */
  lemma GrowEndLink(es: seq<Entry>, elems: seq<nat>, coins: seq<bool>, g: seq<Entry>, top: nat,
                    ps: nat, s: nat, l: nat, r0: seq<Link>, r: seq<Link>)
    requires |es| == |elems| && |coins| == |es| && g == Grown(es, top, coins)
    requires forall k :: 0 <= k < |es| ==> es[k].height <= top + 1
    requires s <= |elems| && (s == 0 ==> |r0| == top + 1) && (s > 0 ==> |r0| == es[s - 1].height)
    requires l < |r0| ==> r0[l] == LinkAt(elems, SuccPos(es, s, l))
    requires ps == PredSlot(g, |elems|, top + 1)
    requires r == GrowRef(elems, g, top, |elems|, ps, s, r0) && l < |r|
    ensures r[l] == LinkAt(elems, SuccPos(g, s, l))
  {
    if l < |r0| {
      GrowEndLinkBelow(es, elems, coins, g, top, ps, s, l, r0, r);
    } else {
      GrowEndLinkTop(es, elems, coins, g, top, ps, s, l, r0, r);
    }
  }

  /** A link below the new top level keeps its target, which is the same in the grown list. */
  lemma GrowEndLinkBelow(es: seq<Entry>, elems: seq<nat>, coins: seq<bool>, g: seq<Entry>, top: nat,
                         ps: nat, s: nat, l: nat, r0: seq<Link>, r: seq<Link>)
    requires |es| == |elems| && |coins| == |es| && g == Grown(es, top, coins)
    requires forall k :: 0 <= k < |es| ==> es[k].height <= top + 1
    requires s <= |elems| && (s == 0 ==> |r0| == top + 1) && (s > 0 ==> |r0| == es[s - 1].height)
    requires l < |r0| && r0[l] == LinkAt(elems, SuccPos(es, s, l))
    requires r == GrowRef(elems, g, top, |elems|, ps, s, r0) && l < |r|
    ensures r[l] == LinkAt(elems, SuccPos(g, s, l))
  {
    GrownHeights(es, top, coins, g, l);
    SuccPosSameAbove(g, es, s, l);
    assert r[l] == r0[l];
  }

  /** At the new top level the last grown slot's link is null and the others lead to the
      next grown node. */
  lemma GrowEndLinkTop(es: seq<Entry>, elems: seq<nat>, coins: seq<bool>, g: seq<Entry>, top: nat,
                       ps: nat, s: nat, l: nat, r0: seq<Link>, r: seq<Link>)
    requires |es| == |elems| && |coins| == |es| && g == Grown(es, top, coins)
    requires forall k :: 0 <= k < |es| ==> es[k].height <= top + 1
    requires s <= |elems| && (s == 0 ==> |r0| == top + 1) && (s > 0 ==> |r0| == es[s - 1].height)
    requires ps == PredSlot(g, |elems|, top + 1)
    requires r == GrowRef(elems, g, top, |elems|, ps, s, r0) && |r0| <= l < |r|
    ensures r[l] == LinkAt(elems, SuccPos(g, s, l))
  {
    assert l == top + 1;
    if s == ps {
      SuccPosUnique(g, ps, l, |elems|);
    }
  }

  /** At the end of growSkipList's walk the list is linked again, one level taller. */
  lemma GrowEnd(nodes0: seq<Node>, elems: seq<nat>, coins: seq<bool>, g: seq<Entry>, top: nat, nodes: seq<Node>, ps: nat)
    requires Wf(nodes0, elems, top + 1) && |coins| == |elems|
    requires GrowFrom(nodes0, elems, coins, g, top)
    requires ps == PredSlot(g, |elems|, top + 1)
    requires GrowStep(nodes0, elems, nodes, g, top, |elems|, ps)
    ensures Members(nodes, elems)
    ensures EntriesOf(nodes, elems) == g
    ensures Wf(nodes, elems, top + 2)
  {
    var es := EntriesOf(nodes0, elems);
    GrowEndEntries(nodes0, elems, coins, g, top, nodes, ps);
    HeightsOfEntries(nodes0, elems, top + 1);
    assert forall k :: 0 <= k < |es| ==> 1 <= es[k].height <= top + 1 by {
      forall k | 0 <= k < |es| ensures 1 <= es[k].height <= top + 1 {
        assert es[k].height == nodes0[elems[k]].Height();
      }
    }
    GrownBounds(es, top, coins, g);
    HeightsOfEntries(nodes, elems, top + 2);
    GrowEndLinked(nodes0, elems, coins, g, top, nodes, ps);
  }

  /** At the end of growSkipList's walk every link leads to the next grown node. */
  lemma GrowEndLinked(nodes0: seq<Node>, elems: seq<nat>, coins: seq<bool>, g: seq<Entry>, top: nat, nodes: seq<Node>, ps: nat)
    requires Wf(nodes0, elems, top + 1) && |coins| == |elems|
    requires GrowFrom(nodes0, elems, coins, g, top)
    requires ps == PredSlot(g, |elems|, top + 1)
    requires GrowStep(nodes0, elems, nodes, g, top, |elems|, ps)
    requires Members(nodes, elems) && EntriesOf(nodes, elems) == g
    ensures Linked(nodes, elems)
  {
    var es := EntriesOf(nodes0, elems);
    forall s, l | 0 <= s <= |elems| && 0 <= l < nodes[Slot(elems, s)].Height()
      ensures nodes[Slot(elems, s)].ref[l] == LinkAt(elems, SuccPos(EntriesOf(nodes, elems), s, l))
    {
      var r0 := nodes0[Slot(elems, s)].ref;
      if s > 0 {
        assert es[s - 1].height == |r0|;
      }
      GrowEndLink(es, elems, coins, g, top, ps, s, l, r0, nodes[Slot(elems, s)].ref);
    }
  }

  // ---- trimSkipList ----

  /** The arena while trimSkipList walks level th with the spot at position q: the head and
      every node before q is cut down to th levels; everything else is as it was. */
  ghost predicate TrimStep(nodes0: seq<Node>, elems: seq<nat>, nodes: seq<Node>, th: nat, q: nat)
    requires Members(nodes0, elems)
  {
    && |nodes| == |nodes0|
    && forall s :: 0 <= s <= |elems| ==>
         nodes[Slot(elems, s)] == if s <= q then nodes0[Slot(elems, s)].Cut(th) else nodes0[Slot(elems, s)]
  }

  /** trimSkipList after the head is trimmed: the walk starts at the head's link at level th. */
  lemma TrimStart(nodes0: seq<Node>, elems: seq<nat>, maxHeight: nat, th: nat)
    requires Wf(nodes0, elems, maxHeight) && th < maxHeight
    ensures var q := SuccPos(EntriesOf(nodes0, elems), 0, th);
      && nodes0[0].Next(th) == LinkAt(elems, q)
      && TrimStep(nodes0, elems, nodes0[0 := nodes0[0].Cut(th)], th, q)
  {
    var es := EntriesOf(nodes0, elems);
    var q := SuccPos(es, 0, th);
    assert nodes0[Slot(elems, 0)].ref[th] == LinkAt(elems, q);
    var nodes := nodes0[0 := nodes0[0].Cut(th)];
    forall s | 0 <= s <= |elems|
      ensures nodes[Slot(elems, s)] == if s <= q then nodes0[Slot(elems, s)].Cut(th) else nodes0[Slot(elems, s)]
    {
      if 0 < s <= q {
        assert es[s - 1].height == nodes0[elems[s - 1]].Height();
      }
    }
  }

  /** One step of trimSkipList's walk, at the spot at position q on level th. */
  lemma TrimStepKeeps(nodes0: seq<Node>, elems: seq<nat>, maxHeight: nat, th: nat, nodes: seq<Node>, q: nat)
    requires Wf(nodes0, elems, maxHeight) && th < maxHeight
    requires q < |elems| && EntriesOf(nodes0, elems)[q].height > th
    requires TrimStep(nodes0, elems, nodes, th, q)
    ensures var a := elems[q];
      && a < |nodes| && nodes[a] == nodes0[a] && th < nodes[a].Height()
      && nodes[a].Next(th) == LinkAt(elems, SuccPos(EntriesOf(nodes0, elems), q + 1, th))
      && TrimStep(nodes0, elems, nodes[a := nodes[a].Cut(th)], th, SuccPos(EntriesOf(nodes0, elems), q + 1, th))
  {
    var es := EntriesOf(nodes0, elems);
    var a := elems[q];
    var q1 := SuccPos(es, q + 1, th);
    assert es[q].height == nodes0[a].Height();
    assert nodes[Slot(elems, q + 1)] == nodes0[Slot(elems, q + 1)];
    assert nodes0[Slot(elems, q + 1)].ref[th] == LinkAt(elems, q1);
    var n1 := nodes[a := nodes[a].Cut(th)];
    forall s | 0 <= s <= |elems|
      ensures n1[Slot(elems, s)] == if s <= q1 then nodes0[Slot(elems, s)].Cut(th) else nodes0[Slot(elems, s)]
    {
      SlotInjective(nodes0, elems, s, q + 1);
      if q + 1 < s <= q1 {
        assert es[s - 1].height == nodes0[elems[s - 1]].Height();
      }
    }
  }

  /** The entries of the list when trimSkipList's walk has passed the last node. */
  lemma TrimEndEntries(nodes0: seq<Node>, elems: seq<nat>, th: nat, nodes: seq<Node>)
    requires Members(nodes0, elems) && TrimStep(nodes0, elems, nodes, th, |elems|)
    ensures Members(nodes, elems)
    ensures EntriesOf(nodes, elems) == Trimmed(EntriesOf(nodes0, elems), th)
    ensures nodes[0] == nodes0[0].Cut(th)
  {
    var es := EntriesOf(nodes0, elems);
    assert nodes[Slot(elems, 0)] == nodes0[0].Cut(th);
    forall k | 0 <= k < |elems|
      ensures 0 < elems[k] < |nodes| && nodes[elems[k]].Data?
      ensures Entry(nodes[elems[k]].value, nodes[elems[k]].Height()) == Trimmed(es, th)[k]
    {
      assert nodes[Slot(elems, k + 1)] == nodes0[elems[k]].Cut(th);
      assert es[k].height == nodes0[elems[k]].Height();
    }
    assert Members(nodes, elems);
    assert EntriesOf(nodes, elems) == Trimmed(es, th);
  }

  /** One link of the list when trimSkipList's walk has passed the last node. */
  lemma TrimEndLink(nodes0: seq<Node>, elems: seq<nat>, th: nat, nodes: seq<Node>, s: nat, l: nat)
    requires Members(nodes0, elems) && Linked(nodes0, elems) && Members(nodes, elems)
    requires EntriesOf(nodes, elems) == Trimmed(EntriesOf(nodes0, elems), th)
    requires s <= |elems| && nodes[Slot(elems, s)] == nodes0[Slot(elems, s)].Cut(th)
    requires l < nodes[Slot(elems, s)].Height()
    ensures nodes[Slot(elems, s)].ref[l] == LinkAt(elems, SuccPos(EntriesOf(nodes, elems), s, l))
  {
    var es := EntriesOf(nodes0, elems);
    assert nodes0[Slot(elems, s)].ref[l] == LinkAt(elems, SuccPos(es, s, l));
    SuccPosSameAbove(Trimmed(es, th), es, s, l);
  }

  /** At the end of trimSkipList's walk the list is linked again, th levels tall. */
  lemma TrimEnd(nodes0: seq<Node>, elems: seq<nat>, maxHeight: nat, th: nat, nodes: seq<Node>)
    requires Wf(nodes0, elems, maxHeight) && 1 <= th < maxHeight
    requires TrimStep(nodes0, elems, nodes, th, |elems|)
    ensures Members(nodes, elems)
    ensures EntriesOf(nodes, elems) == Trimmed(EntriesOf(nodes0, elems), th)
    ensures Wf(nodes, elems, th)
  {
    TrimEndEntries(nodes0, elems, th, nodes);
    forall s, l | 0 <= s <= |elems| && 0 <= l < nodes[Slot(elems, s)].Height()
      ensures nodes[Slot(elems, s)].ref[l] == LinkAt(elems, SuccPos(EntriesOf(nodes, elems), s, l))
    {
      assert nodes[Slot(elems, s)] == nodes0[Slot(elems, s)].Cut(th);
      TrimEndLink(nodes0, elems, th, nodes, s, l);
    }
  }
}
