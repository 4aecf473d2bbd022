/** The skip-list node of ProbLinkedList.java as a value. Its forward references are links to
    arena indices (the list keeps its nodes in an arena); its height is the number of links,
    which is the node's `height` field for every node the list creates. */
module SkipNode {

  /** A forward reference: null, or the arena index of the node it points to. */
  datatype Link = Nil | To(index: nat)

  /** The head stores no data; every other node stores one value. */
  datatype Node = Head(ref: seq<Link>) | Data(value: int, ref: seq<Link>) {

    function Height(): nat {
      |ref|
    }

    /** The same node with its links replaced by r. */
    function WithRef(r: seq<Link>): (n: Node)
      ensures n.ref == r && n.Head? == Head? && (Data? ==> n.value == value)
      ensures r == ref ==> n == this
    {
      match this
      case Head(_) => Head(r)
      case Data(v, _) => Data(v, r)
    }

    /** next(level): the link at that level, null outside [0, height). */
    function Next(level: int): (link: Link)
      ensures !(0 <= level < Height()) ==> link == Nil
      ensures 0 <= level < Height() ==> link == ref[level]
    {
      if level < 0 || level >= Height() then Nil else ref[level]
    }

    /** setNext(level, node): changes the link at that level, and nothing outside [0, height). */
    function SetNext(level: int, link: Link): (n: Node)
      ensures n.Height() == Height() && n.Head? == Head? && (Data? ==> n.value == value)
      ensures 0 <= level < Height() ==> n.Next(level) == link
      ensures forall m :: m != level ==> n.Next(m) == Next(m)
      ensures !(0 <= level < Height()) ==> n == this
    {
      if level < 0 || level >= Height() then this else WithRef(ref[level := link])
    }

    /** grow(): one more level, whose link is null. */
    function Grow(): (n: Node)
      ensures n.Height() == Height() + 1 && n.Head? == Head? && (Data? ==> n.value == value)
      ensures n.ref == ref + [Nil]
    {
      WithRef(ref + [Nil])
    }

    /** maybeGrow(): grows when the coin (Math.random() >= 0.5) comes up. */
    function MaybeGrow(coin: bool): (n: Node)
      ensures n.Height() == Height() + (if coin then 1 else 0)
      ensures n.Head? == Head? && (Data? ==> n.value == value)
      ensures n.ref[..Height()] == ref
      ensures coin ==> n.ref[Height()] == Nil
      ensures !coin ==> n == this
    {
      if coin then Grow() else this
    }

    /** The node cut down to `height` levels; unchanged unless 0 <= height < its height. */
    function Cut(height: int): (n: Node)
      ensures !(0 <= height < Height()) ==> n == this
      ensures 0 <= height < Height() ==> n.ref == ref[..height]
      ensures n.Head? == Head? && (Data? ==> n.value == value)
    {
      if 0 <= height < Height() then WithRef(ref[..height]) else this
    }
  }

  /** The Node(int height) constructor of the head. */
  method NewHead(height: int) returns (n: Node)
    ensures n.Head?
    ensures n.Height() == (if height < 0 then 0 else height)
    ensures forall l :: 0 <= l < n.Height() ==> n.ref[l] == Nil
  {
    var refs: seq<Link> := [];
    var i := 0;
    while i < height
      invariant 0 <= i <= (if height < 0 then 0 else height)
      invariant |refs| == i
      invariant forall l :: 0 <= l < i ==> refs[l] == Nil
    {
      refs := refs + [Nil];
      i := i + 1;
    }
    n := Head(refs);
  }

  /** The Node(T data, int height) constructor of a data node. */
  method NewNode(data: int, height: int) returns (n: Node)
    ensures n.Data? && n.value == data
    ensures n.Height() == (if height < 0 then 0 else height)
    ensures forall l :: 0 <= l < n.Height() ==> n.ref[l] == Nil
  {
    var refs: seq<Link> := [];
    var i := 0;
    while i < height
      invariant 0 <= i <= (if height < 0 then 0 else height)
      invariant |refs| == i
      invariant forall l :: 0 <= l < i ==> refs[l] == Nil
    {
      refs := refs + [Nil];
      i := i + 1;
    }
    n := Data(data, refs);
  }

  /** trim(height): removes the top links one at a time until `height` remain; does nothing
      unless 0 <= height < the node's height. */
  method Trim(node: Node, height: int) returns (n: Node)
    ensures n == node.Cut(height)
  {
    n := node;
    if height < 0 || height >= node.Height() {
      return;
    }
    var i := node.Height();
    while i > height
      invariant height <= i <= node.Height()
      invariant n == node.WithRef(node.ref[..i])
    {
      n := n.WithRef(n.ref[..n.Height() - 1]);
      i := i - 1;
    }
  }

  /** A node that grows keeps its links below the new level. */
  lemma GrowUpNext(n: Node, level: nat)
    requires level + 1 == n.Height()
    ensures n.MaybeGrow(true).Next(n.MaybeGrow(true).Height() - 2) == n.Next(level)
  {
    assert n.MaybeGrow(true).ref[level] == n.MaybeGrow(true).ref[..n.Height()][level];
  }

  /** Setting a link to the target it already has changes nothing. */
  lemma SetNextSame(n: Node, level: int, link: Link)
    requires 0 <= level < n.Height() && n.ref[level] == link
    ensures n.SetNext(level, link) == n
  {
    assert n.ref[level := link] == n.ref;
  }

  /** Reading back a link just set gives that link; the other levels keep theirs. */
  lemma {:induction false} NextAfterSetNext(n: Node, level: int, link: Link, m: int)
    requires 0 <= level < n.Height()
    ensures n.SetNext(level, link).Next(m) == if m == level then link else n.Next(m)
  {
    if m != level {
      assert n.SetNext(level, link).ref[level] == link;
    }
  }
}
