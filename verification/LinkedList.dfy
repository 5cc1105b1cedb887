/**
  The linked list (src/list.c): nodes with a cached tail and size. It refines a sequence of its items;
  an item is a pointer value.
 */
module LinkedLists {

  /** The sequence without the first occurrence of an item. */
  function Without(s: seq<nat>, x: nat): (r: seq<nat>)
    ensures x !in s ==> r == s
    ensures x in s ==> |r| == |s| - 1
  {
    if s == [] then [] else if s[0] == x then s[1..] else [s[0]] + Without(s[1..], x)
  }

  lemma {:induction false} WithoutAt(s: seq<nat>, x: nat, k: nat)
    requires k < |s| && s[k] == x && x !in s[..k]
    ensures Without(s, x) == Cut(s, k)
  {
    if k > 0 {
      assert s[1..][..k - 1] == s[..k][1..] && s[0] != x;
      WithoutAt(s[1..], x, k - 1);
    }
  }

  class Node {
    var data: nat
    var next: Node?

    constructor (d: nat)
      ensures data == d && next == null
    {
      data, next := d, null;
    }
  }

  ghost predicate Differ(spine: seq<Node>, i: int, j: int)
  {
    0 <= i < |spine| && 0 <= j < |spine| && spine[i] != spine[j]
  }

  ghost predicate Distinct(spine: seq<Node>)
  {
    forall i, j {:trigger Differ(spine, i, j)} :: 0 <= i < j < |spine| ==> Differ(spine, i, j)
  }

  lemma {:induction false} OthersDiffer(spine: seq<Node>, k: nat)
    requires Distinct(spine) && k < |spine|
    ensures forall i :: 0 <= i < |spine| && i != k ==> spine[i] != spine[k]
  {
    forall i | 0 <= i < |spine| && i != k
      ensures spine[i] != spine[k]
    {
      assert if i < k then Differ(spine, i, k) else Differ(spine, k, i);
    }
  }

  lemma {:induction false} DistinctWith(spine: seq<Node>, n: Node)
    requires Distinct(spine) && n !in spine
    ensures Distinct(spine + [n])
  {
    forall i, j | 0 <= i < j < |spine + [n]|
      ensures Differ(spine + [n], i, j)
    {
      assert j < |spine| ==> Differ(spine, i, j);
    }
  }

  lemma {:induction false} DistinctCut(spine: seq<Node>, k: nat)
    requires Distinct(spine) && k < |spine|
    ensures Distinct(Cut(spine, k))
  {
    var r := Cut(spine, k);
    forall i, j | 0 <= i < j < |r|
      ensures Differ(r, i, j)
    {
      assert Differ(spine, if i < k then i else i + 1, if j < k then j else j + 1);
    }
  }

  /** The node at a position of the spine, null behind its end. */
  ghost function At(spine: seq<Node>, i: nat): Node?
  {
    if i < |spine| then spine[i] else null
  }

  ghost predicate Linked(spine: seq<Node>)
    reads spine
  {
    forall i :: 0 <= i < |spine| ==> spine[i].next == At(spine, i + 1)
  }

  ghost predicate Holds(spine: seq<Node>, items: seq<nat>)
    reads spine
  {
    |items| == |spine| && forall i :: 0 <= i < |spine| ==> spine[i].data == items[i]
  }

  /** The spine without its node `k`. */
  ghost function Cut<T>(s: seq<T>, k: nat): seq<T>
    requires k < |s|
  {
    s[..k] + s[k + 1..]
  }

  lemma {:induction false} HoldsCut(spine: seq<Node>, items: seq<nat>, k: nat)
    requires Holds(spine, items) && k < |spine|
    ensures Holds(Cut(spine, k), Cut(items, k))
  {
  }

  /** Makes the node before position `k`, if there is one, point past it. */
  method Bypass(prev: Node?, node: Node, ghost s: seq<Node>, ghost t: seq<Node>, ghost xs: seq<nat>,
      ghost ys: seq<nat>, ghost k: nat)
    requires k < |s| && node == s[k] && prev == (if k == 0 then null else s[k - 1])
    requires Distinct(s) && Linked(s) && Holds(s, xs) && t == Cut(s, k) && ys == Cut(xs, k)
    modifies if prev == null then {} else {prev}
    ensures Linked(t) && Holds(t, ys)
  {
    HoldsCut(s, xs, k);
    if prev != null {
      OthersDiffer(s, k - 1);
      prev.next := node.next;
    }
  }

  /** The last node of the spine, null when there is none. */
  ghost function Last(spine: seq<Node>): Node?
  {
    if spine == [] then null else spine[|spine| - 1]
  }

  lemma {:induction false} CutEnds(s: seq<Node>, t: seq<Node>, k: nat)
    requires k < |s| && t == Cut(s, k)
    ensures At(t, 0) == if k == 0 then At(s, 1) else s[0]
    ensures k < |s| - 1 ==> Last(t) == Last(s)
    ensures k == |s| - 1 ==> Last(t) == if k == 0 then null else s[k - 1]
  {
  }

  /** Hangs a new node behind the last one. */
  method Append(last: Node, node: Node, ghost spine: seq<Node>, ghost items: seq<nat>, ghost longer: seq<Node>)
    requires spine != [] && last == Last(spine) && node !in spine && node.next == null && longer == spine + [node]
    requires Distinct(spine) && Linked(spine) && Holds(spine, items)
    modifies last
    ensures Linked(longer) && Holds(longer, items + [node.data])
  {
    OthersDiffer(spine, |spine| - 1);
    last.next := node;
  }

  class List {
    var head: Node?
    var tail: Node?
    var size: nat
    ghost var spine: seq<Node>
    ghost var items: seq<nat>

    ghost function Nodes(): set<Node>
      reads this
    {
      set n | n in spine
    }

    /** The nodes form one chain from head to tail and carry the items. */
    ghost predicate Valid()
      reads this, spine
    {
      && Distinct(spine) && Linked(spine) && Holds(spine, items) && size == |spine|
      && head == At(spine, 0) && tail == Last(spine)
    }

    constructor ()
      ensures Valid() && items == [] && Nodes() == {}
    {
      head, tail, size, spine, items := null, null, 0, [], [];
    }

    /** Takes over a chain of nodes. */
    method Install(first: Node?, last: Node?, count: nat, ghost t: seq<Node>, ghost ys: seq<nat>)
      requires Distinct(t) && Linked(t) && Holds(t, ys) && count == |t| && first == At(t, 0) && last == Last(t)
      modifies this
      ensures Valid() && spine == t && items == ys
    {
      head, tail, size, spine, items := first, last, count, t, ys;
    }

    /** Puts an item at the end, behind the tail. */
    method Add(x: nat)
      requires Valid()
      modifies this, Nodes()
      ensures Valid() && items == old(items) + [x]
      ensures fresh(Nodes() - old(Nodes()))
    {
      var node := new Node(x);
      ghost var longer := spine + [node];
      DistinctWith(spine, node);
      if tail != null {
        Append(tail, node, spine, items, longer);
      }
      Install(if tail == null then node else head, node, size + 1, longer, items + [x]);
    }

    /** Takes out the first node that carries the item, if there is one. */
    method Remove(x: nat)
      requires Valid()
      modifies this, Nodes()
      ensures Valid() && items == Without(old(items), x)
      ensures Nodes() <= old(Nodes())
    {
      var prev: Node?, node := null, head;
      ghost var k := 0;
      while node != null
        invariant k <= |spine| && node == At(spine, k) && prev == (if k == 0 then null else spine[k - 1])
        invariant Valid() && spine == old(spine) && items == old(items) && x !in items[..k]
        decreases |spine| - k
      {
        if node.data == x {
          WithoutAt(items, x, k);
          Unlink(prev, node, k);
          return;
        }
        prev, node := node, node.next;
        k := k + 1;
      }
      assert items[..k] == items;
    }

    /** Takes the node at position `k` out of the chain. */
    method Unlink(prev: Node?, node: Node, ghost k: nat)
      requires Valid() && k < |spine| && node == spine[k] && prev == (if k == 0 then null else spine[k - 1])
      modifies this, Nodes()
      ensures Valid() && items == Cut(old(items), k) && spine == Cut(old(spine), k)
    {
      ghost var s, t, ys := spine, Cut(spine, k), Cut(items, k);
      var first := if prev == null then node.next else head;
      var last := if tail != node then tail else if prev != null then prev else first;
      DistinctCut(s, k);
      CutEnds(s, t, k);
      OthersDiffer(s, |s| - 1);
      assert first == At(t, 0) && last == Last(t);
      Bypass(prev, node, s, t, items, ys, k);
      Install(first, last, size - 1, t, ys);
    }

    /** Takes out item after item. */
    method Clear()
      requires Valid()
      modifies this, Nodes()
      ensures Valid() && items == []
    {
      while size > 0
        invariant Valid() && Nodes() <= old(Nodes())
        decreases size
      {
        assert items[0] in items;
        Remove(head.data);
      }
    }
  }
}
