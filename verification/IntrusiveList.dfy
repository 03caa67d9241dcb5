/**
 The circular, doubly linked list of router/list.h, refined to a sequence: a
 ring of nodes starts with its head, and the items follow in order.
 */
module IntrusiveList {

  class ListHead {
    var prev: ListHead
    var next: ListHead

    /** list_init() */
    constructor ()
      ensures prev == this && next == this
    {
      prev, next := this, this;
    }
  }

  function Succ(i: nat, n: nat): nat
    requires i < n
  {
    if i + 1 == n then 0 else i + 1
  }

  function Pred(i: nat, n: nat): nat
    requires i < n
  {
    if i == 0 then n - 1 else i - 1
  }

  predicate Distinct(nodes: seq<ListHead>) {
    forall i, j | 0 <= i < j < |nodes| :: nodes[i] != nodes[j]
  }

  /** The nodes are linked in this order, both ways around. */
  ghost predicate Ring(nodes: seq<ListHead>)
    reads nodes
  {
    && nodes != [] && Distinct(nodes)
    && (forall i {:trigger nodes[i].next} | 0 <= i < |nodes| :: nodes[i].next == nodes[Succ(i, |nodes|)])
    && (forall i {:trigger nodes[i].prev} | 0 <= i < |nodes| :: nodes[i].prev == nodes[Pred(i, |nodes|)])
  }

  method ListEmpty(list: ListHead, ghost nodes: seq<ListHead>) returns (empty: bool)
    requires Ring(nodes) && nodes[0] == list
    ensures empty <==> |nodes| == 1
  {
    empty := list.next == list;
    assert list.next == nodes[Succ(0, |nodes|)];
  }

  /** list_add(): the item goes to the end of the list. */
  method ListAdd(list: ListHead, item: ListHead, ghost nodes: seq<ListHead>)
    requires Ring(nodes) && nodes[0] == list && item !in nodes
    modifies list, list.prev, item
    ensures Ring(nodes + [item])
  {
    ghost var n := |nodes|;
    assert list.prev == nodes[n - 1];
    var prev := list.prev;
    item.next := list;
    item.prev := prev;
    list.prev := item;
    prev.next := item;
  }

  /** Where a node of the shortened ring stood before. */
  function Before(i: nat, k: nat): nat {
    if i < k then i else i + 1
  }

  lemma Shortened(nodes: seq<ListHead>, k: nat)
    requires 0 < k < |nodes|
    ensures var rest := nodes[..k] + nodes[k + 1..];
            && |rest| == |nodes| - 1
            && (forall i {:trigger rest[i]} | 0 <= i < |rest| :: rest[i] == nodes[Before(i, k)])
            && (forall i {:trigger Succ(i, |rest|)} | 0 <= i < |rest| ::
                  Before(Succ(i, |rest|), k)
                  == Succ(if Before(i, k) == k - 1 then k else Before(i, k), |nodes|))
            && (forall i {:trigger Pred(i, |rest|)} | 0 <= i < |rest| ::
                  Before(Pred(i, |rest|), k)
                  == Pred(if Before(i, k) == Succ(k, |nodes|) then k else Before(i, k), |nodes|))
  {
  }

  lemma ShortenedDistinct(nodes: seq<ListHead>, k: nat)
    requires Distinct(nodes) && k < |nodes|
    ensures Distinct(nodes[..k] + nodes[k + 1..])
  {
  }

  /** list_del(): unlinks one node, which keeps its own pointers. */
  method ListDel(item: ListHead, ghost nodes: seq<ListHead>, ghost k: nat)
    requires Ring(nodes) && 0 < k < |nodes| && nodes[k] == item
    modifies item.prev, item.next
    ensures Ring(nodes[..k] + nodes[k + 1..])
    ensures item.next == old(item.next) && item.prev == old(item.prev)
  {
    ghost var n, rest := |nodes|, nodes[..k] + nodes[k + 1..];
    Shortened(nodes, k);
    ShortenedDistinct(nodes, k);
    assert item.prev == nodes[k - 1] && item.next == nodes[Succ(k, n)];
    item.prev.next := item.next;
    item.next.prev := item.prev;
    forall i | 0 <= i < |rest| ensures rest[i].next == rest[Succ(i, |rest|)] {
      assert rest[i] == nodes[Before(i, k)];
      assert rest[Succ(i, |rest|)] == nodes[Before(Succ(i, |rest|), k)];
    }
    forall i | 0 <= i < |rest| ensures rest[i].prev == rest[Pred(i, |rest|)] {
      assert rest[i] == nodes[Before(i, k)];
      assert rest[Pred(i, |rest|)] == nodes[Before(Pred(i, |rest|), k)];
    }
  }

  // ---------------------------------------------------------------- traversal with deletion

  /** The nodes that are not to be dropped, in order. */
  function Keep(nodes: seq<ListHead>, drop: set<ListHead>): (kept: seq<ListHead>)
    ensures forall x :: x in kept ==> x in nodes && x !in drop
  {
    if nodes == [] then []
    else
      assert nodes == nodes[..|nodes| - 1] + [nodes[|nodes| - 1]];
      Keep(nodes[..|nodes| - 1], drop) + (if nodes[|nodes| - 1] in drop then [] else [nodes[|nodes| - 1]])
  }

  /** The ring halfway through a pass: what was kept of the nodes before i, then the rest. */
  ghost function Halfway(nodes: seq<ListHead>, drop: set<ListHead>, i: nat): (ring: seq<ListHead>)
    requires 1 <= i <= |nodes|
    ensures forall x :: x in ring ==> x in nodes
  {
    assert forall x :: x in nodes[1..i] ==> x in nodes;
    [nodes[0]] + Keep(nodes[1..i], drop) + nodes[i..]
  }

  lemma HalfwayStep(nodes: seq<ListHead>, drop: set<ListHead>, i: nat)
    requires 1 <= i < |nodes|
    ensures var k := 1 + |Keep(nodes[1..i], drop)|;
            var ring := Halfway(nodes, drop, i);
            && k < |ring| && ring[k] == nodes[i]
            && Succ(k, |ring|) == (if i + 1 < |nodes| then k + 1 else 0)
            && (i + 1 < |nodes| ==> ring[k + 1] == nodes[i + 1])
            && Halfway(nodes, drop, i + 1) == if nodes[i] in drop then ring[..k] + ring[k + 1..] else ring
  {
    assert nodes[1..i + 1][..i - 1] == nodes[1..i];
    assert nodes[i..] == [nodes[i]] + nodes[i + 1..];
  }

  /** The node a pass stands on: past the last one, it is back at the head. */
  function NodeAt(nodes: seq<ListHead>, i: nat): ListHead
    requires nodes != []
  {
    if i < |nodes| then nodes[i] else nodes[0]
  }

  /** The node after the current one is the same whether or not nodes before it were deleted. */
  lemma NextNode(nodes: seq<ListHead>, drop: set<ListHead>, i: nat)
    requires 1 <= i < |nodes| && Ring(Halfway(nodes, drop, i))
    ensures nodes[i].next == NodeAt(nodes, i + 1)
  {
    var ring, k := Halfway(nodes, drop, i), 1 + |Keep(nodes[1..i], drop)|;
    HalfwayStep(nodes, drop, i);
    assert ring[k].next == ring[Succ(k, |ring|)];
  }

  /** The body of the loops that delete while they walk. */
  method VisitItem(item: ListHead, drop: set<ListHead>, ghost nodes: seq<ListHead>, ghost i: nat)
    requires 1 <= i < |nodes| && Ring(Halfway(nodes, drop, i)) && item == nodes[i]
    modifies nodes
    ensures Ring(Halfway(nodes, drop, i + 1))
  {
    ghost var ring, k := Halfway(nodes, drop, i), 1 + |Keep(nodes[1..i], drop)|;
    HalfwayStep(nodes, drop, i);
    if item in drop {
      assert item.prev == ring[Pred(k, |ring|)] && item.prev in ring;
      assert item.next == ring[Succ(k, |ring|)] && item.next in ring;
      ListDel(item, ring, k);
    }
  }

  lemma VisitedSnoc(nodes: seq<ListHead>, i: nat)
    requires 1 <= i < |nodes|
    ensures nodes[1..i + 1] == nodes[1..i] + [nodes[i]]
  {
  }

  lemma WholePass(nodes: seq<ListHead>, drop: set<ListHead>)
    requires nodes != []
    ensures Halfway(nodes, drop, 1) == nodes
    ensures Halfway(nodes, drop, |nodes|) == [nodes[0]] + Keep(nodes[1..], drop)
  {
    assert nodes[1..|nodes|] == nodes[1..];
  }

  /**
   A list_for_each_safe pass that deletes the current item when it is among
   those to drop: every original item is visited exactly once, in order, and
   the others stay in order.
   */
  method DeleteWhile(list: ListHead, drop: set<ListHead>, ghost nodes: seq<ListHead>) returns (visited: seq<ListHead>)
    requires Ring(nodes) && nodes[0] == list && list !in drop
    modifies nodes
    ensures visited == nodes[1..]
    ensures Ring([list] + Keep(nodes[1..], drop))
  {
    WholePass(nodes, drop);
    assert list.next == nodes[Succ(0, |nodes|)];
    var item := list.next;
    var next := item.next;
    visited := [];
    ghost var i := 1;
    while item != list
      invariant 1 <= i <= |nodes| && visited == nodes[1..i]
      invariant Ring(Halfway(nodes, drop, i))
      invariant item == NodeAt(nodes, i) && next == item.next
      decreases |nodes| - i
    {
      NextNode(nodes, drop, i);
      VisitItem(item, drop, nodes, i);
      VisitedSnoc(nodes, i);
      visited := visited + [item];
      item := next;
      next := item.next;
      i := i + 1;
    }
  }
}
