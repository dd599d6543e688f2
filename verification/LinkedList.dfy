// The intrusive doubly linked list of util/list.h.
module LinkedList {
  class Node {
    var prev: Node?
    var next: Node?

    constructor ()
      ensures prev == null && next == null
    {
      prev, next := null, null;
    }
  }

  ghost predicate Distinct(nodes: seq<Node>) {
    forall i, j | 0 <= i < j < |nodes| :: nodes[i] != nodes[j]
  }

  // s without its element at position k
  ghost function Without(s: seq<Node>, k: nat): seq<Node>
    requires k < |s|
  {
    s[..k] + s[k + 1..]
  }

  lemma {:induction false} DistinctAround(nodes: seq<Node>, k: nat)
    requires Distinct(nodes) && k < |nodes|
    ensures forall i | 0 <= i < |nodes| && i != k :: nodes[i] != nodes[k]
    ensures k > 0 ==> forall i | 0 <= i < |nodes| && i != k - 1 :: nodes[i] != nodes[k - 1]
    ensures k + 1 < |nodes| ==> forall i | 0 <= i < |nodes| && i != k + 1 :: nodes[i] != nodes[k + 1]
  {
  }

  lemma {:induction false} WithoutIs(nodes: seq<Node>, k: nat)
    requires Distinct(nodes) && k < |nodes|
    ensures var r := Without(nodes, k);
            && |r| == |nodes| - 1 && Distinct(r)
            && (forall i | 0 <= i < k :: r[i] == nodes[i]) && forall i | k <= i < |r| :: r[i] == nodes[i + 1]
  {
  }

  class LinkedList {
    var size: int
    var head: Node?
    var tail: Node?
    // the elements from head to tail
    ghost var nodes: seq<Node>

    // Following next from the head and prev from the tail gives the same nodes in the two
    // directions.
    ghost predicate Valid()
      reads this, nodes
    {
      && Distinct(nodes) && size == |nodes|
      && (nodes == [] ==> head == null && tail == null)
      && (nodes != [] ==>
            && head == nodes[0] && tail == nodes[|nodes| - 1]
            && nodes[0].prev == null && nodes[|nodes| - 1].next == null)
      && (forall i {:trigger nodes[i].next} | 0 <= i < |nodes| - 1 :: nodes[i].next == nodes[i + 1])
      && (forall i {:trigger nodes[i].prev} | 1 <= i < |nodes| :: nodes[i].prev == nodes[i - 1])
    }

    constructor ()
      ensures Valid() && nodes == []
    {
      size, head, tail, nodes := 0, null, null, [];
    }

    method Empty() returns (r: bool)
      requires Valid()
      ensures r <==> nodes == []
    {
      return size == 0;
    }

    method PushBack(t: Node)
      requires Valid() && t !in nodes
      modifies this, t, set x <- nodes
      ensures Valid() && nodes == old(nodes) + [t]
    {
      size := size + 1;
      t.prev := tail;
      t.next := null;
      if tail != null {
        tail.next := t;
      } else {
        head := t;
      }
      tail := t;
      nodes := nodes + [t];
    }

    // Takes t out; its own pointers stay as they were.
    method Remove(t: Node, ghost k: nat)
      requires Valid() && k < |nodes| && nodes[k] == t
      modifies this, set x <- nodes
      ensures Valid() && nodes == Without(old(nodes), k)
      ensures t.prev == old(t.prev) && t.next == old(t.next)
    {
      hide Distinct, Without;
      DistinctAround(nodes, k);
      WithoutIs(nodes, k);
      assert nodes[k].prev == t.prev && nodes[k].next == t.next;
      size := size - 1;
      if t.prev != null {
        t.prev.next := t.next;
      }
      if t.next != null {
        t.next.prev := t.prev;
      }
      if head == t {
        head := t.next;
      }
      if tail == t {
        tail := t.prev;
      }
      nodes := Without(nodes, k);
    }

    method PopFront() returns (t: Node)
      requires Valid() && nodes != []
      modifies this, set x <- nodes
      ensures Valid() && t == old(nodes)[0] && nodes == old(nodes)[1..]
    {
      t := head;
      Remove(t, 0);
    }

    lemma {:induction false} StartsAtHead()
      requires Valid()
      ensures head == if nodes == [] then null else nodes[0]
    {
    }

    lemma {:induction false} NextOf(k: nat)
      requires Valid() && k < |nodes|
      ensures nodes[k].next == if k + 1 < |nodes| then nodes[k + 1] else null
    {
      hide Distinct;
    }

    method Iterate() returns (it: Iterator)
      requires Valid()
      ensures fresh(it) && it.p == head
    {
      it := new Iterator(head);
    }
  }

  class Iterator {
    var p: Node?

    constructor (p: Node?)
      ensures this.p == p
    {
      this.p := p;
    }

    method Next() returns (ret: Node?)
      modifies this
      ensures ret == old(p) && p == if ret == null then null else ret.next
    {
      ret := p;
      if p != null {
        p := p.next;
      }
    }
  }

  // The nodes that are not marked.
  function Kept(nodes: seq<Node>, drop: seq<bool>): seq<Node>
    requires |nodes| == |drop|
  {
    if nodes == [] then []
    else
      var n := |nodes| - 1;
      Kept(nodes[..n], drop[..n]) + if drop[n] then [] else [nodes[n]]
  }

  lemma {:induction false} KeptNone(nodes: seq<Node>, drop: seq<bool>)
    requires |nodes| == |drop|
    ensures Kept(nodes[..0], drop[..0]) == []
  {
  }

  lemma {:induction false} KeptNext(nodes: seq<Node>, drop: seq<bool>, i: nat)
    requires i < |nodes| == |drop|
    ensures Kept(nodes[..i + 1], drop[..i + 1]) == Kept(nodes[..i], drop[..i]) + if drop[i] then [] else [nodes[i]]
  {
    assert nodes[..i + 1][..i] == nodes[..i] && drop[..i + 1][..i] == drop[..i];
  }

  // i nodes of `was` were passed, those in `kept` stayed, and the list holds `nodes`.
  ghost predicate Midway(was: seq<Node>, drop: seq<bool>, i: nat, kept: seq<Node>, nodes: seq<Node>) {
    && i <= |was| == |drop| && kept == Kept(was[..i], drop[..i])
    && nodes == kept + was[i..] && forall x <- nodes :: x in was
  }

  lemma {:induction false} MidwayStart(was: seq<Node>, drop: seq<bool>)
    requires |was| == |drop|
    ensures Midway(was, drop, 0, [], was)
  {
    hide Kept;
    KeptNone(was, drop);
    assert [] + was[0..] == was;
  }

  lemma {:induction false} MidwayAhead(was: seq<Node>, drop: seq<bool>, i: nat, kept: seq<Node>, nodes: seq<Node>)
    requires Midway(was, drop, i, kept, nodes)
    ensures i <= |was| && nodes == kept + was[i..] && forall x <- nodes :: x in was
    ensures i < |was| ==> was[i..] != [] && was[i..][0] == was[i] && was[..i + 1] == was[..i] + [was[i]]
    ensures i + 1 < |was| ==> |was[i..]| > 1 && was[i..][1] == was[i + 1]
    ensures i == |was| ==> nodes == Kept(was[..i], drop[..i])
  {
    hide Kept;
  }

  lemma {:induction false} MidwayNext(was: seq<Node>, drop: seq<bool>, i: nat, kept: seq<Node>,
                                           before: seq<Node>, nodes: seq<Node>)
    requires Midway(was, drop, i, kept, before) && i < |was|
    requires nodes == kept + (if drop[i] then [] else [was[i]]) + was[i..][1..]
    ensures Midway(was, drop, i + 1, kept + (if drop[i] then [] else [was[i]]), nodes)
  {
    hide Kept;
    KeptNext(was, drop, i);
    assert was[i..][1..] == was[i + 1..];
  }

  // One round of such an iteration: the nodes in `kept` were passed, the ones in `rest` are ahead.
  method Visit(list: LinkedList, it: Iterator, drop: bool, ghost kept: seq<Node>, ghost rest: seq<Node>)
    returns (t: Node)
    requires list.Valid() && list.nodes == kept + rest && rest != [] && it.p == rest[0]
    modifies it, list, set x <- list.nodes
    ensures list.Valid() && t == rest[0]
    ensures it.p == if |rest| > 1 then rest[1] else null
    ensures list.nodes == kept + (if drop then [] else [t]) + rest[1..]
  {
    hide Distinct, Without;
    ghost var k, was := |kept|, list.nodes;
    Around(kept, rest);
    list.NextOf(k);
    t := it.Next();
    if drop {
      list.Remove(t, k);
    }
  }

  // The node between the ones passed and the ones ahead.
  lemma {:induction false} Around(kept: seq<Node>, rest: seq<Node>)
    requires rest != []
    ensures var was, k := kept + rest, |kept|;
            && was[k] == rest[0] && (|rest| > 1 ==> was[k + 1] == rest[1])
            && Without(was, k) == kept + [] + rest[1..] && was == kept + [rest[0]] + rest[1..]
  {
  }

  // Main result: an iteration that removes any of the nodes it is just given still visits every
  // node once, in order, and leaves exactly the others.
  method RemoveWhileIterating(list: LinkedList, drop: seq<bool>) returns (visited: seq<Node>)
    requires list.Valid() && |drop| == |list.nodes|
    modifies list, set x <- list.nodes
    ensures list.Valid() && visited == old(list.nodes)
    ensures list.nodes == Kept(old(list.nodes), drop)
  {
    hide LinkedList.Valid, Kept, Distinct, Midway;
    ghost var was, kept := list.nodes, [];
    MidwayStart(was, drop);
    list.StartsAtHead();
    var it := list.Iterate();
    visited := [];
    while it.p != null
      invariant fresh(it) && list.Valid()
      invariant |visited| <= |was| && visited == was[..|visited|]
      invariant it.p == if |visited| < |was| then was[|visited|] else null
      invariant Midway(was, drop, |visited|, kept, list.nodes)
      decreases |was| - |visited|
    {
      ghost var i, before := |visited|, list.nodes;
      MidwayAhead(was, drop, i, kept, list.nodes);
      var t := Visit(list, it, drop[|visited|], kept, was[i..]);
      MidwayNext(was, drop, i, kept, before, list.nodes);
      kept := kept + if drop[|visited|] then [] else [t];
      visited := visited + [t];
    }
    assert was[..|was|] == was && drop[..|was|] == drop;
    MidwayAhead(was, drop, |was|, kept, list.nodes);
  }
}
