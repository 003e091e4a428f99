/** LRU: a doubly linked list from most to least recently used. */
module LruPolicy {
  import opened Base
  import opened Index

  // ---- on values: the tracked keys, most recently used first

  function ToFront(order: seq<Key>, k: Key): seq<Key> {
    [k] + Without(order, k)
  }

  function Touched(order: seq<Key>, k: Key): seq<Key> {
    if k in order then ToFront(order, k) else order
  }

  function Victim(order: seq<Key>): Option<Key> {
    if order == [] then None else Some(order[|order| - 1])
  }

  // ---- in place

  class Node {
    const key: Key
    var prev: Node?
    var next: Node?

    constructor (key: Key)
      ensures this.key == key
    {
      this.key := key;
    }
  }

  function KeyOf(n: Node): Key {
    n.key
  }

  function First(ns: seq<Node>): Node? {
    if ns == [] then null else ns[0]
  }

  function Final(ns: seq<Node>): Node? {
    if ns == [] then null else ns[|ns| - 1]
  }

  ghost predicate PrevLinked(ns: seq<Node>)
    reads ns`prev
  {
    forall i {:trigger ns[i].prev} :: 0 <= i < |ns| ==> ns[i].prev == if i == 0 then null else ns[i - 1]
  }

  ghost predicate NextLinked(ns: seq<Node>)
    reads ns`next
  {
    forall i {:trigger ns[i].next} :: 0 <= i < |ns| ==>
      ns[i].next == if i + 1 == |ns| then null else ns[i + 1]
  }

  class LRU {
    var items: map<Key, Node>
    var head: Node?  // the latest touched
    var tail: Node?  // the next victim
    ghost var nodes: seq<Node>  // from head to tail

    ghost predicate Linked()
      reads `head, `tail, `nodes, nodes
      ensures Linked() ==> Distinct(nodes)
    {
      && Distinct(nodes) && head == First(nodes) && tail == Final(nodes)
      && PrevLinked(nodes) && NextLinked(nodes)
    }

    ghost predicate Valid()
      reads this, nodes
    {
      Linked() && Indexed(KeyOf, items, nodes)
    }

    ghost function Order(): seq<Key>
      reads this
    {
      Names(KeyOf, nodes)
    }

    constructor ()
      ensures Valid() && Order() == [] && nodes == []
    {
      items, head, tail, nodes := map[], null, null, [];
    }

    method PushHead(n: Node)
      requires Linked() && n !in nodes
      modifies `head, `tail, `nodes, nodes, n
      ensures Linked() && nodes == [n] + old(nodes)
    {
      n.prev, n.next := null, head;
      if head != null {
        head.prev := n;
      }
      head := n;
      if tail == null {
        tail := n;
      }
      nodes := [n] + nodes;
    }

    /** Takes `n` out of the links toward the tail. */
    method SkipNext(n: Node, ghost i: nat)
      requires Distinct(nodes) && NextLinked(nodes) && PrevLinked(nodes) && i < |nodes| && nodes[i] == n
      requires head == First(nodes)
      modifies `head, nodes`next
      ensures NextLinked(Cut(nodes, i)) && head == First(Cut(nodes, i))
      ensures n.next == (if i + 1 < |nodes| then nodes[i + 1] else null)
    {
      if n.prev != null {
        ApartFrom(nodes, i - 1);
        n.prev.next := n.next;
      } else {
        head := n.next;
      }
    }

    /** Takes `n` out of the links toward the head. */
    method SkipPrev(n: Node, ghost i: nat)
      requires Distinct(nodes) && PrevLinked(nodes) && i < |nodes| && nodes[i] == n
      requires n.next == (if i + 1 < |nodes| then nodes[i + 1] else null)
      requires tail == Final(nodes) && NextLinked(Cut(nodes, i))
      modifies `tail, nodes`prev
      ensures PrevLinked(Cut(nodes, i)) && NextLinked(Cut(nodes, i)) && tail == Final(Cut(nodes, i))
    {
      if n.next != null {
        ApartFrom(nodes, i + 1);
        n.next.prev := n.prev;
      } else {
        tail := n.prev;
      }
    }

    method Unlink(n: Node, ghost i: nat)
      requires Linked() && i < |nodes| && nodes[i] == n
      modifies `head, `tail, `nodes, nodes
      ensures Linked() && nodes == Cut(old(nodes), i)
      ensures forall m :: m in nodes ==> m in old(nodes)
    {
      hide Distinct, Cut, First, Final, PrevLinked, NextLinked;
      CutDistinct(nodes, i);
      CutWithin(nodes, i);
      SkipNext(n, i);
      SkipPrev(n, i);
      nodes := Cut(nodes, i);
      n.prev, n.next := null, null;
    }

    method MoveToHead(n: Node, ghost i: nat)
      requires Linked() && i < |nodes| && nodes[i] == n
      modifies `head, `tail, `nodes, nodes
      ensures Linked() && nodes == [n] + Cut(old(nodes), i)
      ensures forall m :: m in nodes ==> m in old(nodes)
    {
      if head == n {
        return;
      }
      Unlink(n, i);
      PushHead(n);
    }

    method OnHit(key: Key)
      requires Valid()
      modifies this, nodes
      ensures Valid() && (forall n :: n in nodes ==> n in old(nodes))
      ensures Order() == Touched(old(Order()), key)
    {
      hide Indexed, Names, Linked, Cut, Without, Distinct;
      IndexedNames(KeyOf, items, nodes);
      if key in items {
        ghost var i := Find(KeyOf, items, nodes, key);
        IndexedToFront(KeyOf, items, nodes, i);
        MoveToHead(items[key], i);
      }
    }

    method CanAdmit(key: Key, size: nat) returns (ok: bool)
      ensures ok
    {
      ok := true;
    }

    method OnAdmit(key: Key)
      requires Valid()
      modifies this, nodes
      ensures Valid() && (forall n :: n in nodes ==> n in old(nodes) || fresh(n))
      ensures Order() == ToFront(old(Order()), key)
    {
      hide Indexed, Names, Linked, Cut, Without, Distinct;
      IndexedNames(KeyOf, items, nodes);
      if key in items {
        ghost var i := Find(KeyOf, items, nodes, key);
        IndexedToFront(KeyOf, items, nodes, i);
        MoveToHead(items[key], i);
        return;
      }
      WithoutAbsent(Order(), key);
      var n := new Node(key);
      IndexedPrepend(KeyOf, items, nodes, n);
      items := items[key := n];
      PushHead(n);
    }

    method Evict() returns (victim: Option<Key>)
      requires Valid()
      ensures victim == Victim(Order())
    {
      if tail == null {
        return None;
      }
      return Some(tail.key);
    }

    method OnRemove(key: Key)
      requires Valid()
      modifies this, nodes
      ensures Valid() && (forall n :: n in nodes ==> n in old(nodes))
      ensures Order() == Without(old(Order()), key)
    {
      hide Indexed, Names, Linked, Cut, Without, Distinct;
      if key !in items {
        IndexedNames(KeyOf, items, nodes);
        WithoutAbsent(Order(), key);
        return;
      }
      var n := items[key];
      ghost var i := Find(KeyOf, items, nodes, key);
      IndexedCut(KeyOf, items, nodes, i);
      NamesCut(KeyOf, items, nodes, i);
      Unlink(n, i);
      items := items - {key};
    }
  }
}
