/** FIFO: a doubly linked queue, oldest at the head, that hits never reorder. */
module FifoPolicy {
  import opened Base
  import opened Index

  // ---- on values: the tracked keys, oldest first

  function Admitted(q: seq<Key>, k: Key): seq<Key> {
    if k in q then q else q + [k]
  }

  function Victim(q: seq<Key>): Option<Key> {
    if q == [] then None else Some(q[0])
  }

  // ---- in place

  class Node {
    const key: Key
    var older: Node?
    var newer: Node?

    constructor (key: Key)
      ensures this.key == key && older == null && newer == null
    {
      this.key := key;
      older, newer := null, null;
    }
  }

  function KeyOf(n: Node): Key {
    n.key
  }

  function First(ns: seq<Node>): Node? {
    if ns == [] then null else ns[0]
  }

  function Final(ns: seq<Node>): Node? {
    if ns == [] then null else ns[|ns| - 1]
  }

  ghost predicate OlderLinked(ns: seq<Node>)
    reads ns`older
  {
    forall i {:trigger ns[i].older} :: 0 <= i < |ns| ==> ns[i].older == if i == 0 then null else ns[i - 1]
  }

  ghost predicate NewerLinked(ns: seq<Node>)
    reads ns`newer
  {
    forall i {:trigger ns[i].newer} :: 0 <= i < |ns| ==>
      ns[i].newer == if i + 1 == |ns| then null else ns[i + 1]
  }

  class FIFO {
    var items: map<Key, Node>
    var head: Node?
    var tail: Node?
    ghost var nodes: seq<Node>  // oldest first

    ghost predicate Linked()
      reads `head, `tail, `nodes, nodes
      ensures Linked() ==> Distinct(nodes)
    {
      && Distinct(nodes) && head == First(nodes) && tail == Final(nodes)
      && OlderLinked(nodes) && NewerLinked(nodes)
    }

    ghost predicate Valid()
      reads this, nodes
    {
      Linked() && Indexed(KeyOf, items, nodes)
    }

    ghost function Queue(): seq<Key>
      reads this
    {
      Names(KeyOf, nodes)
    }

    constructor ()
      ensures Valid() && Queue() == [] && nodes == []
    {
      items, head, tail, nodes := map[], null, null, [];
    }

    method OnHit(key: Key)
      ensures Queue() == old(Queue())
    {
    }

    method CanAdmit(key: Key, size: nat) returns (ok: bool)
      ensures ok
    {
      ok := true;
    }

    /** Links `n` behind every node, keeping their order. */
    method Append(n: Node)
      requires Linked() && n !in nodes && n.newer == null
      modifies `head, `tail, `nodes, nodes, n
      ensures Linked() && nodes == old(nodes) + [n]
    {
      n.older := tail;
      if tail != null {
        tail.newer := n;
      }
      tail := n;
      if head == null {
        head := n;
      }
      nodes := nodes + [n];
    }

    method OnAdmit(key: Key)
      requires Valid()
      modifies this, nodes
      ensures Valid() && (forall n :: n in nodes ==> n in old(nodes) || fresh(n))
      ensures Queue() == Admitted(old(Queue()), key)
    {
      hide Indexed, Names, Linked, Cut, Without, Distinct;
      IndexedNames(KeyOf, items, nodes);
      if key in items {
        return;
      }
      var n := new Node(key);
      IndexedAppend(KeyOf, items, nodes, n);
      items := items[key := n];
      Append(n);
    }

    method Evict() returns (victim: Option<Key>)
      requires Valid()
      ensures victim == Victim(Queue())
    {
      if head == null {
        return None;
      }
      return Some(head.key);
    }

    /** Takes `n` out of the links toward the newest. */
    method SkipNewer(n: Node, ghost i: nat)
      requires Distinct(nodes) && NewerLinked(nodes) && OlderLinked(nodes) && i < |nodes| && nodes[i] == n
      requires head == First(nodes)
      modifies `head, nodes`newer
      ensures NewerLinked(Cut(nodes, i)) && head == First(Cut(nodes, i))
      ensures n.newer == (if i + 1 < |nodes| then nodes[i + 1] else null)
    {
      if n.older != null {
        ApartFrom(nodes, i - 1);
        n.older.newer := n.newer;
      } else {
        head := n.newer;
      }
    }

    /** Takes `n` out of the links toward the oldest. */
    method SkipOlder(n: Node, ghost i: nat)
      requires Distinct(nodes) && OlderLinked(nodes) && i < |nodes| && nodes[i] == n
      requires n.newer == (if i + 1 < |nodes| then nodes[i + 1] else null)
      requires tail == Final(nodes) && NewerLinked(Cut(nodes, i))
      modifies `tail, nodes`older
      ensures OlderLinked(Cut(nodes, i)) && NewerLinked(Cut(nodes, i)) && tail == Final(Cut(nodes, i))
    {
      if n.newer != null {
        ApartFrom(nodes, i + 1);
        n.newer.older := n.older;
      } else {
        tail := n.older;
      }
    }

    method Unlink(n: Node, ghost i: nat)
      requires Linked() && i < |nodes| && nodes[i] == n
      modifies `head, `tail, `nodes, nodes
      ensures Linked() && nodes == Cut(old(nodes), i)
      ensures forall m :: m in nodes ==> m in old(nodes)
    {
      hide Distinct, Cut, First, Final, OlderLinked, NewerLinked;
      CutDistinct(nodes, i);
      CutWithin(nodes, i);
      SkipNewer(n, i);
      SkipOlder(n, i);
      nodes := Cut(nodes, i);
    }

    method OnRemove(key: Key)
      requires Valid()
      modifies this, nodes
      ensures Valid() && (forall n :: n in nodes ==> n in old(nodes))
      ensures Queue() == Without(old(Queue()), key)
    {
      hide Indexed, Names, Linked, Cut, Without, Distinct;
      if key !in items {
        IndexedNames(KeyOf, items, nodes);
        WithoutAbsent(Queue(), key);
        return;
      }
      var n := items[key];
      ghost var i := Find(KeyOf, items, nodes, key);
      IndexedCut(KeyOf, items, nodes, i);
      NamesCut(KeyOf, items, nodes, i);
      Unlink(n, i);
      items := items - {key};
    }
  }
}
