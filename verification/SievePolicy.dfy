/** SIEVE: hits only set bits; evictions clear them, moving a hand from old to new until
    it meets a clear one. */
module SievePolicy {
  import opened Base
  import opened Index

  // ---- on values

  datatype Entry = Entry(key: Key, visited: bool)

  /** The queue, oldest first, and the key the hand rests on (None: start at the oldest). */
  datatype Sieve = Sieve(q: seq<Entry>, hand: Option<Key>)

  function Label(e: Entry): Key {
    e.key
  }

  function Keys(q: seq<Entry>): seq<Key> {
    Names(Label, q)
  }

  ghost predicate Sane(s: Sieve) {
    Distinct(Keys(s.q)) && (s.hand.Some? ==> s.hand.value in Keys(s.q))
  }

  function Marked(s: Sieve, k: Key): Sieve {
    var i := IndexOf(Keys(s.q), k);
    if i < |s.q| then s.(q := s.q[i := Entry(k, true)]) else s
  }

  function Admitted(s: Sieve, k: Key): Sieve {
    if k in Keys(s.q) then s else s.(q := s.q + [Entry(k, false)])
  }

  /** The key just newer than position `i`. */
  function Newer(q: seq<Entry>, i: nat): Option<Key> {
    if i + 1 < |q| then Some(q[i + 1].key) else None
  }

  function Removed(s: Sieve, k: Key): Sieve {
    var i := IndexOf(Keys(s.q), k);
    if i < |s.q| then Sieve(Cut(s.q, i), if s.hand == Some(k) then Newer(s.q, i) else s.hand) else s
  }

  lemma {:induction false} RemovedAt(s: Sieve, i: nat)
    requires Distinct(Keys(s.q)) && i < |s.q|
    ensures Removed(s, s.q[i].key)
            == Sieve(Cut(s.q, i), if s.hand == Some(s.q[i].key) then Newer(s.q, i) else s.hand)
  {
    NameAt(Label, s.q, i);
  }

  lemma {:induction false} RemovedAbsent(s: Sieve, k: Key)
    ensures k !in Keys(s.q) ==> Removed(s, k) == s
  {
  }

  function Start(s: Sieve): (i: nat)
    ensures s.q != [] ==> i < |s.q|
  {
    if s.hand.None? then 0
    else
      var i := IndexOf(Keys(s.q), s.hand.value);
      if i < |s.q| then i else 0
  }

  function Visited(q: seq<Entry>): nat {
    if q == [] then 0 else (if q[0].visited then 1 else 0) + Visited(q[1..])
  }

  function Clear(q: seq<Entry>, i: nat): seq<Entry>
    requires i < |q|
  {
    q[i := q[i].(visited := false)]
  }

  lemma {:induction false} SetBit(q: seq<Entry>, i: nat, e: Entry)
    requires i < |q|
    ensures Visited(q[i := e])
            == Visited(q) - (if q[i].visited then 1 else 0) + (if e.visited then 1 else 0)
  {
    if i > 0 {
      SetBit(q[1..], i - 1, e);
      assert q[i := e][1..] == q[1..][i - 1 := e];
    } else {
      assert q[i := e][1..] == q[1..];
    }
  }

  function Next(q: seq<Entry>, i: nat): nat {
    if i + 1 < |q| then i + 1 else 0
  }

  /** The sweep from `pos`: the queue with the passed bits cleared, and where it stops. */
  function Sweep(q: seq<Entry>, pos: nat): (r: (seq<Entry>, nat))
    requires pos < |q|
    ensures |r.0| == |q| && r.1 < |q|
    decreases Visited(q)
  {
    if !q[pos].visited then (q, pos)
    else
      SetBit(q, pos, q[pos].(visited := false));
      Sweep(Clear(q, pos), Next(q, pos))
  }

  /** How many objects the sweep from `pos` passes. */
  function Passes(q: seq<Entry>, pos: nat): nat
    requires pos < |q|
    decreases Visited(q)
  {
    if !q[pos].visited then 0
    else
      SetBit(q, pos, q[pos].(visited := false));
      1 + Passes(Clear(q, pos), Next(q, pos))
  }

  function Evicted(s: Sieve): (Sieve, Option<Key>) {
    if s.q == [] then (s, None)
    else
      var (q, p) := Sweep(s.q, Start(s));
      (Sieve(q, Newer(q, p)), Some(q[p].key))
  }

  // ---- the sweep in closed form

  /** The position `d` steps from `s` toward the newest, wrapping to the oldest. */
  function At(q: seq<Entry>, s: nat, d: nat): nat
    requires s < |q| && d <= |q|
  {
    if s + d < |q| then s + d else s + d - |q|
  }

  /** `q` with the bits of the `d` objects from `s` on cleared. */
  function ClearedFrom(q: seq<Entry>, s: nat, d: nat): (r: seq<Entry>)
    requires s < |q|
    ensures |r| == |q|
  {
    seq(|q|, i requires 0 <= i < |q| =>
      if (if i >= s then i - s else i + |q| - s) < d then q[i].(visited := false) else q[i])
  }

  /** The victim is the first object with a clear bit at or after the start, and
      exactly the objects passed on the way lose theirs. */
  lemma {:induction false} SweepStopsAtFirstClear(q: seq<Entry>, s: nat, d: nat)
    requires s < |q| && d < |q| && !q[At(q, s, d)].visited
    requires forall e :: 0 <= e < d ==> q[At(q, s, e)].visited
    ensures Sweep(q, s) == (ClearedFrom(q, s, d), At(q, s, d)) && Passes(q, s) == d
    decreases d
  {
    if d == 0 {
      assert ClearedFrom(q, s, 0) == q;
    } else {
      assert q[At(q, s, 0)].visited;
      var c, t := Clear(q, s), Next(q, s);
      forall e | 0 <= e < d - 1 ensures c[At(c, t, e)].visited {
        assert q[At(q, s, e + 1)].visited;
      }
      SweepStopsAtFirstClear(c, t, d - 1);
      assert ClearedFrom(c, t, d - 1) == ClearedFrom(q, s, d);
    }
  }

  /** When every bit is set the sweep clears all of them, once, and comes back to its start. */
  lemma {:induction false} SweepWrapsWhenAllSet(q: seq<Entry>, s: nat)
    requires s < |q| && forall i :: 0 <= i < |q| ==> q[i].visited
    ensures Sweep(q, s) == (ClearedFrom(q, s, |q|), s) && Passes(q, s) == |q|
  {
    var c, t := Clear(q, s), Next(q, s);
    SweepStopsAtFirstClear(c, t, |q| - 1);
    assert ClearedFrom(c, t, |q| - 1) == ClearedFrom(q, s, |q|);
  }

  /** Sweeping moves no object and ends within one lap; each pass clears one bit. */
  lemma {:induction false} SweepKeepsOrder(q: seq<Entry>, pos: nat)
    requires pos < |q|
    ensures Keys(Sweep(q, pos).0) == Keys(q)
    ensures Passes(q, pos) == Visited(q) - Visited(Sweep(q, pos).0)
    ensures Passes(q, pos) <= |q|
    decreases Visited(q)
  {
    if q[pos].visited {
      SetBit(q, pos, q[pos].(visited := false));
      SweepKeepsOrder(Clear(q, pos), Next(q, pos));
      assert Keys(Clear(q, pos)) == Keys(q);
    }
    VisitedAtMost(q);
  }

  lemma {:induction false} VisitedAtMost(q: seq<Entry>)
    ensures Visited(q) <= |q|
  {
    if q != [] {
      VisitedAtMost(q[1..]);
    }
  }

  // ---- what every call keeps

  lemma {:induction false} MarkedKeeps(s: Sieve, k: Key)
    requires Sane(s)
    ensures Sane(Marked(s, k)) && Keys(Marked(s, k).q) == Keys(s.q)
    ensures Visited(Marked(s, k).q) <= Visited(s.q) + 1
    ensures Marked(s, k).hand == s.hand && |Marked(s, k).q| == |s.q|
    ensures forall j :: 0 <= j < |s.q| ==> Marked(s, k).q[j] == Entry(s.q[j].key, s.q[j].key == k || s.q[j].visited)
  {
    var i := IndexOf(Keys(s.q), k);
    assert forall j :: 0 <= j < |s.q| ==> Keys(s.q)[j] == s.q[j].key;
    if i < |s.q| {
      SetBit(s.q, i, Entry(k, true));
      assert Keys(Marked(s, k).q) == Keys(s.q);
    }
  }

  lemma {:induction false} AdmittedKeeps(s: Sieve, k: Key)
    requires Sane(s) && k !in Keys(s.q)
    ensures Sane(Admitted(s, k)) && Keys(Admitted(s, k).q) == Keys(s.q) + [k]
    ensures Visited(Admitted(s, k).q) == Visited(s.q)
    ensures Admitted(s, k).hand == s.hand && Admitted(s, k).q == s.q + [Entry(k, false)]
  {
    assert Keys(Admitted(s, k).q) == Keys(s.q) + [k];
    VisitedConcat(s.q, [Entry(k, false)]);
  }

  lemma {:induction false} VisitedConcat(q: seq<Entry>, r: seq<Entry>)
    ensures Visited(q + r) == Visited(q) + Visited(r)
  {
    if q == [] {
      assert q + r == r;
    } else {
      assert (q + r)[1..] == q[1..] + r;
      VisitedConcat(q[1..], r);
    }
  }

  lemma {:induction false} RemovedInPlace(s: Sieve, k: Key)
    requires Sane(s)
    ensures k !in Keys(s.q) ==> Removed(s, k) == s
    ensures forall i :: 0 <= i < |s.q| && s.q[i].key == k ==>
              && Removed(s, k).q == s.q[..i] + s.q[i + 1..]
              && Removed(s, k).hand == (if s.hand != Some(k) then s.hand
                                        else if i + 1 < |s.q| then Some(s.q[i + 1].key) else None)
  {
    forall i | 0 <= i < |s.q| && s.q[i].key == k ensures IndexOf(Keys(s.q), k) == i {
      NameAt(Label, s.q, i);
    }
  }

  /** A removal never strands the hand: it stays on a linked object or goes to None. */
  lemma {:induction false} RemovedKeeps(s: Sieve, k: Key)
    requires Sane(s)
    ensures Sane(Removed(s, k)) && Keys(Removed(s, k).q) == Without(Keys(s.q), k)
    ensures Visited(Removed(s, k).q) <= Visited(s.q)
    ensures k !in Keys(s.q) ==> Removed(s, k) == s
    ensures forall i :: 0 <= i < |s.q| && s.q[i].key == k ==>
              && Removed(s, k).q == s.q[..i] + s.q[i + 1..]
              && Removed(s, k).hand == (if s.hand != Some(k) then s.hand
                                        else if i + 1 < |s.q| then Some(s.q[i + 1].key) else None)
  {
    RemovedInPlace(s, k);
    var ks := Keys(s.q);
    var i := IndexOf(ks, k);
    if i < |s.q| {
      assert Keys(Cut(s.q, i)) == Cut(ks, i);
      CutDistinct(ks, i);
      var r := Removed(s, k);
      if r.hand.Some? {
        if s.hand == Some(k) {
          assert Cut(ks, i)[i] == ks[i + 1] == r.hand.value;
        } else {
          CutMember(ks, i, r.hand.value);
        }
      }
      VisitedCut(s.q, i);
    }
  }

  lemma {:induction false} VisitedCut(q: seq<Entry>, i: nat)
    requires i < |q|
    ensures Visited(Cut(q, i)) <= Visited(q)
  {
    var x, y, z := q[..i], [q[i]], q[i + 1..];
    hide Visited;
    assert q == x + (y + z);
    VisitedConcat(x, y + z);
    VisitedConcat(y, z);
    VisitedConcat(x, z);
  }

  lemma {:induction false} EvictedKeeps(s: Sieve)
    requires Sane(s)
    ensures var (r, victim) := Evicted(s);
            && Sane(r) && Keys(r.q) == Keys(s.q)
            && (s.q != [] ==> victim.Some? && victim.value in Keys(s.q))
            && (forall i :: 0 <= i < |s.q| && victim == Some(Keys(s.q)[i]) ==>
                  r.hand == if i + 1 < |s.q| then Some(Keys(s.q)[i + 1]) else None)
            && (s.q != [] ==> Visited(r.q) + Passes(s.q, Start(s)) == Visited(s.q))
  {
    if s.q != [] {
      SweepKeepsOrder(s.q, Start(s));
      var (q, p) := Sweep(s.q, Start(s));
      assert Keys(q)[p] == q[p].key;
      assert p + 1 < |q| ==> Keys(q)[p + 1] == q[p + 1].key;
    }
  }

  /** Eviction and removal together leave the next sweep to start at the victim's newer
      neighbour, or at the oldest object if it had none. */
  lemma {:induction false} SweepResumes(s: Sieve)
    requires Sane(s) && s.q != []
    ensures var (r, victim) := Evicted(s); var p := Sweep(s.q, Start(s)).1;
            && victim == Some(s.q[p].key)
            && var t := Removed(r, s.q[p].key);
               && Keys(t.q) == Cut(Keys(s.q), p)
               && t.hand == (if p + 1 < |s.q| then Some(s.q[p + 1].key) else None)
               && (t.q != [] ==> Start(t) == if p + 1 < |s.q| then p else 0)
  {
    var (q, p) := Sweep(s.q, Start(s));
    SweepKeepsOrder(s.q, Start(s));
    assert Keys(q)[p] == q[p].key && Keys(s.q)[p] == s.q[p].key;
    var r := Evicted(s).0;
    RemovedAt(r, p);
    assert Keys(Cut(q, p)) == Cut(Keys(q), p);
    CutDistinct(Keys(q), p);
    if p + 1 < |q| {
      assert q[p + 1].key == Keys(q)[p + 1];
      NameAt(Label, Cut(q, p), p);
    }
  }

  // ---- in place

  class Node {
    const key: Key
    var visited: bool
    var older: Node?
    var newer: Node?

    constructor (key: Key)
      ensures this.key == key && !visited && newer == null
    {
      this.key := key;
      visited, newer := false, null;
    }
  }

  function KeyOf(n: Node): Key {
    n.key
  }

  ghost predicate Shows(es: seq<Entry>, ns: seq<Node>)
    reads ns`visited
    ensures Shows(es, ns) ==> |es| == |ns|
  {
    |es| == |ns| && forall i :: 0 <= i < |ns| ==> es[i] == Entry(ns[i].key, ns[i].visited)
  }

  lemma {:induction false} ShowsCut(es: seq<Entry>, ns: seq<Node>, i: nat)
    requires Shows(es, ns) && i < |ns|
    ensures Shows(Cut(es, i), Cut(ns, i))
  {
  }

  function First(ns: seq<Node>): Node? {
    if ns == [] then null else ns[0]
  }

  function Final(ns: seq<Node>): Node? {
    if ns == [] then null else ns[|ns| - 1]
  }

  ghost predicate OlderLinked(ns: seq<Node>)
    reads ns`older
  {
    forall i {:trigger ns[i].older} :: 0 <= i < |ns| ==> ns[i].older == if i == 0 then null else ns[i - 1]
  }

  ghost predicate NewerLinked(ns: seq<Node>)
    reads ns`newer
  {
    forall i {:trigger ns[i].newer} :: 0 <= i < |ns| ==>
      ns[i].newer == if i + 1 == |ns| then null else ns[i + 1]
  }

  class SIEVE {
    var items: map<Key, Node>
    var head: Node?  // newest
    var tail: Node?  // oldest
    var hand: Node?  // where the next sweep starts; null for the oldest
    ghost var nodes: seq<Node>  // oldest first
    ghost var entries: seq<Entry>  // what the nodes hold

    ghost predicate Linked()
      reads `head, `tail, `nodes, nodes`older, nodes`newer
      ensures Linked() ==> Distinct(nodes)
    {
      && Distinct(nodes) && tail == First(nodes) && head == Final(nodes)
      && OlderLinked(nodes) && NewerLinked(nodes)
    }

    ghost predicate Shown()
      reads `nodes, `entries, nodes`visited
    {
      Shows(entries, nodes)
    }

    /** The hand is null or rests on a node that is linked now. */
    ghost predicate Valid()
      reads this, nodes
    {
      Linked() && Shown() && Indexed(KeyOf, items, nodes) && (hand != null ==> hand in nodes)
    }

    ghost function Value(): Sieve
      reads `hand, `entries
    {
      Sieve(entries, if hand == null then None else Some(hand.key))
    }

    lemma {:induction false} EntryKeys()
      requires Shown()
      ensures Keys(entries) == Names(KeyOf, nodes)
    {
    }

    constructor ()
      ensures Valid() && Value() == Sieve([], None) && nodes == []
    {
      items, head, tail, hand, nodes, entries := map[], null, null, null, [], [];
    }

    method SetVisited(n: Node, visited: bool, ghost i: nat)
      requires Distinct(nodes) && Shown() && i < |nodes| && nodes[i] == n
      modifies n`visited, `entries
      ensures Shown() && entries == old(entries)[i := Entry(n.key, visited)]
    {
      n.visited := visited;
      entries := entries[i := Entry(n.key, visited)];
    }

    method OnHit(key: Key)
      requires Valid()
      modifies `entries, nodes`visited
      ensures Valid() && Value() == Marked(old(Value()), key)
    {
      hide Indexed, Names, Linked, Distinct;
      IndexedNames(KeyOf, items, nodes);
      EntryKeys();
      if key in items {
        ghost var i := Find(KeyOf, items, nodes, key);
        NameAt(KeyOf, nodes, i);
        SetVisited(items[key], true, i);
      }
    }

    method CanAdmit(key: Key, size: nat) returns (ok: bool)
      ensures ok
    {
      ok := true;
    }

    /** Links `n` behind the newest node and moves nothing else. */
    method PushNewest(n: Node)
      requires Linked() && n !in nodes && n.newer == null
      modifies `head, `tail, `nodes, nodes`newer, n`older, n`newer
      ensures Linked() && nodes == old(nodes) + [n]
    {
      n.newer, n.older := null, head;
      if head != null {
        head.newer := n;
      }
      head := n;
      if tail == null {
        tail := n;
      }
      nodes := nodes + [n];
    }

    method OnAdmit(key: Key)
      requires Valid()
      modifies this, nodes
      ensures Valid() && (forall n :: n in nodes ==> n in old(nodes) || fresh(n))
      ensures Value() == Admitted(old(Value()), key)
    {
      hide Indexed, Names, Linked, Distinct;
      IndexedNames(KeyOf, items, nodes);
      EntryKeys();
      if key in items {
        return;
      }
      var n := new Node(key);
      AdmitNode(n);
    }

    method AdmitNode(n: Node)
      requires Valid() && n.key !in items && !n.visited && n.newer == null
      modifies `items, `head, `tail, `nodes, `entries, nodes`newer, n`older, n`newer
      ensures Valid() && nodes == old(nodes) + [n]
      ensures entries == old(entries) + [Entry(n.key, false)] && hand == old(hand)
    {
      hide Indexed, Linked, Distinct;
      IndexedAppend(KeyOf, items, nodes, n);
      items := items[n.key := n];
      PushNewest(n);
      entries := entries + [Entry(n.key, false)];
    }

    /** Walks toward the newest, clearing the bits it passes, to the first clear one. */
    method WalkToClear(start: Node, ghost i: nat) returns (n: Node, ghost p: nat)
      requires Linked() && Shown() && i < |nodes| && nodes[i] == start
      modifies `entries, nodes`visited
      ensures Linked() && Shown() && p < |nodes| && n == nodes[p]
      ensures (entries, p) == Sweep(old(entries), i)
    {
      n, p := start, i;
      while n.visited
        invariant Linked() && Shown() && p < |nodes| && n == nodes[p]
        invariant Sweep(entries, p) == Sweep(old(entries), i)
        decreases Visited(entries)
      {
        SetBit(entries, p, Entry(n.key, false));
        SetVisited(n, false, p);
        p := Next(entries, p);
        n := if n.newer == null then tail else n.newer;
      }
    }

    /** Only bits and the hand change: the queue still lists the victim. */
    method Evict() returns (victim: Option<Key>)
      requires Valid()
      modifies `hand, `entries, nodes`visited
      ensures Valid() && (Value(), victim) == Evicted(old(Value()))
    {
      hide Indexed, Linked, Distinct, Sweep, Start, Shows;
      EmptyTogether();
      if |items| == 0 {
        return None;
      }
      ghost var i := StartAt();
      var start := if hand == null then tail else hand;
      var n, p := WalkToClear(start, i);
      HandNext(n, p);
      hand := n.newer;
      victim := Some(n.key);
    }

    lemma {:induction false} EmptyTogether()
      requires Valid()
      ensures |items| == 0 <==> entries == []
    {
      if nodes != [] {
        assert nodes[0].key in items;
      }
    }

    lemma {:induction false} HandNext(n: Node, p: nat)
      requires Linked() && Shown() && p < |nodes| && nodes[p] == n
      ensures n.newer != null ==> n.newer in nodes
      ensures Newer(entries, p) == if n.newer == null then None else Some(n.newer.key)
      ensures entries[p].key == n.key
    {
    }

    lemma {:induction false} StartAt() returns (p: nat)
      requires Valid() && |items| > 0
      ensures p == Start(Value()) < |nodes|
      ensures nodes[p] == if hand == null then tail else hand
    {
      IndexedNames(KeyOf, items, nodes);
      EntryKeys();
      var k :| k in items;
      assert items[k] in nodes;
      p := Start(Value());
      if hand != null {
        var i := Find(KeyOf, items, nodes, hand.key);
        NameAt(KeyOf, nodes, i);
      }
    }

    /** Takes `n` out of the links toward the newest. */
    method SkipNewer(n: Node, ghost i: nat)
      requires Distinct(nodes) && NewerLinked(nodes) && OlderLinked(nodes) && i < |nodes| && nodes[i] == n
      requires tail == First(nodes)
      modifies `tail, nodes`newer
      ensures NewerLinked(Cut(nodes, i)) && tail == First(Cut(nodes, i))
      ensures n.newer == (if i + 1 < |nodes| then nodes[i + 1] else null)
    {
      if n.older != null {
        ApartFrom(nodes, i - 1);
        n.older.newer := n.newer;
      } else {
        tail := n.newer;
      }
    }

    /** Takes `n` out of the links toward the oldest. */
    method SkipOlder(n: Node, ghost i: nat)
      requires Distinct(nodes) && OlderLinked(nodes) && i < |nodes| && nodes[i] == n
      requires n.newer == (if i + 1 < |nodes| then nodes[i + 1] else null)
      requires head == Final(nodes) && NewerLinked(Cut(nodes, i))
      modifies `head, nodes`older
      ensures OlderLinked(Cut(nodes, i)) && NewerLinked(Cut(nodes, i)) && head == Final(Cut(nodes, i))
    {
      if n.newer != null {
        ApartFrom(nodes, i + 1);
        n.newer.older := n.older;
      } else {
        head := n.older;
      }
    }

    method Unlink(n: Node, ghost i: nat)
      requires Linked() && i < |nodes| && nodes[i] == n
      modifies `head, `tail, `nodes, nodes`older, nodes`newer
      ensures Linked() && nodes == Cut(old(nodes), i)
      ensures forall m :: m in nodes ==> m in old(nodes)
    {
      hide Distinct, Cut, First, Final, OlderLinked, NewerLinked;
      CutDistinct(nodes, i);
      CutWithin(nodes, i);
      SkipNewer(n, i);
      SkipOlder(n, i);
      nodes := Cut(nodes, i);
    }

    method Detach(n: Node, ghost i: nat)
      requires Linked() && Shown() && i < |nodes| && nodes[i] == n
      modifies `head, `tail, `nodes, `entries, nodes`older, nodes`newer
      ensures Linked() && Shown() && nodes == Cut(old(nodes), i) && entries == Cut(old(entries), i)
      ensures forall m :: m in nodes ==> m in old(nodes)
    {
      hide Linked, Shows, Distinct, Cut;
      Unlink(n, i);
      ShowsCut(entries, old(nodes), i);
      entries := Cut(entries, i);
    }

    /** Keeps the hand on a node that stays: off `n`, to its newer neighbour if any. */
    method StepHand(n: Node, ghost i: nat)
      requires Valid() && i < |nodes| && nodes[i] == n
      modifies `hand
      ensures hand != null ==> hand in Cut(nodes, i)
      ensures Value() == Sieve(entries,
                if old(Value().hand) == Some(n.key) then Newer(entries, i) else old(Value().hand))
    {
      assert hand == n <==> Value().hand == Some(n.key);
      if hand == n {
        hand := n.newer;
      }
      if hand != null {
        ghost var j :| 0 <= j < |nodes| && nodes[j] == hand;
        CutMember(nodes, i, hand);
      }
    }

    method OnRemove(key: Key)
      requires Valid()
      modifies this, nodes
      ensures Valid() && (forall n :: n in nodes ==> n in old(nodes))
      ensures Value() == Removed(old(Value()), key)
    {
      hide Indexed, Names, Linked, Shows, Distinct, Removed, Cut;
      IndexedNames(KeyOf, items, nodes);
      EntryKeys();
      RemovedAbsent(Value(), key);
      if key !in items {
        return;
      }
      var n := items[key];
      ghost var i := Find(KeyOf, items, nodes, key);
      RemovedAt(Value(), i);
      StepHand(n, i);
      Forget(n, i);
    }

    /** Drops a node the hand does not rest on from list and index. */
    method Forget(n: Node, ghost i: nat)
      requires Linked() && Shown() && Indexed(KeyOf, items, nodes) && i < |nodes| && nodes[i] == n
      requires hand != null ==> hand in Cut(nodes, i)
      modifies `items, `head, `tail, `nodes, `entries, nodes`older, nodes`newer
      ensures Valid() && hand == old(hand) && entries == Cut(old(entries), i)
      ensures forall m :: m in nodes ==> m in old(nodes)
    {
      hide Indexed, Linked, Shows, Distinct, Cut;
      IndexedCut(KeyOf, items, nodes, i);
      Detach(n, i);
      items := items - {n.key};
    }
  }
}
