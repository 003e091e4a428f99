/** One key requested at two sizes is enough for a larger LRU cache to miss more. */
module LruLimits {
  import opened Base
  import opened CacheSpec
  import opened Policies
  import opened LruPolicy

  /** What a cache under LRU holds, and how often it has missed. */
  ghost predicate Holds(
    c: State<PolState>, capacity: int, data: map<Key, nat>, used: int, order: seq<Key>, misses: nat)
  {
    && c.capacity == capacity && c.data == data && c.used == used && c.pol == Lru(order)
    && c.stats.misses == misses
  }

  lemma {:induction false} HitHolds(c: State<PolState>, k: Key, size: nat)
    requires c.pol.Lru? && k in c.data && k in c.pol.order
    ensures Holds(Access(Ops(), c, k, size), c.capacity, c.data, c.used, ToFront(c.pol.order, k), c.stats.misses)
  {
    assert Ops().onHit(c.pol, k) == Lru(Touched(c.pol.order, k));
  }

  lemma {:induction false} AdmitHolds(c: State<PolState>, k: Key, size: nat)
    requires c.pol.Lru? && k !in c.pol.order
    ensures Holds(CacheSpec.Admit(Ops(), c, k, size), c.capacity, c.data[k := size], c.used + size,
                  [k] + c.pol.order, c.stats.misses)
  {
    WithoutAbsent(c.pol.order, k);
    assert Ops().onAdmit(c.pol, k, size) == Lru(ToFront(c.pol.order, k));
  }

  /** A miss that fits, and one that fits once the least recent object, `v`, is gone. */
  lemma {:induction false} MissHolds(c: State<PolState>, k: Key, size: nat)
    requires c.pol.Lru? && k !in c.data && k !in c.pol.order && c.used + size <= c.capacity && c.used >= 0
    ensures Holds(Access(Ops(), c, k, size), c.capacity, c.data[k := size], c.used + size,
                  [k] + c.pol.order, c.stats.misses + 1)
  {
    var d := c.(stats := CountMiss(c.stats, size));
    assert Ops().canAdmit(d.pol, k, size) == (d.pol, true);
    assert d.(pol := d.pol) == d;
    hide CacheSpec.Admit;
    AdmitHolds(d, k, size);
  }

  lemma {:induction false} MissEvicts(c: State<PolState>, k: Key, size: nat, v: Key, kept: seq<Key>)
    requires c.pol == Lru(kept + [v]) && v !in kept && v in c.data
    requires k !in c.data && k !in kept && k != v
    requires size <= c.capacity && c.used + size > c.capacity && c.used - c.data[v] + size <= c.capacity
    ensures Holds(Access(Ops(), c, k, size), c.capacity, (c.data - {v})[k := size],
                  c.used - c.data[v] + size, [k] + kept, c.stats.misses + 1)
  {
    var d := c.(stats := CountMiss(c.stats, size));
    assert Ops().canAdmit(d.pol, k, size) == (d.pol, true);
    assert d.(pol := d.pol) == d;
    var e := EvictOne(Ops(), d, v);
    assert e.pol == Lru(kept) by {
      LastWithout(kept, v);
      assert Ops().onRemove(d.pol, v) == Lru(Without(kept + [v], v));
    }
    hide CacheSpec.Admit;
    assert Ops().evict(d.pol) == (d.pol, Some(v));
    EvictsJust(d, v, size, |c.data| + SPARE_BUDGET);
    AdmitHolds(e, k, size);
  }

  lemma {:induction false} LastWithout(kept: seq<Key>, v: Key)
    requires v !in kept
    ensures Without(kept + [v], v) == kept
  {
    assert (kept + [v])[|kept|] == v;
    assert IndexOf(kept + [v], v) == |kept|;
    assert Cut(kept + [v], |kept|) == kept;
  }

  lemma {:induction false} EvictsJust(c: State<PolState>, v: Key, need: nat, budget: nat)
    requires Ops().evict(c.pol) == (c.pol, Some(v)) && budget >= 1 && c.used + need > c.capacity
    requires EvictOne(Ops(), c, v).used + need <= EvictOne(Ops(), c, v).capacity
    ensures EvictToFit(Ops(), c, need, budget) == EvictOne(Ops(), c, v)
  {
    hide EvictOne, Ops;
    assert c.(pol := c.pol) == c;
    assert EvictToFit(Ops(), EvictOne(Ops(), c, v), need, budget - 1) == EvictOne(Ops(), c, v);
  }

  /** One key requested first at three bytes and then at one. The larger cache keeps the
      copy it has; the smaller lost it, and reads it back at its new size. */
  ghost function Shrinking(a: Key, b: Key, c: Key): seq<Event> {
    [Request(a, 3), Request(b, 1), Request(a, 1), Request(c, 1), Request(b, 1), Request(a, 1)]
  }

  lemma {:induction false} Served(s: State<PolState>, es: seq<Event>, i: nat)
    requires i < |es| && es[i].Request?
    ensures After(Ops(), s, es, i + 1) == Access(Ops(), After(Ops(), s, es, i), es[i].key, es[i].size)
    ensures After(Ops(), s, es, 0) == s
  {
    hide Access;
  }

  lemma {:induction false} SmallerHolds(a: Key, b: Key, c: Key)
    requires a != b && b != c && a != c
    ensures Holds(After(Ops(), Cold(3, Lru([])), Shrinking(a, b, c), 4),
                  3, map[a := 1, b := 1, c := 1], 3, [c, a, b], 4)
  {
    var es, s := Shrinking(a, b, c), Cold(3, Lru([]));
    hide Access, After;
    Served(s, es, 0);
    Served(s, es, 1);
    Served(s, es, 2);
    Served(s, es, 3);
    MissHolds(s, a, 3);
    var s1 := After(Ops(), s, es, 1);
    assert s1.pol.order == [a] == [] + [a];
    MissEvicts(s1, b, 1, a, []);
    var s2 := After(Ops(), s, es, 2);
    assert s2.data == map[b := 1] && s2.pol.order == [b];
    MissHolds(s2, a, 1);
    var s3 := After(Ops(), s, es, 3);
    assert s3.pol.order == [a, b];
    MissHolds(s3, c, 1);
    assert s3.data[c := 1] == map[a := 1, b := 1, c := 1];
  }

  lemma {:induction false} LargerHolds(a: Key, b: Key, c: Key)
    requires a != b && b != c && a != c
    ensures Holds(After(Ops(), Cold(4, Lru([])), Shrinking(a, b, c), 4), 4, map[a := 3, c := 1], 4, [c, a], 3)
  {
    var es, s := Shrinking(a, b, c), Cold(4, Lru([]));
    hide Access, After;
    Served(s, es, 0);
    Served(s, es, 1);
    Served(s, es, 2);
    Served(s, es, 3);
    MissHolds(s, a, 3);
    var s1 := After(Ops(), s, es, 1);
    MissHolds(s1, b, 1);
    var s2 := After(Ops(), s, es, 2);
    assert s2.pol.order == [b, a];
    HitHolds(s2, a, 1);
    var s3 := After(Ops(), s, es, 3);
    assert s3.pol.order == [a, b] == [a] + [b] by {
      assert IndexOf([b, a], a) == 1;
    }
    MissEvicts(s3, c, 1, b, [a]);
    assert (s3.data - {b})[c := 1] == map[a := 3, c := 1];
  }

  lemma {:induction false} SmallerEnds(a: Key, b: Key, c: Key)
    requires a != b && b != c && a != c
    ensures After(Ops(), Cold(3, Lru([])), Shrinking(a, b, c), 6).stats.misses == 4
  {
    var es, s := Shrinking(a, b, c), Cold(3, Lru([]));
    hide Access, After, ToFront;
    SmallerHolds(a, b, c);
    Served(s, es, 4);
    Served(s, es, 5);
    HitHolds(After(Ops(), s, es, 4), b, 1);
    var s5 := After(Ops(), s, es, 5);
    assert a in s5.pol.order by {
      FrontKeeps([c, a, b], b, a);
    }
    HitHolds(s5, a, 1);
  }

  lemma {:induction false} FrontKeeps(o: seq<Key>, k: Key, j: Key)
    requires j in o && Distinct(o)
    ensures j in ToFront(o, k)
  {
    MovedKeeps(o, k);
    assert j in Elements(o) && j in Elements(ToFront(o, k));
  }

  lemma {:induction false} LargerEnds(a: Key, b: Key, c: Key)
    requires a != b && b != c && a != c
    ensures After(Ops(), Cold(4, Lru([])), Shrinking(a, b, c), 6).stats.misses == 5
  {
    var es, s := Shrinking(a, b, c), Cold(4, Lru([]));
    hide Access, After;
    LargerHolds(a, b, c);
    Served(s, es, 4);
    Served(s, es, 5);
    var s4 := After(Ops(), s, es, 4);
    assert s4.pol.order == [c] + [a];
    MissEvicts(s4, b, 1, a, [c]);
    var s5 := After(Ops(), s, es, 5);
    assert s5.pol.order == [b, c];
    MissHolds(s5, a, 1);
  }

  /** After four requests the smaller cache holds an object the larger does not, and after
      six the larger has missed once more. */
  lemma {:induction false} ChangingSizesRaiseMisses(a: Key, b: Key, c: Key)
    requires a != b && b != c && a != c
    ensures var smaller, larger := Cold(3, Lru([])), Cold(4, Lru([])); var es := Shrinking(a, b, c);
            && b in After(Ops(), smaller, es, 4).data && b !in After(Ops(), larger, es, 4).data
            && After(Ops(), smaller, es, 6).stats.misses == 4
            && After(Ops(), larger, es, 6).stats.misses == 5
  {
    hide After;
    SmallerHolds(a, b, c);
    LargerHolds(a, b, c);
    SmallerEnds(a, b, c);
    LargerEnds(a, b, c);
  }
}
