/** LRU is a stack policy: inclusion across capacities, with objects of any size. */
module LruTheorems {
  import opened Base
  import opened CacheSpec
  import opened AnyPolicy
  import opened Policies
  import opened Agreement
  import opened LruPolicy

  // ---- one request, in closed form

  /** The bytes of `order` when key `k` is `w(k)` bytes. */
  ghost function Weight(order: seq<Key>, w: Key -> nat): nat {
    if order == [] then 0 else Weight(order[..|order| - 1], w) + w(order[|order| - 1])
  }

  /** How long a prefix of `order` fits in `room`. */
  ghost function Fit(order: seq<Key>, w: Key -> nat, room: int): (m: nat)
    ensures m <= |order|
  {
    if order == [] || Weight(order, w) <= room then |order| else Fit(order[..|order| - 1], w, room)
  }

  /** Recency order after a request: the key comes first, over the longest prefix that
      leaves room for it. */
  ghost function Next(order: seq<Key>, k: Key, w: Key -> nat, capacity: int): seq<Key> {
    if k in order then ToFront(order, k)
    else if w(k) > capacity then order
    else [k] + order[..Fit(order, w, capacity - w(k))]
  }

  lemma {:induction false} WeightIsBytes(order: seq<Key>, w: Key -> nat, d: map<Key, nat>)
    requires Distinct(order) && Elements(order) == d.Keys && forall k :: k in d ==> d[k] == w(k)
    ensures Weight(order, w) == Bytes(d)
  {
    if order == [] {
      assert d == map[];
    } else {
      var last := |order| - 1;
      var k := order[last];
      assert order == order[..last] + [k];
      assert Elements(order[..last]) == (d - {k}).Keys;
      WeightIsBytes(order[..last], w, d - {k});
      assert k in Elements(order);
      BytesRemove(d, k);
    }
  }

  lemma {:induction false} FitFits(order: seq<Key>, w: Key -> nat, room: int)
    requires room >= 0
    ensures Weight(order[..Fit(order, w, room)], w) <= room
  {
    assert order[..|order|] == order;
    if !(order == [] || Weight(order, w) <= room) {
      var init := order[..|order| - 1];
      FitFits(init, w, room);
      assert init[..Fit(init, w, room)] == order[..Fit(init, w, room)];
    }
  }

  lemma {:induction false} FitIsLongest(order: seq<Key>, w: Key -> nat, room: int, m: nat)
    requires m <= |order| && Weight(order[..m], w) <= room
    ensures m <= Fit(order, w, room)
  {
    if order != [] && Weight(order, w) > room {
      assert order[..|order|] == order;
      var init := order[..|order| - 1];
      assert init[..m] == order[..m];
      FitIsLongest(init, w, room, m);
    }
  }

  ghost predicate SizedBy(c: State<PolState>, w: Key -> nat) {
    c.pol.Lru? && forall k :: k in c.data ==> c.data[k] == w(k)
  }

  lemma {:induction false} LastOut(c: State<PolState>, w: Key -> nat, k: Key)
    requires SizedBy(c, w) && c.used == Bytes(c.data) > 0 && Ready(c.pol, c.data, k)
    ensures c.pol.order != [] && Evict(c.pol).1.Some?
    ensures AfterEviction(c).pol == Lru(c.pol.order[..|c.pol.order| - 1])
    ensures SizedBy(AfterEviction(c), w)
  {
    ReadyMeans(c.pol, c.data, k);
    hide Bytes, Ready, AfterEviction;
    OneEviction(c, k);
    VictimIsLast(c);
  }

  lemma {:induction false} VictimIsLast(c: State<PolState>)
    requires c.pol.Lru? && Evict(c.pol).1.Some? && Distinct(c.pol.order)
    ensures c.pol.order != []
    ensures AfterEviction(c).pol == Lru(c.pol.order[..|c.pol.order| - 1])
  {
    var o := c.pol.order;
    IndexOfAt(o, |o| - 1);
    assert Cut(o, |o| - 1) == o[..|o| - 1];
    assert Ops().onRemove(c.pol, o[|o| - 1]) == Lru(Without(o, o[|o| - 1]));
  }

  lemma {:induction false} ResidentWeight(c: State<PolState>, w: Key -> nat, k: Key)
    requires SizedBy(c, w) && Ready(c.pol, c.data, k)
    ensures c.pol.Lru? && Weight(c.pol.order, w) == Bytes(c.data)
  {
    WeightIsBytes(c.pol.order, w, c.data);
  }

  /** Making room keeps exactly the longest prefix of the recency order that fits. */
  lemma {:induction false} RoomIsPrefix(c: State<PolState>, w: Key -> nat, k: Key, need: nat, budget: nat)
    requires SizedBy(c, w) && c.used == Bytes(c.data) && Ready(c.pol, c.data, k)
    requires need <= c.capacity && |c.data| <= budget
    ensures var r := EvictToFit(Ops(), c, need, budget); var o := c.pol.order;
            SizedBy(r, w) && r.pol == Lru(o[..Fit(o, w, c.capacity - need)])
    decreases budget
  {
    hide Evict, AfterEviction, EvictToFit, Ready, Bytes, SizedBy, Weight;
    ResidentWeight(c, w, k);
    var o := c.pol.order;
    assert o[..|o|] == o;
    EvictToFitStep(c, need, budget);
    if c.used + need > c.capacity {
      OneEviction(c, k);
      LastOut(c, w, k);
      var d := AfterEviction(c);
      RoomIsPrefix(d, w, k, need, budget - 1);
      assert o != [];
      var m := Fit(d.pol.order, w, c.capacity - need);
      assert d.pol.order[..m] == o[..m];
    }
  }

  /** One LRU request in closed form. */
  lemma {:induction false} AccessIsNext(c: State<PolState>, w: Key -> nat, k: Key)
    requires Healthy(c) && SizedBy(c, w)
    ensures var r := Access(Ops(), c, k, w(k));
            && Healthy(r) && SizedBy(r, w) && r.capacity == c.capacity
            && r.pol.order == Next(c.pol.order, k, w, c.capacity)
            && r.stats.misses == c.stats.misses + (if k in c.pol.order then 0 else 1)
  {
    assert k in c.data <==> k in Elements(c.pol.order);
    AccessIsHealthy(c, k, w(k));
    AccessAccounts(Ops(), c, k, w(k));
    if k !in c.data {
      InsertIsNext(c.(stats := CountMiss(c.stats, w(k))), w, k);
    }
  }

  lemma {:induction false} InsertIsNext(c: State<PolState>, w: Key -> nat, k: Key)
    requires c.used == Bytes(c.data) && Agrees(c.pol, c.data) && SizedBy(c, w)
    requires k !in c.data && k !in c.pol.order
    ensures var r := Insert(Ops(), c, k, w(k));
            SizedBy(r, w) && r.pol.order == Next(c.pol.order, k, w, c.capacity)
  {
    hide Insert, Agrees, EvictToFit, Weight, Fit, Ready, Without;
    InsertTooBig(c, k, w(k));
    if w(k) <= c.capacity {
      InsertForm(c, k, w(k));
      NoWait(c, k);
      RoomIsPrefix(c, w, k, w(k), |c.data| + SPARE_BUDGET);
      var kept := c.pol.order[..Fit(c.pol.order, w, c.capacity - w(k))];
      assert c.(pol := c.pol) == c;
      var roomy := Roomy(c, k, w(k));
      assert roomy.pol == Lru(kept);
      WithoutAbsent(kept, k);
      AdmitToFront(roomy, k, w(k));
    }
  }

  lemma {:induction false} AdmitToFront(c: State<PolState>, k: Key, size: nat)
    requires c.pol.Lru?
    ensures CacheSpec.Admit(Ops(), c, k, size).pol == Lru(ToFront(c.pol.order, k))
  {
  }

  lemma {:induction false} NoWait(c: State<PolState>, k: Key)
    requires Agrees(c.pol, c.data) && c.pol.Lru? && k !in c.data
    ensures Ready(c.pol, c.data, k)
  {
  }

  ghost function NextOrder(order: seq<Key>, e: Event, w: Key -> nat, capacity: int): seq<Key> {
    if e.Delete? then Without(order, e.key) else Next(order, e.key, w, capacity)
  }

  ghost predicate LruCache(c: State<PolState>, w: Key -> nat) {
    Healthy(c) && SizedBy(c, w)
  }

  lemma {:induction false} StepIsNext(c: State<PolState>, w: Key -> nat, e: Event)
    requires LruCache(c, w) && (!e.Delete? ==> e.size == w(e.key))
    ensures var r := Step(Ops(), c, e);
            && LruCache(r, w) && r.capacity == c.capacity
            && r.pol.order == NextOrder(c.pol.order, e, w, c.capacity)
            && r.stats.misses == c.stats.misses + (if e.Delete? || e.key in c.pol.order then 0 else 1)
  {
    match e
    case Request(k, size) =>
      AccessIsNext(c, w, k);
    case OracleRequest(k, size, next) =>
      assert Ops().onNext(c.pol, k, next) == c.pol;
      assert c.(pol := c.pol) == c;
      AccessIsNext(c, w, k);
    case Delete(k) =>
      StepIsHealthy(c, e);
      assert Ops().onRemove(c.pol, k) == Lru(Without(c.pol.order, k));
  }

  // ---- inclusion

  lemma {:induction false} FitMonotone(o: seq<Key>, p: seq<Key>, w: Key -> nat, room: int, more: int)
    requires o <= p && 0 <= room <= more
    ensures Fit(o, w, room) <= Fit(p, w, more)
    ensures o[..Fit(o, w, room)] <= p[..Fit(p, w, more)]
  {
    var m := Fit(o, w, room);
    FitFits(o, w, room);
    assert o[..m] == p[..m];
    FitIsLongest(p, w, more, m);
  }

  lemma {:induction false} PrefixWithout(o: seq<Key>, p: seq<Key>, k: Key)
    requires o <= p
    ensures Without(o, k) <= Without(p, k)
  {
    var i := IndexOf(o, k);
    var j := IndexOf(p, k);
    assert forall a :: 0 <= a < |o| ==> o[a] == p[a];
    if i < |o| {
      assert j == i by {
        assert p[i] == k;
      }
    } else if j < |p| {
      assert j >= |o|;
    }
  }

  lemma {:induction false} Prepended<T>(x: T, s: seq<T>, t: seq<T>)
    requires s <= t
    ensures [x] + s <= [x] + t
  {
  }

  lemma {:induction false} PrefixTake<T>(s: seq<T>, m: nat)
    requires m <= |s|
    ensures s[..m] <= s
  {
  }

  /** One event keeps the smaller cache's recency order a prefix of the larger one's. */
  lemma {:induction false} NextKeepsPrefix(
    o: seq<Key>, p: seq<Key>, e: Event, w: Key -> nat, capacity: nat, larger: nat)
    requires o <= p && capacity <= larger
    requires e.Delete? || w(e.key) <= capacity || (w(e.key) > larger && e.key !in p) || o == []
    ensures NextOrder(o, e, w, capacity) <= NextOrder(p, e, w, larger)
  {
    hide Without, Fit;
    var k := e.key;
    PrefixWithout(o, p, k);
    PrefixElements(o, p);
    assert k in o ==> k in Elements(p);
    Prepended(k, Without(o, k), Without(p, k));
    if !e.Delete? && k !in o && w(k) <= capacity {
      var m := Fit(o, w, capacity - w(k));
      WithoutAbsent(o, k);
      PrefixTake(o, m);
      FitMonotone(o, p, w, capacity - w(k), larger - w(k));
      if k in p {
        Prepended(k, o[..m], Without(p, k));
      } else {
        Prepended(k, o[..m], p[..Fit(p, w, larger - w(k))]);
      }
    }
  }

  ghost predicate FixedSizes(es: seq<Event>, w: Key -> nat) {
    forall j :: 0 <= j < |es| && !es[j].Delete? ==> es[j].size == w(es[j].key)
  }

  /** Every requested size fits the smaller cache or neither; or none fits the smaller one. */
  ghost predicate FitsAlike(es: seq<Event>, w: Key -> nat, capacity: nat, larger: nat) {
    || (forall j :: 0 <= j < |es| && !es[j].Delete? ==> w(es[j].key) <= capacity || w(es[j].key) > larger)
    || (forall j :: 0 <= j < |es| && !es[j].Delete? ==> w(es[j].key) > capacity)
  }

  lemma {:induction false} ColdIsLru(capacity: nat, w: Key -> nat)
    ensures LruCache(Cold(capacity, Lru([])), w)
  {
    assert Elements<Key>([]) == {};
  }

  lemma {:induction false} RunIsLru(capacity: nat, w: Key -> nat, es: seq<Event>, i: nat)
    requires FixedSizes(es, w) && i <= |es|
    ensures var r := After(Ops(), Cold(capacity, Lru([])), es, i);
            LruCache(r, w) && r.capacity == capacity
  {
    hide Step, LruCache;
    ColdIsLru(capacity, w);
    if i > 0 {
      RunIsLru(capacity, w, es, i - 1);
      StepIsNext(After(Ops(), Cold(capacity, Lru([])), es, i - 1), w, es[i - 1]);
    }
  }

  lemma {:induction false} OrderIsResidents(c: State<PolState>, w: Key -> nat)
    requires LruCache(c, w)
    ensures c.pol.Lru? && Elements(c.pol.order) == c.data.Keys && Distinct(c.pol.order)
    ensures forall k :: k in c.pol.order ==> w(k) <= c.capacity
  {
    forall k | k in c.data ensures w(k) <= c.capacity {
      BytesRemove(c.data, k);
    }
    assert forall k :: k in c.pol.order ==> k in Elements(c.pol.order);
  }

  /** With nothing small enough requested, an LRU cache stays empty. */
  lemma {:induction false} NothingFits(capacity: nat, w: Key -> nat, es: seq<Event>, i: nat)
    requires FixedSizes(es, w) && i <= |es|
    requires forall j :: 0 <= j < |es| && !es[j].Delete? ==> w(es[j].key) > capacity
    ensures After(Ops(), Cold(capacity, Lru([])), es, i).pol == Lru([])
  {
    var r := After(Ops(), Cold(capacity, Lru([])), es, i);
    RunIsLru(capacity, w, es, i);
    OrderIsResidents(r, w);
    CompulsoryMisses(Ops(), capacity, Lru([]), es, i);
    hide After, LruCache;
    DistinctCardinality(r.pol.order);
    assert Elements(r.pol.order) == {};
  }

  /** What keeps one step of the run inclusive. */
  lemma {:induction false} AlikeAt(capacity: nat, larger: nat, w: Key -> nat, es: seq<Event>, i: nat)
    requires FixedSizes(es, w) && FitsAlike(es, w, capacity, larger) && i < |es|
    ensures After(Ops(), Cold(larger, Lru([])), es, i).pol.Lru?
    ensures var p := After(Ops(), Cold(larger, Lru([])), es, i).pol.order;
            es[i].Delete? || w(es[i].key) <= capacity || (w(es[i].key) > larger && es[i].key !in p)
            || After(Ops(), Cold(capacity, Lru([])), es, i).pol == Lru([])
  {
    hide Step, LruCache;
    RunIsLru(larger, w, es, i);
    OrderIsResidents(After(Ops(), Cold(larger, Lru([])), es, i), w);
    if !(forall j :: 0 <= j < |es| && !es[j].Delete? ==> w(es[j].key) <= capacity || w(es[j].key) > larger) {
      NothingFits(capacity, w, es, i);
    }
  }

  /** Stack inclusion. With one size per key, and sizes that fit the two caches alike, the
      smaller cache's recency order is always a prefix of the larger one's: its residents
      are among the larger one's, so every hit in it is a hit in the larger, and the larger
      has missed no more. */
  lemma {:induction false} LruInclusion(capacity: nat, larger: nat, w: Key -> nat, es: seq<Event>, i: nat)
    requires capacity <= larger && FixedSizes(es, w) && i <= |es|
    requires FitsAlike(es, w, capacity, larger)
    ensures var a := After(Ops(), Cold(capacity, Lru([])), es, i);
            var b := After(Ops(), Cold(larger, Lru([])), es, i);
            && a.pol.Lru? && b.pol.Lru? && a.pol.order <= b.pol.order
            && a.data.Keys <= b.data.Keys
            && b.stats.misses <= a.stats.misses
  {
    hide Step, LruCache, NextOrder, FitsAlike;
    RunIsLru(capacity, w, es, i);
    RunIsLru(larger, w, es, i);
    OrderIsResidents(After(Ops(), Cold(capacity, Lru([])), es, i), w);
    OrderIsResidents(After(Ops(), Cold(larger, Lru([])), es, i), w);
    if i > 0 {
      LruInclusion(capacity, larger, w, es, i - 1);
      RunIsLru(capacity, w, es, i - 1);
      RunIsLru(larger, w, es, i - 1);
      var a := After(Ops(), Cold(capacity, Lru([])), es, i - 1);
      var b := After(Ops(), Cold(larger, Lru([])), es, i - 1);
      StepIsNext(a, w, es[i - 1]);
      StepIsNext(b, w, es[i - 1]);
      AlikeAt(capacity, larger, w, es, i - 1);
      NextKeepsPrefix(a.pol.order, b.pol.order, es[i - 1], w, capacity, larger);
    }
    PrefixElements(After(Ops(), Cold(capacity, Lru([])), es, i).pol.order,
                   After(Ops(), Cold(larger, Lru([])), es, i).pol.order);
  }

  lemma {:induction false} PrefixElements<T>(o: seq<T>, p: seq<T>)
    requires o <= p
    ensures Elements(o) <= Elements(p)
  {
    assert forall i :: 0 <= i < |o| ==> o[i] == p[i];
  }
}
