/** FIFO over whole runs: what is resident is always the tail of what was admitted. */
module FifoTheorems {
  import opened Base
  import opened CacheSpec
  import opened AnyPolicy
  import opened Policies
  import opened Agreement

  /** Every object admitted by the first `i` events, in order, once per admission. */
  ghost function Arrivals<P>(ops: Policy<P>, c: State<P>, es: seq<Event>, i: nat): seq<Key>
    requires i <= |es|
  {
    if i == 0 then []
    else
      Arrivals(ops, c, es, i - 1) +
      Arrived(After(ops, c, es, i - 1), es[i - 1], After(ops, c, es, i))
  }

  ghost function Arrived<P>(c: State<P>, e: Event, r: State<P>): seq<Key> {
    if !e.Delete? && e.key !in c.data && e.key in r.data then [e.key] else []
  }

  /** What one eviction after another does to a queue: its front goes. */
  ghost predicate Advanced(c: State<PolState>, r: State<PolState>, tail: seq<Key>) {
    && c.pol.Fifo? && r.pol.Fifo? && c.stats.evictions <= r.stats.evictions
    && r.stats.evictions - c.stats.evictions <= |c.pol.queue|
    && r.pol.queue == c.pol.queue[r.stats.evictions - c.stats.evictions..] + tail
  }

  lemma {:induction false} HeadOut(c: State<PolState>, k: Key)
    requires c.pol.Fifo? && c.used == Bytes(c.data) > 0 && Ready(c.pol, c.data, k)
    ensures Evict(c.pol).1.Some? && Advanced(c, AfterEviction(c), [])
    ensures AfterEviction(c).stats.evictions == c.stats.evictions + 1
  {
    hide Bytes, Ready, AfterEviction;
    OneEviction(c, k);
    VictimIsHead(c);
  }

  lemma {:induction false} VictimIsHead(c: State<PolState>)
    requires c.pol.Fifo? && Evict(c.pol).1.Some?
    ensures c.pol.queue != [] && AfterEviction(c).pol == Fifo(c.pol.queue[1..])
  {
    var q := c.pol.queue;
    assert Without(q, q[0]) == q[1..] by {
      assert IndexOf(q, q[0]) == 0;
    }
    assert Ops().onRemove(c.pol, q[0]) == Fifo(Without(q, q[0]));
  }

  lemma {:induction false} RoomAdvances(c: State<PolState>, k: Key, need: nat, budget: nat)
    requires c.pol.Fifo? && c.used == Bytes(c.data) && Ready(c.pol, c.data, k)
    requires need <= c.capacity && |c.data| <= budget
    ensures Advanced(c, EvictToFit(Ops(), c, need, budget), [])
    decreases budget
  {
    hide Evict, AfterEviction, EvictToFit, Ready, Bytes;
    EvictToFitStep(c, need, budget);
    if c.used + need > c.capacity {
      OneEviction(c, k);
      HeadOut(c, k);
      RoomAdvances(AfterEviction(c), k, need, budget - 1);
    }
  }

  lemma {:induction false} InsertAdvances(c: State<PolState>, k: Key, size: nat)
    requires c.pol.Fifo? && c.used == Bytes(c.data) && Agrees(c.pol, c.data) && k !in c.data
    ensures var r := Insert(Ops(), c, k, size); Advanced(c, r, if k in r.data then [k] else [])
  {
    if size <= c.capacity {
      assert Ready(c.pol, c.data, k);
      assert CanAdmit(c.pol, k, size) == (c.pol, true);
      hide Insert, EvictToFit, Ready, Agrees, Advanced, CacheSpec.Admit;
      InsertForm(c, k, size);
      assert c.(pol := c.pol) == c;
      RoomAdvances(c, k, size, |c.data| + SPARE_BUDGET);
      AdmitAppends(c, Roomy(c, k, size), k, size);
    }
  }

  lemma {:induction false} AdmitAppends(c: State<PolState>, d: State<PolState>, k: Key, size: nat)
    requires Advanced(c, d, []) && Ready(d.pol, d.data, k)
    ensures var r := CacheSpec.Admit(Ops(), d, k, size); k in r.data && Advanced(c, r, [k])
  {
    assert k !in Elements(d.pol.queue);
  }

  lemma {:induction false} StepAdvances(c: State<PolState>, e: Event)
    requires Healthy(c) && c.pol.Fifo? && !e.Delete?
    ensures var r := Step(Ops(), c, e); Advanced(c, r, Arrived(c, e, r))
  {
    hide Insert, Agrees, Bytes, CanAdmit, Evict, Drop;
    assert Ops().onHit(c.pol, e.key) == c.pol;
    assert e.OracleRequest? ==> Ops().onNext(c.pol, e.key, e.next) == c.pol;
    assert c.(pol := c.pol) == c;
    if e.key !in c.data {
      InsertAdvances(c.(stats := CountMiss(c.stats, e.size)), e.key, e.size);
    }
  }

  lemma {:induction false} AdvancedTail(h: seq<Key>, c: State<PolState>, r: State<PolState>, tail: seq<Key>)
    requires Advanced(c, r, tail) && c.stats.evictions <= |h| && c.pol.queue == h[c.stats.evictions..]
    ensures r.stats.evictions <= |h + tail| && r.pol.queue == (h + tail)[r.stats.evictions..]
  {
  }

  /** With no explicit deletes the queue is always a suffix of the admission history: what
      is left after the evictions so far, each of which took the oldest arrival. */
  lemma {:induction false} ResidentsAreLatestArrivals(capacity: nat, es: seq<Event>, i: nat)
    requires i <= |es| && forall j :: 0 <= j < |es| ==> !es[j].Delete?
    ensures var c := Cold(capacity, Fifo([])); var r := After(Ops(), c, es, i);
            var h := Arrivals(Ops(), c, es, i);
            && r.pol.Fifo? && r.stats.evictions <= |h| && r.pol.queue == h[r.stats.evictions..]
            && r.data.Keys == Elements(h[r.stats.evictions..])
  {
    hide Step, Advanced, Sound, Arrived;
    var c := Cold(capacity, Fifo([]));
    ColdIsHealthy(capacity, Fifo([]));
    RunIsHealthy(c, es, i);
    if i > 0 {
      ResidentsAreLatestArrivals(capacity, es, i - 1);
      RunIsHealthy(c, es, i - 1);
      var b, r := After(Ops(), c, es, i - 1), After(Ops(), c, es, i);
      StepAdvances(b, es[i - 1]);
      AdvancedIsFifo(b, r, Arrived(b, es[i - 1], r));
      AdvancedTail(Arrivals(Ops(), c, es, i - 1), b, r, Arrived(b, es[i - 1], r));
    }
  }

  lemma {:induction false} AdvancedIsFifo(c: State<PolState>, r: State<PolState>, tail: seq<Key>)
    requires Advanced(c, r, tail)
    ensures r.pol.Fifo?
  {
  }
}
