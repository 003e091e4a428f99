/** What caching is when every object is one byte: capacity counts objects. */
module UnitSize {
  import opened Base
  import opened CacheSpec
  import opened AnyPolicy
  import opened Optimality

  /** Every resident is one byte. */
  ghost predicate Units(d: map<Key, nat>) {
    forall k :: k in d ==> d[k] == 1
  }

  lemma {:induction false} UnitBytes(d: map<Key, nat>)
    requires Units(d)
    ensures Bytes(d) == |d| == |d.Keys|
    decreases |d|
  {
    if d != map[] {
      var k :| k in d;
      assert (d - {k}).Keys == d.Keys - {k};
      BytesRemove(d, k);
      UnitBytes(d - {k});
    }
  }

  /** A rejection is exactly a request that leaves its key absent. */
  lemma {:induction false} RejectedIsAbsent<P>(ops: Policy<P>, c: State<P>, k: Key, size: nat)
    requires c.used == Bytes(c.data)
    ensures var r := Access(ops, c, k, size);
            r.stats.rejections == c.stats.rejections + (if k in r.data then 0 else 1)
  {
    if k !in c.data && size <= c.capacity {
      var d := c.(stats := CountMiss(c.stats, size));
      var (p, ok) := ops.canAdmit(c.pol, k, size);
      if ok {
        EvictToFitEvicts(ops, d.(pol := p), size, |c.data| + SPARE_BUDGET);
      }
    }
  }

  /** Nothing but requests, of one byte each. */
  ghost predicate UnitRequests(es: seq<Event>) {
    forall j :: 0 <= j < |es| ==> !es[j].Delete? && es[j].size == 1
  }

  /** The unit-size requests of a trace. */
  ghost predicate UnitTrace(es: seq<Event>, ks: seq<Key>)
    ensures UnitTrace(es, ks) ==> |es| == |ks|
  {
    UnitRequests(es) && |es| == |ks| && forall j :: 0 <= j < |es| ==> es[j].key == ks[j]
  }

  /** A unit-size request, to a cache under any policy: a rival schedule's step, if it is
      admitted, and otherwise no more than a step without its key. */
  lemma {:induction false} UnitStep<P>(ops: Policy<P>, c: State<P>, e: Event)
    requires Sound(c) && Units(c.data) && !e.Delete? && e.size == 1
    ensures var r := Step(ops, c, e);
            && Sound(r) && Units(r.data) && r.capacity == c.capacity
            && r.data.Keys <= c.data.Keys + {e.key} && |r.data.Keys| <= c.capacity
            && r.stats.misses == c.stats.misses + Miss(e.key, c.data.Keys)
            && r.stats.rejections == c.stats.rejections + (if e.key in r.data then 0 else 1)
  {
    StepAccounts(ops, c, e);
    hide Access;
    UnitAccess(ops, if e.Request? then c else c.(pol := ops.onNext(c.pol, e.key, e.next)), e.key);
    UnitBytes(Step(ops, c, e).data);
  }

  lemma {:induction false} UnitAccess<P>(ops: Policy<P>, c: State<P>, k: Key)
    requires Sound(c) && Units(c.data)
    ensures var r := Access(ops, c, k, 1);
            Units(r.data) && r.stats.rejections == c.stats.rejections + (if k in r.data then 0 else 1)
  {
    RejectedIsAbsent(ops, c, k, 1);
    if k !in c.data {
      var d := c.(stats := CountMiss(c.stats, 1));
      InsertInserts(ops, d, k, 1);
      hide Insert;
      assert Inserted(d, Insert(ops, d, k, 1), k, 1);
    }
  }

  lemma {:induction false} UnitRun<P>(ops: Policy<P>, c: State<P>, es: seq<Event>, ks: seq<Key>, i: nat)
    requires Sound(c) && Units(c.data) && UnitTrace(es, ks) && i <= |es|
    ensures var r := After(ops, c, es, i);
            && Sound(r) && Units(r.data) && r.capacity == c.capacity
            && |r.data.Keys| <= c.capacity && r.stats.rejections >= c.stats.rejections
  {
    hide Step;
    UnitBytes(After(ops, c, es, 0).data);
    if i > 0 {
      UnitRun(ops, c, es, ks, i - 1);
      UnitStep(ops, After(ops, c, es, i - 1), es[i - 1]);
    }
  }
}
