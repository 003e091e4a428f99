/** A cache that can hold the whole working set loses nothing, under any policy that
    accepts everything. */
module WorkingSet {
  import opened Base
  import opened CacheSpec
  import opened AnyPolicy

  /** `peak` gives every requested key a size no request of it exceeds. */
  ghost predicate Covers(peak: map<Key, nat>, es: seq<Event>) {
    forall j :: 0 <= j < |es| ==> !es[j].Delete? && es[j].key in peak && es[j].size <= peak[es[j].key]
  }

  /** From any state in `good` the policy admits whatever it is asked, and stays in `good`. */
  ghost predicate AlwaysAdmits<P(!new)>(ops: Policy<P>, good: P -> bool) {
    && (forall p, k, size :: good(p) ==> ops.canAdmit(p, k, size).1 && good(ops.canAdmit(p, k, size).0))
    && (forall p, k, size :: good(p) ==> good(ops.onAdmit(p, k, size)))
    && (forall p, k :: good(p) ==> good(ops.onHit(p, k)))
    && (forall p, k, next :: good(p) ==> good(ops.onNext(p, k, next)))
  }

  /** Nothing requested has been lost. */
  ghost predicate Lossless<P>(c: State<P>, peak: map<Key, nat>, requested: set<Key>) {
    && Sound(c) && Bytes(peak) <= c.capacity
    && c.data.Keys == requested <= peak.Keys
    && (forall k :: k in c.data ==> c.data[k] <= peak[k])
    && c.stats.misses == c.stats.admissions == |requested|
    && c.stats.evictions == c.stats.rejections == c.stats.policyErrors == 0
  }

  lemma {:induction false} RoomForOneMore(d: map<Key, nat>, peak: map<Key, nat>, k: Key, size: nat)
    requires d.Keys <= peak.Keys && (forall j :: j in d ==> d[j] <= peak[j])
    requires k !in d && k in peak && size <= peak[k]
    ensures Bytes(d) + size <= Bytes(peak)
  {
    BytesInsert(d, k, size);
    BytesMonotone(d[k := size], peak);
  }

  /** With room to spare a miss is only admitted. */
  lemma {:induction false} RoomyInsert<P>(ops: Policy<P>, c: State<P>, k: Key, size: nat)
    requires 0 <= c.used && c.used + size <= c.capacity && ops.canAdmit(c.pol, k, size).1
    ensures Insert(ops, c, k, size) == Admit(ops, c.(pol := ops.canAdmit(c.pol, k, size).0), k, size)
  {
    hide Admit;
  }

  lemma {:induction false} HeldAtPeak(d: map<Key, nat>, peak: map<Key, nat>, k: Key, size: nat)
    requires d.Keys <= peak.Keys && (forall j :: j in d ==> d[j] <= peak[j])
    requires k in peak && size <= peak[k]
    ensures d[k := size].Keys == d.Keys + {k} <= peak.Keys
    ensures forall j :: j in d[k := size] ==> d[k := size][j] <= peak[j]
  {
  }

  lemma {:induction false} AccessIsLossless<P(!new)>(
    ops: Policy<P>, c: State<P>, k: Key, size: nat, peak: map<Key, nat>, good: P -> bool)
    requires AlwaysAdmits(ops, good) && good(c.pol) && Lossless(c, peak, c.data.Keys) && k in peak && size <= peak[k]
    ensures Lossless(Access(ops, c, k, size), peak, c.data.Keys + {k}) && good(Access(ops, c, k, size).pol)
  {
    AccessAccounts(ops, c, k, size);
    if k !in c.data {
      RoomForOneMore(c.data, peak, k, size);
      RoomyInsert(ops, c.(stats := CountMiss(c.stats, size)), k, size);
      HeldAtPeak(c.data, peak, k, size);
    } else {
      assert c.data.Keys + {k} == c.data.Keys;
    }
  }

  lemma {:induction false} StepIsLossless<P(!new)>(
    ops: Policy<P>, c: State<P>, e: Event, peak: map<Key, nat>, requested: set<Key>, good: P -> bool)
    requires AlwaysAdmits(ops, good) && good(c.pol) && Lossless(c, peak, requested)
    requires !e.Delete? && e.key in peak && e.size <= peak[e.key]
    ensures Lossless(Step(ops, c, e), peak, requested + {e.key}) && good(Step(ops, c, e).pol)
  {
    hide Access;
    match e
    case Request(k, size) => AccessIsLossless(ops, c, k, size, peak, good);
    case OracleRequest(k, size, next) =>
      AccessIsLossless(ops, c.(pol := ops.onNext(c.pol, k, next)), k, size, peak, good);
  }

  /** With room for every key at its largest size, a policy that admits everything never
      evicts or rejects, and misses exactly once per distinct key, even though keys recur
      at different sizes. */
  lemma {:induction false} WorkingSetFits<P(!new)>(
    ops: Policy<P>, pol: P, capacity: nat, es: seq<Event>, i: nat, peak: map<Key, nat>,
    good: P -> bool)
    requires AlwaysAdmits(ops, good) && good(pol) && Covers(peak, es) && Bytes(peak) <= capacity && i <= |es|
    ensures Lossless(After(ops, Cold(capacity, pol), es, i), peak, Requested(es, i))
    ensures good(After(ops, Cold(capacity, pol), es, i).pol)
  {
    hide Step, AlwaysAdmits, Lossless, Sound, Requested;
    if i == 0 {
      ColdIsLossless(pol, capacity, es, peak);
    } else {
      WorkingSetFits(ops, pol, capacity, es, i - 1, peak, good);
      RequestedGrows(es, i);
      StepIsLossless(ops, After(ops, Cold(capacity, pol), es, i - 1), es[i - 1], peak,
                     Requested(es, i - 1), good);
    }
  }

  lemma {:induction false} ColdIsLossless<P>(pol: P, capacity: nat, es: seq<Event>, peak: map<Key, nat>)
    requires Bytes(peak) <= capacity
    ensures Lossless(Cold(capacity, pol), peak, Requested(es, 0))
  {
    assert Requested(es, 0) == {};
  }
}
