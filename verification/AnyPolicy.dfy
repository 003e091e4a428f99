/** Whole-run theorems that hold whatever the policy answers, a policy that breaks
    its contract included. */
module AnyPolicy {
  import opened Base
  import opened CacheSpec

  // ---- safety and conservation

  /** Accounting that every operation keeps. */
  ghost predicate Sound<P>(c: State<P>) {
    && c.used == Bytes(c.data)
    && 0 <= c.used <= c.capacity
    && c.stats.requests == c.stats.hits + c.stats.misses
    && c.stats.bytesRequested == c.stats.bytesHit + c.stats.bytesMissed
    && c.stats.misses == c.stats.admissions + c.stats.rejections
  }

  /** `r` is `c` after evictions only: contents shrink, and each object lost was counted. */
  ghost predicate Evicted<P>(c: State<P>, r: State<P>) {
    && r.capacity == c.capacity
    && r.used == Bytes(r.data)
    && r.used <= c.used
    && r.data.Keys <= c.data.Keys
    && (forall k :: k in r.data ==> r.data[k] == c.data[k])
    && |r.data| + r.stats.evictions == |c.data| + c.stats.evictions
    && r.stats == c.stats.(evictions := r.stats.evictions, policyErrors := r.stats.policyErrors)
  }

  lemma {:induction false} RemoveShrinks<P>(ops: Policy<P>, c: State<P>, k: Key)
    requires c.used == Bytes(c.data)
    ensures var r := Remove(ops, c, k);
            && r.used == Bytes(r.data) <= c.used
            && r.data == c.data - {k} && r.capacity == c.capacity && r.stats == c.stats
            && |r.data| == |c.data| - (if k in c.data then 1 else 0)
  {
    if k in c.data {
      BytesRemove(c.data, k);
      assert (c.data - {k}).Keys == c.data.Keys - {k};
    } else {
      assert c.data - {k} == c.data;
    }
  }

  lemma {:induction false} EvictToFitEvicts<P>(ops: Policy<P>, c: State<P>, need: nat, budget: nat)
    requires c.used == Bytes(c.data)
    ensures Evicted(c, EvictToFit(ops, c, need, budget))
    decreases budget
  {
    if c.used + need > c.capacity && budget > 0 {
      var (p, victim) := ops.evict(c.pol);
      if victim.Some? {
        var d := c.(pol := p);
        RemoveShrinks(ops, d, victim.value);
        EvictToFitEvicts(ops, EvictOne(ops, d, victim.value), need, budget - 1);
      }
    }
  }

  /** One turn of the loop. */
  lemma {:induction false} EvictToFitForm<P>(ops: Policy<P>, c: State<P>, need: nat, budget: nat)
    requires c.used == Bytes(c.data)
    ensures var (p, victim) := ops.evict(c.pol); var r := EvictToFit(ops, c, need, budget);
            if c.used + need <= c.capacity || budget == 0 || victim.None? then r.data == c.data
            else
              var d := EvictOne(ops, c.(pol := p), victim.value);
              && r == EvictToFit(ops, d, need, budget - 1)
              && d.data == c.data - {victim.value} && d.used == Bytes(d.data) && d.capacity == c.capacity
  {
    var (p, victim) := ops.evict(c.pol);
    if victim.Some? {
      RemoveShrinks(ops, c.(pol := p), victim.value);
    }
  }

  /** Some object of `c` is gone from `r`, and with it `need` would not have fitted. */
  ghost predicate Needed<P>(c: State<P>, r: State<P>, need: nat) {
    exists v :: v in c.data && v !in r.data && r.used + c.data[v] + need > c.capacity
  }

  lemma {:induction false} NeededEarlier<P>(c: State<P>, d: State<P>, r: State<P>, need: nat)
    requires Needed(d, r, need) && d.capacity == c.capacity
    requires forall v :: v in d.data ==> v in c.data && c.data[v] == d.data[v]
    ensures Needed(c, r, need)
  {
    var v :| v in d.data && v !in r.data && r.used + d.data[v] + need > d.capacity;
    assert v in c.data;
  }

  /** Evicting stops at the first fit: had the last victim been kept, the need would not
      have been met. */
  lemma {:induction false} LastVictimWasNeeded<P>(ops: Policy<P>, c: State<P>, need: nat, budget: nat)
    requires c.used == Bytes(c.data)
    ensures var r := EvictToFit(ops, c, need, budget); r.data != c.data ==> Needed(c, r, need)
    decreases budget
  {
    EvictToFitForm(ops, c, need, budget);
    hide Needed, Bytes, EvictToFit, EvictOne, Evicted;
    if c.used + need > c.capacity && budget > 0 {
      var (p, victim) := ops.evict(c.pol);
      if victim.Some? {
        var d := EvictOne(ops, c.(pol := p), victim.value);
        LastVictimWasNeeded(ops, d, need, budget - 1);
        RoomUses(ops, d, need, budget - 1);
        LossWasNeeded(c, d, EvictToFit(ops, d, need, budget - 1), victim.value, need);
      }
    }
  }

  lemma {:induction false} RoomUses<P>(ops: Policy<P>, c: State<P>, need: nat, budget: nat)
    requires c.used == Bytes(c.data)
    ensures var r := EvictToFit(ops, c, need, budget); r.used == Bytes(r.data)
  {
    hide EvictToFit;
    EvictToFitEvicts(ops, c, need, budget);
  }

  lemma {:induction false} LossWasNeeded<P>(c: State<P>, d: State<P>, r: State<P>, v: Key, need: nat)
    requires c.used == Bytes(c.data) && c.used + need > c.capacity && d.capacity == c.capacity
    requires d.data == c.data - {v} && r.used == Bytes(r.data)
    requires r.data != d.data ==> Needed(d, r, need)
    ensures r.data != c.data ==> Needed(c, r, need)
  {
    if r.data != d.data {
      NeededEarlier(c, d, r, need);
    } else if v in c.data {
      BytesRemove(c.data, v);
    }
  }

  /** `r` is `c` after a miss on `k`: evictions, then perhaps the object itself. */
  ghost predicate Inserted<P>(c: State<P>, r: State<P>, k: Key, size: nat) {
    && r.capacity == c.capacity
    && r.used == Bytes(r.data)
    && (c.used <= c.capacity ==> r.used <= r.capacity)
    && r.data.Keys <= c.data.Keys + {k}
    && (forall j :: j in r.data ==> r.data[j] == if j == k then size else c.data[j])
    && |r.data| + r.stats.evictions + c.stats.admissions == |c.data| + c.stats.evictions + r.stats.admissions
    && r.stats.admissions + r.stats.rejections == c.stats.admissions + c.stats.rejections + 1
    && r.stats == c.stats.(evictions := r.stats.evictions, policyErrors := r.stats.policyErrors,
                           admissions := r.stats.admissions, rejections := r.stats.rejections)
  }

  lemma {:induction false} AdmitInserts<P>(ops: Policy<P>, c: State<P>, d: State<P>, k: Key, size: nat)
    requires Evicted(c, d) && k !in c.data && d.used + size <= d.capacity
    ensures Inserted(c, Admit(ops, d, k, size), k, size)
  {
    BytesInsert(d.data, k, size);
    assert |d.data[k := size]| == |d.data| + 1;
  }

  lemma {:induction false} InsertInserts<P>(ops: Policy<P>, c: State<P>, k: Key, size: nat)
    requires c.used == Bytes(c.data) && k !in c.data
    ensures Inserted(c, Insert(ops, c, k, size), k, size)
  {
    if size <= c.capacity {
      var (p, ok) := ops.canAdmit(c.pol, k, size);
      if ok {
        var d := c.(pol := p);
        EvictToFitEvicts(ops, d, size, |c.data| + SPARE_BUDGET);
        var roomy := EvictToFit(ops, d, size, |c.data| + SPARE_BUDGET);
        assert Evicted(c, roomy);
        if roomy.used + size <= roomy.capacity {
          AdmitInserts(ops, c, roomy, k, size);
        }
      }
    }
  }

  /** What one event does to a cache, apart from which objects were evicted. */
  ghost predicate Accounted<P>(c: State<P>, e: Event, r: State<P>) {
    && Sound(r)
    && r.capacity == c.capacity
    && r.stats.misses == c.stats.misses + (if e.Delete? || e.key in c.data then 0 else 1)
    && r.data.Keys <= c.data.Keys + (if e.Delete? then {} else {e.key})
    && |r.data| + r.stats.evictions + c.stats.admissions + (if e.Delete? && e.key in c.data then 1 else 0)
       == |c.data| + c.stats.evictions + r.stats.admissions
  }

  lemma {:induction false} AccessAccounts<P>(ops: Policy<P>, c: State<P>, k: Key, size: nat)
    requires Sound(c)
    ensures Accounted(c, Request(k, size), Access(ops, c, k, size))
  {
    if k !in c.data {
      var d := c.(stats := CountMiss(c.stats, size));
      InsertInserts(ops, d, k, size);
      var r := Insert(ops, d, k, size);
      assert r.stats.misses == c.stats.misses + 1 && r.stats.requests == c.stats.requests + 1;
    }
  }

  lemma {:induction false} StepAccounts<P>(ops: Policy<P>, c: State<P>, e: Event)
    requires Sound(c)
    ensures Accounted(c, e, Step(ops, c, e))
  {
    match e
    case Request(k, size) => AccessAccounts(ops, c, k, size);
    case OracleRequest(k, size, next) =>
      AccessAccounts(ops, c.(pol := ops.onNext(c.pol, k, next)), k, size);
    case Delete(k) => RemoveShrinks(ops, c, k);
  }

  /** Safety: occupancy is the resident bytes, never above capacity, and the
      counters balance, after every event of every run. */
  lemma {:induction false} RunIsSound<P>(ops: Policy<P>, c: State<P>, es: seq<Event>, i: nat)
    requires Sound(c) && i <= |es|
    ensures Sound(After(ops, c, es, i)) && After(ops, c, es, i).capacity == c.capacity
  {
    hide Step;
    if i > 0 {
      RunIsSound(ops, c, es, i - 1);
      StepAccounts(ops, After(ops, c, es, i - 1), es[i - 1]);
    }
  }

  /** Deletes among the first `i` events that found their key resident. */
  ghost function Deleted<P>(ops: Policy<P>, c: State<P>, es: seq<Event>, i: nat): nat
    requires i <= |es|
  {
    if i == 0 then 0
    else
      Deleted(ops, c, es, i - 1) +
      if es[i - 1].Delete? && es[i - 1].key in After(ops, c, es, i - 1).data then 1 else 0
  }

  /** Residents, with the counted arrivals and departures undone. */
  ghost function Net<P>(c: State<P>): int {
    |c.data| + c.stats.evictions - c.stats.admissions
  }

  lemma {:induction false} StepConserves<P>(ops: Policy<P>, c: State<P>, e: Event)
    requires Sound(c)
    ensures Net(Step(ops, c, e)) == Net(c) - (if e.Delete? && e.key in c.data then 1 else 0)
  {
    StepAccounts(ops, c, e);
  }

  /** Conservation: over any window, residents change by admissions less evictions
      less successful deletes. */
  lemma {:induction false} ResidentsAreConserved<P>(ops: Policy<P>, c: State<P>, es: seq<Event>, i: nat)
    requires Sound(c) && i <= |es|
    ensures Net(After(ops, c, es, i)) == Net(c) - Deleted(ops, c, es, i)
  {
    hide Step, Sound, Net;
    if i > 0 {
      ResidentsAreConserved(ops, c, es, i - 1);
      RunIsSound(ops, c, es, i - 1);
      StepConserves(ops, After(ops, c, es, i - 1), es[i - 1]);
    }
  }

  /** The three ends an insertion can come to, given its decision. */
  function Inserting<P>(ops: Policy<P>, c: State<P>, decision: (P, bool), k: Key, size: nat): State<P> {
    var d := c.(pol := decision.0);
    if !decision.1 then Reject(d)
    else
      var roomy := EvictToFit(ops, d, size, |c.data| + SPARE_BUDGET);
      if roomy.used + size > roomy.capacity then Reject(roomy) else Admit(ops, roomy, k, size)
  }

  lemma {:induction false} InsertIs<P>(ops: Policy<P>, c: State<P>, k: Key, size: nat)
    ensures Insert(ops, c, k, size) ==
            if size > c.capacity then Reject(c) else Inserting(ops, c, ops.canAdmit(c.pol, k, size), k, size)
  {
    hide EvictToFit, Admit, Reject;
  }

  /** However wrong a policy is, each attempt to make room ends: victims and errors together
      never exceed the budget by more than the one error that reports it spent. */
  lemma {:induction false} BudgetBoundsAttempts<P>(ops: Policy<P>, c: State<P>, need: nat, budget: nat)
    ensures var r := EvictToFit(ops, c, need, budget);
            && r.stats.evictions >= c.stats.evictions && r.stats.policyErrors >= c.stats.policyErrors
            && r.stats.evictions - c.stats.evictions + r.stats.policyErrors - c.stats.policyErrors <= budget + 1
    decreases budget
  {
    if c.used + need > c.capacity && budget > 0 {
      var (p, victim) := ops.evict(c.pol);
      if victim.Some? {
        BudgetBoundsAttempts(ops, EvictOne(ops, c.(pol := p), victim.value), need, budget - 1);
      }
    }
  }

  lemma {:induction false} AccessGrows<P>(ops: Policy<P>, c: State<P>, k: Key, size: nat)
    ensures Access(ops, c, k, size).stats.evictions >= c.stats.evictions
  {
    if k !in c.data {
      var d := c.(stats := CountMiss(c.stats, size));
      hide EvictToFit, Insert;
      InsertIs(ops, d, k, size);
      BudgetBoundsAttempts(ops, d.(pol := ops.canAdmit(d.pol, k, size).0), size, |c.data| + SPARE_BUDGET);
    }
  }

  /** Evictions are only ever added to. */
  lemma {:induction false} EvictionsGrow<P>(ops: Policy<P>, c: State<P>, e: Event)
    ensures Step(ops, c, e).stats.evictions >= c.stats.evictions
  {
    hide Access;
    match e
    case Request(k, size) => AccessGrows(ops, c, k, size);
    case OracleRequest(k, size, next) => AccessGrows(ops, c.(pol := ops.onNext(c.pol, k, next)), k, size);
    case Delete(k) =>
  }

  /** A policy that only ever names non-residents is stopped after the whole budget, with
      everything still resident. */
  lemma {:induction false} WrongPolicyIsStopped<P(!new)>(ops: Policy<P>, c: State<P>, need: nat, budget: nat)
    requires c.used + need > c.capacity
    requires forall p :: ops.evict(p).1.Some? && ops.evict(p).1.value !in c.data
    ensures var r := EvictToFit(ops, c, need, budget);
            && r == c.(pol := r.pol, stats := r.stats)
            && r.stats == c.stats.(policyErrors := c.stats.policyErrors + budget + 1)
    decreases budget
  {
    if budget > 0 {
      var (p, victim) := ops.evict(c.pol);
      WrongPolicyIsStopped(ops, EvictOne(ops, c.(pol := p), victim.value), need, budget - 1);
    }
  }

  /** In the cache: a miss that needs room, under a policy that never names a resident, costs
      one error for each resident, sixty-four more and the one that reports the budget spent.
      Nothing is lost, and the object is refused. */
  lemma {:induction false} WrongPolicyCostsBudget<P(!new)>(ops: Policy<P>, c: State<P>, k: Key, size: nat)
    requires k !in c.data && size <= c.capacity < c.used + size && ops.canAdmit(c.pol, k, size).1
    requires forall p :: ops.evict(p).1.Some? && ops.evict(p).1.value !in c.data
    ensures var r := Access(ops, c, k, size);
            && r.data == c.data && r.used == c.used && r.stats.rejections == c.stats.rejections + 1
            && r.stats.policyErrors == c.stats.policyErrors + |c.data| + 64 + 1
  {
    var d := c.(stats := CountMiss(c.stats, size));
    InsertIs(ops, d, k, size);
    hide Insert, EvictToFit, Admit;
    WrongPolicyIsStopped(ops, d.(pol := ops.canAdmit(c.pol, k, size).0), size, |c.data| + SPARE_BUDGET);
  }

  /** An object refused, for its size or by the policy, costs the cache nothing it holds. */
  lemma {:induction false} RefusalCostsNothing<P>(ops: Policy<P>, c: State<P>, k: Key, size: nat)
    requires k !in c.data && (size > c.capacity || !ops.canAdmit(c.pol, k, size).1)
    ensures var r := Access(ops, c, k, size);
            && r.data == c.data && r.used == c.used && r.stats.evictions == c.stats.evictions
            && (size > c.capacity ==> r.pol == c.pol)
  {
  }

  // ---- what the counters count

  /** The total weight of the first `i` events that are requests. */
  ghost function Asked(es: seq<Event>, i: nat, weight: Event -> nat): nat
    requires i <= |es|
  {
    if i == 0 then 0 else Asked(es, i - 1, weight) + if es[i - 1].Delete? then 0 else weight(es[i - 1])
  }

  /** The total weight of those that found their key resident. */
  ghost function Found<P>(ops: Policy<P>, c: State<P>, es: seq<Event>, i: nat, weight: Event -> nat): nat
    requires i <= |es|
  {
    if i == 0 then 0
    else
      Found(ops, c, es, i - 1, weight) +
      if !es[i - 1].Delete? && es[i - 1].key in After(ops, c, es, i - 1).data then weight(es[i - 1]) else 0
  }

  function Once(e: Event): nat {
    1
  }

  function SizeOf(e: Event): nat {
    if e.Delete? then 0 else e.size
  }

  lemma {:induction false} AccessCounts<P>(ops: Policy<P>, c: State<P>, k: Key, size: nat)
    requires c.used == Bytes(c.data)
    ensures var r := Access(ops, c, k, size);
            && r.stats.requests == c.stats.requests + 1
            && r.stats.bytesRequested == c.stats.bytesRequested + size
            && r.stats.hits == c.stats.hits + (if k in c.data then 1 else 0)
            && r.stats.bytesHit == c.stats.bytesHit + (if k in c.data then size else 0)
  {
    if k !in c.data {
      InsertInserts(ops, c.(stats := CountMiss(c.stats, size)), k, size);
    }
  }

  lemma {:induction false} StepCounts<P>(ops: Policy<P>, c: State<P>, e: Event)
    requires c.used == Bytes(c.data)
    ensures var r := Step(ops, c, e); var hit := !e.Delete? && e.key in c.data;
            && r.stats.requests == c.stats.requests + (if e.Delete? then 0 else 1)
            && r.stats.bytesRequested == c.stats.bytesRequested + SizeOf(e)
            && r.stats.hits == c.stats.hits + (if hit then 1 else 0)
            && r.stats.bytesHit == c.stats.bytesHit + (if hit then e.size else 0)
  {
    hide Access;
    match e
    case Request(k, size) => AccessCounts(ops, c, k, size);
    case OracleRequest(k, size, next) => AccessCounts(ops, c.(pol := ops.onNext(c.pol, k, next)), k, size);
    case Delete(k) =>
  }

  /** Requests and hits are counted once each, and weighed at the size asked for, whatever
      size the object was admitted with. */
  lemma {:induction false} CountersMatchRun<P>(ops: Policy<P>, c: State<P>, es: seq<Event>, i: nat)
    requires Sound(c) && c.stats == NO_STATS && i <= |es|
    ensures var r := After(ops, c, es, i).stats;
            && r.requests == Asked(es, i, Once) && r.bytesRequested == Asked(es, i, SizeOf)
            && r.hits == Found(ops, c, es, i, Once) && r.bytesHit == Found(ops, c, es, i, SizeOf)
  {
    hide Step;
    if i > 0 {
      CountersMatchRun(ops, c, es, i - 1);
      RunIsSound(ops, c, es, i - 1);
      StepCounts(ops, After(ops, c, es, i - 1), es[i - 1]);
    }
  }

  /** No event changes the stored size of an object that stays. */
  lemma {:induction false} SizesAreKept<P>(ops: Policy<P>, c: State<P>, e: Event, k: Key)
    requires c.used == Bytes(c.data) && k in Step(ops, c, e).data
    ensures Step(ops, c, e).data[k] == if k in c.data then c.data[k] else e.size
    ensures k in c.data || (!e.Delete? && e.key == k)
  {
    if !e.Delete? && e.key !in c.data {
      var p := if e.Request? then c.pol else ops.onNext(c.pol, e.key, e.next);
      InsertInserts(ops, c.(pol := p, stats := CountMiss(c.stats, e.size)), e.key, e.size);
      assert c.(pol := c.pol) == c;
    }
  }

  // ---- warmup transparency

  function Add(a: Stats, b: Stats): Stats {
    Stats(a.requests + b.requests, a.hits + b.hits, a.misses + b.misses,
          a.bytesRequested + b.bytesRequested, a.bytesHit + b.bytesHit, a.bytesMissed + b.bytesMissed,
          a.evictions + b.evictions, a.admissions + b.admissions, a.rejections + b.rejections,
          a.policyErrors + b.policyErrors)
  }

  /** The same cache with `base` added to every counter. */
  function Offset<P>(c: State<P>, base: Stats): State<P> {
    c.(stats := Add(base, c.stats))
  }

  lemma {:induction false} EvictToFitIgnoresStats<P>(
    ops: Policy<P>, c: State<P>, base: Stats, need: nat, budget: nat)
    ensures EvictToFit(ops, Offset(c, base), need, budget) == Offset(EvictToFit(ops, c, need, budget), base)
    decreases budget
  {
    if c.used + need > c.capacity && budget > 0 {
      var (p, victim) := ops.evict(c.pol);
      if victim.Some? {
        var d := EvictOne(ops, c.(pol := p), victim.value);
        assert EvictOne(ops, Offset(c, base).(pol := p), victim.value) == Offset(d, base);
        EvictToFitIgnoresStats(ops, d, base, need, budget - 1);
      }
    }
  }

  lemma {:induction false} InsertingIgnoresStats<P>(
    ops: Policy<P>, c: State<P>, base: Stats, decision: (P, bool), k: Key, size: nat)
    ensures Inserting(ops, Offset(c, base), decision, k, size)
            == Offset(Inserting(ops, c, decision, k, size), base)
  {
    hide EvictToFit, Admit, Reject, Add;
    var d := c.(pol := decision.0);
    var roomy := EvictToFit(ops, d, size, |c.data| + SPARE_BUDGET);
    assert Offset(c, base).(pol := decision.0) == Offset(d, base);
    EvictToFitIgnoresStats(ops, d, base, size, |c.data| + SPARE_BUDGET);
    RejectIgnoresStats(d, base);
    RejectIgnoresStats(roomy, base);
    AdmitIgnoresStats(ops, roomy, base, k, size);
  }

  lemma {:induction false} InsertIgnoresStats<P>(ops: Policy<P>, c: State<P>, base: Stats, k: Key, size: nat)
    ensures Insert(ops, Offset(c, base), k, size) == Offset(Insert(ops, c, k, size), base)
  {
    hide Insert, Inserting, Reject, Add;
    InsertIs(ops, c, k, size);
    InsertIs(ops, Offset(c, base), k, size);
    RejectIgnoresStats(c, base);
    InsertingIgnoresStats(ops, c, base, ops.canAdmit(c.pol, k, size), k, size);
  }

  lemma {:induction false} RejectIgnoresStats<P>(c: State<P>, base: Stats)
    ensures Reject(Offset(c, base)) == Offset(Reject(c), base)
  {
  }

  lemma {:induction false} AdmitIgnoresStats<P>(ops: Policy<P>, c: State<P>, base: Stats, k: Key, size: nat)
    ensures Admit(ops, Offset(c, base), k, size) == Offset(Admit(ops, c, k, size), base)
  {
  }

  lemma {:induction false} AccessIgnoresStats<P>(ops: Policy<P>, c: State<P>, base: Stats, k: Key, size: nat)
    ensures Access(ops, Offset(c, base), k, size) == Offset(Access(ops, c, k, size), base)
  {
    if k !in c.data {
      var d := c.(stats := CountMiss(c.stats, size));
      assert Offset(c, base).(stats := CountMiss(Add(base, c.stats), size)) == Offset(d, base);
      InsertIgnoresStats(ops, d, base, k, size);
    }
  }

  lemma {:induction false} StepIgnoresStats<P>(ops: Policy<P>, c: State<P>, base: Stats, e: Event)
    ensures Step(ops, Offset(c, base), e) == Offset(Step(ops, c, e), base)
  {
    match e
    case Request(k, size) => AccessIgnoresStats(ops, c, base, k, size);
    case OracleRequest(k, size, next) =>
      var d := c.(pol := ops.onNext(c.pol, k, next));
      assert Offset(c, base).(pol := ops.onNext(c.pol, k, next)) == Offset(d, base);
      AccessIgnoresStats(ops, d, base, k, size);
    case Delete(k) =>
  }

  /** Restarting the counters after `w` events changes no later decision: contents,
      occupancy and policy are those of the uninterrupted run, and every counter of
      the measured window is the uninterrupted run's less its value at the split. */
  lemma {:induction false} WarmupIsTransparent<P>(ops: Policy<P>, c: State<P>, es: seq<Event>, w: nat, i: nat)
    requires w + i <= |es|
    ensures var warm := After(ops, c, es, w);
            After(ops, c, es, w + i) == Offset(After(ops, ResetStats(warm), es[w..], i), warm.stats)
  {
    hide Step;
    var warm := After(ops, c, es, w);
    if i > 0 {
      WarmupIsTransparent(ops, c, es, w, i - 1);
      var measured := After(ops, ResetStats(warm), es[w..], i - 1);
      StepIgnoresStats(ops, measured, warm.stats, es[w + i - 1]);
      assert After(ops, ResetStats(warm), es[w..], i) == Step(ops, measured, es[w + i - 1]);
    }
  }

  // ---- compulsory misses

  /** The keys requested by the first `i` events. */
  ghost function Requested(es: seq<Event>, i: nat): set<Key>
    requires i <= |es|
  {
    set j | 0 <= j < i && !es[j].Delete? :: es[j].key
  }

  lemma {:induction false} RequestedGrows(es: seq<Event>, i: nat)
    requires 0 < i <= |es|
    ensures Requested(es, i) == Requested(es, i - 1) + (if es[i - 1].Delete? then {} else {es[i - 1].key})
  {
  }

  /** A cold run misses at least once for every distinct key it requests, under any policy. */
  lemma {:induction false} CompulsoryMisses<P>(
    ops: Policy<P>, capacity: nat, pol: P, es: seq<Event>, i: nat)
    requires i <= |es|
    ensures var r := After(ops, Cold(capacity, pol), es, i);
            r.stats.misses >= |Requested(es, i)| && r.data.Keys <= Requested(es, i)
  {
    var c := Cold(capacity, pol);
    hide Step;
    if i == 0 {
      assert Requested(es, 0) == {};
    } else {
      CompulsoryMisses(ops, capacity, pol, es, i - 1);
      RunIsSound(ops, c, es, i - 1);
      RequestedGrows(es, i);
      StepAccounts(ops, After(ops, c, es, i - 1), es[i - 1]);
    }
  }
}
