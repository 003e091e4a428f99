/** Why sweeping is cheap over a run: every object a SIEVE hand passes, and every
    reinsertion or promotion S3-FIFO makes, was paid for by an earlier hit. */
module Amortised {
  import opened Base
  import opened CacheSpec
  import opened Policies
  import opened Agreement
  import opened Evictions
  import V = SievePolicy
  import T = S3FifoPolicy

  /** The hits a policy still remembers: set bits, or live counters. */
  ghost function Credit(p: PolState): nat {
    match p
    case Sieve(s) => V.Visited(s.q)
    case S3Fifo(s) => T.Waiting(s)
    case _ => 0
  }

  /** Bits one eviction clears; or its reinsertions plus the promotion threshold for each
      promotion. */
  ghost function EvictionCost(p: PolState): int {
    match p
    case Sieve(s) => if s.q == [] then 0 else V.Passes(s.q, V.Start(s))
    case S3Fifo(s) => T.Cost(s)
    case _ => 0
  }

  ghost predicate Sweeps(p: PolState) {
    p.Sieve? || p.S3Fifo?
  }

  lemma {:induction false} EvictionPays(p: PolState, d: map<Key, nat>)
    requires Sweeps(p) && Agrees(p, d) && Bytes(d) > 0
    ensures var (r, victim) := Evict(p);
            && victim.Some? && Sweeps(Drop(r, victim.value))
            && Credit(Drop(r, victim.value)) + EvictionCost(p) <= Credit(p)
  {
    EvictAgrees(p, d);
    match p
    case Sieve(s) => SievePays(s, d);
    case S3Fifo(s) => S3Pays(s, d);
  }

  lemma {:induction false} SievePays(s: V.Sieve, d: map<Key, nat>)
    requires V.Sane(s) && V.Evicted(s).1.Some?
    ensures var (r, victim) := V.Evicted(s);
            V.Visited(V.Removed(r, victim.value).q) + EvictionCost(Sieve(s)) <= V.Visited(s.q)
  {
    hide V.Removed, V.Sane, V.Visited, V.Passes;
    V.EvictedKeeps(s);
    V.RemovedKeeps(V.Evicted(s).0, V.Evicted(s).1.value);
  }

  lemma {:induction false} S3Pays(s: T.S3, d: map<Key, nat>)
    requires T.Agrees(s, d) && s.mainCap >= 0 && Bytes(d) > 0
    ensures var (r, victim) := T.Evicted(s);
            victim.Some? && T.Waiting(T.Removed(r, victim.value)) + T.Cost(s) <= T.Waiting(s)
  {
    hide T.Evicted, T.Agrees, Elements, T.Keys, T.Removed, T.Waiting, T.Cost;
    T.EvictedKeeps(s, d);
    T.RemovedAbsent(T.Evicted(s).0, T.Evicted(s).1.value, d - {T.Evicted(s).1.value});
  }

  lemma {:induction false} OnePays(c: State<PolState>, k: Key)
    requires Sweeps(c.pol) && c.used == Bytes(c.data) > 0 && Ready(c.pol, c.data, k)
    ensures Evict(c.pol).1.Some?
    ensures var r := AfterEviction(c);
            Sweeps(r.pol) && Credit(r.pol) + EvictionCost(c.pol) <= Credit(c.pol) && r.stats.hits == c.stats.hits
  {
    ReadyMeans(c.pol, c.data, k);
    hide Evict, Ready, Bytes, Credit, EvictionCost, Sweeps, Drop, Agrees;
    OneEviction(c, k);
    EvictionPays(c.pol, c.data);
    assert AfterEviction(c).pol == Drop(Evict(c.pol).0, Evict(c.pol).1.value);
  }

  lemma {:induction false} RoomPays(c: State<PolState>, k: Key, need: nat, budget: nat)
    requires Sweeps(c.pol) && c.used == Bytes(c.data) && Ready(c.pol, c.data, k)
    requires need <= c.capacity && |c.data| <= budget
    ensures var r := EvictToFit(Ops(), c, need, budget);
            && Sweeps(r.pol) && Credit(r.pol) + RoomSum(c, need, budget, EvictionCost) <= Credit(c.pol)
            && r.stats.hits == c.stats.hits
    decreases budget
  {
    hide Evict, Ready, Bytes, EvictToFit, Credit, EvictionCost, Sweeps, AfterEviction, RoomSum;
    EvictToFitStep(c, need, budget);
    RoomSumStep(c, need, budget, EvictionCost);
    if c.used + need > c.capacity {
      OneEviction(c, k);
      OnePays(c, k);
      RoomPays(AfterEviction(c), k, need, budget - 1);
    }
  }

  lemma {:induction false} DecisionIsFree(p: PolState, d: map<Key, nat>, k: Key, size: nat)
    requires Sweeps(p) && Agrees(p, d) && k !in d
    ensures Sweeps(CanAdmit(p, k, size).0) && Credit(CanAdmit(p, k, size).0) == Credit(p)
  {
    if p.S3Fifo? {
      T.DecidedKeeps(p.s3, k, size, d);
    }
  }

  lemma {:induction false} AdmissionIsFree(p: PolState, d: map<Key, nat>, k: Key, size: nat)
    requires Sweeps(p) && Ready(p, d, k)
    ensures Sweeps(Policies.Admit(p, k, size)) && Credit(Policies.Admit(p, k, size)) == Credit(p)
  {
    match p
    case S3Fifo(s) => T.AdmittedKeeps(s, k, size, d);
    case Sieve(s) =>
      assert k !in Elements(V.Keys(s.q));
      V.AdmittedKeeps(s, k);
  }

  lemma {:induction false} HitPays(p: PolState, d: map<Key, nat>, k: Key)
    requires Sweeps(p) && Agrees(p, d) && k in d
    ensures Sweeps(Policies.Hit(p, k)) && Credit(Policies.Hit(p, k)) <= Credit(p) + 1
  {
    match p
    case S3Fifo(s) => T.HitKeeps(s, k, d);
    case Sieve(s) => V.MarkedKeeps(s, k);
  }

  lemma {:induction false} RemovalIsFree(p: PolState, d: map<Key, nat>, k: Key)
    requires Sweeps(p) && Agrees(p, d)
    ensures Sweeps(Drop(p, k)) && Credit(Drop(p, k)) <= Credit(p)
  {
    match p
    case S3Fifo(s) => T.RemovedKeeps(s, k, d);
    case Sieve(s) => V.RemovedKeeps(s, k);
  }

  lemma {:induction false} InsertPays(c: State<PolState>, k: Key, size: nat)
    requires Sweeps(c.pol) && c.used == Bytes(c.data) && Agrees(c.pol, c.data) && k !in c.data
    requires size <= c.capacity
    ensures var (p, ok) := CanAdmit(c.pol, k, size); var r := Insert(Ops(), c, k, size);
            && Sweeps(r.pol) && r.stats.hits == c.stats.hits
            && Credit(r.pol) + (if ok then RoomSum(c.(pol := p), size, |c.data| + SPARE_BUDGET, EvictionCost) else 0)
               <= Credit(c.pol)
  {
    hide Evict, Ready, Bytes, EvictToFit, Insert, Credit, Sweeps, RoomSum, CanAdmit, Policies.Admit, Agrees;
    InsertForm(c, k, size);
    DecideReady(c.pol, c.data, k, size);
    DecisionIsFree(c.pol, c.data, k, size);
    RoomPays(c.(pol := CanAdmit(c.pol, k, size).0), k, size, |c.data| + SPARE_BUDGET);
    var roomy := Roomy(c, k, size);
    AdmissionIsFree(roomy.pol, roomy.data, k, size);
    assert Ops().onAdmit(roomy.pol, k, size) == Policies.Admit(roomy.pol, k, size);
  }

  /** A cache whose policy sweeps. */
  ghost predicate Sweeping(c: State<PolState>) {
    Healthy(c) && Sweeps(c.pol)
  }

  /** The cost of `r`'s evictions since `c` is covered by credit spent and hits earned. */
  ghost predicate Pays(c: State<PolState>, r: State<PolState>, cost: int) {
    Sweeps(r.pol) && cost + Credit(r.pol) + c.stats.hits <= Credit(c.pol) + r.stats.hits
  }

  lemma {:induction false} MissPays(c: State<PolState>, k: Key, size: nat)
    requires Sweeping(c) && k !in c.data
    ensures Pays(c, Access(Ops(), c, k, size), StepSum(c, Request(k, size), EvictionCost))
  {
    hide Insert, Sweeps, CanAdmit, Credit, RoomSum, Agrees;
    var d := c.(stats := CountMiss(c.stats, size));
    InsertTooBig(d, k, size);
    if size <= c.capacity {
      InsertPays(d, k, size);
      RoomSumIgnoresStats(c.(pol := CanAdmit(c.pol, k, size).0),
                           d.(pol := CanAdmit(c.pol, k, size).0), size, |c.data| + SPARE_BUDGET, EvictionCost);
    }
  }

  lemma {:induction false} StepPays(c: State<PolState>, e: Event)
    requires Sweeping(c)
    ensures Pays(c, Step(Ops(), c, e), StepSum(c, e, EvictionCost))
  {
    hide Insert, Sweeps, Credit, RoomSum, Agrees;
    if e.Delete? {
      RemovalIsFree(c.pol, c.data, e.key);
      assert Ops().onRemove(c.pol, e.key) == Drop(c.pol, e.key);
    } else if e.key in c.data {
      HitPays(c.pol, c.data, e.key);
      NoHints(c.pol, e);
    } else {
      NoHints(c.pol, e);
      MissPays(c, e.key, e.size);
      assert c.(pol := c.pol) == c;
    }
  }

  lemma {:induction false} NoHints(p: PolState, e: Event)
    requires Sweeps(p) && !e.Delete?
    ensures e.OracleRequest? ==> Ops().onNext(p, e.key, e.next) == NextAccess(p, e.key, e.next) == p
  {
  }

  /** Over any run, deletes included, the cost of every eviction so far, together with
      the credit still held, never exceeds the hits so far. For SIEVE: bits cleared. For
      S3-FIFO: main-queue reinsertions, plus the promotion threshold for each promotion. */
  lemma {:induction false} SweepingIsPaidByHits(c: State<PolState>, es: seq<Event>, i: nat)
    requires Sweeping(c) && i <= |es|
    ensures Pays(c, After(Ops(), c, es, i), RunSum(c, es, i, EvictionCost))
  {
    hide Step, StepSum, Healthy, Credit;
    if i > 0 {
      SweepingIsPaidByHits(c, es, i - 1);
      RunIsHealthy(c, es, i - 1);
      StepPays(After(Ops(), c, es, i - 1), es[i - 1]);
    }
  }

  /** From cold nothing is owed: the cost never exceeds the hits. */
  lemma {:induction false} ColdSweepingIsPaidByHits(capacity: nat, p: PolState, es: seq<Event>, i: nat)
    requires Untold(p) && Sweeps(p) && i <= |es|
    ensures var c := Cold(capacity, p);
            RunSum(c, es, i, EvictionCost) + Credit(After(Ops(), c, es, i).pol) <= After(Ops(), c, es, i).stats.hits
  {
    ColdIsHealthy(capacity, p);
    hide Healthy, After, RunSum;
    SweepingIsPaidByHits(Cold(capacity, p), es, i);
  }
}
