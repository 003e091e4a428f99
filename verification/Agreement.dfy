/** The cache driven by any of the six policies: what the policy tracks is what is
    resident, so no eviction goes wrong and every accepted object gets in. */
module Agreement {
  import opened Base
  import opened CacheSpec
  import opened AnyPolicy
  import opened Policies

  ghost predicate Healthy(c: State<PolState>) {
    Sound(c) && Agrees(c.pol, c.data)
  }

  /** A policy that has been told nothing yet. */
  ghost predicate Untold(p: PolState) {
    match p
    case Fifo(q) => q == []
    case Lru(o) => o == []
    case Lfu(es) => es == []
    case Sieve(s) => s.q == [] && s.hand.None?
    case S3Fifo(s) => s.small == [] && s.main == [] && s.ghosts == [] && s.mainCap >= 0
    case Belady(b) => b.entries == []
    case Custom(_, _) => false
  }

  lemma {:induction false} ColdIsHealthy(capacity: nat, p: PolState)
    requires Untold(p)
    ensures Healthy(Cold(capacity, p))
  {
    assert Elements<Key>([]) == {};
    assert p.S3Fifo? ==> p.s3.small == [] && p.s3.main == [] && p.s3.ghosts == [];
    if !p.S3Fifo? {
      assert Tracked(p) == [];
    }
  }

  /** The state one eviction leads to. */
  ghost function AfterEviction(c: State<PolState>): State<PolState>
    requires Evict(c.pol).1.Some?
  {
    EvictOne(Ops(), c.(pol := Evict(c.pol).0), Evict(c.pol).1.value)
  }

  lemma {:induction false} OneEviction(c: State<PolState>, k: Key)
    requires c.used == Bytes(c.data) > 0 && Ready(c.pol, c.data, k)
    ensures Evict(c.pol).1.Some? && Evict(c.pol).1.value in c.data
    ensures var r := AfterEviction(c);
            && r.used == Bytes(r.data) && Ready(r.pol, r.data, k)
            && |r.data| == |c.data| - 1 && r.capacity == c.capacity
            && r.stats == c.stats.(evictions := c.stats.evictions + 1)
            && r.data == c.data - {Evict(c.pol).1.value}
  {
    EvictAgrees(c.pol, c.data);
    hide Evict, Drop, Agrees, Haunting;
    var d := c.(pol := Evict(c.pol).0);
    RemoveShrinks(Ops(), d, Evict(c.pol).1.value);
    assert Ops().onRemove(d.pol, Evict(c.pol).1.value) == Drop(d.pol, Evict(c.pol).1.value);
  }

  /** One turn of the room-making loop. */
  lemma {:induction false} EvictToFitStep(c: State<PolState>, need: nat, budget: nat)
    ensures var r := EvictToFit(Ops(), c, need, budget);
            if c.used + need <= c.capacity then r == c
            else if budget == 0 then r == c.(stats := c.stats.(policyErrors := c.stats.policyErrors + 1))
            else if Evict(c.pol).1.None? then r == c.(pol := Evict(c.pol).0)
            else r == EvictToFit(Ops(), AfterEviction(c), need, budget - 1)
  {
    hide Evict, EvictOne;
    assert Ops().evict(c.pol) == Evict(c.pol);
  }

  /** Room is always made, from residents only, within a budget of one eviction each. */
  lemma {:induction false} RoomIsMade(c: State<PolState>, k: Key, need: nat, budget: nat)
    requires c.used == Bytes(c.data) && Ready(c.pol, c.data, k)
    requires need <= c.capacity && |c.data| <= budget
    ensures var r := EvictToFit(Ops(), c, need, budget);
            && Ready(r.pol, r.data, k)
            && r.used + need <= r.capacity
            && r.stats.policyErrors == c.stats.policyErrors
    decreases budget
  {
    hide Evict, Ready, Bytes, AfterEviction, EvictToFit;
    EvictToFitStep(c, need, budget);
    if c.used + need > c.capacity {
      OneEviction(c, k);
      RoomIsMade(AfterEviction(c), k, need, budget - 1);
    }
  }

  /** `inv` survives every eviction an agreeing policy can be asked for. */
  ghost predicate KeptByEvictions(inv: PolState -> bool) {
    forall p, d: map<Key, nat> :: Agrees(p, d) && Bytes(d) > 0 && inv(p) ==>
      Evict(p).1.Some? && inv(Drop(Evict(p).0, Evict(p).1.value))
  }

  lemma {:induction false} KeptOnce(inv: PolState -> bool, p: PolState, d: map<Key, nat>)
    requires KeptByEvictions(inv) && Agrees(p, d) && Bytes(d) > 0 && inv(p)
    ensures Evict(p).1.Some? && inv(Drop(Evict(p).0, Evict(p).1.value))
  {
    hide Evict, Drop, Agrees, Bytes;
  }

  lemma {:induction false} OneKept(c: State<PolState>, k: Key, inv: PolState -> bool)
    requires c.used == Bytes(c.data) > 0 && Ready(c.pol, c.data, k) && inv(c.pol) && KeptByEvictions(inv)
    ensures Evict(c.pol).1.Some? && inv(AfterEviction(c).pol)
  {
    ReadyMeans(c.pol, c.data, k);
    hide Evict, Drop, Ready, Agrees, AfterEviction, Bytes, KeptByEvictions;
    KeptOnce(inv, c.pol, c.data);
    AfterEvictionIs(c);
  }

  /** What every eviction of a resident keeps true of the policy, making room keeps. */
  lemma {:induction false} RoomPreserves(
    c: State<PolState>, k: Key, need: nat, budget: nat, inv: PolState -> bool)
    requires c.used == Bytes(c.data) && Ready(c.pol, c.data, k) && inv(c.pol)
    requires need <= c.capacity && |c.data| <= budget
    requires KeptByEvictions(inv)
    ensures inv(EvictToFit(Ops(), c, need, budget).pol)
    decreases budget
  {
    hide Evict, Ready, AfterEviction, EvictToFit, Bytes, KeptByEvictions;
    EvictToFitStep(c, need, budget);
    if c.used + need > c.capacity {
      OneEviction(c, k);
      OneKept(c, k, inv);
      RoomPreserves(AfterEviction(c), k, need, budget - 1, inv);
    }
  }

  lemma {:induction false} AfterEvictionIs(c: State<PolState>)
    requires Evict(c.pol).1.Some?
    ensures AfterEviction(c).pol == Drop(Evict(c.pol).0, Evict(c.pol).1.value)
  {
    hide Evict, Drop;
    assert Ops().onRemove(Evict(c.pol).0, Evict(c.pol).1.value) == Drop(Evict(c.pol).0, Evict(c.pol).1.value);
  }

  /** A miss ends with the object resident exactly when it fits the whole cache and the
      policy accepts it; nothing a policy says is ever wrong. */
  lemma {:induction false} MissAdmits(c: State<PolState>, k: Key, size: nat)
    requires Healthy(c) && k !in c.data
    ensures var r := Access(Ops(), c, k, size);
            && Healthy(r)
            && r.stats.policyErrors == c.stats.policyErrors
            && (k in r.data <==> size <= c.capacity && CanAdmit(c.pol, k, size).1)
            && (k in r.data ==> r.data[k] == size)
  {
    AccessAccounts(Ops(), c, k, size);
    var d := c.(stats := CountMiss(c.stats, size));
    InsertInserts(Ops(), d, k, size);
    if size <= c.capacity {
      InsertAdmits(d, k, size);
    }
  }

  /** The room made for an accepted object. */
  ghost function Roomy(c: State<PolState>, k: Key, size: nat): State<PolState> {
    EvictToFit(Ops(), c.(pol := CanAdmit(c.pol, k, size).0), size, |c.data| + SPARE_BUDGET)
  }

  /** Inserting is deciding, making room, and admitting; making room never falls short. */
  lemma {:induction false} InsertForm(c: State<PolState>, k: Key, size: nat)
    requires c.used == Bytes(c.data) && Agrees(c.pol, c.data) && k !in c.data && size <= c.capacity
    ensures Ready(Roomy(c, k, size).pol, Roomy(c, k, size).data, k)
    ensures Insert(Ops(), c, k, size) ==
            if CanAdmit(c.pol, k, size).1 then CacheSpec.Admit(Ops(), Roomy(c, k, size), k, size)
            else Reject(c.(pol := CanAdmit(c.pol, k, size).0))
    ensures Roomy(c, k, size).stats.policyErrors == c.stats.policyErrors
  {
    DecideReady(c.pol, c.data, k, size);
    hide Ready, CanAdmit, EvictToFit;
    var (p, ok) := CanAdmit(c.pol, k, size);
    assert Ops().canAdmit(c.pol, k, size) == (p, ok);
    RoomIsMade(c.(pol := p), k, size, |c.data| + SPARE_BUDGET);
  }

  lemma {:induction false} InsertTooBig(c: State<PolState>, k: Key, size: nat)
    ensures size > c.capacity ==> Insert(Ops(), c, k, size) == Reject(c)
  {
  }

  lemma {:induction false} InsertAdmits(c: State<PolState>, k: Key, size: nat)
    requires c.used == Bytes(c.data) && Agrees(c.pol, c.data) && k !in c.data && size <= c.capacity
    ensures var r := Insert(Ops(), c, k, size);
            && Agrees(r.pol, r.data) && r.stats.policyErrors == c.stats.policyErrors
            && (k in r.data <==> CanAdmit(c.pol, k, size).1)
            && (k in r.data ==> r.data[k] == size)
  {
    InsertForm(c, k, size);
    DecideReady(c.pol, c.data, k, size);
    hide Ready, CanAdmit, Insert, Roomy, Agrees, Policies.Admit;
    ReadyMeans(CanAdmit(c.pol, k, size).0, c.data, k);
    var roomy := Roomy(c, k, size);
    AdmitAgrees(roomy.pol, roomy.data, k, size);
    assert Ops().onAdmit(roomy.pol, k, size) == Policies.Admit(roomy.pol, k, size);
  }

  lemma {:induction false} ReadyMeans(p: PolState, d: map<Key, nat>, k: Key)
    requires Ready(p, d, k)
    ensures Agrees(p, d) && k !in d
  {
  }

  lemma {:induction false} Hinting(c: State<PolState>, k: Key, next: int)
    requires Healthy(c)
    ensures Healthy(c.(pol := NextAccess(c.pol, k, next)))
    ensures Ops().onNext(c.pol, k, next) == NextAccess(c.pol, k, next)
  {
  }

  lemma {:induction false} DeleteIsHealthy(c: State<PolState>, k: Key)
    requires Healthy(c)
    ensures Agrees(Remove(Ops(), c, k).pol, Remove(Ops(), c, k).data)
  {
    DropAgrees(c.pol, c.data, k);
    hide Drop, Agrees;
    assert Ops().onRemove(c.pol, k) == Drop(c.pol, k);
    assert k !in c.data ==> c.data - {k} == c.data;
  }

  lemma {:induction false} AccessIsHealthy(c: State<PolState>, k: Key, size: nat)
    requires Healthy(c)
    ensures var r := Access(Ops(), c, k, size);
            Healthy(r) && r.stats.policyErrors == c.stats.policyErrors
  {
    if k in c.data {
      AccessAccounts(Ops(), c, k, size);
      HitAgrees(c.pol, c.data, k);
    } else {
      MissAdmits(c, k, size);
    }
  }

  lemma {:induction false} StepIsHealthy(c: State<PolState>, e: Event)
    requires Healthy(c)
    ensures var r := Step(Ops(), c, e);
            Healthy(r) && r.stats.policyErrors == c.stats.policyErrors && r.capacity == c.capacity
  {
    StepAccounts(Ops(), c, e);
    match e
    case Request(k, size) =>
      hide Access;
      AccessIsHealthy(c, k, size);
    case OracleRequest(k, size, next) =>
      hide Access;
      Hinting(c, k, next);
      AccessIsHealthy(c.(pol := NextAccess(c.pol, k, next)), k, size);
    case Delete(k) =>
      DeleteIsHealthy(c, k);
  }

  /** Over every run, deletes included, the policy tracks exactly the residents and no
      policy error is ever recorded. */
  lemma {:induction false} RunIsHealthy(c: State<PolState>, es: seq<Event>, i: nat)
    requires Healthy(c) && i <= |es|
    ensures var r := After(Ops(), c, es, i);
            Healthy(r) && r.stats.policyErrors == c.stats.policyErrors && r.capacity == c.capacity
  {
    hide Step;
    if i > 0 {
      RunIsHealthy(c, es, i - 1);
      StepIsHealthy(After(Ops(), c, es, i - 1), es[i - 1]);
    }
  }
}
