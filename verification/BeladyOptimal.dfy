/** At unit size the oracle cache with Belady misses no more than any schedule that admits
    every miss, and with one more slot no more than any schedule at all. */
module BeladyOptimal {
  import opened Base
  import opened CacheSpec
  import opened Policies
  import opened Agreement
  import opened UnitSize
  import opened Optimality
  import opened BeladyTheorems
  import B = BeladyPolicy

  // ---- one request of the oracle cache

  /** At unit size room for one more is made by at most one eviction. */
  lemma {:induction false} UnitRoom(c: State<PolState>, k: Key, budget: nat)
    requires Units(c.data) && c.used == Bytes(c.data) <= c.capacity && c.capacity >= 1
    requires Ready(c.pol, c.data, k) && budget >= 1
    ensures var r := EvictToFit(Ops(), c, 1, budget);
            if |c.data| < c.capacity then r == c
            else Evict(c.pol).1.Some? && Evict(c.pol).1.value in c.data
                 && r.data == c.data - {Evict(c.pol).1.value}
  {
    hide Evict, Ready, Agrees, EvictToFit, AfterEviction;
    UnitBytes(c.data);
    EvictToFitStep(c, 1, budget);
    if |c.data| >= c.capacity {
      OneEviction(c, k);
      UnitBytes(AfterEviction(c).data);
      EvictToFitStep(AfterEviction(c), 1, budget - 1);
    }
  }

  /** The victim is a resident needed no sooner than any other. */
  lemma {:induction false} VictimIsFurthest(b: B.Belady, d: map<Key, nat>, ks: seq<Key>, i: nat)
    requires i <= |ks| <= B.NEVER_AGAIN && FreshEntries(b.entries, ks, i)
    requires Elements(B.Keys(b.entries)) == d.Keys && B.Victim(b).Some?
    ensures forall x :: x in d ==> NextUse(ks, i, x) <= NextUse(ks, i, B.Victim(b).value)
  {
    var m := B.Furthest(b.entries);
    forall x | x in d ensures NextUse(ks, i, x) <= NextUse(ks, i, B.Victim(b).value) {
      assert x in Elements(B.Keys(b.entries));
      var j :| 0 <= j < |b.entries| && B.Keys(b.entries)[j] == x;
      assert b.entries[j].next <= b.entries[m].next;
    }
  }

  lemma {:induction false} InsertIsFurthest(c: State<PolState>, ks: seq<Key>, i: nat)
    requires i < |ks| <= B.NEVER_AGAIN && ks[i] !in c.data && c.capacity >= 1
    requires c.used == Bytes(c.data) <= c.capacity && Units(c.data) && Agrees(c.pol, c.data)
    requires c.pol.Belady? && FreshEntries(c.pol.belady.entries, ks, i)
    ensures FurthestStep(ks, i, c.capacity, c.data.Keys, Insert(Ops(), c, ks[i], 1).data.Keys)
  {
    UnitInsert(c, ks[i]);
    UnitBytes(c.data);
    if |c.data| >= c.capacity {
      VictimIsFurthest(c.pol.belady, c.data, ks, i);
      hide Insert, Agrees, Evict, FreshEntries, Fresh, NextUse;
      FurthestForm(ks, i, c.capacity, c.data, Evict(c.pol).1.value);
    } else {
      assert c.data[ks[i] := 1].Keys == c.data.Keys + {ks[i]};
    }
  }

  lemma {:induction false} FurthestForm(ks: seq<Key>, i: nat, capacity: nat, d: map<Key, nat>, v: Key)
    requires i < |ks| <= B.NEVER_AGAIN && ks[i] !in d && v in d && |d.Keys| >= capacity
    requires forall x :: x in d ==> NextUse(ks, i, x) <= NextUse(ks, i, v)
    ensures FurthestStep(ks, i, capacity, d.Keys, (d - {v})[ks[i] := 1].Keys)
  {
    assert (d - {v})[ks[i] := 1].Keys == d.Keys - {v} + {ks[i]};
  }

  lemma {:induction false} UnitInsert(c: State<PolState>, k: Key)
    requires k !in c.data && c.capacity >= 1 && c.pol.Belady?
    requires c.used == Bytes(c.data) <= c.capacity && Units(c.data) && Agrees(c.pol, c.data)
    ensures |c.data| >= c.capacity ==> Evict(c.pol).1.Some? && Evict(c.pol).1.value in c.data
    ensures Insert(Ops(), c, k, 1).data ==
            if |c.data| < c.capacity then c.data[k := 1] else (c.data - {Evict(c.pol).1.value})[k := 1]
  {
    assert Ready(c.pol, c.data, k);
    hide Insert, EvictToFit, Ready, Agrees, Evict;
    InsertForm(c, k, 1);
    assert c.(pol := c.pol) == c;
    UnitRoom(c, k, |c.data| + SPARE_BUDGET);
  }

  /** Every request is served furthest-first. */
  lemma {:induction false} StepIsFurthest(c: State<PolState>, ks: seq<Key>, i: nat, e: Event)
    requires i < |ks| <= B.NEVER_AGAIN && Fresh(c, ks, i) && Units(c.data) && c.capacity >= 1
    requires e.OracleRequest? && e.size == 1 && e.key == ks[i]
    ensures FurthestStep(ks, i, c.capacity, c.data.Keys, Step(Ops(), c, e).data.Keys)
  {
    hide Insert, FreshEntries;
    Hinting(c, e.key, e.next);
    var d := c.(pol := NextAccess(c.pol, e.key, e.next));
    if ks[i] !in c.data {
      InsertIsFurthest(d.(stats := CountMiss(d.stats, 1)), ks, i);
    }
  }

  // ---- optimality

  /** The resident sets of a schedule serving `ks` from cold, admitting every miss. */
  ghost predicate Schedule(ts: seq<set<Key>>, ks: seq<Key>, capacity: nat)
    ensures Schedule(ts, ks, capacity) ==> |ts| == |ks| + 1
  {
    && |ts| == |ks| + 1 && ts[0] == {}
    && forall i :: 0 <= i < |ks| ==> RivalStep(ks[i], capacity, ts[i], ts[i + 1])
  }

  ghost function Misses(ts: seq<set<Key>>, ks: seq<Key>, i: nat): int
    requires i <= |ks| < |ts|
  {
    if i == 0 then 0 else Misses(ts, ks, i - 1) + Miss(ks[i - 1], ts[i - 1])
  }

  /** A replay of `ks` at unit size, each request carrying its hint. */
  ghost predicate Replayed(es: seq<Event>, ks: seq<Key>)
    ensures Replayed(es, ks) ==> |es| == |ks| <= B.NEVER_AGAIN
  {
    Hints(es, ks) && UnitTrace(es, ks)
  }

  /** The oracle cache after `i` requests. */
  ghost function Oracle(capacity: nat, es: seq<Event>, i: nat): State<PolState>
    requires i <= |es|
  {
    After(Ops(), Cold(capacity, ColdBelady()), es, i)
  }

  lemma {:induction false} OracleStep(capacity: nat, ks: seq<Key>, es: seq<Event>, i: nat)
    requires Replayed(es, ks) && i < |es| && capacity >= 1
    ensures var c, r := Oracle(capacity, es, i), Oracle(capacity, es, i + 1);
            && |c.data.Keys| <= capacity
            && FurthestStep(ks, i, capacity, c.data.Keys, r.data.Keys)
            && r.stats.misses == c.stats.misses + Miss(ks[i], c.data.Keys)
  {
    var c := Cold(capacity, ColdBelady());
    assert es[i].OracleRequest? && es[i].size == 1 && es[i].key == ks[i];
    OracleIsFresh(capacity, ks, es, i);
    UnitRun(Ops(), c, es, ks, i);
    hide Step, FurthestStep, ColdBelady, Ops, Cold;
    StepIsFurthest(After(Ops(), c, es, i), ks, i, es[i]);
    UnitStep(Ops(), After(Ops(), c, es, i), es[i]);
  }

  lemma {:induction false} OracleDominates(
    capacity: nat, ks: seq<Key>, es: seq<Event>, ts: seq<set<Key>>, i: nat)
    requires Replayed(es, ks) && Schedule(ts, ks, capacity) && i <= |es| && capacity >= 1
    ensures var c := Oracle(capacity, es, i); var d := Misses(ts, ks, i) - c.stats.misses;
            d >= 0 && Dominates(ks, i, c.data.Keys, ts[i], d)
  {
    hide Oracle, FurthestStep, RivalStep, Replayed;
    if i == 0 {
      StartsEven(capacity, ks, es, ts);
    } else {
      OracleDominates(capacity, ks, es, ts, i - 1);
      OracleStep(capacity, ks, es, i - 1);
      var c, r := Oracle(capacity, es, i - 1), Oracle(capacity, es, i);
      DominationSurvives(ks, i - 1, capacity, c.data.Keys, r.data.Keys, ts[i - 1], ts[i],
                         Misses(ts, ks, i - 1) - c.stats.misses);
    }
  }

  lemma {:induction false} StartsEven(capacity: nat, ks: seq<Key>, es: seq<Event>, ts: seq<set<Key>>)
    requires |ks| <= B.NEVER_AGAIN && Schedule(ts, ks, capacity)
    ensures Oracle(capacity, es, 0).stats.misses == 0
    ensures Dominates(ks, 0, Oracle(capacity, es, 0).data.Keys, ts[0], 0)
  {
    assert forall t :: DominatesAt(ks, 0, {}, {}, 0, t);
  }

  /** Belady is optimal. At unit size, on every trace and at every point of it, the oracle
      cache has missed no more often than any schedule of the same capacity that admits
      every miss. */
  lemma {:induction false} BeladyIsOptimal(capacity: nat, ks: seq<Key>, es: seq<Event>, ts: seq<set<Key>>, i: nat)
    requires Replayed(es, ks) && Schedule(ts, ks, capacity) && i <= |es| && capacity >= 1
    ensures Oracle(capacity, es, i).stats.misses <= Misses(ts, ks, i)
  {
    hide Oracle, Schedule;
    OracleDominates(capacity, ks, es, ts, i);
  }

  // ---- other policies as rivals

  /** The resident sets a policy's run passes through. */
  ghost function Residents<P>(ops: Policy<P>, c: State<P>, es: seq<Event>): (ts: seq<set<Key>>)
    ensures |ts| == |es| + 1
    ensures forall i :: 0 <= i <= |es| ==> ts[i] == After(ops, c, es, i).data.Keys
  {
    seq(|es| + 1, i requires 0 <= i <= |es| => After(ops, c, es, i).data.Keys)
  }

  /** One request of a unit-size run, under any policy. */
  lemma {:induction false} UnitMoment<P>(
    ops: Policy<P>, capacity: nat, pol: P, es: seq<Event>, ks: seq<Key>, i: nat)
    requires UnitTrace(es, ks) && i < |es|
    ensures var ts := Residents(ops, Cold(capacity, pol), es);
            var c, r := After(ops, Cold(capacity, pol), es, i), After(ops, Cold(capacity, pol), es, i + 1);
            && ts[i] == c.data.Keys && ts[i + 1] == r.data.Keys
            && ts[i + 1] <= ts[i] + {ks[i]} && |ts[i + 1]| <= capacity
            && r.stats.misses == c.stats.misses + Miss(ks[i], ts[i])
            && r.stats.rejections == c.stats.rejections + (if ks[i] in ts[i + 1] then 0 else 1)
  {
    var c := Cold(capacity, pol);
    UnitRun(ops, c, es, ks, i);
    assert es[i].size == 1 && !es[i].Delete? && es[i].key == ks[i];
    hide Step, UnitTrace, Units, Cold, Residents;
    UnitStep(ops, After(ops, c, es, i), es[i]);
  }

  lemma {:induction false} MissesStep(ts: seq<set<Key>>, ks: seq<Key>, i: nat)
    requires i <= |ks| < |ts|
    ensures Misses(ts, ks, i) == if i == 0 then 0 else Misses(ts, ks, i - 1) + Miss(ks[i - 1], ts[i - 1])
  {
  }

  lemma {:induction false} RunMisses<P>(
    ops: Policy<P>, capacity: nat, pol: P, es: seq<Event>, ks: seq<Key>, i: nat)
    requires UnitTrace(es, ks) && i <= |es|
    ensures After(ops, Cold(capacity, pol), es, i).stats.misses
            == Misses(Residents(ops, Cold(capacity, pol), es), ks, i)
  {
    ColdHoldsNothing(ops, pol, capacity, es);
    hide After, Residents, UnitTrace, Cold, Miss, Misses;
    MissesStep(Residents(ops, Cold(capacity, pol), es), ks, i);
    if i > 0 {
      RunMisses(ops, capacity, pol, es, ks, i - 1);
      UnitMoment(ops, capacity, pol, es, ks, i - 1);
    }
  }

  lemma {:induction false} RejectionsGrow<P>(
    ops: Policy<P>, capacity: nat, pol: P, es: seq<Event>, ks: seq<Key>, i: nat, j: nat)
    requires UnitTrace(es, ks) && i <= j <= |es|
    ensures After(ops, Cold(capacity, pol), es, i).stats.rejections
            <= After(ops, Cold(capacity, pol), es, j).stats.rejections
  {
    hide After, Residents;
    if i < j {
      RejectionsGrow(ops, capacity, pol, es, ks, i, j - 1);
      UnitMoment(ops, capacity, pol, es, ks, j - 1);
    }
  }

  lemma {:induction false} AdmittingMoment<P>(
    ops: Policy<P>, capacity: nat, pol: P, es: seq<Event>, ks: seq<Key>, i: nat)
    requires UnitTrace(es, ks) && i < |es|
    requires After(ops, Cold(capacity, pol), es, |es|).stats.rejections == 0
    ensures var ts := Residents(ops, Cold(capacity, pol), es);
            RivalStep(ks[i], capacity, ts[i], ts[i + 1])
  {
    hide After, Residents, Cold;
    UnitMoment(ops, capacity, pol, es, ks, i);
    RejectionsGrow(ops, capacity, pol, es, ks, i + 1, |es|);
  }

  lemma {:induction false} AdmittingIsSchedule<P>(
    ops: Policy<P>, capacity: nat, pol: P, es: seq<Event>, ks: seq<Key>)
    requires UnitTrace(es, ks)
    requires After(ops, Cold(capacity, pol), es, |es|).stats.rejections == 0
    ensures Schedule(Residents(ops, Cold(capacity, pol), es), ks, capacity)
  {
    ColdHoldsNothing(ops, pol, capacity, es);
    hide After, Residents, Cold, RivalStep, UnitTrace;
    var ts := Residents(ops, Cold(capacity, pol), es);
    forall i | 0 <= i < |ks| ensures RivalStep(ks[i], capacity, ts[i], ts[i + 1]) {
      AdmittingMoment(ops, capacity, pol, es, ks, i);
    }
  }

  /** No policy that rejects nothing beats Belady at the same capacity. */
  lemma {:induction false} NoAdmittingPolicyBeatsBelady<P>(
    ops: Policy<P>, pol: P, capacity: nat, ks: seq<Key>, es: seq<Event>, online: seq<Event>)
    requires Replayed(es, ks) && UnitTrace(online, ks) && capacity >= 1
    requires After(ops, Cold(capacity, pol), online, |online|).stats.rejections == 0
    ensures Oracle(capacity, es, |es|).stats.misses
            <= After(ops, Cold(capacity, pol), online, |online|).stats.misses
  {
    hide Oracle, After, Misses, Schedule, Residents;
    AdmittingIsSchedule(ops, capacity, pol, online, ks);
    RunMisses(ops, capacity, pol, online, ks, |online|);
    BeladyIsOptimal(capacity, ks, es, Residents(ops, Cold(capacity, pol), online), |es|);
  }

  /** What a bypassing run would hold with one more slot, kept for the latest request. */
  ghost function Padded(ts: seq<set<Key>>, ks: seq<Key>): (ps: seq<set<Key>>)
    requires |ts| == |ks| + 1
    ensures |ps| == |ts| && ps[0] == {}
    ensures forall i :: 0 <= i < |ks| ==> ps[i + 1] == ts[i + 1] + {ks[i]}
  {
    seq(|ts|, i requires 0 <= i < |ts| => if i == 0 then {} else ts[i] + {ks[i - 1]})
  }

  lemma {:induction false} PaddedMoment<P>(
    ops: Policy<P>, capacity: nat, pol: P, es: seq<Event>, ks: seq<Key>, i: nat)
    requires UnitTrace(es, ks) && i < |es|
    ensures var ps := Padded(Residents(ops, Cold(capacity, pol), es), ks);
            RivalStep(ks[i], capacity + 1, ps[i], ps[i + 1])
  {
    ColdHoldsNothing(ops, pol, capacity, es);
    hide After, Residents, Cold;
    UnitMoment(ops, capacity, pol, es, ks, i);
  }

  lemma {:induction false} PaddedIsSchedule<P>(
    ops: Policy<P>, capacity: nat, pol: P, es: seq<Event>, ks: seq<Key>)
    requires UnitTrace(es, ks)
    ensures Schedule(Padded(Residents(ops, Cold(capacity, pol), es), ks), ks, capacity + 1)
  {
    hide After, Residents, Cold, RivalStep, UnitTrace;
    var ps := Padded(Residents(ops, Cold(capacity, pol), es), ks);
    forall i | 0 <= i < |ks| ensures RivalStep(ks[i], capacity + 1, ps[i], ps[i + 1]) {
      PaddedMoment(ops, capacity, pol, es, ks, i);
    }
  }

  lemma {:induction false} PaddedMissesLess(ts: seq<set<Key>>, ks: seq<Key>, i: nat)
    requires |ts| == |ks| + 1 && i <= |ks| && ts[0] == {}
    ensures Misses(Padded(ts, ks), ks, i) <= Misses(ts, ks, i)
  {
    if i > 0 {
      PaddedMissesLess(ts, ks, i - 1);
    }
  }

  /** With one more slot Belady beats every policy whatever, those that refuse admission
      included. */
  lemma {:induction false} OneMoreSlotBeatsEveryPolicy<P>(
    ops: Policy<P>, pol: P, capacity: nat, ks: seq<Key>, es: seq<Event>, online: seq<Event>)
    requires Replayed(es, ks) && UnitTrace(online, ks)
    ensures Oracle(capacity + 1, es, |es|).stats.misses
            <= After(ops, Cold(capacity, pol), online, |online|).stats.misses
  {
    hide Oracle, After, Misses, Schedule, Padded, Step;
    var ts := Residents(ops, Cold(capacity, pol), online);
    assert ts[0] == {} by {
      ColdHoldsNothing(ops, pol, capacity, online);
    }
    PaddedIsSchedule(ops, capacity, pol, online, ks);
    RunMisses(ops, capacity, pol, online, ks, |online|);
    PaddedMissesLess(ts, ks, |online|);
    BeladyIsOptimal(capacity + 1, ks, es, Padded(ts, ks), |es|);
  }

  lemma {:induction false} ColdHoldsNothing<P>(ops: Policy<P>, pol: P, capacity: nat, es: seq<Event>)
    ensures After(ops, Cold(capacity, pol), es, 0).data.Keys == {}
    ensures After(ops, Cold(capacity, pol), es, 0).stats.misses == 0
  {
  }

  // ---- the online policies as rivals

  /** One of the policies that accept whatever they are asked. */
  ghost predicate Accepts(p: PolState) {
    !p.S3Fifo? && !p.Custom?
  }

  lemma {:induction false} CallsAccept(p: PolState, k: Key, size: nat)
    requires Accepts(p)
    ensures CanAdmit(p, k, size) == (p, true)
    ensures Accepts(Evict(p).0) && Accepts(Drop(Evict(p).0, k))
    ensures Accepts(Policies.Hit(p, k)) && Accepts(Policies.Admit(p, k, size))
  {
  }

  lemma {:induction false} RoomAccepts(c: State<PolState>, need: nat, budget: nat)
    requires Accepts(c.pol)
    ensures Accepts(EvictToFit(Ops(), c, need, budget).pol)
    decreases budget
  {
    hide Evict, EvictToFit, Accepts, Drop;
    EvictToFitStep(c, need, budget);
    CallsAccept(c.pol, "", 0);
    if c.used + need > c.capacity && budget > 0 && Evict(c.pol).1.Some? {
      var v := Evict(c.pol).1.value;
      CallsAccept(c.pol, v, 0);
      assert AfterEviction(c).pol == Drop(Evict(c.pol).0, v);
      RoomAccepts(AfterEviction(c), need, budget - 1);
    }
  }

  lemma {:induction false} AccessAccepts(c: State<PolState>, k: Key, size: nat)
    requires Accepts(c.pol)
    ensures Accepts(Access(Ops(), c, k, size).pol) && CanAdmit(c.pol, k, size).1
  {
    hide EvictToFit, Accepts, CanAdmit, Policies.Hit, Policies.Admit;
    CallsAccept(c.pol, k, size);
    var d := c.(stats := CountMiss(c.stats, size));
    assert Ops().canAdmit(c.pol, k, size) == CanAdmit(c.pol, k, size);
    assert d.(pol := c.pol) == d;
    var roomy := EvictToFit(Ops(), d, size, |c.data| + SPARE_BUDGET);
    RoomAccepts(d, size, |c.data| + SPARE_BUDGET);
    CallsAccept(roomy.pol, k, size);
    assert Ops().onHit(c.pol, k) == Policies.Hit(c.pol, k);
    assert Ops().onAdmit(roomy.pol, k, size) == Policies.Admit(roomy.pol, k, size);
  }

  lemma {:induction false} StepAccepts(c: State<PolState>, e: Event)
    requires Healthy(c) && Accepts(c.pol) && Units(c.data) && c.capacity >= 1
    requires !e.Delete? && e.size == 1
    ensures var r := Step(Ops(), c, e);
            Accepts(r.pol) && e.key in r.data && r.stats.rejections == c.stats.rejections
  {
    hide Access;
    var d := if e.Request? then c else c.(pol := NextAccess(c.pol, e.key, e.next));
    if e.OracleRequest? {
      Hinting(c, e.key, e.next);
    }
    AccessAccepts(d, e.key, 1);
    ServedIsResident(d, e.key);
    UnitStep(Ops(), c, e);
  }

  lemma {:induction false} ServedIsResident(c: State<PolState>, k: Key)
    requires Healthy(c) && c.capacity >= 1 && CanAdmit(c.pol, k, 1).1
    ensures k in Access(Ops(), c, k, 1).data
  {
    if k !in c.data {
      MissAdmits(c, k, 1);
    }
  }

  /** At unit size every policy but S3-FIFO admits whatever it misses. */
  lemma {:induction false} UnitObjectsAreAdmitted(
    capacity: nat, p: PolState, es: seq<Event>, ks: seq<Key>, i: nat)
    requires Untold(p) && Accepts(p) && capacity >= 1 && UnitTrace(es, ks) && i <= |es|
    ensures var r := After(Ops(), Cold(capacity, p), es, i); Accepts(r.pol) && r.stats.rejections == 0
  {
    hide Step, Accepts, Untold, Healthy;
    var c := Cold(capacity, p);
    if i > 0 {
      UnitObjectsAreAdmitted(capacity, p, es, ks, i - 1);
      ColdIsHealthy(capacity, p);
      RunIsHealthy(c, es, i - 1);
      UnitRun(Ops(), c, es, ks, i - 1);
      StepAccepts(After(Ops(), c, es, i - 1), es[i - 1]);
    }
  }

  /** FIFO, LRU, LFU and SIEVE never beat Belady at unit size and the same capacity. */
  lemma {:induction false} OnlinePoliciesNeverBeatBelady(
    p: PolState, capacity: nat, ks: seq<Key>, es: seq<Event>, online: seq<Event>)
    requires Untold(p) && (p.Fifo? || p.Lru? || p.Lfu? || p.Sieve?) && capacity >= 1
    requires Replayed(es, ks) && UnitTrace(online, ks)
    ensures Oracle(capacity, es, |es|).stats.misses
            <= After(Ops(), Cold(capacity, p), online, |online|).stats.misses
  {
    hide Oracle, After, Untold;
    UnitObjectsAreAdmitted(capacity, p, online, ks, |online|);
    NoAdmittingPolicyBeatsBelady(Ops(), p, capacity, ks, es, online);
  }
}
