/** S3-FIFO over whole runs: what its counters count. */
module S3FifoRuns {
  import opened Base
  import opened CacheSpec
  import opened AnyPolicy
  import opened Policies
  import opened Agreement
  import opened History
  import opened S3FifoSweeps
  import T = S3FifoPolicy

  // ---- counters

  /** Every counter in small is the hits of its object since admission, and none in main is
      more. */
  ghost predicate Counted(small: seq<T.Entry>, main: seq<T.Entry>, pop: Key -> nat) {
    && (forall j :: 0 <= j < |small| ==> small[j].freq + 1 == pop(small[j].key))
    && (forall j :: 0 <= j < |main| ==> main[j].freq + 1 <= pop(main[j].key))
  }

  ghost predicate CountedBy(p: PolState, pop: Key -> nat) {
    p.S3Fifo? && Counted(p.s3.small, p.s3.main, pop)
  }

  lemma {:induction false} AgedCounted(q: seq<T.Entry>, v: nat, m: nat, pop: Key -> nat)
    requires v < |q| && forall j :: 0 <= j < |q| ==> q[j].freq + 1 <= pop(q[j].key)
    ensures var r := T.AgedAll(q[v + 1..], m) + T.AgedAll(q[..v], m + 1);
            forall j :: 0 <= j < |r| ==> r[j].freq + 1 <= pop(r[j].key)
  {
    var r := T.AgedAll(q[v + 1..], m) + T.AgedAll(q[..v], m + 1);
    forall j | 0 <= j < |r| ensures r[j].freq + 1 <= pop(r[j].key) {
      var i := if j < |q| - v - 1 then v + 1 + j else j - (|q| - v - 1);
      assert r[j].key == q[i].key && r[j].freq <= q[i].freq;
    }
  }

  lemma {:induction false} PromotedCounted(
    small: seq<T.Entry>, main: seq<T.Entry>, n: nat, pop: Key -> nat)
    requires Counted(small, main, pop) && n <= |small|
    ensures Counted(small[n..], main + Restarted(small[..n]), pop)
  {
    var r := main + Restarted(small[..n]);
    forall j | 0 <= j < |r| ensures r[j].freq + 1 <= pop(r[j].key) {
      assert j >= |main| ==> r[j] == small[j - |main|].(freq := 0);
    }
  }

  lemma {:induction false} MainSweptCounted(s: T.S3, r: T.S3, victim: Option<Key>, v: nat, pop: Key -> nat)
    requires SweptMain(s, r, victim, v) && Counted(s.small, s.main, pop)
    ensures Counted(r.small, r.main, pop)
  {
    AgedCounted(s.main, v, T.Min(s.main[v].freq, 3), pop);
  }

  lemma {:induction false} EvictedCounted(s: T.S3, d: map<Key, nat>, pop: Key -> nat)
    requires T.Agrees(s, d) && s.mainCap >= 0 && Bytes(d) > 0 && Counted(s.small, s.main, pop)
    ensures Counted(T.Evicted(s).0.small, T.Evicted(s).0.main, pop)
  {
    hide T.Evicted, T.Agrees, Counted, SweptMain;
    var v := EvictionClosedForm(s, d);
    var (r, victim) := T.Evicted(s);
    if MainFirst(s) {
      MainSweptCounted(s, r, victim, v, pop);
    } else if exists i :: 0 <= i < |s.small| && s.small[i].freq < s.moveToMain {
      PromotedCounted(s.small, s.main, v, pop);
      assert s.small[v..][1..] == s.small[v + 1..];
      TailCounted(s.small[v..], r.main, pop);
    } else {
      var n := |s.small|;
      assert s.small[n..] == [] && s.small[..n] == s.small;
      PromotedCounted(s.small, s.main, n, pop);
      MainSweptCounted(s.(small := [], main := s.main + Restarted(s.small)), r, victim, v, pop);
    }
  }

  lemma {:induction false} TailCounted(small: seq<T.Entry>, main: seq<T.Entry>, pop: Key -> nat)
    requires Counted(small, main, pop) && small != []
    ensures Counted(small[1..], main, pop)
  {
  }

  lemma {:induction false} CountedIsKept(pop: Key -> nat)
    ensures KeptByEvictions(p => CountedBy(p, pop))
  {
    hide CountedBy, Agrees, Evict, Drop;
    forall p, d: map<Key, nat> | Agrees(p, d) && Bytes(d) > 0 && CountedBy(p, pop)
      ensures Evict(p).1.Some? && CountedBy(Drop(Evict(p).0, Evict(p).1.value), pop)
    {
      EvictionCounted(p, d, pop);
    }
  }

  lemma {:induction false} EvictionCounted(p: PolState, d: map<Key, nat>, pop: Key -> nat)
    requires Agrees(p, d) && Bytes(d) > 0 && CountedBy(p, pop)
    ensures Evict(p).1.Some? && CountedBy(Drop(Evict(p).0, Evict(p).1.value), pop)
  {
    EvictedCounted(p.s3, d, pop);
    hide T.Evicted, T.Agrees, T.Removed, Counted;
    T.EvictedKeeps(p.s3, d);
    var (r, victim) := T.Evicted(p.s3);
    T.RemovedAbsent(r, victim.value, d - {victim.value});
  }

  /** How one event on `k` moves the tallies of what was resident. */
  ghost predicate Tallied(d: set<Key>, k: Key, pop: Key -> nat, pop': Key -> nat) {
    forall x :: x in d && x != k ==> pop'(x) == pop(x)
  }

  lemma {:induction false} QueuesHold(s: T.S3, d: map<Key, nat>)
    requires T.Agrees(s, d)
    ensures forall j :: 0 <= j < |s.small| ==> s.small[j].key in d
    ensures forall j :: 0 <= j < |s.main| ==> s.main[j].key in d
  {
  }

  lemma {:induction false} HitCounted(s: T.S3, d: map<Key, nat>, k: Key, pop: Key -> nat, pop': Key -> nat)
    requires T.Agrees(s, d) && k in d && Counted(s.small, s.main, pop)
    requires Tallied(d.Keys, k, pop, pop') && pop'(k) == pop(k) + 1
    ensures var r := T.Hit(s, k); Counted(r.small, r.main, pop')
  {
    QueuesHold(s, d);
    HitRaises(s, k, d);
    hide T.Hit, T.Agrees;
  }

  lemma {:induction false} DroppedAt(q: seq<T.Entry>, r: seq<T.Entry>, k: Key, j: nat) returns (i: nat)
    requires Dropped(q, r, k) && Distinct(T.Keys(q)) && j < |r|
    ensures i < |q| && r[j] == q[i] && q[i].key != k
  {
    hide Distinct, T.Keys;
    if r == q && forall m :: 0 <= m < |q| ==> q[m].key != k {
      i := j;
    } else {
      var m :| 0 <= m < |q| && q[m].key == k && r == q[..m] + q[m + 1..];
      i := if j < m then j else j + 1;
      KeysDiffer(q, i, m);
    }
  }

  lemma {:induction false} KeysDiffer(q: seq<T.Entry>, i: nat, m: nat)
    requires Distinct(T.Keys(q)) && i < |q| && m < |q| && i != m
    ensures q[i].key != q[m].key
  {
    assert T.Keys(q)[i] != T.Keys(q)[m];
  }

  lemma {:induction false} DropCounted(s: T.S3, d: map<Key, nat>, k: Key, pop: Key -> nat, pop': Key -> nat)
    requires T.Agrees(s, d) && Counted(s.small, s.main, pop) && Tallied(d.Keys, k, pop, pop')
    ensures var r := T.Removed(s, k); Counted(r.small, r.main, pop')
  {
    QueuesHold(s, d);
    RemovalDrops(s, k, d);
    var r := T.Removed(s, k);
    hide T.Removed, Dropped, T.Keys;
    forall j | 0 <= j < |r.small| ensures r.small[j].freq + 1 == pop'(r.small[j].key) {
      var i := DroppedAt(s.small, r.small, k, j);
    }
    forall j | 0 <= j < |r.main| ensures r.main[j].freq + 1 <= pop'(r.main[j].key) {
      var i := DroppedAt(s.main, r.main, k, j);
    }
  }

  lemma {:induction false} AdmitCounted(
    s: T.S3, d: map<Key, nat>, k: Key, size: nat, pop: Key -> nat, pop': Key -> nat)
    requires T.Agrees(s, d) && k !in d && Counted(s.small, s.main, pop)
    requires Tallied(d.Keys, k, pop, pop') && pop'(k) == 1
    ensures var r := T.Admitted(s, k, size); Counted(r.small, r.main, pop')
  {
    QueuesHold(s, d);
    AdmissionAppends(s, k, size, d);
    hide T.Admitted, T.Agrees;
  }

  lemma {:induction false} SameCounted(s: T.S3, d: map<Key, nat>, k: Key, pop: Key -> nat, pop': Key -> nat)
    requires T.Agrees(s, d) && k !in d && Counted(s.small, s.main, pop) && Tallied(d.Keys, k, pop, pop')
    ensures Counted(s.small, s.main, pop')
  {
    QueuesHold(s, d);
    hide T.Agrees;
  }

  lemma {:induction false} DecisionCounted(p: PolState, d: map<Key, nat>, k: Key, size: nat, pop: Key -> nat)
    requires Agrees(p, d) && CountedBy(p, pop)
    ensures CountedBy(CanAdmit(p, k, size).0, pop)
  {
    DecisionDrops(p.s3, k, size, d);
    hide T.Decided;
  }

  lemma {:induction false} RoomCounted(c: State<PolState>, k: Key, size: nat, pop: Key -> nat)
    requires c.used == Bytes(c.data) && Agrees(c.pol, c.data) && k !in c.data && CountedBy(c.pol, pop)
    requires size <= c.capacity
    ensures CountedBy(Roomy(c, k, size).pol, pop) && Roomy(c, k, size).data.Keys <= c.data.Keys
  {
    DecideReady(c.pol, c.data, k, size);
    DecisionCounted(c.pol, c.data, k, size, pop);
    hide EvictToFit, CountedBy, Ready, CanAdmit, Bytes, Agrees;
    var d := c.(pol := CanAdmit(c.pol, k, size).0);
    CountedIsKept(pop);
    RoomPreserves(d, k, size, |c.data| + SPARE_BUDGET, p => CountedBy(p, pop));
    EvictToFitEvicts(Ops(), d, size, |c.data| + SPARE_BUDGET);
  }

  lemma {:induction false} InsertCounted(
    c: State<PolState>, k: Key, size: nat, pop: Key -> nat, pop': Key -> nat)
    requires c.used == Bytes(c.data) && Agrees(c.pol, c.data) && k !in c.data && CountedBy(c.pol, pop)
    requires Tallied(c.data.Keys, k, pop, pop')
    requires k in Insert(Ops(), c, k, size).data ==> pop'(k) == 1
    ensures CountedBy(Insert(Ops(), c, k, size).pol, pop')
  {
    DecisionCounted(c.pol, c.data, k, size, pop);
    DecideReady(c.pol, c.data, k, size);
    hide Insert, CanAdmit, Policies.Admit, Bytes, Roomy, CountedBy, Tallied, Agrees, Ready;
    InsertTooBig(c, k, size);
    UncountedMoves(c.pol, c.data, k, pop, pop');
    if size <= c.capacity {
      ReadyMeans(CanAdmit(c.pol, k, size).0, c.data, k);
      UncountedMoves(CanAdmit(c.pol, k, size).0, c.data, k, pop, pop');
      InsertForm(c, k, size);
      InsertAdmits(c, k, size);
      RoomCounted(c, k, size, pop);
      var roomy := Roomy(c, k, size);
      ReadyMeans(roomy.pol, roomy.data, k);
      NarrowTallied(roomy.data.Keys, c.data.Keys, k, pop, pop');
      AdmissionCounted(roomy.pol, roomy.data, k, size, pop, pop');
      assert Ops().onAdmit(roomy.pol, k, size) == Policies.Admit(roomy.pol, k, size);
    }
  }

  lemma {:induction false} NarrowTallied(e: set<Key>, d: set<Key>, k: Key, pop: Key -> nat, pop': Key -> nat)
    requires e <= d && Tallied(d, k, pop, pop')
    ensures Tallied(e, k, pop, pop')
  {
  }

  lemma {:induction false} UncountedMoves(p: PolState, d: map<Key, nat>, k: Key, pop: Key -> nat, pop': Key -> nat)
    requires Agrees(p, d) && CountedBy(p, pop) && k !in d && Tallied(d.Keys, k, pop, pop')
    ensures CountedBy(p, pop')
  {
    SameCounted(p.s3, d, k, pop, pop');
  }

  lemma {:induction false} AdmissionCounted(
    p: PolState, d: map<Key, nat>, k: Key, size: nat, pop: Key -> nat, pop': Key -> nat)
    requires Agrees(p, d) && CountedBy(p, pop) && k !in d && Tallied(d.Keys, k, pop, pop')
    ensures pop'(k) == 1 ==> CountedBy(Policies.Admit(p, k, size), pop')
  {
    if pop'(k) == 1 {
      AdmitCounted(p.s3, d, k, size, pop, pop');
    }
  }

  lemma {:induction false} StepCounted(c: State<PolState>, e: Event, pop: Key -> nat, pop': Key -> nat)
    requires Healthy(c) && CountedBy(c.pol, pop) && Tallied(c.data.Keys, e.key, pop, pop')
    requires !e.Delete? && e.key in c.data ==> pop'(e.key) == pop(e.key) + 1
    requires e.key !in c.data && e.key in Step(Ops(), c, e).data ==> pop'(e.key) == 1
    ensures CountedBy(Step(Ops(), c, e).pol, pop')
  {
    hide Insert, Tallied, Agrees, Counted, T.Hit, T.Removed;
    assert e.OracleRequest? ==> Ops().onNext(c.pol, e.key, e.next) == c.pol;
    assert c.(pol := c.pol) == c;
    AgreesMeans(c.pol, c.data);
    if e.Delete? {
      DropCounted(c.pol.s3, c.data, e.key, pop, pop');
      assert Ops().onRemove(c.pol, e.key) == Drop(c.pol, e.key);
    } else if e.key in c.data {
      HitCounted(c.pol.s3, c.data, e.key, pop, pop');
      assert Ops().onHit(c.pol, e.key) == Policies.Hit(c.pol, e.key);
    } else {
      InsertCounted(c.(stats := CountMiss(c.stats, e.size)), e.key, e.size, pop, pop');
    }
  }

  lemma {:induction false} AgreesMeans(p: PolState, d: map<Key, nat>)
    requires Agrees(p, d) && p.S3Fifo?
    ensures T.Agrees(p.s3, d) && p.s3.mainCap >= 0
  {
  }

  /** Over every run, deletes included, the counter of an object in small is its hits since it
      was admitted, and that of an object in main is no more. */
  lemma {:induction false} CountersCountHits(capacity: nat, p: PolState, es: seq<Event>, i: nat)
    requires Untold(p) && p.S3Fifo? && i <= |es|
    ensures var c := Cold(capacity, p); var r := After(Ops(), c, es, i);
            Healthy(r) && CountedBy(r.pol, Pop(Ops(), c, es, i))
  {
    hide Step, Healthy, CountedBy, Tallied, Popularity;
    var c := Cold(capacity, p);
    ColdIsHealthy(capacity, p);
    RunIsHealthy(c, es, i);
    if i == 0 {
      UntoldCounted(p, Pop(Ops(), c, es, 0));
    } else {
      CountersCountHits(capacity, p, es, i - 1);
      TalliesMove(c, es, i);
      StepCounted(After(Ops(), c, es, i - 1), es[i - 1], Pop(Ops(), c, es, i - 1), Pop(Ops(), c, es, i));
    }
  }

  lemma {:induction false} UntoldCounted(p: PolState, pop: Key -> nat)
    requires Untold(p) && p.S3Fifo?
    ensures CountedBy(p, pop)
  {
  }

  lemma {:induction false} TalliesMove(c: State<PolState>, es: seq<Event>, i: nat)
    requires 0 < i <= |es|
    ensures var b, e := After(Ops(), c, es, i - 1), es[i - 1];
            var pop, pop' := Pop(Ops(), c, es, i - 1), Pop(Ops(), c, es, i);
            && Tallied(b.data.Keys, e.key, pop, pop')
            && (!e.Delete? && e.key in b.data ==> pop'(e.key) == pop(e.key) + 1)
            && (e.key !in b.data && e.key in After(Ops(), c, es, i).data ==> pop'(e.key) == 1)
  {
    hide After, Popularity;
    HistoryShifts(Ops(), c, es, i);
  }

  // ---- the queue that is swept

  lemma {:induction false} SmallIsTouched(s: T.S3, d: map<Key, nat>)
    requires T.Agrees(s, d) && Bytes(d) > 0 && s.mainCap >= 0
    ensures var r := T.Evicted(s).0;
            && (r.small == s.small <==> T.Used(s.main) > s.mainCap || T.Used(s.small) == 0)
            && (r.small == s.small ==> r.ghosts == s.ghosts)
            && (r.small == s.small ==> T.Evicted(s).1.Some? && T.Evicted(s).1.value in T.Keys(s.main))
  {
    var v := EvictionClosedForm(s, d);
    hide T.Evicted, T.Agrees;
    if MainFirst(s) {
      assert T.Keys(s.main)[v] == s.main[v].key;
    } else {
      assert s.small != [];
    }
  }

  /** In the cache: an eviction leaves the small queue alone, and takes its victim from main,
      exactly when main is over its share or no byte is in small. */
  lemma {:induction false} SweepIsChosen(c: State<PolState>)
    requires Healthy(c) && c.pol.S3Fifo? && c.used > 0
    ensures Evict(c.pol).1.Some? && AfterEviction(c).pol.S3Fifo?
    ensures var s, r := c.pol.s3, AfterEviction(c).pol.s3;
            && (r.small == s.small <==> T.Used(s.main) > s.mainCap || T.Used(s.small) == 0)
            && (r.small == s.small ==> Evict(c.pol).1.value in T.Keys(s.main))
  {
    var s := c.pol.s3;
    AgreesMeans(c.pol, c.data);
    hide T.Evicted, T.Agrees, T.Removed, T.Keys, T.Used;
    SmallIsTouched(s, c.data);
    T.EvictedKeeps(s, c.data);
    var (r, victim) := T.Evicted(s);
    T.RemovedAbsent(r, victim.value, c.data - {victim.value});
    AfterEvictionIs(c);
  }
}
