/** The order each list stands in, told from the run: by arrival for FIFO, SIEVE and
    Belady, by last request for LRU. Deletes are allowed, and objects of any size. */
module Orders {
  import opened Base
  import opened CacheSpec
  import opened AnyPolicy
  import opened Policies
  import opened Agreement
  import opened History
  import L = LruPolicy
  import V = SievePolicy
  import B = BeladyPolicy

  ghost predicate InOrder(ks: seq<Key>, f: Key -> int) {
    forall a, b :: 0 <= a < b < |ks| ==> f(ks[a]) < f(ks[b])
  }

  lemma {:induction false} WithoutInOrder(ks: seq<Key>, k: Key, f: Key -> int)
    requires InOrder(ks, f)
    ensures InOrder(Without(ks, k), f)
  {
    var i := IndexOf(ks, k);
    if i < |ks| {
      var r := Cut(ks, i);
      forall a, b | 0 <= a < b < |r| ensures f(r[a]) < f(r[b]) {
        assert r[a] == ks[if a < i then a else a + 1] && r[b] == ks[if b < i then b else b + 1];
      }
    }
  }

  lemma {:induction false} SameInOrder(ks: seq<Key>, f: Key -> int, g: Key -> int)
    requires InOrder(ks, f) && forall x :: x in ks ==> g(x) == f(x)
    ensures InOrder(ks, g)
  {
  }

  lemma {:induction false} AddedInOrder(ks: seq<Key>, k: Key, g: Key -> int)
    requires InOrder(ks, g)
    ensures (forall x :: x in ks ==> g(x) < g(k)) ==> InOrder(ks + [k], g)
    ensures (forall x :: x in ks ==> g(k) < g(x)) ==> InOrder([k] + ks, g)
  {
  }

  // ---- one call

  /** The policies that keep one list: LRU by last request, latest first, the rest by arrival. */
  datatype Lister = FifoList | LruList | SieveList | BeladyList

  ghost predicate Listing(p: PolState, l: Lister) {
    match l
    case FifoList => p.Fifo?
    case LruList => p.Lru?
    case SieveList => p.Sieve?
    case BeladyList => p.Belady?
  }

  /** `p` lists what it tracks by `f`. */
  ghost predicate Lined(p: PolState, l: Lister, f: Key -> int) {
    Listing(p, l) && InOrder(Tracked(p), f)
  }

  lemma {:induction false} DropTracks(p: PolState, k: Key, d: map<Key, nat>, l: Lister)
    requires Agrees(p, d) && Listing(p, l)
    ensures Listing(Drop(p, k), l) && Tracked(Drop(p, k)) == Without(Tracked(p), k)
  {
    match p
    case Fifo(_) =>
    case Lru(_) =>
    case Sieve(s) => V.RemovedKeeps(s, k);
    case Belady(b) => B.RemovedKeeps(b, k);
  }

  lemma {:induction false} EvictTracks(p: PolState, d: map<Key, nat>, l: Lister)
    requires Agrees(p, d) && Listing(p, l)
    ensures Listing(Evict(p).0, l) && Tracked(Evict(p).0) == Tracked(p) && Agrees(Evict(p).0, d)
  {
    if p.Sieve? {
      V.EvictedKeeps(p.sieve);
    }
  }

  lemma {:induction false} EvictionLined(p: PolState, d: map<Key, nat>, l: Lister, f: Key -> int)
    requires Agrees(p, d) && Bytes(d) > 0 && Lined(p, l, f)
    ensures Evict(p).1.Some? && Lined(Drop(Evict(p).0, Evict(p).1.value), l, f)
  {
    EvictAgrees(p, d);
    EvictTracks(p, d, l);
    hide Evict, Drop, Agrees, Tracked, Listing;
    var v := Evict(p).1.value;
    DropTracks(Evict(p).0, v, d, l);
    WithoutInOrder(Tracked(p), v, f);
  }

  lemma {:induction false} LinedIsKept(l: Lister, f: Key -> int)
    ensures KeptByEvictions(p => Lined(p, l, f))
  {
    hide Lined, Agrees, Evict, Drop;
    forall p, d: map<Key, nat> | Agrees(p, d) && Bytes(d) > 0 && Lined(p, l, f)
      ensures Evict(p).1.Some? && Lined(Drop(Evict(p).0, Evict(p).1.value), l, f)
    {
      EvictionLined(p, d, l, f);
    }
  }

  /** How one request of `k` moves the times. Only its own can change, and if it does so it
      becomes the latest; LRU's times are counted backward. */
  ghost predicate Moved(d: set<Key>, k: Key, l: Lister, f: Key -> int, g: Key -> int) {
    forall x :: x in d && x != k ==> g(x) == f(x) && (l.LruList? ==> g(k) < g(x))
  }

  lemma {:induction false} TrackedAre(p: PolState, d: map<Key, nat>, l: Lister)
    requires Agrees(p, d) && Listing(p, l)
    ensures Distinct(Tracked(p)) && forall x :: x in Tracked(p) <==> x in d
  {
    assert forall x :: x in Tracked(p) <==> x in Elements(Tracked(p));
  }

  lemma {:induction false} HitLined(
    p: PolState, d: map<Key, nat>, k: Key, l: Lister, f: Key -> int, g: Key -> int)
    requires Agrees(p, d) && k in d && Lined(p, l, f)
    requires Moved(d.Keys, k, l, f, g) && (!l.LruList? ==> g(k) == f(k))
    ensures Lined(Policies.Hit(p, k), l, g)
  {
    TrackedAre(p, d, l);
    if l.LruList? {
      ToFrontInOrder(p.order, k, f, g);
    } else {
      SameInOrder(Tracked(p), f, g);
      HitTracks(p, d, k, l);
    }
  }

  lemma {:induction false} HitTracks(p: PolState, d: map<Key, nat>, k: Key, l: Lister)
    requires Agrees(p, d) && k in d && Listing(p, l) && !l.LruList?
    ensures Listing(Policies.Hit(p, k), l) && Tracked(Policies.Hit(p, k)) == Tracked(p)
  {
    TrackedAre(p, d, l);
    match p
    case Fifo(_) =>
    case Sieve(s) => V.MarkedKeeps(s, k);
    case Belady(b) =>
      if B.HasHint(b, k) {
        B.WithNextKeeps(b.entries, k, b.pending.value.next);
      }
  }

  lemma {:induction false} ToFrontInOrder(o: seq<Key>, k: Key, f: Key -> int, g: Key -> int)
    requires InOrder(o, f) && Distinct(o)
    requires forall x :: x in o && x != k ==> g(x) == f(x) && g(k) < g(x)
    ensures InOrder(L.ToFront(o, k), g)
  {
    var r := Without(o, k);
    WithoutInOrder(o, k, f);
    WithoutElements(o, k);
    assert forall x :: x in r ==> x in Elements(r);
    assert forall x :: x in r ==> x in o && x != k;
    hide Without, Distinct, Elements;
    SameInOrder(r, f, g);
    AddedInOrder(r, k, g);
  }

  lemma {:induction false} AdmitLined(
    p: PolState, d: map<Key, nat>, k: Key, size: nat, l: Lister, f: Key -> int, g: Key -> int)
    requires Agrees(p, d) && k !in d && Lined(p, l, f)
    requires Moved(d.Keys, k, l, f, g) && (!l.LruList? ==> forall x :: x in d ==> g(x) < g(k))
    ensures Lined(Policies.Admit(p, k, size), l, g)
  {
    TrackedAre(p, d, l);
    SameInOrder(Tracked(p), f, g);
    AddedInOrder(Tracked(p), k, g);
    hide InOrder;
    AdmitTracks(p, d, k, size, l);
  }

  lemma {:induction false} AdmitTracks(p: PolState, d: map<Key, nat>, k: Key, size: nat, l: Lister)
    requires Agrees(p, d) && k !in d && Listing(p, l)
    ensures Listing(Policies.Admit(p, k, size), l)
    ensures Tracked(Policies.Admit(p, k, size)) == if l.LruList? then [k] + Tracked(p) else Tracked(p) + [k]
  {
    TrackedAre(p, d, l);
    WithoutAbsent(Tracked(p), k);
    match p
    case Fifo(_) =>
    case Lru(_) =>
    case Sieve(s) => V.AdmittedKeeps(s, k);
    case Belady(b) =>
      B.WithNextKeeps(b.entries, k, if B.HasHint(b, k) then b.pending.value.next else B.NEVER_AGAIN);
  }

  // ---- one event

  lemma {:induction false} AlwaysAccepts(c: State<PolState>, k: Key, size: nat, l: Lister)
    requires Listing(c.pol, l) && Agrees(c.pol, c.data) && k !in c.data
    ensures CanAdmit(c.pol, k, size) == (c.pol, true) && Ready(c.pol, c.data, k)
  {
  }

  lemma {:induction false} InsertLined(
    c: State<PolState>, k: Key, size: nat, l: Lister, f: Key -> int, g: Key -> int)
    requires c.used == Bytes(c.data) && Agrees(c.pol, c.data) && k !in c.data && Lined(c.pol, l, f)
    requires Moved(c.data.Keys, k, l, f, g)
    requires k in Insert(Ops(), c, k, size).data && !l.LruList? ==> forall x :: x in c.data ==> g(x) < g(k)
    ensures Lined(Insert(Ops(), c, k, size).pol, l, g)
  {
    TrackedAre(c.pol, c.data, l);
    SameInOrder(Tracked(c.pol), f, g);
    InsertTooBig(c, k, size);
    hide Insert, Agrees, Lined, Tracked, InOrder;
    if size <= c.capacity {
      AdmissionLined(c, k, size, l, f, g);
    } else {
      UnmovedLined(c.pol, l, f, g);
    }
  }

  lemma {:induction false} RoomLined(c: State<PolState>, k: Key, size: nat, l: Lister, f: Key -> int)
    requires c.used == Bytes(c.data) && Ready(c.pol, c.data, k) && Lined(c.pol, l, f) && size <= c.capacity
    requires CanAdmit(c.pol, k, size) == (c.pol, true)
    ensures Lined(Roomy(c, k, size).pol, l, f) && Roomy(c, k, size).data.Keys <= c.data.Keys
  {
    hide EvictToFit, Lined, Ready, CanAdmit, Bytes;
    LinedIsKept(l, f);
    assert c.(pol := c.pol) == c;
    RoomPreserves(c, k, size, |c.data| + SPARE_BUDGET, p => Lined(p, l, f));
    EvictToFitEvicts(Ops(), c, size, |c.data| + SPARE_BUDGET);
  }

  lemma {:induction false} AdmissionLined(
    c: State<PolState>, k: Key, size: nat, l: Lister, f: Key -> int, g: Key -> int)
    requires c.used == Bytes(c.data) && Agrees(c.pol, c.data) && k !in c.data && Lined(c.pol, l, f)
    requires size <= c.capacity && Moved(c.data.Keys, k, l, f, g)
    requires k in Insert(Ops(), c, k, size).data && !l.LruList? ==> forall x :: x in c.data ==> g(x) < g(k)
    ensures Lined(Insert(Ops(), c, k, size).pol, l, g)
  {
    AlwaysAccepts(c, k, size, l);
    hide Insert, Agrees, Lined, Ready, CanAdmit, Policies.Admit, Bytes, Roomy, Listing;
    InsertForm(c, k, size);
    InsertAdmits(c, k, size);
    RoomLined(c, k, size, l, f);
    var roomy := Roomy(c, k, size);
    ReadyMeans(roomy.pol, roomy.data, k);
    AdmitLined(roomy.pol, roomy.data, k, size, l, f, g);
    assert Ops().onAdmit(roomy.pol, k, size) == Policies.Admit(roomy.pol, k, size);
  }

  lemma {:induction false} UnmovedLined(p: PolState, l: Lister, f: Key -> int, g: Key -> int)
    requires Lined(p, l, f) && InOrder(Tracked(p), g)
    ensures Lined(p, l, g)
  {
  }

  lemma {:induction false} AccessLined(
    c: State<PolState>, k: Key, size: nat, l: Lister, f: Key -> int, g: Key -> int)
    requires Healthy(c) && Lined(c.pol, l, f) && Moved(c.data.Keys, k, l, f, g)
    requires k in c.data && !l.LruList? ==> g(k) == f(k)
    requires k !in c.data && k in Access(Ops(), c, k, size).data && !l.LruList? ==>
               forall x :: x in c.data ==> g(x) < g(k)
    ensures Lined(Access(Ops(), c, k, size).pol, l, g)
  {
    hide Insert, Lined, Moved, Agrees;
    if k in c.data {
      HitLined(c.pol, c.data, k, l, f, g);
    } else {
      InsertLined(c.(stats := CountMiss(c.stats, size)), k, size, l, f, g);
    }
  }

  lemma {:induction false} DeleteLined(
    c: State<PolState>, k: Key, l: Lister, f: Key -> int, g: Key -> int)
    requires Healthy(c) && Lined(c.pol, l, f) && forall x :: x in c.data && x != k ==> g(x) == f(x)
    ensures Lined(Remove(Ops(), c, k).pol, l, g)
  {
    DropTracks(c.pol, k, c.data, l);
    TrackedAre(c.pol, c.data, l);
    WithoutInOrder(Tracked(c.pol), k, f);
    WithoutElements(Tracked(c.pol), k);
    var r := Without(Tracked(c.pol), k);
    assert forall x :: x in r ==> x in Elements(r);
    assert Ops().onRemove(c.pol, k) == Drop(c.pol, k);
    hide Without, InOrder, Agrees, Drop, Tracked;
    SameInOrder(r, f, g);
  }

  lemma {:induction false} StepLined(
    c: State<PolState>, e: Event, l: Lister, f: Key -> int, g: Key -> int)
    requires Healthy(c) && Lined(c.pol, l, f)
    requires if e.Delete? then forall x :: x in c.data && x != e.key ==> g(x) == f(x)
             else && Moved(c.data.Keys, e.key, l, f, g)
                  && (e.key in c.data && !l.LruList? ==> g(e.key) == f(e.key))
                  && (e.key !in c.data && e.key in Step(Ops(), c, e).data && !l.LruList? ==>
                        forall x :: x in c.data ==> g(x) < g(e.key))
    ensures Lined(Step(Ops(), c, e).pol, l, g)
  {
    hide Access, Moved, Remove, InOrder;
    match e
    case Delete(k) => DeleteLined(c, k, l, f, g);
    case Request(k, size) => AccessLined(c, k, size, l, f, g);
    case OracleRequest(k, size, next) =>
      Hinting(c, k, next);
      HintTracks(c.pol, k, next, l);
      AccessLined(c.(pol := NextAccess(c.pol, k, next)), k, size, l, f, g);
  }

  lemma {:induction false} HintTracks(p: PolState, k: Key, next: int, l: Lister)
    requires Listing(p, l)
    ensures Listing(NextAccess(p, k, next), l) && Tracked(NextAccess(p, k, next)) == Tracked(p)
  {
  }

  // ---- over a run

  /** The time a policy lists by; LRU lists the latest first. */
  ghost function Time(l: Lister, c: State<PolState>, es: seq<Event>, i: nat): Key -> int
    requires i <= |es|
  {
    if l.LruList? then k => -LastRequest(es, i, k) else Arrival(Ops(), c, es, i)
  }

  lemma {:induction false} TimeMoves(l: Lister, c: State<PolState>, es: seq<Event>, i: nat)
    requires 0 < i <= |es|
    ensures var b, e := After(Ops(), c, es, i - 1), es[i - 1];
            var f, g := Time(l, c, es, i - 1), Time(l, c, es, i);
            if e.Delete? then forall x :: x in b.data && x != e.key ==> g(x) == f(x)
            else && Moved(b.data.Keys, e.key, l, f, g)
                 && (e.key in b.data && !l.LruList? ==> g(e.key) == f(e.key))
                 && (e.key !in b.data && e.key in After(Ops(), c, es, i).data && !l.LruList? ==>
                       forall x :: x in b.data ==> g(x) < g(e.key))
  {
    hide After, AdmittedAt, LastRequest;
    HistoryShifts(Ops(), c, es, i);
  }

  /** Over every run, deletes included, FIFO, SIEVE and Belady list what they track in the
      order it arrived, and LRU in the order it was last requested, latest first. */
  lemma {:induction false} ListsStandInOrder(capacity: nat, p: PolState, l: Lister, es: seq<Event>, i: nat)
    requires Untold(p) && Listing(p, l) && i <= |es|
    ensures var r := After(Ops(), Cold(capacity, p), es, i);
            Healthy(r) && Lined(r.pol, l, Time(l, Cold(capacity, p), es, i))
  {
    hide Step, Lined, Healthy, Time, Moved, Untold;
    var c := Cold(capacity, p);
    ColdIsHealthy(capacity, p);
    RunIsHealthy(c, es, i);
    if i == 0 {
      UntoldLined(p, l, Time(l, c, es, 0));
    } else {
      ListsStandInOrder(capacity, p, l, es, i - 1);
      TimeMoves(l, c, es, i);
      StepLined(After(Ops(), c, es, i - 1), es[i - 1], l, Time(l, c, es, i - 1), Time(l, c, es, i));
    }
  }

  lemma {:induction false} UntoldLined(p: PolState, l: Lister, f: Key -> int)
    requires Untold(p) && Listing(p, l)
    ensures Lined(p, l, f)
  {
    assert Tracked(p) == [];
  }

  // ---- victims

  lemma {:induction false} PlaceOf(ks: seq<Key>, k: Key) returns (a: nat)
    requires k in ks
    ensures a < |ks| && ks[a] == k
  {
    a :| 0 <= a < |ks| && ks[a] == k;
  }

  lemma {:induction false} EndIsVictim(p: PolState, d: map<Key, nat>, l: Lister, f: Key -> int, x: Key)
    requires Agrees(p, d) && Lined(p, l, f) && (l.FifoList? || l.LruList?) && x in d
    ensures Evict(p).1.Some? && Evict(p).1.value in d
    ensures var v := Evict(p).1.value; v == x || if l.FifoList? then f(v) < f(x) else f(x) < f(v)
  {
    TrackedAre(p, d, l);
    var ks := Tracked(p);
    var a := PlaceOf(ks, x);
    assert ks[0] in ks && ks[|ks| - 1] in ks;
  }

  /** FIFO's victim is the resident that arrived first. */
  lemma {:induction false} FifoVictimArrivedFirst(capacity: nat, es: seq<Event>, i: nat, x: Key)
    requires i <= |es|
    ensures var c := Cold(capacity, Fifo([])); var r := After(Ops(), c, es, i);
            x in r.data ==>
              Evict(r.pol).1.Some? && var v := Evict(r.pol).1.value;
              v in r.data && (v == x || AdmittedAt(Ops(), c, es, i, v) < AdmittedAt(Ops(), c, es, i, x))
  {
    hide After, AdmittedAt, Lined, Evict;
    var c := Cold(capacity, Fifo([]));
    var r := After(Ops(), c, es, i);
    ListsStandInOrder(capacity, Fifo([]), FifoList, es, i);
    if x in r.data {
      EndIsVictim(r.pol, r.data, FifoList, Time(FifoList, c, es, i), x);
    }
  }

  /** LRU's victim is the resident whose last request is the oldest. */
  lemma {:induction false} LruVictimIsLeastRecent(capacity: nat, es: seq<Event>, i: nat, x: Key)
    requires i <= |es|
    ensures var c := Cold(capacity, Lru([])); var r := After(Ops(), c, es, i);
            x in r.data ==>
              Evict(r.pol).1.Some? && var v := Evict(r.pol).1.value;
              v in r.data && (v == x || LastRequest(es, i, v) < LastRequest(es, i, x))
  {
    hide After, LastRequest, Lined, Evict;
    var c := Cold(capacity, Lru([]));
    var r := After(Ops(), c, es, i);
    ListsStandInOrder(capacity, Lru([]), LruList, es, i);
    if x in r.data {
      EndIsVictim(r.pol, r.data, LruList, Time(LruList, c, es, i), x);
    }
  }

  lemma {:induction false} FurthestIsVictim(p: PolState, f: Key -> int, j: nat)
    requires Lined(p, BeladyList, f) && j < |p.belady.entries|
    ensures var ns := p.belady.entries;
            Evict(p).1.Some? && var v := Evict(p).1.value;
            exists m :: 0 <= m < |ns| && ns[m].key == v
              && (m == j || ns[j].next < ns[m].next || (ns[j].next == ns[m].next && f(v) < f(ns[j].key)))
  {
    var ns := p.belady.entries;
    var m := B.Furthest(ns);
    assert Tracked(p)[j] == ns[j].key && Tracked(p)[m] == ns[m].key;
    assert ns[m].key == Evict(p).1.value;
  }

  /** Belady's victim is a resident stored as needed last, the first to have arrived among
      those. */
  lemma {:induction false} BeladyVictimIsFurthest(capacity: nat, p: PolState, es: seq<Event>, i: nat, j: nat)
    requires Untold(p) && p.Belady? && i <= |es|
    ensures var c := Cold(capacity, p); var r := After(Ops(), c, es, i);
            r.pol.Belady? && var ns := r.pol.belady.entries;
            j < |ns| ==>
              Evict(r.pol).1.Some? && var v := Evict(r.pol).1.value;
              exists m :: 0 <= m < |ns| && ns[m].key == v
                && (m == j || ns[j].next < ns[m].next
                    || (ns[j].next == ns[m].next
                        && AdmittedAt(Ops(), c, es, i, v) < AdmittedAt(Ops(), c, es, i, ns[j].key)))
  {
    hide After, AdmittedAt, Evict, InOrder;
    var c := Cold(capacity, p);
    var r := After(Ops(), c, es, i);
    ListsStandInOrder(capacity, p, BeladyList, es, i);
    if j < |r.pol.belady.entries| {
      FurthestIsVictim(r.pol, Time(BeladyList, c, es, i), j);
    }
  }
}
