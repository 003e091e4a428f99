/** LFU over whole runs: what the frequency lists mean in terms of the requests made. */
module LfuTheorems {
  import opened Base
  import opened CacheSpec
  import opened AnyPolicy
  import opened Policies
  import opened Agreement
  import opened History
  import U = LfuPolicy

  // ---- entries ranked by it

  /** Frequencies are popularities, and entries stand in order of their last request. */
  ghost predicate Ranked(es: seq<U.Entry>, pop: Key -> nat, last: Key -> int) {
    && (forall j :: 0 <= j < |es| ==> es[j].freq == pop(es[j].key))
    && (forall a, b :: 0 <= a < b < |es| ==> last(es[a].key) < last(es[b].key))
  }

  lemma {:induction false} CutRanked(es: seq<U.Entry>, i: nat, pop: Key -> nat, last: Key -> int)
    requires Ranked(es, pop, last) && i < |es|
    ensures Ranked(Cut(es, i), pop, last)
  {
    var r := Cut(es, i);
    forall a, b | 0 <= a < b < |r| ensures last(r[a].key) < last(r[b].key) {
      assert r[a] == es[if a < i then a else a + 1] && r[b] == es[if b < i then b else b + 1];
    }
  }

  lemma {:induction false} RemovedRanked(es: seq<U.Entry>, k: Key, pop: Key -> nat, last: Key -> int)
    requires Ranked(es, pop, last)
    ensures Ranked(U.Removed(es, k), pop, last)
  {
    var i := IndexOf(U.Keys(es), k);
    if i < |es| {
      CutRanked(es, i, pop, last);
    }
  }

  ghost predicate RankedBy(c: State<PolState>, pop: Key -> nat, last: Key -> int) {
    c.pol.Lfu? && Ranked(c.pol.entries, pop, last)
  }

  lemma {:induction false} EvictionRanked(c: State<PolState>, pop: Key -> nat, last: Key -> int)
    requires RankedBy(c, pop, last) && Evict(c.pol).1.Some?
    ensures RankedBy(AfterEviction(c), pop, last)
  {
    var v := Evict(c.pol).1.value;
    RemovedRanked(c.pol.entries, v, pop, last);
    assert Ops().onRemove(c.pol, v) == Drop(c.pol, v);
  }

  lemma {:induction false} RoomRanked(
    c: State<PolState>, k: Key, need: nat, budget: nat, pop: Key -> nat, last: Key -> int)
    requires RankedBy(c, pop, last) && c.used == Bytes(c.data) && Ready(c.pol, c.data, k)
    requires need <= c.capacity && |c.data| <= budget
    ensures RankedBy(EvictToFit(Ops(), c, need, budget), pop, last)
    decreases budget
  {
    hide Evict, AfterEviction, EvictToFit, Ready, Bytes, RankedBy;
    EvictToFitStep(c, need, budget);
    if c.used + need > c.capacity {
      OneEviction(c, k);
      EvictionRanked(c, pop, last);
      RoomRanked(AfterEviction(c), k, need, budget - 1, pop, last);
    }
  }

  /** The requested key, if resident, goes last, at its new popularity. */
  lemma {:induction false} AppendRanked(
    es: seq<U.Entry>, k: Key, f: nat, pop: Key -> nat, last: Key -> int, pop': Key -> nat,
    last': Key -> int)
    requires Ranked(es, pop, last) && k !in U.Keys(es)
    requires forall x :: x in U.Keys(es) ==> pop'(x) == pop(x) && last'(x) == last(x) < last'(k)
    ensures Ranked(es, pop', last')
    ensures pop'(k) == f ==> Ranked(es + [U.Entry(k, f)], pop', last')
  {
    assert forall j :: 0 <= j < |es| ==> U.Keys(es)[j] == es[j].key && es[j].key in U.Keys(es);
  }

  /** How popularity and recency shift when `k` is requested at time `i`. */
  ghost predicate Shifts(d: set<Key>, k: Key, pop: Key -> nat, last: Key -> int,
                         pop': Key -> nat, last': Key -> int)
  {
    forall x :: x in d && x != k ==> pop'(x) == pop(x) && last'(x) == last(x) < last'(k)
  }

  lemma {:induction false} HitRanked(
    es: seq<U.Entry>, d: set<Key>, k: Key, pop: Key -> nat, last: Key -> int, pop': Key -> nat,
    last': Key -> int)
    requires Ranked(es, pop, last) && Distinct(U.Keys(es)) && Elements(U.Keys(es)) == d && k in d
    requires Shifts(d, k, pop, last, pop', last') && pop'(k) == pop(k) + 1
    ensures Ranked(U.Promoted(es, k), pop', last')
  {
    var i := IndexOf(U.Keys(es), k);
    CutOthers(es, k);
    hide Cut, Distinct, Elements, U.Keys;
    CutRanked(es, i, pop, last);
    AppendRanked(Cut(es, i), k, es[i].freq + 1, pop, last, pop', last');
  }

  lemma {:induction false} CutOthers(es: seq<U.Entry>, k: Key)
    requires Distinct(U.Keys(es)) && k in Elements(U.Keys(es))
    ensures var i := IndexOf(U.Keys(es), k);
            && i < |es| && es[i].key == k && k !in U.Keys(Cut(es, i))
            && forall x :: x in U.Keys(Cut(es, i)) ==> x in Elements(U.Keys(es)) && x != k
  {
    var ks := U.Keys(es);
    var i := IndexOf(ks, k);
    assert ks[i] == es[i].key;
    CutDistinct(ks, i);
    CutElements(ks, i);
    assert U.Keys(Cut(es, i)) == Cut(ks, i);
    hide Distinct, Cut;
    assert forall x :: x in Cut(ks, i) ==> x in Elements(Cut(ks, i));
  }

  lemma {:induction false} InsertRanked(
    c: State<PolState>, k: Key, size: nat, pop: Key -> nat, last: Key -> int, pop': Key -> nat,
    last': Key -> int)
    requires RankedBy(c, pop, last) && c.used == Bytes(c.data) && Agrees(c.pol, c.data) && k !in c.data
    requires Shifts(c.data.Keys, k, pop, last, pop', last')
    requires k in Insert(Ops(), c, k, size).data ==> pop'(k) == 1
    ensures RankedBy(Insert(Ops(), c, k, size), pop', last')
  {
    hide Insert, EvictToFit, Agrees, Ranked, CacheSpec.Admit, Ready;
    InsertTooBig(c, k, size);
    if size <= c.capacity {
      IsReady(c, k);
      InsertForm(c, k, size);
      assert c.(pol := c.pol) == c;
      RoomRanked(c, k, size, |c.data| + SPARE_BUDGET, pop, last);
      EvictToFitEvicts(Ops(), c, size, |c.data| + SPARE_BUDGET);
      InsertAdmits(c, k, size);
      AdmitRanked(Roomy(c, k, size), k, size, pop, last, pop', last');
    } else {
      StaysRanked(c, k, pop, last, pop', last');
    }
  }

  lemma {:induction false} IsReady(c: State<PolState>, k: Key)
    requires c.pol.Lfu? && Agrees(c.pol, c.data) && k !in c.data
    ensures Ready(c.pol, c.data, k) && CanAdmit(c.pol, k, 0) == (c.pol, true)
  {
  }

  lemma {:induction false} StaysRanked(
    c: State<PolState>, k: Key, pop: Key -> nat, last: Key -> int, pop': Key -> nat, last': Key -> int)
    requires RankedBy(c, pop, last) && Agrees(c.pol, c.data) && k !in c.data
    requires Shifts(c.data.Keys, k, pop, last, pop', last')
    ensures RankedBy(c, pop', last')
    ensures pop'(k) == 1 ==> Ranked(c.pol.entries + [U.Entry(k, 1)], pop', last')
    ensures k !in U.Keys(c.pol.entries)
  {
    var es := c.pol.entries;
    assert Elements(U.Keys(es)) == c.data.Keys;
    assert forall x :: x in U.Keys(es) <==> x in Elements(U.Keys(es));
    AppendRanked(es, k, 1, pop, last, pop', last');
  }

  lemma {:induction false} AdmitRanked(
    c: State<PolState>, k: Key, size: nat, pop: Key -> nat, last: Key -> int, pop': Key -> nat,
    last': Key -> int)
    requires RankedBy(c, pop, last) && Ready(c.pol, c.data, k)
    requires Shifts(c.data.Keys, k, pop, last, pop', last') && pop'(k) == 1
    ensures RankedBy(CacheSpec.Admit(Ops(), c, k, size), pop', last')
  {
    hide Agrees, Ranked;
    ReadyMeans(c.pol, c.data, k);
    StaysRanked(c, k, pop, last, pop', last');
    assert Ops().onAdmit(c.pol, k, size) == Lfu(U.Admitted(c.pol.entries, k));
  }

  lemma {:induction false} DeleteRanked(
    c: State<PolState>, k: Key, pop: Key -> nat, last: Key -> int, pop': Key -> nat, last': Key -> int)
    requires RankedBy(c, pop, last) && Agrees(c.pol, c.data)
    requires forall x :: x in c.data && x != k ==> pop'(x) == pop(x) && last'(x) == last(x)
    ensures RankedBy(Remove(Ops(), c, k), pop', last')
  {
    var es := c.pol.entries;
    var r := U.Removed(es, k);
    RemovedRanked(es, k, pop, last);
    U.RemovedKeeps(es, k);
    WithoutElements(U.Keys(es), k);
    assert Ops().onRemove(c.pol, k) == Lfu(r);
    forall j | 0 <= j < |r| ensures pop'(r[j].key) == pop(r[j].key) && last'(r[j].key) == last(r[j].key) {
      assert U.Keys(r)[j] == r[j].key;
      assert r[j].key in Elements(U.Keys(r));
    }
  }

  // ---- over a run

  lemma {:induction false} RunShifts(c: State<PolState>, es: seq<Event>, i: nat)
    requires 0 < i <= |es|
    ensures var d := After(Ops(), c, es, i - 1).data; var k := es[i - 1].key;
            && (!es[i - 1].Delete? ==>
                  Shifts(d.Keys, k, Pop(Ops(), c, es, i - 1), Last(es, i - 1), Pop(Ops(), c, es, i), Last(es, i)))
            && (es[i - 1].Delete? ==>
                  forall x :: x in d && x != k ==>
                    Popularity(Ops(), c, es, i, x) == Popularity(Ops(), c, es, i - 1, x)
                    && LastRequest(es, i, x) == LastRequest(es, i - 1, x))
            && (!es[i - 1].Delete? && k in d ==>
                  Popularity(Ops(), c, es, i, k) == Popularity(Ops(), c, es, i - 1, k) + 1)
            && (k !in d && k in After(Ops(), c, es, i).data ==> Popularity(Ops(), c, es, i, k) == 1)
  {
    hide Step, After, Popularity, LastRequest;
    HistoryShifts(Ops(), c, es, i);
  }

  lemma {:induction false} AccessRanked(
    c: State<PolState>, k: Key, size: nat, pop: Key -> nat, last: Key -> int, pop': Key -> nat,
    last': Key -> int)
    requires Healthy(c) && RankedBy(c, pop, last)
    requires Shifts(c.data.Keys, k, pop, last, pop', last')
    requires k in c.data ==> pop'(k) == pop(k) + 1
    requires k !in c.data && k in Access(Ops(), c, k, size).data ==> pop'(k) == 1
    ensures RankedBy(Access(Ops(), c, k, size), pop', last')
  {
    hide Insert, Ranked, Shifts;
    if k in c.data {
      HitRanked(c.pol.entries, c.data.Keys, k, pop, last, pop', last');
      assert Ops().onHit(c.pol, k) == Lfu(U.Promoted(c.pol.entries, k));
    } else {
      InsertRanked(c.(stats := CountMiss(c.stats, size)), k, size, pop, last, pop', last');
    }
  }

  lemma {:induction false} StepRanked(
    c: State<PolState>, e: Event, pop: Key -> nat, last: Key -> int, pop': Key -> nat, last': Key -> int)
    requires Healthy(c) && RankedBy(c, pop, last)
    requires if e.Delete? then forall x :: x in c.data && x != e.key ==> pop'(x) == pop(x) && last'(x) == last(x)
             else && Shifts(c.data.Keys, e.key, pop, last, pop', last')
                  && (e.key in c.data ==> pop'(e.key) == pop(e.key) + 1)
                  && (e.key !in c.data && e.key in Step(Ops(), c, e).data ==> pop'(e.key) == 1)
    ensures RankedBy(Step(Ops(), c, e), pop', last')
  {
    hide Access, Ranked, Shifts, Healthy;
    match e
    case Delete(k) => DeleteHealthyRanked(c, k, pop, last, pop', last');
    case Request(k, size) => AccessRanked(c, k, size, pop, last, pop', last');
    case OracleRequest(k, size, next) =>
      assert Ops().onNext(c.pol, k, next) == c.pol;
      assert c.(pol := c.pol) == c;
      AccessRanked(c, k, size, pop, last, pop', last');
  }

  lemma {:induction false} DeleteHealthyRanked(
    c: State<PolState>, k: Key, pop: Key -> nat, last: Key -> int, pop': Key -> nat, last': Key -> int)
    requires Healthy(c) && RankedBy(c, pop, last)
    requires forall x :: x in c.data && x != k ==> pop'(x) == pop(x) && last'(x) == last(x)
    ensures RankedBy(Remove(Ops(), c, k), pop', last')
  {
    DeleteRanked(c, k, pop, last, pop', last');
  }

  /** Over every run, deletes included, each object's frequency is one plus its hits since
      admission, and objects stand in order of their last request. */
  lemma {:induction false} FrequenciesCountHits(capacity: nat, es: seq<Event>, i: nat)
    requires i <= |es|
    ensures var c := Cold(capacity, Lfu([]));
            Healthy(After(Ops(), c, es, i))
            && RankedBy(After(Ops(), c, es, i), Pop(Ops(), c, es, i), Last(es, i))
  {
    hide Step, RankedBy, Shifts, Healthy;
    var c := Cold(capacity, Lfu([]));
    ColdIsHealthy(capacity, Lfu([]));
    RunIsHealthy(c, es, i);
    if i == 0 {
      EmptyRanked(c, Pop(Ops(), c, es, i), Last(es, i));
    } else {
      FrequenciesCountHits(capacity, es, i - 1);
      RunShifts(c, es, i);
      StepRanked(After(Ops(), c, es, i - 1), es[i - 1], Pop(Ops(), c, es, i - 1), Last(es, i - 1),
                 Pop(Ops(), c, es, i), Last(es, i));
    }
  }

  lemma {:induction false} EmptyRanked(c: State<PolState>, pop: Key -> nat, last: Key -> int)
    requires c.pol == Lfu([])
    ensures RankedBy(c, pop, last)
  {
  }

  /** The victim is the resident least in (popularity, last request). */
  lemma {:induction false} LfuVictimIsLeastPopular(capacity: nat, es: seq<Event>, i: nat, x: Key)
    requires i <= |es|
    ensures var c := Cold(capacity, Lfu([])); var r := After(Ops(), c, es, i);
            (Evict(r.pol).1.Some? <==> r.data != map[]) &&
            (x in r.data ==>
               var v := Evict(r.pol).1.value;
               var p, q := Popularity(Ops(), c, es, i, v), Popularity(Ops(), c, es, i, x);
               v in r.data && (v == x || p < q || (p == q && LastRequest(es, i, v) < LastRequest(es, i, x))))
  {
    hide After, Popularity;
    FrequenciesCountHits(capacity, es, i);
    var c := Cold(capacity, Lfu([]));
    var r := After(Ops(), c, es, i);
    LeastIsVictim(r, Pop(Ops(), c, es, i), Last(es, i), x);
  }

  lemma {:induction false} LeastIsVictim(c: State<PolState>, pop: Key -> nat, last: Key -> int, x: Key)
    requires Healthy(c) && RankedBy(c, pop, last)
    ensures Evict(c.pol).1.Some? <==> c.data != map[]
    ensures x in c.data ==>
              var v := Evict(c.pol).1.value;
              v in c.data && (v == x || pop(v) < pop(x) || (pop(v) == pop(x) && last(v) < last(x)))
  {
    var es := c.pol.entries;
    assert es == [] <==> c.data == map[] by {
      assert es != [] ==> U.Keys(es)[0] in Elements(U.Keys(es));
      assert es == [] ==> c.data.Keys == {};
    }
    if x in c.data {
      assert x in Elements(U.Keys(es));
      var j :| 0 <= j < |es| && U.Keys(es)[j] == x;
      var m := U.Least(es);
      assert U.Keys(es)[m] in Elements(U.Keys(es));
    }
  }
}
