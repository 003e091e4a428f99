/** SIEVE from one victim to the next: what requests in between leave alone, and where the
    sweep takes up again. */
module SieveRuns {
  import opened Base
  import opened Index
  import opened CacheSpec
  import opened AnyPolicy
  import opened Policies
  import opened Agreement
  import V = SievePolicy

  // ---- requests that evict nothing

  /** Whether one of the first `i` events hit `k`. */
  ghost predicate HitIn(c: State<PolState>, es: seq<Event>, i: nat, k: Key)
    requires i <= |es|
  {
    i > 0 && (HitIn(c, es, i - 1, k)
              || (!es[i - 1].Delete? && es[i - 1].key == k && k in After(Ops(), c, es, i - 1).data))
  }

  /** `t` is `s` with newcomers behind, the hand where it was, and the bits in `hit` set. */
  ghost predicate Undisturbed(s: V.Sieve, t: V.Sieve, hit: Key -> bool) {
    && t.hand == s.hand && |s.q| <= |t.q|
    && (forall j :: 0 <= j < |s.q| ==> t.q[j] == V.Entry(s.q[j].key, s.q[j].visited || hit(s.q[j].key)))
    && (forall j :: |s.q| <= j < |t.q| ==> t.q[j].visited == hit(t.q[j].key))
  }

  /** A miss that evicts nothing is refused for its size or only admitted. */
  lemma {:induction false} QuietInsert(c: State<PolState>, k: Key, size: nat)
    requires c.used == Bytes(c.data) && Agrees(c.pol, c.data) && c.pol.Sieve? && k !in c.data
    requires Insert(Ops(), c, k, size).stats.evictions == c.stats.evictions
    ensures Insert(Ops(), c, k, size).pol == if size > c.capacity then c.pol else Policies.Admit(c.pol, k, size)
  {
    assert CanAdmit(c.pol, k, size) == (c.pol, true) && Ready(c.pol, c.data, k);
    hide Insert, EvictToFit, Agrees, Ready, CanAdmit, Policies.Admit, Bytes, AfterEviction, Evict;
    InsertTooBig(c, k, size);
    if size <= c.capacity {
      InsertForm(c, k, size);
      assert c.(pol := c.pol) == c;
      EvictToFitStep(c, size, |c.data| + SPARE_BUDGET);
      if c.used + size > c.capacity {
        OneEviction(c, k);
        BudgetBoundsAttempts(Ops(), AfterEviction(c), size, |c.data| + SPARE_BUDGET - 1);
      }
      assert Ops().onAdmit(c.pol, k, size) == Policies.Admit(c.pol, k, size);
    }
  }

  lemma {:induction false} MarkedUndisturbed(s: V.Sieve, k: Key)
    requires V.Sane(s)
    ensures Undisturbed(s, V.Marked(s, k), x => x == k) && |V.Marked(s, k).q| == |s.q|
  {
    V.MarkedKeeps(s, k);
  }

  lemma {:induction false} AdmittedUndisturbed(s: V.Sieve, k: Key)
    requires V.Sane(s) && k !in V.Keys(s.q)
    ensures var t := V.Admitted(s, k);
            Undisturbed(s, t, x => false) && |t.q| == |s.q| + 1 && t.q[|s.q|].key == k
  {
    V.AdmittedKeeps(s, k);
  }

  lemma {:induction false} SameBits(s: V.Sieve, t: V.Sieve, f: Key -> bool, g: Key -> bool)
    requires Undisturbed(s, t, f) && forall x :: f(x) == g(x)
    ensures Undisturbed(s, t, g)
  {
  }

  lemma {:induction false} QueueIsData(c: State<PolState>)
    requires Healthy(c) && c.pol.Sieve?
    ensures V.Sane(c.pol.sieve) && forall k :: k in c.data <==> k in V.Keys(c.pol.sieve.q)
  {
    assert forall k :: k in V.Keys(c.pol.sieve.q) <==> k in Elements(V.Keys(c.pol.sieve.q));
  }

  lemma {:induction false} QuietAccess(c: State<PolState>, k: Key, size: nat)
    requires Healthy(c) && c.pol.Sieve?
    requires Access(Ops(), c, k, size).stats.evictions == c.stats.evictions
    ensures var r := Access(Ops(), c, k, size); var s := c.pol.sieve;
            && r.pol.Sieve?
            && Undisturbed(s, r.pol.sieve, x => x == k && x in c.data)
            && (|r.pol.sieve.q| > |s.q| ==>
                  |r.pol.sieve.q| == |s.q| + 1 && r.pol.sieve.q[|s.q|].key == k && k !in c.data)
  {
    var s := c.pol.sieve;
    var hit: Key -> bool := x => x == k && x in c.data;
    QueueIsData(c);
    if k in c.data {
      hide Insert, Undisturbed, V.Marked;
      MarkedUndisturbed(s, k);
      SameBits(s, V.Marked(s, k), x => x == k, hit);
      assert Ops().onHit(c.pol, k) == Sieve(V.Marked(s, k));
    } else {
      QuietInsert(c.(stats := CountMiss(c.stats, size)), k, size);
      AdmittedUndisturbed(s, k);
      hide Insert, V.Admitted;
      SameBits(s, V.Admitted(s, k), x => false, hit);
      Untouched(s, hit);
    }
  }

  lemma {:induction false} Untouched(s: V.Sieve, hit: Key -> bool)
    requires forall j :: 0 <= j < |s.q| ==> !hit(s.q[j].key)
    ensures Undisturbed(s, s, hit)
  {
  }

  lemma {:induction false} QuietStep(c: State<PolState>, e: Event)
    requires Healthy(c) && c.pol.Sieve? && !e.Delete?
    requires Step(Ops(), c, e).stats.evictions == c.stats.evictions
    ensures var r := Step(Ops(), c, e); var s := c.pol.sieve;
            && r.pol.Sieve?
            && Undisturbed(s, r.pol.sieve, k => k == e.key && k in c.data)
            && (|r.pol.sieve.q| > |s.q| ==>
                  |r.pol.sieve.q| == |s.q| + 1 && r.pol.sieve.q[|s.q|].key == e.key && e.key !in c.data)
  {
    hide Access;
    assert e.OracleRequest? ==> Ops().onNext(c.pol, e.key, e.next) == c.pol;
    assert c.(pol := c.pol) == c;
    QuietAccess(c, e.key, e.size);
  }

  lemma {:induction false} UndisturbedTwice(
    s: V.Sieve, t: V.Sieve, u: V.Sieve, f: Key -> bool, g: Key -> bool, h: Key -> bool)
    requires Undisturbed(s, t, f) && Undisturbed(t, u, g)
    requires forall k :: h(k) == (f(k) || g(k))
    requires forall j :: |t.q| <= j < |u.q| ==> !f(u.q[j].key)
    ensures Undisturbed(s, u, h)
  {
  }

  /** A stretch of requests that evicts nothing moves neither the hand nor any object, and
      sets exactly the bits of those hit in it; newcomers stand last. */
  lemma {:induction false} QuietRun(c: State<PolState>, es: seq<Event>, i: nat)
    requires Healthy(c) && c.pol.Sieve? && i <= |es|
    requires forall j :: 0 <= j < i ==> !es[j].Delete?
    requires After(Ops(), c, es, i).stats.evictions == c.stats.evictions
    ensures var r := After(Ops(), c, es, i);
            Healthy(r) && r.pol.Sieve? && Undisturbed(c.pol.sieve, r.pol.sieve, k => HitIn(c, es, i, k))
    ensures forall k :: HitIn(c, es, i, k) ==> k in After(Ops(), c, es, i).data
  {
    hide Step, Healthy;
    RunIsHealthy(c, es, i);
    if i > 0 {
      QuietSoFar(c, es, i - 1);
      QuietSoFar(c, es, i);
      QuietRun(c, es, i - 1);
      var b, r := After(Ops(), c, es, i - 1), After(Ops(), c, es, i);
      QuietStep(b, es[i - 1]);
      StaysIn(b, es[i - 1]);
      UndisturbedTwice(c.pol.sieve, b.pol.sieve, r.pol.sieve, k => HitIn(c, es, i - 1, k),
                       k => k == es[i - 1].key && k in b.data, k => HitIn(c, es, i, k));
    }
  }

  lemma {:induction false} QuietSoFar(c: State<PolState>, es: seq<Event>, i: nat)
    requires i <= |es|
    ensures After(Ops(), c, es, i).stats.evictions >= c.stats.evictions
    ensures i > 0 ==> After(Ops(), c, es, i).stats.evictions >= After(Ops(), c, es, i - 1).stats.evictions
  {
    hide Step;
    if i > 0 {
      QuietSoFar(c, es, i - 1);
      EvictionsGrow(Ops(), After(Ops(), c, es, i - 1), es[i - 1]);
    }
  }

  /** What a quiet request finds resident stays. */
  lemma {:induction false} StaysIn(c: State<PolState>, e: Event)
    requires Healthy(c) && c.pol.Sieve? && !e.Delete?
    requires Step(Ops(), c, e).stats.evictions == c.stats.evictions
    ensures c.data.Keys <= Step(Ops(), c, e).data.Keys
  {
    StepIsHealthy(c, e);
    QuietStep(c, e);
    var r := Step(Ops(), c, e);
    hide Step;
    forall k | k in c.data ensures k in r.data {
      assert k in Elements(V.Keys(c.pol.sieve.q));
      var j :| 0 <= j < |c.pol.sieve.q| && V.Keys(c.pol.sieve.q)[j] == k;
      assert V.Keys(r.pol.sieve.q)[j] == k;
      assert k in Elements(V.Keys(r.pol.sieve.q));
    }
  }

  // ---- from one victim to the next

  /** The state from which the last of the evictions that make room is made. */
  lemma {:induction false} LastEviction(c: State<PolState>, k: Key, need: nat, budget: nat)
    returns (m: State<PolState>)
    requires c.used == Bytes(c.data) && Ready(c.pol, c.data, k) && c.pol.Sieve?
    requires need <= c.capacity && |c.data| <= budget && c.used + need > c.capacity
    ensures m.used == Bytes(m.data) > 0 && Ready(m.pol, m.data, k) && m.pol.Sieve?
    ensures Evict(m.pol).1.Some? && EvictToFit(Ops(), c, need, budget) == AfterEviction(m)
    decreases budget
  {
    hide Evict, Ready, AfterEviction, EvictToFit, Bytes;
    EvictToFitStep(c, need, budget);
    OneEviction(c, k);
    StaysSieve(c, k);
    var d := AfterEviction(c);
    if d.used + need > d.capacity {
      m := LastEviction(d, k, need, budget - 1);
    } else {
      EvictToFitStep(d, need, budget - 1);
      m := c;
    }
  }

  lemma {:induction false} StaysSieve(c: State<PolState>, k: Key)
    requires c.pol.Sieve? && Evict(c.pol).1.Some?
    ensures AfterEviction(c).pol.Sieve?
    ensures AfterEviction(c).pol.sieve == V.Removed(V.Evicted(c.pol.sieve).0, V.Evicted(c.pol.sieve).1.value)
  {
    hide V.Evicted, V.Removed;
    AfterEvictionIs(c);
  }

  /** `t` is a queue from which the victim has gone, or one undisturbed since: its hand rests
      on what stood just newer than place `p`, or nowhere if nothing did. */
  ghost predicate Resumes(before: seq<Key>, p: nat, t: V.Sieve) {
    && p < |before| && |before| - 1 <= |t.q|
    && V.Keys(t.q)[..|before| - 1] == Cut(before, p)
    && t.hand == if p + 1 < |before| then Some(before[p + 1]) else None
  }

  lemma {:induction false} StartOfResumed(before: seq<Key>, p: nat, t: V.Sieve)
    requires Resumes(before, p, t) && V.Sane(t) && t.q != []
    ensures V.Start(t) == if p + 1 < |before| then p else 0
  {
    if p + 1 < |before| {
      assert V.Keys(t.q)[p] == V.Keys(t.q)[..|before| - 1][p] == before[p + 1];
      NameAt(V.Label, t.q, p);
    }
  }

  lemma {:induction false} ResumesUndisturbed(before: seq<Key>, p: nat, s: V.Sieve, t: V.Sieve, hit: Key -> bool)
    requires Resumes(before, p, s) && Undisturbed(s, t, hit)
    ensures Resumes(before, p, t)
  {
    assert V.Keys(t.q)[..|before| - 1] == V.Keys(s.q)[..|before| - 1];
  }

  lemma {:induction false} VictimResumes(m: State<PolState>, k: Key)
    returns (p: nat)
    requires m.pol.Sieve? && m.used == Bytes(m.data) > 0 && Ready(m.pol, m.data, k)
    ensures Evict(m.pol).1.Some? && AfterEviction(m).pol.Sieve?
    ensures Resumes(V.Keys(m.pol.sieve.q), p, AfterEviction(m).pol.sieve)
    ensures p < |m.pol.sieve.q| && Evict(m.pol).1.value == m.pol.sieve.q[p].key
  {
    hide Bytes, Ready, AfterEviction;
    OneEviction(m, k);
    StaysSieve(m, k);
    ReadySieve(m, k);
    p := ResumesAfter(m.pol.sieve);
  }

  lemma {:induction false} ResumesAfter(s: V.Sieve) returns (p: nat)
    requires V.Sane(s) && V.Evicted(s).1.Some?
    ensures p < |s.q| && V.Evicted(s).1.value == s.q[p].key
    ensures Resumes(V.Keys(s.q), p, V.Removed(V.Evicted(s).0, s.q[p].key))
  {
    assert s.q != [];
    hide V.Removed;
    V.SweepResumes(s);
    p := V.Sweep(s.q, V.Start(s)).1;
    assert V.Keys(s.q)[p] == s.q[p].key;
    assert p + 1 < |s.q| ==> V.Keys(s.q)[p + 1] == s.q[p + 1].key;
    var t := V.Removed(V.Evicted(s).0, s.q[p].key);
    assert V.Keys(t.q)[..|V.Keys(s.q)| - 1] == V.Keys(t.q);
  }

  lemma {:induction false} EvictingInsert(c: State<PolState>, k: Key, size: nat)
    returns (m: State<PolState>, p: nat)
    requires c.used == Bytes(c.data) && Agrees(c.pol, c.data) && c.pol.Sieve? && k !in c.data
    requires Insert(Ops(), c, k, size).stats.evictions > c.stats.evictions
    ensures m.pol.Sieve? && Evict(m.pol).1.Some? && AfterEviction(m) == Roomy(c, k, size)
    ensures var r := Insert(Ops(), c, k, size);
            r.pol.Sieve? && Resumes(V.Keys(m.pol.sieve.q), p, r.pol.sieve)
    ensures p < |m.pol.sieve.q| && Evict(m.pol).1.value == m.pol.sieve.q[p].key
  {
    assert CanAdmit(c.pol, k, size) == (c.pol, true) && Ready(c.pol, c.data, k);
    hide Insert, EvictToFit, Agrees, Ready, CanAdmit, Bytes, AfterEviction, Evict, V.Admitted, Resumes, Policies.Admit;
    InsertTooBig(c, k, size);
    InsertForm(c, k, size);
    assert c.(pol := c.pol) == c;
    EvictToFitStep(c, size, |c.data| + SPARE_BUDGET);
    m := LastEviction(c, k, size, |c.data| + SPARE_BUDGET);
    p := VictimResumes(m, k);
    var roomy := Roomy(c, k, size);
    ReadySieve(roomy, k);
    AdmittedUndisturbed(roomy.pol.sieve, k);
    AdmitIs(roomy.pol, k, size);
    assert Ops().onAdmit(roomy.pol, k, size) == Policies.Admit(roomy.pol, k, size);
    ResumesUndisturbed(V.Keys(m.pol.sieve.q), p, roomy.pol.sieve, V.Admitted(roomy.pol.sieve, k), x => false);
  }

  lemma {:induction false} AdmitIs(p: PolState, k: Key, size: nat)
    requires p.Sieve?
    ensures Policies.Admit(p, k, size) == Sieve(V.Admitted(p.sieve, k))
  {
  }

  lemma {:induction false} ReadySieve(c: State<PolState>, k: Key)
    requires c.pol.Sieve? && Ready(c.pol, c.data, k)
    ensures V.Sane(c.pol.sieve) && k !in V.Keys(c.pol.sieve.q)
  {
    assert k !in Elements(V.Keys(c.pol.sieve.q));
  }

  lemma {:induction false} EvictingStep(c: State<PolState>, e: Event) returns (m: State<PolState>, p: nat)
    requires Healthy(c) && c.pol.Sieve? && !e.Delete?
    requires Step(Ops(), c, e).stats.evictions > c.stats.evictions
    ensures m.pol.Sieve? && Evict(m.pol).1.Some?
    ensures var r := Step(Ops(), c, e);
            r.pol.Sieve? && Resumes(V.Keys(m.pol.sieve.q), p, r.pol.sieve)
    ensures AfterEviction(m) == Roomy(c.(stats := CountMiss(c.stats, e.size)), e.key, e.size)
    ensures p < |m.pol.sieve.q| && Evict(m.pol).1.value == m.pol.sieve.q[p].key
  {
    hide Insert, AfterEviction, Roomy, Resumes, Evict;
    assert e.OracleRequest? ==> Ops().onNext(c.pol, e.key, e.next) == c.pol;
    assert c.(pol := c.pol) == c;
    m, p := EvictingInsert(c.(stats := CountMiss(c.stats, e.size)), e.key, e.size);
  }

  /** The next victim. Whatever is hit and admitted after a request that evicted, with no
      eviction in between, the sweep resumes at the object that stood just newer than the
      last victim, or at the oldest if none did, and takes the first with a clear bit from
      there on, or that very one if every bit is set. `m` is the state the last victim was taken from, at place `p`. */
  lemma {:induction false} NextVictim(b: State<PolState>, e: Event, es: seq<Event>, i: nat, d: nat)
    returns (m: State<PolState>, p: nat)
    requires Healthy(b) && b.pol.Sieve? && !e.Delete? && i <= |es|
    requires Step(Ops(), b, e).stats.evictions > b.stats.evictions
    requires forall j :: 0 <= j < i ==> !es[j].Delete?
    requires After(Ops(), Step(Ops(), b, e), es, i).stats.evictions == Step(Ops(), b, e).stats.evictions
    ensures m.pol.Sieve? && Evict(m.pol).1.Some?
    ensures AfterEviction(m) == Roomy(b.(stats := CountMiss(b.stats, e.size)), e.key, e.size)
    ensures p < |m.pol.sieve.q| && Evict(m.pol).1.value == m.pol.sieve.q[p].key
    ensures After(Ops(), Step(Ops(), b, e), es, i).pol.Sieve?
    ensures var q := After(Ops(), Step(Ops(), b, e), es, i).pol.sieve.q; var n := |m.pol.sieve.q|;
            && n - 1 <= |q| && V.Keys(q)[..n - 1] == Cut(V.Keys(m.pol.sieve.q), p)
            && var start := if p + 1 < n then p else 0;
               d < |q| && start < |q| && !q[V.At(q, start, d)].visited
               && (forall x :: 0 <= x < d ==> q[V.At(q, start, x)].visited)
               ==> Evict(After(Ops(), Step(Ops(), b, e), es, i).pol).1 == Some(q[V.At(q, start, d)].key)
    ensures var q := After(Ops(), Step(Ops(), b, e), es, i).pol.sieve.q;
            var start := if p + 1 < |m.pol.sieve.q| then p else 0;
            start < |q| && (forall j :: 0 <= j < |q| ==> q[j].visited)
            ==> Evict(After(Ops(), Step(Ops(), b, e), es, i).pol).1 == Some(q[start].key)
  {
    hide Step, AfterEviction, Roomy, Resumes, Healthy, Evict, V.Sweep, V.Start, Undisturbed;
    m, p := EvictingStep(b, e);
    var c := Step(Ops(), b, e);
    StepIsHealthy(b, e);
    QuietRun(c, es, i);
    var r := After(Ops(), c, es, i);
    QueueIsData(r);
    ResumesUndisturbed(V.Keys(m.pol.sieve.q), p, c.pol.sieve, r.pol.sieve, k => HitIn(c, es, i, k));
    ResumedVictim(V.Keys(m.pol.sieve.q), p, r.pol.sieve, d);
  }

  lemma {:induction false} ResumedVictim(before: seq<Key>, p: nat, t: V.Sieve, d: nat)
    requires Resumes(before, p, t) && V.Sane(t)
    ensures p < |before| && |before| - 1 <= |t.q| && V.Keys(t.q)[..|before| - 1] == Cut(before, p)
    ensures var q := t.q; var start := if p + 1 < |before| then p else 0;
            d < |q| && start < |q| && !q[V.At(q, start, d)].visited
            && (forall x :: 0 <= x < d ==> q[V.At(q, start, x)].visited)
            ==> Evict(Sieve(t)).1 == Some(q[V.At(q, start, d)].key)
    ensures var q := t.q; var start := if p + 1 < |before| then p else 0;
            start < |q| && (forall j :: 0 <= j < |q| ==> q[j].visited)
            ==> Evict(Sieve(t)).1 == Some(q[start].key)
  {
    var start := if p + 1 < |before| then p else 0;
    if d < |t.q| && start < |t.q| && !t.q[V.At(t.q, start, d)].visited
       && forall x :: 0 <= x < d ==> t.q[V.At(t.q, start, x)].visited {
      StartOfResumed(before, p, t);
      V.SweepStopsAtFirstClear(t.q, start, d);
    }
    if start < |t.q| && forall j :: 0 <= j < |t.q| ==> t.q[j].visited {
      StartOfResumed(before, p, t);
      V.SweepWrapsWhenAllSet(t.q, start);
    }
  }
}
