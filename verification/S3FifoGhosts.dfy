/** How long S3-FIFO remembers: a demoted object stays a ghost until it is requested or the
    objects demoted after it overflow the ghosts' capacity. */
module S3FifoGhosts {
  import opened Base
  import opened CacheSpec
  import opened Policies
  import opened Agreement
  import opened AnyPolicy
  import opened Evictions
  import opened S3FifoSweeps
  import T = S3FifoPolicy

  // ---- what is demoted

  /** Where the first entry below the threshold stands, or the length when there is none. */
  function FirstLow(q: seq<T.Entry>, threshold: int): (v: nat)
    ensures v <= |q| && (v < |q| ==> q[v].freq < threshold)
    ensures forall i :: 0 <= i < v ==> q[i].freq >= threshold
  {
    if q == [] || q[0].freq < threshold then 0 else 1 + FirstLow(q[1..], threshold)
  }

  /** The size of the object the next eviction would take from small, if it takes one there. */
  ghost function DemotedBytes(p: PolState): (b: int)
    ensures b >= 0
  {
    if !p.S3Fifo? || MainFirst(p.s3) then 0
    else
      var v := FirstLow(p.s3.small, p.s3.moveToMain);
      if v < |p.s3.small| then p.s3.small[v].size else 0
  }

  // ---- one ghost

  /** `k` is a ghost, and it and those remembered after it are at most `b` bytes. */
  ghost predicate Held(ghosts: seq<T.Entry>, k: Key, b: int) {
    exists p :: 0 <= p < |ghosts| && ghosts[p].key == k && T.Used(ghosts[p..]) <= b
  }

  lemma {:induction false} UsedSuffix(q: seq<T.Entry>, p: nat, m: nat)
    requires p <= m <= |q|
    ensures T.Used(q[m..]) <= T.Used(q[p..])
  {
    hide T.Used;
    assert q[p..] == q[p..m] + q[m..];
    T.UsedConcat(q[p..m], q[m..]);
  }

  lemma {:induction false} HeldAt(q: seq<T.Entry>, p: nat, k: Key, b: int)
    requires p < |q| && q[p].key == k && T.Used(q[p..]) <= b
    ensures Held(q, k, b)
  {
  }

  lemma {:induction false} PlaceOf(q: seq<T.Entry>, k: Key, b: int) returns (p: nat)
    requires Held(q, k, b)
    ensures p < |q| && q[p].key == k && T.Used(q[p..]) <= b
  {
    p :| 0 <= p < |q| && q[p].key == k && T.Used(q[p..]) <= b;
  }

  lemma {:induction false} ShedCount(q: seq<T.Entry>, r: seq<T.Entry>, cap: int, e: T.Entry) returns (n: nat)
    requires Haunted(q, r, cap, e) && cap > 0 && e.size <= cap
    ensures n <= |q| && r == q[n..] + [e] && (n == 0 || T.Used(q[n - 1..]) + e.size > cap)
  {
    n :| 0 <= n <= |q| && r == q[n..] + [e] && T.Used(q[n..]) + e.size <= cap
         && (n == 0 || T.Used(q[n - 1..]) + e.size > cap);
  }

  lemma {:induction false} HauntedHolds(
    q: seq<T.Entry>, r: seq<T.Entry>, cap: int, e: T.Entry, k: Key, b: int)
    requires Haunted(q, r, cap, e) && Held(q, k, b) && 0 <= b && 0 < cap && b + e.size <= cap
    ensures Held(r, k, b + e.size)
  {
    hide T.Used, Held, Haunted;
    var p := PlaceOf(q, k, b);
    var n := ShedCount(q, r, cap, e);
    if n > p {
      UsedSuffix(q, p, n - 1);
    }
    KeptSuffix(q, n, p, e);
    HeldAt(r, p - n, k, b + e.size);
  }

  lemma {:induction false} KeptSuffix(q: seq<T.Entry>, n: nat, p: nat, e: T.Entry)
    requires n <= p < |q|
    ensures var r := q[n..] + [e];
            r[p - n] == q[p] && T.Used(r[p - n..]) == T.Used(q[p..]) + e.size
  {
    hide T.Used;
    var r := q[n..] + [e];
    assert r[p - n..] == q[p..] + [e];
    T.UsedConcat(q[p..], [e]);
    UsedOne(e);
  }

  lemma {:induction false} UsedOne(e: T.Entry)
    ensures T.Used([e]) == e.size
  {
    assert [e][..0] == [];
  }

  lemma {:induction false} CutSuffix(q: seq<T.Entry>, i: nat, p: nat)
    requires i < |q| && p < |q| && p != i
    ensures var r := q[..i] + q[i + 1..]; var m := if i < p then p - 1 else p;
            r[m] == q[p] && T.Used(r[m..]) <= T.Used(q[p..])
  {
    hide T.Used;
    var r := q[..i] + q[i + 1..];
    if i < p {
      assert r[p - 1..] == q[p..];
    } else {
      assert r[p..] == q[p..i] + q[i + 1..];
      assert q[p..] == q[p..i] + q[i..];
      T.UsedConcat(q[p..i], q[i + 1..]);
      T.UsedConcat(q[p..i], q[i..]);
      UsedSuffix(q, i, i + 1);
    }
  }

  lemma {:induction false} DroppedHolds(q: seq<T.Entry>, r: seq<T.Entry>, j: Key, k: Key, b: int)
    requires Dropped(q, r, j) && Held(q, k, b) && j != k
    ensures Held(r, k, b)
  {
    hide T.Used, Held;
    var p := PlaceOf(q, k, b);
    if r == q && forall m :: 0 <= m < |q| ==> q[m].key != j {
      HeldAt(r, p, k, b);
    } else {
      var i :| 0 <= i < |q| && q[i].key == j && r == q[..i] + q[i + 1..];
      CutSuffix(q, i, p);
      HeldAt(r, if i < p then p - 1 else p, k, b);
    }
  }

  // ---- one eviction

  lemma {:induction false} EvictionHolds(p: PolState, d: map<Key, nat>, k: Key, b: int)
    requires p.S3Fifo? && Agrees(p, d) && Bytes(d) > 0
    requires Held(p.s3.ghosts, k, b) && 0 <= b && b + DemotedBytes(p) <= p.s3.ghostCap
    ensures Evict(p).1.Some?
    ensures var r := Drop(Evict(p).0, Evict(p).1.value);
            r.S3Fifo? && r.s3.ghostCap == p.s3.ghostCap && Held(r.s3.ghosts, k, b + DemotedBytes(p))
  {
    var s := p.s3;
    hide T.Evicted, T.Agrees, T.Removed, Held, Haunted, DemotedBytes;
    T.EvictedKeeps(s, d);
    var (r, victim) := T.Evicted(s);
    T.RemovedAbsent(r, victim.value, d - {victim.value});
    var v := EvictionClosedForm(s, d);
    DemotedIs(p, v);
    if !MainFirst(s) && exists i :: 0 <= i < |s.small| && s.small[i].freq < s.moveToMain {
      var n := s.small[v];
      HauntedHolds(s.ghosts, r.ghosts, s.ghostCap, T.Entry(n.key, n.size, 0), k, b);
    }
  }

  lemma {:induction false} DemotedIs(p: PolState, v: nat)
    requires p.S3Fifo?
    ensures var s := p.s3;
            if MainFirst(s) || !exists i :: 0 <= i < |s.small| && s.small[i].freq < s.moveToMain
            then DemotedBytes(p) == 0
            else FirstBelow(s, v) ==> DemotedBytes(p) == s.small[v].size
  {
  }

  // ---- making room

  lemma {:induction false} RoomHolds(c: State<PolState>, j: Key, need: nat, budget: nat, k: Key, b: int)
    requires c.pol.S3Fifo? && c.used == Bytes(c.data) && Ready(c.pol, c.data, j)
    requires need <= c.capacity && |c.data| <= budget
    requires Held(c.pol.s3.ghosts, k, b) && b + RoomSum(c, need, budget, DemotedBytes) <= c.pol.s3.ghostCap
    ensures var r := EvictToFit(Ops(), c, need, budget);
            && r.pol.S3Fifo? && r.pol.s3.ghostCap == c.pol.s3.ghostCap
            && Held(r.pol.s3.ghosts, k, b + RoomSum(c, need, budget, DemotedBytes))
    decreases budget
  {
    hide Evict, Ready, Bytes, EvictToFit, AfterEviction, RoomSum, Held, DemotedBytes;
    EvictToFitStep(c, need, budget);
    RoomSumStep(c, need, budget, DemotedBytes);
    if c.used + need > c.capacity {
      OneEviction(c, j);
      RoomSumGrows(AfterEviction(c), need, budget - 1, DemotedBytes);
      OneHolds(c, j, k, b);
      RoomHolds(AfterEviction(c), j, need, budget - 1, k, b + DemotedBytes(c.pol));
    }
  }

  lemma {:induction false} OneHolds(c: State<PolState>, j: Key, k: Key, b: int)
    requires c.pol.S3Fifo? && c.used == Bytes(c.data) > 0 && Ready(c.pol, c.data, j)
    requires Held(c.pol.s3.ghosts, k, b) && b + DemotedBytes(c.pol) <= c.pol.s3.ghostCap
    ensures Evict(c.pol).1.Some?
    ensures var r := AfterEviction(c);
            && r.pol.S3Fifo? && r.pol.s3.ghostCap == c.pol.s3.ghostCap
            && Held(r.pol.s3.ghosts, k, b + DemotedBytes(c.pol))
  {
    ReadyMeans(c.pol, c.data, j);
    hide Evict, Drop, Ready, Bytes, AfterEviction, Held, DemotedBytes, Agrees;
    EvictionHolds(c.pol, c.data, k, b);
    AfterEvictionIs(c);
  }

  // ---- one event

  /** An S3-FIFO cache that remembers `k`, with the ghosts after it, in `b` bytes. */
  ghost predicate Remembers(c: State<PolState>, k: Key, b: int, cap: int) {
    c.pol.S3Fifo? && c.pol.s3.ghostCap == cap && Held(c.pol.s3.ghosts, k, b)
  }

  lemma {:induction false} GhostIsAbsent(c: State<PolState>, k: Key, b: int, cap: int)
    requires Healthy(c) && Remembers(c, k, b, cap)
    ensures k !in c.data
  {
    var g := c.pol.s3.ghosts;
    var p :| 0 <= p < |g| && g[p].key == k && T.Used(g[p..]) <= b;
    assert T.Keys(g)[p] == k;
    assert k in Elements(T.Keys(g));
  }

  lemma {:induction false} DecisionHolds(p: PolState, d: map<Key, nat>, j: Key, size: nat, k: Key, b: int)
    requires p.S3Fifo? && Agrees(p, d) && Held(p.s3.ghosts, k, b) && j != k
    ensures var r := CanAdmit(p, j, size).0;
            r.S3Fifo? && r.s3.ghostCap == p.s3.ghostCap && Held(r.s3.ghosts, k, b)
  {
    DecisionDrops(p.s3, j, size, d);
    DroppedHolds(p.s3.ghosts, T.Decided(p.s3, j, size).0.ghosts, j, k, b);
    hide T.Decided, Held;
  }

  lemma {:induction false} AdmissionHolds(p: PolState, d: map<Key, nat>, j: Key, size: nat)
    requires p.S3Fifo? && Agrees(p, d) && j !in d
    ensures var r := Policies.Admit(p, j, size);
            r.S3Fifo? && r.s3.ghostCap == p.s3.ghostCap && r.s3.ghosts == p.s3.ghosts
  {
    AdmissionAppends(p.s3, j, size, d);
    hide T.Admitted;
  }

  /** What an insertion's evictions would demote. */
  ghost function InsertSum(c: State<PolState>, j: Key, size: nat): int {
    var (p, ok) := CanAdmit(c.pol, j, size);
    if ok then RoomSum(c.(pol := p), size, |c.data| + SPARE_BUDGET, DemotedBytes) else 0
  }

  lemma {:induction false} RoomyHolds(c: State<PolState>, j: Key, size: nat, k: Key, b: int, cap: int)
    requires c.used == Bytes(c.data) && Agrees(c.pol, c.data) && j !in c.data && j != k && size <= c.capacity
    requires Remembers(c, k, b, cap) && CanAdmit(c.pol, j, size).1 && b + InsertSum(c, j, size) <= cap
    ensures Remembers(Roomy(c, j, size), k, b + InsertSum(c, j, size), cap)
  {
    hide CanAdmit, Bytes, EvictToFit, RoomSum, Held, DemotedBytes, Agrees, Ready, Evict;
    DecisionHolds(c.pol, c.data, j, size, k, b);
    DecideReady(c.pol, c.data, j, size);
    RoomHolds(c.(pol := CanAdmit(c.pol, j, size).0), j, size, |c.data| + SPARE_BUDGET, k, b);
  }

  lemma {:induction false} InsertHolds(c: State<PolState>, j: Key, size: nat, k: Key, b: int, cap: int)
    requires c.used == Bytes(c.data) && Agrees(c.pol, c.data) && j !in c.data && j != k && size <= c.capacity
    requires Remembers(c, k, b, cap) && b + InsertSum(c, j, size) <= cap
    ensures Remembers(Insert(Ops(), c, j, size), k, b + InsertSum(c, j, size), cap)
  {
    DecisionHolds(c.pol, c.data, j, size, k, b);
    hide Insert, CanAdmit, Policies.Admit, Bytes, Held, Agrees, Ready, Roomy, RoomSum;
    InsertForm(c, j, size);
    if CanAdmit(c.pol, j, size).1 {
      RoomyHolds(c, j, size, k, b, cap);
      var roomy := Roomy(c, j, size);
      ReadyMeans(roomy.pol, roomy.data, j);
      AdmissionHolds(roomy.pol, roomy.data, j, size);
      assert Ops().onAdmit(roomy.pol, j, size) == Policies.Admit(roomy.pol, j, size);
    }
  }

  lemma {:induction false} StepHolds(c: State<PolState>, e: Event, k: Key, b: int, cap: int)
    requires Healthy(c) && Remembers(c, k, b, cap) && (e.Delete? || e.key != k)
    requires b + StepSum(c, e, DemotedBytes) <= cap
    ensures Remembers(Step(Ops(), c, e), k, b + StepSum(c, e, DemotedBytes), cap)
  {
    hide Insert, Held, Agrees, RoomSum, DemotedBytes, CanAdmit, T.Hit, T.Removed;
    assert e.OracleRequest? ==> Ops().onNext(c.pol, e.key, e.next) == NextAccess(c.pol, e.key, e.next) == c.pol;
    assert c.(pol := c.pol) == c;
    HookHolds(c.pol, c.data, e.key);
    if e.Delete? {
      assert Ops().onRemove(c.pol, e.key) == Drop(c.pol, e.key);
    } else if e.key in c.data {
      assert Ops().onHit(c.pol, e.key) == Policies.Hit(c.pol, e.key);
    } else {
      var d := c.(stats := CountMiss(c.stats, e.size));
      InsertTooBig(d, e.key, e.size);
      if e.size <= c.capacity {
        RoomSumIgnoresStats(c.(pol := CanAdmit(c.pol, e.key, e.size).0),
                            d.(pol := CanAdmit(c.pol, e.key, e.size).0), e.size, |c.data| + SPARE_BUDGET, DemotedBytes);
        InsertHolds(d, e.key, e.size, k, b, cap);
      }
    }
  }

  lemma {:induction false} HookHolds(p: PolState, d: map<Key, nat>, j: Key)
    requires p.S3Fifo? && Agrees(p, d)
    ensures var r := Drop(p, j);
            r.S3Fifo? && r.s3.ghostCap == p.s3.ghostCap && r.s3.ghosts == p.s3.ghosts
    ensures j in d ==>
              var r := Policies.Hit(p, j);
              r.S3Fifo? && r.s3.ghostCap == p.s3.ghostCap && r.s3.ghosts == p.s3.ghosts
  {
    RemovalDrops(p.s3, j, d);
    if j in d {
      HitRaises(p.s3, j, d);
    }
    hide T.Hit, T.Removed;
  }

  // ---- over a run

  lemma {:induction false} StepSumGrows(c: State<PolState>, e: Event)
    ensures StepSum(c, e, DemotedBytes) >= 0
  {
    hide RoomSum, CanAdmit, DemotedBytes;
    if !e.Delete? && e.key !in c.data && e.size <= c.capacity {
      var p := if e.Request? then c.pol else NextAccess(c.pol, e.key, e.next);
      RoomSumGrows(c.(pol := CanAdmit(p, e.key, e.size).0), e.size, |c.data| + SPARE_BUDGET, DemotedBytes);
    }
  }

  /** A ghost that is not requested stays one for as long as it, the ghosts remembered after
      it and the objects demoted since fit the ghosts' capacity together. */
  lemma {:induction false} GhostsStay(c: State<PolState>, es: seq<Event>, i: nat, k: Key, b: int, cap: int)
    requires Healthy(c) && Remembers(c, k, b, cap) && i <= |es|
    requires forall j :: 0 <= j < i ==> es[j].Delete? || es[j].key != k
    requires b + RunSum(c, es, i, DemotedBytes) <= cap
    ensures Remembers(After(Ops(), c, es, i), k, b + RunSum(c, es, i, DemotedBytes), cap)
  {
    hide Step, StepSum, Healthy, Remembers, DemotedBytes;
    if i > 0 {
      StepSumGrows(After(Ops(), c, es, i - 1), es[i - 1]);
      GhostsStay(c, es, i - 1, k, b, cap);
      RunIsHealthy(c, es, i - 1);
      StepHolds(After(Ops(), c, es, i - 1), es[i - 1], k, b + RunSum(c, es, i - 1, DemotedBytes), cap);
    }
  }

  /** From its demotion on: the latest ghost stays one until it is requested, or it and the
      objects demoted since overflow the ghosts' capacity. */
  lemma {:induction false} DemotedStaysGhost(c: State<PolState>, es: seq<Event>, i: nat)
    requires Healthy(c) && c.pol.S3Fifo? && c.pol.s3.ghosts != [] && i <= |es|
    ensures var g := c.pol.s3.ghosts[|c.pol.s3.ghosts| - 1]; var r := After(Ops(), c, es, i);
            || (r.pol.S3Fifo? && g.key in T.Keys(r.pol.s3.ghosts))
            || (exists j :: 0 <= j < i && !es[j].Delete? && es[j].key == g.key)
            || g.size + RunSum(c, es, i, DemotedBytes) > c.pol.s3.ghostCap
  {
    hide After, RunSum, Remembers, Healthy, DemotedBytes;
    var q := c.pol.s3.ghosts;
    var g := q[|q| - 1];
    if !(exists j :: 0 <= j < i && !es[j].Delete? && es[j].key == g.key)
       && g.size + RunSum(c, es, i, DemotedBytes) <= c.pol.s3.ghostCap {
      LatestIsRemembered(c);
      GhostsStay(c, es, i, g.key, g.size, c.pol.s3.ghostCap);
      RememberedIsGhost(After(Ops(), c, es, i), g.key, g.size + RunSum(c, es, i, DemotedBytes), c.pol.s3.ghostCap);
    }
  }

  lemma {:induction false} LatestIsRemembered(c: State<PolState>)
    requires c.pol.S3Fifo? && c.pol.s3.ghosts != []
    ensures var g := c.pol.s3.ghosts[|c.pol.s3.ghosts| - 1]; Remembers(c, g.key, g.size, c.pol.s3.ghostCap)
  {
    var q := c.pol.s3.ghosts;
    assert q[|q| - 1..] == [q[|q| - 1]];
    UsedOne(q[|q| - 1]);
  }

  lemma {:induction false} RememberedIsGhost(c: State<PolState>, k: Key, b: int, cap: int)
    requires Remembers(c, k, b, cap)
    ensures c.pol.S3Fifo? && k in T.Keys(c.pol.s3.ghosts)
  {
    var g := c.pol.s3.ghosts;
    var p :| 0 <= p < |g| && g[p].key == k && T.Used(g[p..]) <= b;
    assert T.Keys(g)[p] == k;
  }
}
