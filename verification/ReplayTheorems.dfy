/** What the whole-run theorems say of a replayed trace. */
module ReplayTheorems {
  import opened Base
  import opened CacheSpec
  import opened AnyPolicy
  import opened Policies
  import opened Optimality
  import opened BeladyTheorems
  import opened WorkingSet
  import opened Trace
  import opened Replay
  import O = BeladyOptimal
  import B = BeladyPolicy
  import P = PolicyObjects

  // ---- warmup

  /** A replay's final contents do not depend on where its warmup ends, and its measured
      counters are the uninterrupted run's less their values when the warmup ended. */
  lemma {:induction false} WarmupOnlyRestartsCounters(capacity: nat, p: PolState, es: seq<Event>, w: nat)
    requires w <= |es|
    ensures var c := Cold(capacity, p);
            var whole, end := After(Ops(), c, es, |es|), Replay.Replayed(capacity, p, es, w);
            && end.data == whole.data && end.used == whole.used && end.pol == whole.pol
            && whole.stats == Add(After(Ops(), c, es, w).stats, end.stats)
  {
    hide Step;
    WarmupIsTransparent(Ops(), Cold(capacity, p), es, w, |es| - w);
  }

  // ---- the summary

  lemma {:induction false} RequestedIsLargest(reqs: seq<Trace.Request>, oracle: bool)
    requires |reqs| <= B.NEVER_AGAIN
    ensures Requested(Fed(reqs, oracle), |reqs|) == Largest(reqs).Keys
    ensures Covers(Largest(reqs), Fed(reqs, oracle))
  {
    LargestIsLargest(reqs);
    hide NextUse, Largest;
    var es := Fed(reqs, oracle);
    assert forall i {:trigger es[i]} :: 0 <= i < |es| ==>
             !es[i].Delete? && es[i].key == reqs[i].key && es[i].size == reqs[i].size;
    forall k | k in Largest(reqs) ensures k in Requested(es, |reqs|) {
      var i :| 0 <= i < |reqs| && reqs[i].key == k && reqs[i].size == Largest(reqs)[k];
      assert es[i].key == k;
    }
  }

  /** A cold run, under any policy, misses at least once for each unique object of the summary. */
  lemma {:induction false} UniqueObjectsAreMissed<P>(
    ops: Policy<P>, capacity: nat, pol: P, reqs: seq<Trace.Request>, oracle: bool)
    requires |reqs| <= B.NEVER_AGAIN
    ensures After(ops, Cold(capacity, pol), Fed(reqs, oracle), |reqs|).stats.misses >= |Largest(reqs)|
  {
    hide Largest, Requested, Fed;
    RequestedIsLargest(reqs, oracle);
    CompulsoryMisses(ops, capacity, pol, Fed(reqs, oracle), |reqs|);
  }

  ghost function Accepting(): PolState -> bool {
    p => O.Accepts(p)
  }

  lemma {:induction false} FivePoliciesAlwaysAdmit()
    ensures AlwaysAdmits(Ops(), Accepting())
  {
  }

  /** A cache as large as the working set the summary reports loses nothing: every policy but
      S3-FIFO evicts nothing and misses exactly once per unique object. */
  lemma {:induction false} WorkingSetIsEnough(capacity: nat, p: PolState, reqs: seq<Trace.Request>, oracle: bool)
    requires |reqs| <= B.NEVER_AGAIN && O.Accepts(p) && Bytes(Largest(reqs)) <= capacity
    ensures var r := After(Ops(), Cold(capacity, p), Fed(reqs, oracle), |reqs|);
            && r.stats.misses == |Largest(reqs)| && r.stats.evictions == r.stats.rejections == 0
            && r.data.Keys == Largest(reqs).Keys
  {
    RequestedIsLargest(reqs, oracle);
    FivePoliciesAlwaysAdmit();
    hide Largest, Requested, Fed, After, AlwaysAdmits, Ops;
    WorkingSetFits(Ops(), p, capacity, Fed(reqs, oracle), |reqs|, Largest(reqs), Accepting());
  }

  // ---- the oracle

  lemma {:induction false} OfflineCarriesHints(reqs: seq<Trace.Request>)
    requires |reqs| <= B.NEVER_AGAIN
    ensures Hints(Offline(reqs), Keys(reqs))
    ensures (forall i :: 0 <= i < |reqs| ==> reqs[i].size == 1) ==> O.Replayed(Offline(reqs), Keys(reqs))
  {
    hide NextUse;
  }

  /** The backward pass, the hint and the policy's two calls together keep every resident's
      stored time right after every request of a replay, at any sizes. */
  lemma {:induction false} ReplayKeepsTimesFresh(capacity: nat, reqs: seq<Trace.Request>, i: nat)
    requires |reqs| <= B.NEVER_AGAIN && i <= |reqs|
    ensures Fresh(After(Ops(), Cold(capacity, ColdBelady()), Offline(reqs), i), Keys(reqs), i)
  {
    hide Fresh, Hints, After;
    OfflineCarriesHints(reqs);
    OracleIsFresh(capacity, Keys(reqs), Offline(reqs), i);
  }

  /** At unit size an oracle replay misses no more than any schedule that admits every miss. */
  lemma {:induction false} OracleReplayIsOptimal(capacity: nat, reqs: seq<Trace.Request>, ts: seq<set<Key>>)
    requires |reqs| <= B.NEVER_AGAIN && capacity >= 1
    requires forall i :: 0 <= i < |reqs| ==> reqs[i].size == 1
    requires O.Schedule(ts, Keys(reqs), capacity)
    ensures After(Ops(), Cold(capacity, ColdBelady()), Offline(reqs), |reqs|).stats.misses
            <= O.Misses(ts, Keys(reqs), |reqs|)
  {
    hide Hints, After, O.Schedule, O.Misses;
    OfflineCarriesHints(reqs);
    O.BeladyIsOptimal(capacity, Keys(reqs), Offline(reqs), ts, |reqs|);
  }

  /** With nothing to warm up, a replay ends where the whole run does. */
  lemma {:induction false} NoWarmup(capacity: nat, p: PolState, es: seq<Event>)
    ensures Replay.Replayed(capacity, p, es, 0) == After(Ops(), Cold(capacity, p), es, |es|)
  {
    hide Step;
    assert es[0..] == es;
    assert After(Ops(), Cold(capacity, p), es, 0) == Cold(capacity, p);
    assert ResetStats(Cold(capacity, p)) == Cold(capacity, p);
  }

  lemma {:induction false} OptimalResult(capacity: nat, reqs: seq<Trace.Request>, ts: seq<set<Key>>)
    requires |reqs| <= B.NEVER_AGAIN && capacity >= 1
    requires forall i :: 0 <= i < |reqs| ==> reqs[i].size == 1
    requires O.Schedule(ts, Keys(reqs), capacity)
    ensures Replay.Replayed(capacity, ColdBelady(), Offline(reqs), 0).stats.misses
            <= O.Misses(ts, Keys(reqs), |reqs|)
  {
    hide After, Replay.Replayed, O.Schedule, O.Misses, ColdBelady;
    NoWarmup(capacity, ColdBelady(), Offline(reqs));
    OracleReplayIsOptimal(capacity, reqs, ts);
  }

  /** A replay of a unit-size trace by a new Belady object, nothing warmed up: the misses it
      reports are no more than those of any schedule that admits every miss. */
  method ReplayBelady(reqs: seq<Trace.Request>, capacity: nat) returns (res: Option<Result>)
    requires capacity >= 1 && |reqs| <= 0x7FFF_FFFF_FFFF_FFFF
    requires forall i :: 0 <= i < |reqs| ==> reqs[i].size == 1
    ensures res.None? <==> reqs == []
    ensures forall ts :: res.Some? && O.Schedule(ts, Keys(reqs), capacity) ==>
              res.value.metrics.misses <= O.Misses(ts, Keys(reqs), |reqs|)
  {
    hide After, Replay.Replayed, O.Schedule, O.Misses, P.Valid, P.Parts;
    var belady := NewBelady();
    res := Replay.Replay(reqs, capacity, belady, true, 0);
    forall ts | res.Some? && O.Schedule(ts, Keys(reqs), capacity)
      ensures res.value.metrics.misses <= O.Misses(ts, Keys(reqs), |reqs|)
    {
      OptimalResult(capacity, reqs, ts);
    }
  }

  method NewBelady() returns (h: P.Handle)
    ensures P.Valid(h) && h.OfBelady? && P.Value(h) == ColdBelady()
    ensures forall o :: o in P.Parts(h) ==> fresh(o)
  {
    hide B.BELADY.Valid;
    var b := new B.BELADY();
    h := P.OfBelady(b);
  }
}
