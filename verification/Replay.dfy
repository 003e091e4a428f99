/** Replaying a trace: next-access times for the oracle, a warmup, and a measured window. */
module Replay {
  import opened Base
  import opened CacheSpec
  import opened Policies
  import opened Optimality
  import opened CacheObject
  import opened Trace
  import P = PolicyObjects
  import B = BeladyPolicy

  function Keys(reqs: seq<Trace.Request>): (ks: seq<Key>)
    ensures |ks| == |reqs| && forall i :: 0 <= i < |ks| ==> ks[i] == reqs[i].key
  {
    seq(|reqs|, i requires 0 <= i < |reqs| => reqs[i].key)
  }

  /** `last` holds the first use, from `i` on, of every key used there. */
  ghost predicate LastSeen(last: map<Key, int>, ks: seq<Key>, i: nat)
    requires i <= |ks| <= B.NEVER_AGAIN
  {
    forall k :: NextUse(ks, i, k) == if k in last then last[k] else B.NEVER_AGAIN
  }

  lemma {:induction false} SeenEarlier(last: map<Key, int>, ks: seq<Key>, i: nat)
    requires i < |ks| <= B.NEVER_AGAIN && LastSeen(last, ks, i + 1)
    ensures LastSeen(last[ks[i] := i], ks, i)
    ensures NextUse(ks, i + 1, ks[i]) == if ks[i] in last then last[ks[i]] else B.NEVER_AGAIN
  {
  }

  /** Each request's hint is the next use of its key. */
  ghost predicate Times(next: seq<int>, ks: seq<Key>, from: nat)
    requires |next| == |ks| <= B.NEVER_AGAIN
  {
    forall j {:trigger next[j]} :: from <= j < |ks| ==> next[j] == NextUse(ks, j + 1, ks[j])
  }

  lemma {:induction false} TimesEarlier(next: seq<int>, ks: seq<Key>, i: nat, t: int)
    requires |next| == |ks| <= B.NEVER_AGAIN && i < |ks|
    requires Times(next, ks, i + 1) && t == NextUse(ks, i + 1, ks[i])
    ensures Times(next[i := t], ks, i)
  {
  }

  /** Fills each slot with its key's next use, going backward over a map that always holds
      the first use of every key from here on. */
  method NextAccessTimes(reqs: seq<Trace.Request>) returns (next: array<int>)
    requires |reqs| <= 0x7FFF_FFFF_FFFF_FFFF
    ensures fresh(next) && next.Length == |reqs| && Times(next[..], Keys(reqs), 0)
  {
    ghost var ks := Keys(reqs);
    next := new int[|reqs|];
    var last: map<Key, int> := map[];
    var i := |reqs|;
    assert LastSeen(last, ks, i) && Times(next[..], ks, i);
    hide NextUse, LastSeen, Times, Keys;
    while i > 0
      invariant 0 <= i <= |reqs| && LastSeen(last, ks, i) && Times(next[..], ks, i)
    {
      i := i - 1;
      SeenEarlier(last, ks, i);
      var k := reqs[i].key;
      TimesEarlier(next[..], ks, i, if k in last then last[k] else B.NEVER_AGAIN);
      next[i] := if k in last then last[k] else B.NEVER_AGAIN;
      last := last[k := i];
    }
  }

  // ---- the events a replay feeds the cache

  ghost function Online(reqs: seq<Trace.Request>): (es: seq<Event>)
    ensures |es| == |reqs|
    ensures forall i :: 0 <= i < |es| ==> es[i] == Event.Request(reqs[i].key, reqs[i].size)
  {
    seq(|reqs|, i requires 0 <= i < |reqs| => Event.Request(reqs[i].key, reqs[i].size))
  }

  ghost function Offline(reqs: seq<Trace.Request>): (es: seq<Event>)
    requires |reqs| <= B.NEVER_AGAIN
    ensures |es| == |reqs|
  {
    seq(|reqs|, i requires 0 <= i < |reqs| =>
      OracleRequest(reqs[i].key, reqs[i].size, NextUse(Keys(reqs), i + 1, reqs[i].key)))
  }

  lemma {:induction false} OfflineAt(reqs: seq<Trace.Request>, next: seq<int>, i: nat)
    requires |next| == |reqs| <= B.NEVER_AGAIN && Times(next, Keys(reqs), 0) && i < |reqs|
    ensures Offline(reqs)[i] == OracleRequest(reqs[i].key, reqs[i].size, next[i])
  {
    hide NextUse;
    assert Keys(reqs)[i] == reqs[i].key;
  }

  lemma {:induction false} AfterServed(c: State<PolState>, es: seq<Event>, lo: nat, i: nat)
    requires lo <= i < |es| && !es[i].Delete?
    ensures var (was, e) := (After(Ops(), c, es[lo..], i - lo), es[i]);
            After(Ops(), c, es[lo..], i + 1 - lo) ==
              if e.Request? then Access(Ops(), was, e.key, e.size)
              else AccessOracle(Ops(), was, e.key, e.size, e.next)
  {
    hide Access, AccessOracle;
  }

  lemma {:induction false} AfterNone(c: State<PolState>, es: seq<Event>)
    ensures After(Ops(), c, es, 0) == c
  {
  }

  /** Serves requests `lo` up to `hi` online. */
  method Feed(c: Cache, reqs: seq<Trace.Request>, lo: nat, hi: nat)
    requires c.Valid() && !c.oracle && lo <= hi <= |reqs|
    modifies c, P.Parts(c.pol)
    ensures c.Valid() && forall o :: o in P.Parts(c.pol) ==> o in old(P.Parts(c.pol)) || fresh(o)
    ensures c.State() == After(Ops(), old(c.State()), Online(reqs)[lo..], hi - lo)
  {
    hide P.Valid, P.Parts, P.Value, CacheSpec.Access, After, Online;
    ghost var es := Online(reqs);
    AfterNone(c.State(), es[lo..]);
    for i := lo to hi
      invariant c.Valid() && forall o :: o in P.Parts(c.pol) ==> o in old(P.Parts(c.pol)) || fresh(o)
      invariant c.State() == After(Ops(), old(c.State()), es[lo..], i - lo)
    {
      AfterServed(old(c.State()), es, lo, i);
      var _ := c.Access(reqs[i].key, reqs[i].size);
    }
  }

  /** Serves requests `lo` up to `hi` with their next-access times. */
  method FeedOracle(c: Cache, reqs: seq<Trace.Request>, next: seq<int>, lo: nat, hi: nat)
    requires c.Valid() && c.oracle && lo <= hi <= |reqs| <= B.NEVER_AGAIN
    requires |next| == |reqs| && Times(next, Keys(reqs), 0)
    modifies c, P.Parts(c.pol)
    ensures c.Valid() && forall o :: o in P.Parts(c.pol) ==> o in old(P.Parts(c.pol)) || fresh(o)
    ensures c.State() == After(Ops(), old(c.State()), Offline(reqs)[lo..], hi - lo)
  {
    hide P.Valid, P.Parts, P.Value, CacheSpec.AccessOracle, After, NextUse, Times, Keys, Offline;
    ghost var es := Offline(reqs);
    AfterNone(c.State(), es[lo..]);
    for i := lo to hi
      invariant c.Valid() && forall o :: o in P.Parts(c.pol) ==> o in old(P.Parts(c.pol)) || fresh(o)
      invariant c.State() == After(Ops(), old(c.State()), es[lo..], i - lo)
    {
      OfflineAt(reqs, next, i);
      AfterServed(old(c.State()), es, lo, i);
      var _ := c.AccessOracle(reqs[i].key, reqs[i].size, next[i]);
    }
  }

  datatype Result = Result(
    warmup: nat, measured: nat, metrics: Stats, finalObjects: nat, finalBytes: int)

  ghost function Fed(reqs: seq<Trace.Request>, oracle: bool): (es: seq<Event>)
    requires oracle ==> |reqs| <= B.NEVER_AGAIN
    ensures |es| == |reqs|
  {
    if oracle then Offline(reqs) else Online(reqs)
  }

  /** The state a replay ends in: the first `w` requests, a restart of the counters, the rest. */
  ghost function Replayed(capacity: nat, p: PolState, es: seq<Event>, w: nat): State<PolState>
    requires w <= |es|
  {
    After(Ops(), ResetStats(After(Ops(), Cold(capacity, p), es, w)), es[w..], |es| - w)
  }

  method ReplayOnline(reqs: seq<Trace.Request>, capacity: nat, pol: P.Handle, warmup: nat) returns (c: Cache)
    requires capacity > 0 && P.Valid(pol) && !pol.OfBelady? && warmup <= |reqs|
    modifies P.Parts(pol)
    ensures fresh(c) && c.pol == pol && c.State() == Replayed(capacity, old(P.Value(pol)), Online(reqs), warmup)
  {
    hide P.Valid, P.Parts, P.Value, After;
    c := new Cache.New(capacity, pol);
    Feed(c, reqs, 0, warmup);
    assert Online(reqs)[0..] == Online(reqs);
    c.ResetStats();
    Feed(c, reqs, warmup, |reqs|);
  }

  method ReplayOracle(reqs: seq<Trace.Request>, capacity: nat, pol: P.Handle, warmup: nat) returns (c: Cache)
    requires capacity > 0 && P.Valid(pol) && (pol.OfBelady? || pol.OfCustom?)
    requires warmup <= |reqs| <= B.NEVER_AGAIN
    modifies P.Parts(pol)
    ensures fresh(c) && c.pol == pol && c.State() == Replayed(capacity, old(P.Value(pol)), Offline(reqs), warmup)
  {
    hide P.Valid, P.Value, After;
    var times := NextAccessTimes(reqs);
    var next := times[..];
    c := new Cache.NewOracle(capacity, pol);
    FeedOracle(c, reqs, next, 0, warmup);
    assert Offline(reqs)[0..] == Offline(reqs);
    c.ResetStats();
    FeedOracle(c, reqs, next, warmup, |reqs|);
  }

  /** Warms a new cache, restarts its counters and reports the rest of the trace. `asked` is
      the warmup length, rounded by the caller. */
  method Replay(reqs: seq<Trace.Request>, capacity: nat, pol: P.Handle, oracle: bool, asked: nat)
    returns (res: Option<Result>)
    requires capacity > 0 && P.Valid(pol) && (pol.OfCustom? || (oracle <==> pol.OfBelady?))
    requires |reqs| <= 0x7FFF_FFFF_FFFF_FFFF
    modifies P.Parts(pol)
    ensures res.None? <==> reqs == []
    ensures res.Some? ==>
      var w := if asked >= |reqs| then |reqs| - 1 else asked;
      var end := Replayed(capacity, old(P.Value(pol)), Fed(reqs, oracle), w);
      res.value == Result(w, |reqs| - w, end.stats, |end.data|, end.used)
  {
    hide P.Valid, P.Parts, P.Value, Replayed;
    if |reqs| == 0 {
      return None;
    }
    var warmup := asked;
    if warmup >= |reqs| {
      warmup := |reqs| - 1;
    }
    var c: Cache;
    if oracle {
      c := ReplayOracle(reqs, capacity, pol, warmup);
    } else {
      c := ReplayOnline(reqs, capacity, pol, warmup);
    }
    res := Some(Result(warmup, |reqs| - warmup, c.stats, |c.data|, c.used));
  }
}
