/** Where Belady is not optimal: at every capacity, schedules that may refuse admission. */
module BeladyLimits {
  import opened Base
  import opened CacheSpec
  import opened Policies
  import opened Optimality
  import opened BeladyTheorems
  import opened BeladyOptimal

  /** One request served by a schedule that may also refuse it. */
  ghost predicate BypassStep(k: Key, capacity: nat, r: set<Key>, r': set<Key>) {
    r' <= r + {k} && |r'| <= capacity
  }

  /** As many keys as there are slots, one key more, and the first ones again. */
  function Around(ks: seq<Key>, x: Key): (t: seq<Key>)
    ensures |t| == 2 * |ks| + 1
    ensures forall i :: 0 <= i < |t| ==> t[i] == if i < |ks| then ks[i] else if i == |ks| then x else ks[i - |ks| - 1]
  {
    ks + [x] + ks
  }

  // ---- refusing the one key more

  /** Keeps the first keys and never the one more. */
  ghost function Refusing(ks: seq<Key>): (ts: seq<set<Key>>)
    ensures |ts| == 2 * |ks| + 2
    ensures forall i :: 0 <= i < |ts| ==> ts[i] == Elements(ks[..if i < |ks| then i else |ks|])
  {
    seq(2 * |ks| + 2, i requires 0 <= i => Elements(ks[..if i < |ks| then i else |ks|]))
  }

  lemma {:induction false} TakeOneMore(ks: seq<Key>, i: nat)
    requires Distinct(ks) && i < |ks|
    ensures ks[i] !in Elements(ks[..i]) && Elements(ks[..i + 1]) == Elements(ks[..i]) + {ks[i]}
    ensures |Elements(ks[..i])| == i
  {
    assert ks[..i + 1] == ks[..i] + [ks[i]];
    DistinctCardinality(ks[..i]);
  }

  lemma {:induction false} RefusingSteps(ks: seq<Key>, x: Key, i: nat)
    requires Distinct(ks) && i <= 2 * |ks|
    ensures BypassStep(Around(ks, x)[i], |ks|, Refusing(ks)[i], Refusing(ks)[i + 1])
  {
    if i < |ks| {
      TakeOneMore(ks, i);
      DistinctCardinality(ks[..i + 1]);
    } else {
      DistinctCardinality(ks[..|ks|]);
    }
  }

  lemma {:induction false} RefusingMisses(ks: seq<Key>, x: Key, i: nat)
    requires Distinct(ks) && x !in ks && i <= 2 * |ks| + 1
    ensures Misses(Refusing(ks), Around(ks, x), i) == if i <= |ks| + 1 then i else |ks| + 1
  {
    if i > 0 {
      RefusingMisses(ks, x, i - 1);
      if i <= |ks| {
        TakeOneMore(ks, i - 1);
      } else {
        assert ks[..|ks|] == ks;
      }
    }
  }

  // ---- admitting it

  lemma {:induction false} FirstTimeMisses(ts: seq<set<Key>>, ks: seq<Key>, x: Key, i: nat)
    requires Distinct(ks) && x !in ks && Schedule(ts, Around(ks, x), |ks|) && i <= |ks| + 1
    ensures Misses(ts, Around(ks, x), i) == i && ts[i] <= Elements(Around(ks, x)[..i])
  {
    var t := Around(ks, x);
    if i > 0 {
      FirstTimeMisses(ts, ks, x, i - 1);
      assert RivalStep(t[i - 1], |ks|, ts[i - 1], ts[i]);
      hide Schedule, Around;
      FirstTime(ks, x, i - 1);
    }
  }

  lemma {:induction false} FirstTime(ks: seq<Key>, x: Key, i: nat)
    requires Distinct(ks) && x !in ks && i <= |ks|
    ensures var t := Around(ks, x);
            t[i] !in Elements(t[..i]) && Elements(t[..i + 1]) == Elements(t[..i]) + {t[i]}
  {
    var t := Around(ks, x);
    assert t[..i + 1] == t[..i] + [t[i]];
    assert t[..i] == ks[..i];
  }

  /** With no further miss, everything requested since was there all along. */
  lemma {:induction false} HitsWereHeld(ts: seq<set<Key>>, ks: seq<Key>, x: Key, i: nat)
    requires Distinct(ks) && x !in ks && Schedule(ts, Around(ks, x), |ks|)
    requires |ks| + 1 <= i <= 2 * |ks| + 1
    ensures Misses(ts, Around(ks, x), i) >= |ks| + 1
    ensures Misses(ts, Around(ks, x), i) == |ks| + 1 ==>
              && ts[i] <= ts[|ks| + 1]
              && forall j :: 0 <= j < i - |ks| - 1 ==> ks[j] in ts[|ks| + 1]
  {
    var t := Around(ks, x);
    if i == |ks| + 1 {
      FirstTimeMisses(ts, ks, x, i);
    } else {
      HitsWereHeld(ts, ks, x, i - 1);
      assert RivalStep(t[i - 1], |ks|, ts[i - 1], ts[i]);
      assert t[i - 1] == ks[i - |ks| - 2];
    }
  }

  lemma {:induction false} NotAllHeld(ts: seq<set<Key>>, ks: seq<Key>, x: Key)
    requires Distinct(ks) && x !in ks && Schedule(ts, Around(ks, x), |ks|)
    ensures x in ts[|ks| + 1] && !(Elements(ks) <= ts[|ks| + 1])
  {
    assert RivalStep(Around(ks, x)[|ks|], |ks|, ts[|ks|], ts[|ks| + 1]);
    DistinctCardinality(ks);
    if Elements(ks) <= ts[|ks| + 1] {
      SubsetCardinality(Elements(ks) + {x}, ts[|ks| + 1]);
    }
  }

  /** Every schedule that admits what it misses misses some key a second time. */
  lemma {:induction false} AdmittingMissesMore(ts: seq<set<Key>>, ks: seq<Key>, x: Key)
    requires ks != [] && Distinct(ks) && x !in ks && Schedule(ts, Around(ks, x), |ks|)
    ensures Misses(ts, Around(ks, x), 2 * |ks| + 1) >= |ks| + 2
  {
    hide Schedule, Misses;
    HitsWereHeld(ts, ks, x, 2 * |ks| + 1);
    NotAllHeld(ts, ks, x);
  }

  /** The extra slot is always needed. At every capacity, on the requests for as many keys
      as there are slots, one key more, and the first ones again, refusing the one more
      misses each key once, and Belady misses more often than that. */
  lemma {:induction false} RefusalBeatsBelady(ks: seq<Key>, x: Key, es: seq<Event>)
    requires ks != [] && Distinct(ks) && x !in ks && Replayed(es, Around(ks, x))
    ensures Oracle(|ks|, es, |es|).stats.misses >= |ks| + 2
    ensures var ts := Refusing(ks);
            && ts[0] == {}
            && (forall i :: 0 <= i <= 2 * |ks| ==> BypassStep(Around(ks, x)[i], |ks|, ts[i], ts[i + 1]))
            && Misses(ts, Around(ks, x), 2 * |ks| + 1) == |ks| + 1
  {
    hide After, Misses, Schedule, Residents, Refusing, BypassStep;
    var capacity, t := |ks|, Around(ks, x);
    UnitObjectsAreAdmitted(capacity, ColdBelady(), es, t, |es|);
    AdmittingIsSchedule(Ops(), capacity, ColdBelady(), es, t);
    RunMisses(Ops(), capacity, ColdBelady(), es, t, |es|);
    AdmittingMissesMore(Residents(Ops(), Cold(capacity, ColdBelady()), es), ks, x);
    forall i | 0 <= i <= 2 * |ks| ensures BypassStep(t[i], |ks|, Refusing(ks)[i], Refusing(ks)[i + 1]) {
      RefusingSteps(ks, x, i);
    }
    RefusingMisses(ks, x, 2 * |ks| + 1);
  }
}
