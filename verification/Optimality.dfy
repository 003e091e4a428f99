/** A counting argument, at unit size: at no horizon does the cache that drops what is
    needed last fall behind a rival by more than the misses it has saved. */
module Optimality {
  import opened Base
  import opened BeladyPolicy

  /** The first time at or after `i` that the trace requests `k`. */
  function NextUse(ks: seq<Key>, i: nat, k: Key): (t: int)
    requires i <= |ks| <= NEVER_AGAIN
    ensures t == NEVER_AGAIN || (i <= t < |ks| && ks[t] == k)
    ensures forall j :: i <= j < |ks| && j < t ==> ks[j] != k
    decreases |ks| - i
  {
    if i == |ks| then NEVER_AGAIN else if ks[i] == k then i else NextUse(ks, i + 1, k)
  }

  /** The members of `s` needed no later than `t`. */
  ghost function Due(ks: seq<Key>, i: nat, s: set<Key>, t: int): set<Key>
    requires i <= |ks| <= NEVER_AGAIN
  {
    set x | x in s && NextUse(ks, i, x) <= t
  }

  ghost predicate DominatesAt(ks: seq<Key>, i: nat, s: set<Key>, r: set<Key>, d: int, t: int)
    requires i <= |ks| <= NEVER_AGAIN
  {
    |Due(ks, i, s, t)| + d >= |Due(ks, i, r, t)|
  }

  /** At every horizon `s` has as many objects due as `r`, give or take `d`. */
  ghost predicate Dominates(ks: seq<Key>, i: nat, s: set<Key>, r: set<Key>, d: int)
    requires i <= |ks| <= NEVER_AGAIN
  {
    forall t :: DominatesAt(ks, i, s, r, d, t)
  }

  /** One request served by evicting, when full, an object needed last. */
  ghost predicate FurthestStep(ks: seq<Key>, i: nat, capacity: nat, s: set<Key>, s': set<Key>)
    requires i < |ks| <= NEVER_AGAIN
  {
    var k := ks[i];
    if k in s then s' == s
    else if |s| < capacity then s' == s + {k}
    else exists v :: v in s && s' == s - {v} + {k}
                     && forall x :: x in s ==> NextUse(ks, i, x) <= NextUse(ks, i, v)
  }

  /** One request served by any schedule that keeps what is requested and holds at most
      `capacity` objects, dropping whatever it likes whenever it likes. */
  predicate RivalStep(k: Key, capacity: nat, r: set<Key>, r': set<Key>) {
    k in r' && r' <= r + {k} && |r'| <= capacity
  }

  /** How a request shifts what is due: the requested key moves to its next use. */
  lemma {:induction false} DueShifts(ks: seq<Key>, i: nat, s: set<Key>, t: int)
    requires i < |ks| <= NEVER_AGAIN
    ensures t <= i ==> Due(ks, i + 1, s, t) == {}
    ensures t > i ==> Due(ks, i + 1, s - {ks[i]}, t) == Due(ks, i, s, t) - {ks[i]}
    ensures t >= i ==> (ks[i] in Due(ks, i, s, t) <==> ks[i] in s)
  {
    forall x | x != ks[i] ensures NextUse(ks, i, x) == NextUse(ks, i + 1, x) {
    }
  }

  /** The requested key alone: due at once, then at its next use. */
  lemma {:induction false} DueSplits(ks: seq<Key>, i: nat, s: set<Key>, t: int, k: Key)
    requires i <= |ks| <= NEVER_AGAIN && k in s
    ensures Due(ks, i, s, t) == Due(ks, i, s - {k}, t) + (if NextUse(ks, i, k) <= t then {k} else {})
    ensures |Due(ks, i, s, t)| == |Due(ks, i, s - {k}, t)| + (if NextUse(ks, i, k) <= t then 1 else 0)
  {
  }

  lemma {:induction false} DueSubset(ks: seq<Key>, i: nat, s: set<Key>, r: set<Key>, t: int)
    requires i <= |ks| <= NEVER_AGAIN && r <= s
    ensures Due(ks, i, r, t) <= Due(ks, i, s, t) && |Due(ks, i, r, t)| <= |Due(ks, i, s, t)|
  {
    SubsetCardinality(Due(ks, i, r, t), Due(ks, i, s, t));
  }

  /** What the rival can have due after the request. */
  lemma {:induction false} RivalBound(ks: seq<Key>, i: nat, capacity: nat, r: set<Key>, r': set<Key>, t: int)
    requires i < |ks| <= NEVER_AGAIN && t > i && RivalStep(ks[i], capacity, r, r')
    ensures var now := if NextUse(ks, i + 1, ks[i]) <= t then 1 else 0;
            && |Due(ks, i + 1, r', t)| <= |Due(ks, i, r, t)| - (if ks[i] in r then 1 else 0) + now
            && |Due(ks, i + 1, r', t)| <= capacity - 1 + now
  {
    var k := ks[i];
    DueSplits(ks, i + 1, r', t, k);
    DueSubset(ks, i + 1, r - {k}, r' - {k}, t);
    DueShifts(ks, i, r, t);
    SubsetCardinality(Due(ks, i + 1, r' - {k}, t), r' - {k});
  }

  /** Losing the object needed last costs nothing due, or everything left is due. */
  lemma {:induction false} FurthestLost(ks: seq<Key>, i: nat, s: set<Key>, v: Key, t: int)
    requires i <= |ks| <= NEVER_AGAIN && v in s
    requires forall x :: x in s ==> NextUse(ks, i, x) <= NextUse(ks, i, v)
    ensures Due(ks, i, s - {v}, t) == if NextUse(ks, i, v) <= t then s - {v} else Due(ks, i, s, t)
  {
  }

  lemma {:induction false} DueFresh(ks: seq<Key>, i: nat, s: set<Key>, t: int)
    requires i < |ks| <= NEVER_AGAIN && t > i && ks[i] !in s
    ensures var now := if NextUse(ks, i + 1, ks[i]) <= t then 1 else 0;
            |Due(ks, i + 1, s + {ks[i]}, t)| == |Due(ks, i, s, t)| + now
  {
    var k := ks[i];
    DueSplits(ks, i + 1, s + {k}, t, k);
    DueShifts(ks, i, s, t);
    assert s + {k} - {k} == s && s - {k} == s;
    assert k !in Due(ks, i, s, t);
  }

  /** What the furthest-first cache has due after the request: all it had, or all it can. */
  lemma {:induction false} FurthestBound(ks: seq<Key>, i: nat, capacity: nat, s: set<Key>, s': set<Key>, t: int)
    requires i < |ks| <= NEVER_AGAIN && t > i && |s| <= capacity && FurthestStep(ks, i, capacity, s, s')
    ensures var now := if NextUse(ks, i + 1, ks[i]) <= t then 1 else 0;
            || |Due(ks, i + 1, s', t)| == |Due(ks, i, s, t)| - (if ks[i] in s then 1 else 0) + now
            || (ks[i] !in s && |Due(ks, i + 1, s', t)| == capacity - 1 + now)
  {
    hide Due;
    var k := ks[i];
    if k in s {
      DueShifts(ks, i, s, t);
      DueSplits(ks, i + 1, s, t, k);
    } else if |s| < capacity {
      DueFresh(ks, i, s, t);
    } else {
      var v :| v in s && s' == s - {v} + {k}
               && forall x :: x in s ==> NextUse(ks, i, x) <= NextUse(ks, i, v);
      DueFresh(ks, i, s - {v}, t);
      FurthestLost(ks, i, s, v, t);
    }
  }

  function Miss(k: Key, s: set<Key>): int {
    if k in s then 0 else 1
  }

  /** A miss the rival avoids was paid for in advance: the rival holds one object more
      that is due now. */
  lemma {:induction false} PaidInAdvance(ks: seq<Key>, i: nat, s: set<Key>, r: set<Key>, d: int)
    requires i < |ks| <= NEVER_AGAIN && Dominates(ks, i, s, r, d)
    requires ks[i] in r && ks[i] !in s
    ensures d >= 1
  {
    DueShifts(ks, i, r, i);
    assert Due(ks, i, s, i) == {};
    assert ks[i] in Due(ks, i, r, i);
    assert DominatesAt(ks, i, s, r, d, i);
  }

  lemma {:induction false} SurvivesAt(
    ks: seq<Key>, i: nat, capacity: nat, s: set<Key>, s': set<Key>, r: set<Key>, r': set<Key>, d: int,
    t: int)
    requires i < |ks| <= NEVER_AGAIN && |s| <= capacity && d >= 0
    requires FurthestStep(ks, i, capacity, s, s') && RivalStep(ks[i], capacity, r, r')
    requires DominatesAt(ks, i, s, r, d, t) && (ks[i] in r && ks[i] !in s ==> d >= 1)
    ensures DominatesAt(ks, i + 1, s', r', d + Miss(ks[i], r) - Miss(ks[i], s), t)
  {
    hide FurthestStep, RivalStep, Due;
    if t <= i {
      DueShifts(ks, i, r', t);
    } else {
      RivalBound(ks, i, capacity, r, r', t);
      FurthestBound(ks, i, capacity, s, s', t);
    }
  }

  /** Domination survives a request, the rival's lead in misses adjusted. */
  lemma {:induction false} DominationSurvives(
    ks: seq<Key>, i: nat, capacity: nat, s: set<Key>, s': set<Key>, r: set<Key>, r': set<Key>, d: int)
    requires i < |ks| <= NEVER_AGAIN && |s| <= capacity && d >= 0
    requires FurthestStep(ks, i, capacity, s, s') && RivalStep(ks[i], capacity, r, r')
    requires Dominates(ks, i, s, r, d)
    ensures var d' := d + Miss(ks[i], r) - Miss(ks[i], s);
            d' >= 0 && Dominates(ks, i + 1, s', r', d')
  {
    hide FurthestStep, RivalStep, DominatesAt;
    if ks[i] in r && ks[i] !in s {
      PaidInAdvance(ks, i, s, r, d);
    }
    var d', next := d + Miss(ks[i], r) - Miss(ks[i], s), i + 1;
    forall t ensures DominatesAt(ks, next, s', r', d', t) {
      assert DominatesAt(ks, i, s, r, d, t);
      SurvivesAt(ks, i, capacity, s, s', r, r', d, t);
    }
  }
}
