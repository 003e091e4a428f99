/** Sums over the evictions of a run: what each is worth is read off the policy's state at
    the moment it is asked for a victim. */
module Evictions {
  import opened Base
  import opened CacheSpec
  import opened Policies
  import opened Agreement

  /** Over the evictions that make room. */
  ghost function RoomSum(c: State<PolState>, need: nat, budget: nat, worth: PolState -> int): int
    decreases budget
  {
    if c.used + need <= c.capacity || budget == 0 || Evict(c.pol).1.None? then 0
    else worth(c.pol) + RoomSum(AfterEviction(c), need, budget - 1, worth)
  }

  /** Over the evictions one event causes. */
  ghost function StepSum(c: State<PolState>, e: Event, worth: PolState -> int): int {
    if e.Delete? || e.key in c.data || e.size > c.capacity then 0
    else
      var p := if e.Request? then c.pol else NextAccess(c.pol, e.key, e.next);
      var (q, ok) := CanAdmit(p, e.key, e.size);
      if ok then RoomSum(c.(pol := q), e.size, |c.data| + SPARE_BUDGET, worth) else 0
  }

  /** Over the evictions of the first `i` events. */
  ghost function RunSum(c: State<PolState>, es: seq<Event>, i: nat, worth: PolState -> int): int
    requires i <= |es|
  {
    if i == 0 then 0
    else RunSum(c, es, i - 1, worth) + StepSum(After(Ops(), c, es, i - 1), es[i - 1], worth)
  }

  lemma {:induction false} RoomSumStep(c: State<PolState>, need: nat, budget: nat, worth: PolState -> int)
    ensures c.used + need <= c.capacity || budget == 0 ==> RoomSum(c, need, budget, worth) == 0
    ensures c.used + need > c.capacity && budget > 0 && Evict(c.pol).1.Some? ==>
              RoomSum(c, need, budget, worth)
              == worth(c.pol) + RoomSum(AfterEviction(c), need, budget - 1, worth)
  {
  }

  lemma {:induction false} RoomSumIgnoresStats(
    c: State<PolState>, d: State<PolState>, need: nat, budget: nat, worth: PolState -> int)
    requires d == c.(stats := d.stats)
    ensures RoomSum(c, need, budget, worth) == RoomSum(d, need, budget, worth)
    decreases budget
  {
    hide Evict;
    if !(c.used + need <= c.capacity || budget == 0 || Evict(c.pol).1.None?) {
      var a, b := AfterEviction(c), AfterEviction(d);
      assert b == a.(stats := b.stats);
      RoomSumIgnoresStats(a, b, need, budget - 1, worth);
    }
  }

  /** What is never negative adds up to nothing negative, and to more as the run goes on. */
  lemma {:induction false} RoomSumGrows(c: State<PolState>, need: nat, budget: nat, worth: PolState -> int)
    requires forall p :: worth(p) >= 0
    ensures RoomSum(c, need, budget, worth) >= 0
    decreases budget
  {
    hide Evict;
    if !(c.used + need <= c.capacity || budget == 0 || Evict(c.pol).1.None?) {
      RoomSumGrows(AfterEviction(c), need, budget - 1, worth);
    }
  }
}
