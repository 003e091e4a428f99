/** The calls a policy sees: a recorder around any policy shows which ones each event makes,
    and in which order. */
module Protocol {
  import opened Base
  import opened CacheSpec
  import opened AnyPolicy

  datatype Call =
    | Hinted(key: Key, next: int)
    | WasHit(key: Key)
    | MayAdmit(key: Key, size: nat)
    | Admitted(key: Key, size: nat)
    | Asked(victim: Option<Key>)
    | Removed(key: Key)

  datatype Recorded<P> = Recorded(inner: P, calls: seq<Call>)

  /** `ops`, with every call to it written down first. */
  function Recording<P>(ops: Policy<P>): Policy<Recorded<P>> {
    Policy(
      (r: Recorded<P>, k, next) => Recorded(ops.onNext(r.inner, k, next), r.calls + [Hinted(k, next)]),
      (r: Recorded<P>, k) => Recorded(ops.onHit(r.inner, k), r.calls + [WasHit(k)]),
      (r: Recorded<P>, k, size) =>
        var (p, ok) := ops.canAdmit(r.inner, k, size); (Recorded(p, r.calls + [MayAdmit(k, size)]), ok),
      (r: Recorded<P>, k, size) => Recorded(ops.onAdmit(r.inner, k, size), r.calls + [Admitted(k, size)]),
      (r: Recorded<P>) => var (p, v) := ops.evict(r.inner); (Recorded(p, r.calls + [Asked(v)]), v),
      (r: Recorded<P>, k) => Recorded(ops.onRemove(r.inner, k), r.calls + [Removed(k)]))
  }

  /** The cache without the recorder. */
  function Bare<P>(c: State<Recorded<P>>): State<P> {
    State(c.data, c.capacity, c.used, c.pol.inner, c.stats)
  }

  // ---- the recorder changes nothing

  lemma {:induction false} RoomIsBare<P>(ops: Policy<P>, c: State<Recorded<P>>, need: nat, budget: nat)
    ensures Bare(EvictToFit(Recording(ops), c, need, budget)) == EvictToFit(ops, Bare(c), need, budget)
    decreases budget
  {
    if c.used + need > c.capacity && budget > 0 {
      var (p, v) := Recording(ops).evict(c.pol);
      if v.Some? {
        var d := EvictOne(Recording(ops), c.(pol := p), v.value);
        assert Bare(d) == EvictOne(ops, Bare(c.(pol := p)), v.value);
        RoomIsBare(ops, d, need, budget - 1);
      }
    }
  }

  lemma {:induction false} InsertingIsBare<P>(
    ops: Policy<P>, c: State<Recorded<P>>, decision: (Recorded<P>, bool), k: Key, size: nat)
    ensures Bare(Inserting(Recording(ops), c, decision, k, size))
            == Inserting(ops, Bare(c), (decision.0.inner, decision.1), k, size)
  {
    hide EvictToFit, CacheSpec.Admit, Reject, Recording;
    var d := c.(pol := decision.0);
    assert Bare(d) == Bare(c).(pol := decision.0.inner);
    RoomIsBare(ops, d, size, |c.data| + SPARE_BUDGET);
    var roomy := EvictToFit(Recording(ops), d, size, |c.data| + SPARE_BUDGET);
    RejectIsBare(d);
    RejectIsBare(roomy);
    AdmitIsBare(ops, roomy, k, size);
  }

  lemma {:induction false} RejectIsBare<P>(c: State<Recorded<P>>)
    ensures Bare(Reject(c)) == Reject(Bare(c))
  {
  }

  lemma {:induction false} AdmitIsBare<P>(ops: Policy<P>, c: State<Recorded<P>>, k: Key, size: nat)
    ensures Bare(CacheSpec.Admit(Recording(ops), c, k, size)) == CacheSpec.Admit(ops, Bare(c), k, size)
  {
  }

  lemma {:induction false} InsertIsBare<P>(ops: Policy<P>, c: State<Recorded<P>>, k: Key, size: nat)
    ensures Bare(Insert(Recording(ops), c, k, size)) == Insert(ops, Bare(c), k, size)
  {
    hide Insert, Inserting, Recording;
    InsertIs(Recording(ops), c, k, size);
    InsertIs(ops, Bare(c), k, size);
    RejectIsBare(c);
    DecisionIsBare(ops, c.pol, k, size);
    InsertingIsBare(ops, c, Recording(ops).canAdmit(c.pol, k, size), k, size);
  }

  lemma {:induction false} DecisionIsBare<P>(ops: Policy<P>, p: Recorded<P>, k: Key, size: nat)
    ensures var decision := Recording(ops).canAdmit(p, k, size);
            (decision.0.inner, decision.1) == ops.canAdmit(p.inner, k, size)
  {
  }

  /** Every event leaves the recorded policy, and the cache, as they are unrecorded. */
  lemma {:induction false} StepIsBare<P>(ops: Policy<P>, c: State<Recorded<P>>, e: Event)
    ensures Bare(Step(Recording(ops), c, e)) == Step(ops, Bare(c), e)
  {
    hide Insert;
    if !e.Delete? && e.key !in c.data {
      var p := if e.Request? then c.pol else Recording(ops).onNext(c.pol, e.key, e.next);
      var d := c.(pol := p, stats := CountMiss(c.stats, e.size));
      assert c.(pol := c.pol) == c;
      InsertIsBare(ops, d, e.key, e.size);
      assert Bare(d) == Bare(c).(pol := p.inner, stats := CountMiss(c.stats, e.size));
      assert Bare(c).(pol := Bare(c).pol) == Bare(c);
    }
  }

  // ---- the order of calls

  /** Requests for victims: the key each one names is removed before the next is asked for,
      and none is asked for after one that names nothing. */
  ghost predicate Rounds(cs: seq<Call>) {
    || cs == [] || cs == [Asked(None)]
    || (|cs| >= 2 && cs[0].Asked? && cs[0].victim.Some? && cs[1] == Removed(cs[0].victim.value) && Rounds(cs[2..]))
  }

  /** What a miss says to a policy: nothing, when the object is too large; else it asks
      whether to admit, and only if the answer is `ok` makes room; and it reports an admission
      last, and exactly when the object is in. */
  ghost predicate MissCalls(k: Key, size: nat, capacity: int, ok: bool, resident: bool, cs: seq<Call>) {
    if size > capacity then cs == [] && !resident
    else if !ok then cs == [MayAdmit(k, size)] && !resident
    else
      && cs != [] && cs[0] == MayAdmit(k, size)
      && if resident then |cs| >= 2 && cs[|cs| - 1] == Admitted(k, size) && Rounds(cs[1..|cs| - 1])
         else Rounds(cs[1..])
  }

  /** What one event says to a policy. */
  ghost predicate EventCalls<P>(ops: Policy<P>, c: State<P>, e: Event, resident: bool, cs: seq<Call>) {
    match e
    case Delete(k) => cs == [Removed(k)]
    case Request(k, size) =>
      if k in c.data then cs == [WasHit(k)]
      else MissCalls(k, size, c.capacity, ops.canAdmit(c.pol, k, size).1, resident, cs)
    case OracleRequest(k, size, next) =>
      && cs != [] && cs[0] == Hinted(k, next)
      && if k in c.data then cs[1..] == [WasHit(k)]
         else
           var ok := ops.canAdmit(ops.onNext(c.pol, k, next), k, size).1;
           MissCalls(k, size, c.capacity, ok, resident, cs[1..])
  }

  lemma {:induction false} RoomRounds<P>(ops: Policy<P>, c: State<Recorded<P>>, need: nat, budget: nat)
    returns (cs: seq<Call>)
    ensures EvictToFit(Recording(ops), c, need, budget).pol.calls == c.pol.calls + cs && Rounds(cs)
    ensures EvictToFit(Recording(ops), c, need, budget).data.Keys <= c.data.Keys
    ensures EvictToFit(Recording(ops), c, need, budget).capacity == c.capacity
    decreases budget
  {
    cs := [];
    if c.used + need > c.capacity && budget > 0 {
      var (p, v) := Recording(ops).evict(c.pol);
      cs := [Asked(v)];
      if v.Some? {
        var d := EvictOne(Recording(ops), c.(pol := p), v.value);
        var rest := RoomRounds(ops, d, need, budget - 1);
        cs := [Asked(v), Removed(v.value)] + rest;
        assert cs[2..] == rest;
        assert d.pol.calls == c.pol.calls + [Asked(v)] + [Removed(v.value)];
        assert c.pol.calls + [Asked(v)] + [Removed(v.value)] + rest == c.pol.calls + cs;
      }
    }
  }

  lemma {:induction false} MissForm(k: Key, size: nat, capacity: int, rounds: seq<Call>)
    requires size <= capacity && Rounds(rounds)
    ensures MissCalls(k, size, capacity, true, false, [MayAdmit(k, size)] + rounds)
    ensures MissCalls(k, size, capacity, true, true, [MayAdmit(k, size)] + rounds + [Admitted(k, size)])
    ensures rounds == [] ==> MissCalls(k, size, capacity, false, false, [MayAdmit(k, size)] + rounds)
  {
    var cs := [MayAdmit(k, size)] + rounds;
    assert cs[1..] == rounds;
    var ds := cs + [Admitted(k, size)];
    assert ds[1..|ds| - 1] == rounds;
  }

  /** The calls once the decision has been made. */
  lemma {:induction false} InsertingCalls<P>(
    ops: Policy<P>, c: State<Recorded<P>>, decision: (Recorded<P>, bool), k: Key, size: nat)
    returns (rounds: seq<Call>)
    requires k !in c.data
    ensures Rounds(rounds)
    ensures var r := Inserting(Recording(ops), c, decision, k, size);
            && r.pol.calls == decision.0.calls + rounds + (if k in r.data then [Admitted(k, size)] else [])
            && (!decision.1 ==> rounds == [] && k !in r.data)
  {
    hide EvictToFit, Rounds, Recording, CacheSpec.Admit;
    rounds := [];
    NoRounds();
    if decision.1 {
      var d := c.(pol := decision.0);
      rounds := RoomRounds(ops, d, size, |c.data| + SPARE_BUDGET);
      AdmitCalls(ops, EvictToFit(Recording(ops), d, size, |c.data| + SPARE_BUDGET), k, size);
    }
  }

  lemma {:induction false} InsertCalls<P>(ops: Policy<P>, c: State<Recorded<P>>, k: Key, size: nat)
    returns (cs: seq<Call>)
    requires k !in c.data
    ensures var r := Insert(Recording(ops), c, k, size);
            && r.pol.calls == c.pol.calls + cs
            && MissCalls(k, size, c.capacity, ops.canAdmit(c.pol.inner, k, size).1, k in r.data, cs)
  {
    hide Insert, Inserting, Rounds, Recording, MissCalls;
    var decision := Recording(ops).canAdmit(c.pol, k, size);
    DecisionCalls(ops, c.pol, k, size);
    TooLargeIsSilent(k, size, c.capacity, decision.1);
    InsertIs(Recording(ops), c, k, size);
    cs := [];
    if size <= c.capacity {
      var rounds := InsertingCalls(ops, c, decision, k, size);
      MissForm(k, size, c.capacity, rounds);
      cs := [MayAdmit(k, size)] + rounds;
      if k in Inserting(Recording(ops), c, decision, k, size).data {
        cs := cs + [Admitted(k, size)];
      }
      assert c.pol.calls + cs == Inserting(Recording(ops), c, decision, k, size).pol.calls;
    }
  }

  lemma {:induction false} DecisionCalls<P>(ops: Policy<P>, p: Recorded<P>, k: Key, size: nat)
    ensures Recording(ops).canAdmit(p, k, size).0.calls == p.calls + [MayAdmit(k, size)]
    ensures Recording(ops).canAdmit(p, k, size).1 == ops.canAdmit(p.inner, k, size).1
  {
  }

  lemma {:induction false} TooLargeIsSilent(k: Key, size: nat, capacity: int, ok: bool)
    ensures size > capacity ==> MissCalls(k, size, capacity, ok, false, [])
  {
  }

  lemma {:induction false} NoRounds()
    ensures Rounds([])
  {
  }

  lemma {:induction false} AdmitCalls<P>(ops: Policy<P>, c: State<Recorded<P>>, k: Key, size: nat)
    ensures var r := CacheSpec.Admit(Recording(ops), c, k, size);
            r.pol.calls == c.pol.calls + [Admitted(k, size)] && k in r.data
  {
  }

  /** The protocol, for any policy. A hit is told and nothing else. A miss asks for the
      decision before any eviction, follows each victim with its removal, and reports the
      admission last. A delete is told whether the key was resident or not. A hint comes
      first. */
  lemma {:induction false} CallsComeInOrder<P>(ops: Policy<P>, c: State<Recorded<P>>, e: Event)
    returns (cs: seq<Call>)
    ensures var r := Step(Recording(ops), c, e);
            r.pol.calls == c.pol.calls + cs && EventCalls(ops, Bare(c), e, e.key in r.data, cs)
  {
    hide Insert, MissCalls;
    match e
    case Delete(k) => cs := [Removed(k)];
    case Request(k, size) =>
      if k in c.data {
        cs := [WasHit(k)];
      } else {
        cs := InsertCalls(ops, c.(stats := CountMiss(c.stats, size)), k, size);
      }
    case OracleRequest(k, size, next) =>
      var d := c.(pol := Recording(ops).onNext(c.pol, k, next));
      var more := [WasHit(k)];
      if k !in c.data {
        more := InsertCalls(ops, d.(stats := CountMiss(d.stats, size)), k, size);
      }
      cs := [Hinted(k, next)] + more;
      assert cs[1..] == more;
      assert c.pol.calls + [Hinted(k, next)] + more == c.pol.calls + cs;
  }
}
