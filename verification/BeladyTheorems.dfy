/** The oracle cache with Belady: what it stores for each resident is always its next use. */
module BeladyTheorems {
  import opened Base
  import opened CacheSpec
  import opened Policies
  import opened Agreement
  import opened BeladyPolicy
  import opened Optimality

  function ColdBelady(): PolState {
    PolState.Belady(BeladyPolicy.Belady.Belady([], None))
  }

  // ---- oracle freshness

  /** Every stored time is the next use of its key at or after `i`. */
  ghost predicate FreshEntries(es: seq<Entry>, ks: seq<Key>, i: nat)
    requires i <= |ks| <= NEVER_AGAIN
  {
    forall j :: 0 <= j < |es| ==> es[j].next == NextUse(ks, i, es[j].key)
  }

  /** The requests of a trace, each with the hint the replayer hands the oracle. */
  ghost predicate Hints(es: seq<Event>, ks: seq<Key>)
    ensures Hints(es, ks) ==> |es| == |ks| <= NEVER_AGAIN
  {
    && |es| == |ks| <= NEVER_AGAIN
    && forall i {:trigger es[i]} :: 0 <= i < |es| ==>
         es[i].OracleRequest? && es[i].key == ks[i] && es[i].next == NextUse(ks, i + 1, ks[i])
  }

  ghost predicate Within(es: seq<Entry>, fs: seq<Entry>) {
    forall j :: 0 <= j < |es| ==> es[j] in fs
  }

  lemma {:induction false} WithinTransitive(a: seq<Entry>, b: seq<Entry>, c: seq<Entry>)
    requires Within(a, b) && Within(b, c)
    ensures Within(a, c)
  {
    forall j | 0 <= j < |a| ensures a[j] in c {
      assert a[j] in b;
      var m :| 0 <= m < |b| && b[m] == a[j];
      assert b[m] in c;
    }
  }

  lemma {:induction false} RemovedWithin(b: Belady, k: Key)
    ensures Within(Removed(b, k).entries, b.entries)
  {
  }

  /** Making room only ever drops entries. */
  lemma {:induction false} RoomWithin(c: State<PolState>, need: nat, budget: nat)
    requires c.pol.Belady?
    ensures var r := EvictToFit(Ops(), c, need, budget);
            r.pol.Belady? && r.pol.belady.pending == c.pol.belady.pending
            && Within(r.pol.belady.entries, c.pol.belady.entries)
    decreases budget
  {
    hide EvictToFit, Within, AfterEviction;
    EvictToFitStep(c, need, budget);
    WithinSelf(c.pol.belady.entries);
    if c.used + need > c.capacity && budget > 0 && Evict(c.pol).1.Some? {
      EvictionWithin(c);
      RoomWithin(AfterEviction(c), need, budget - 1);
      WithinTransitive(EvictToFit(Ops(), AfterEviction(c), need, budget - 1).pol.belady.entries,
                       AfterEviction(c).pol.belady.entries, c.pol.belady.entries);
    }
  }

  lemma {:induction false} WithinSelf(es: seq<Entry>)
    ensures Within(es, es)
  {
  }

  lemma {:induction false} EvictionWithin(c: State<PolState>)
    requires c.pol.Belady? && Evict(c.pol).1.Some?
    ensures var r := AfterEviction(c);
            r.pol.Belady? && r.pol.belady.pending == c.pol.belady.pending
            && Within(r.pol.belady.entries, c.pol.belady.entries)
  {
    var v := Evict(c.pol).1.value;
    RemovedWithin(c.pol.belady, v);
    assert Ops().onRemove(c.pol, v) == Drop(c.pol, v);
  }

  lemma {:induction false} FreshLater(es: seq<Entry>, fs: seq<Entry>, ks: seq<Key>, i: nat)
    requires i < |ks| <= NEVER_AGAIN && FreshEntries(es, ks, i)
    requires forall j :: 0 <= j < |fs| ==>
               (fs[j] in es && fs[j].key != ks[i]) || fs[j] == Entry(ks[i], NextUse(ks, i + 1, ks[i]))
    ensures FreshEntries(fs, ks, i + 1)
  {
    forall j | 0 <= j < |fs| ensures fs[j].next == NextUse(ks, i + 1, fs[j].key) {
      if fs[j] in es && fs[j].key != ks[i] {
        var m :| 0 <= m < |es| && es[m] == fs[j];
        assert es[m].next == NextUse(ks, i, es[m].key);
      }
    }
  }

  lemma {:induction false} UpdateFresh(es: seq<Entry>, ks: seq<Key>, i: nat)
    requires i < |ks| <= NEVER_AGAIN && Distinct(Keys(es)) && FreshEntries(es, ks, i) && ks[i] in Keys(es)
    ensures FreshEntries(WithNext(es, ks[i], NextUse(ks, i + 1, ks[i])), ks, i + 1)
  {
    var fs := WithNext(es, ks[i], NextUse(ks, i + 1, ks[i]));
    var p := IndexOf(Keys(es), ks[i]);
    forall j | 0 <= j < |fs| && j != p ensures fs[j] in es && fs[j].key != ks[i] {
      assert Keys(es)[j] == es[j].key && Keys(es)[p] == ks[i];
    }
    FreshLater(es, fs, ks, i);
  }

  lemma {:induction false} AppendFresh(es: seq<Entry>, kept: seq<Entry>, ks: seq<Key>, i: nat)
    requires i < |ks| <= NEVER_AGAIN && FreshEntries(es, ks, i)
    requires Within(kept, es) && ks[i] !in Keys(es)
    ensures ks[i] !in Keys(kept)
    ensures FreshEntries(kept, ks, i + 1)
    ensures FreshEntries(WithNext(kept, ks[i], NextUse(ks, i + 1, ks[i])), ks, i + 1)
  {
    forall j | 0 <= j < |kept| ensures kept[j] in es && kept[j].key != ks[i] {
      var m :| 0 <= m < |es| && es[m] == kept[j];
      assert Keys(es)[m] == kept[j].key;
    }
    FreshLater(es, kept, ks, i);
    assert ks[i] !in Keys(kept) by {
      assert forall j :: 0 <= j < |kept| ==> Keys(kept)[j] == kept[j].key;
    }
    FreshLater(es, kept + [Entry(ks[i], NextUse(ks, i + 1, ks[i]))], ks, i);
  }

  /** A healthy oracle cache whose every resident's stored time is its next use. */
  ghost predicate Fresh(c: State<PolState>, ks: seq<Key>, i: nat)
    requires i <= |ks| <= NEVER_AGAIN
  {
    Healthy(c) && c.pol.Belady? && FreshEntries(c.pol.belady.entries, ks, i)
  }

  lemma {:induction false} HitFresh(c: State<PolState>, ks: seq<Key>, i: nat, size: nat)
    requires i < |ks| <= NEVER_AGAIN && Fresh(c, ks, i) && ks[i] in c.data
    requires HasHint(c.pol.belady, ks[i]) && c.pol.belady.pending.value.next == NextUse(ks, i + 1, ks[i])
    ensures Fresh(Access(Ops(), c, ks[i], size), ks, i + 1)
  {
    AccessIsHealthy(c, ks[i], size);
    assert ks[i] in Elements(Keys(c.pol.belady.entries));
    UpdateFresh(c.pol.belady.entries, ks, i);
  }

  lemma {:induction false} InsertFresh(c: State<PolState>, ks: seq<Key>, i: nat, size: nat)
    requires i < |ks| <= NEVER_AGAIN && c.used == Bytes(c.data) && Agrees(c.pol, c.data)
    requires c.pol.Belady? && FreshEntries(c.pol.belady.entries, ks, i) && ks[i] !in c.data
    requires HasHint(c.pol.belady, ks[i]) && c.pol.belady.pending.value.next == NextUse(ks, i + 1, ks[i])
    ensures var r := Insert(Ops(), c, ks[i], size);
            r.pol.Belady? && FreshEntries(r.pol.belady.entries, ks, i + 1)
  {
    assert ks[i] !in Keys(c.pol.belady.entries) by {
      assert ks[i] !in Elements(Keys(c.pol.belady.entries));
    }
    hide Insert, EvictToFit, FreshEntries, Within, Agrees, WithNext;
    WithinSelf(c.pol.belady.entries);
    AppendFresh(c.pol.belady.entries, c.pol.belady.entries, ks, i);
    InsertTooBig(c, ks[i], size);
    if size <= c.capacity {
      InsertForm(c, ks[i], size);
      assert c.(pol := c.pol) == c;
      var roomy := Roomy(c, ks[i], size);
      RoomWithin(c, size, |c.data| + SPARE_BUDGET);
      AppendFresh(c.pol.belady.entries, roomy.pol.belady.entries, ks, i);
      assert Ops().onAdmit(roomy.pol, ks[i], size) == Policies.Admit(roomy.pol, ks[i], size);
    }
  }

  lemma {:induction false} MissFresh(c: State<PolState>, ks: seq<Key>, i: nat, size: nat)
    requires i < |ks| <= NEVER_AGAIN && Fresh(c, ks, i) && ks[i] !in c.data
    requires HasHint(c.pol.belady, ks[i]) && c.pol.belady.pending.value.next == NextUse(ks, i + 1, ks[i])
    ensures Fresh(Access(Ops(), c, ks[i], size), ks, i + 1)
  {
    hide Insert, FreshEntries;
    AccessIsHealthy(c, ks[i], size);
    InsertFresh(c.(stats := CountMiss(c.stats, size)), ks, i, size);
  }

  lemma {:induction false} StepFresh(c: State<PolState>, ks: seq<Key>, i: nat, e: Event)
    requires i < |ks| <= NEVER_AGAIN && Fresh(c, ks, i)
    requires e.OracleRequest? && e.key == ks[i] && e.next == NextUse(ks, i + 1, ks[i])
    ensures Fresh(Step(Ops(), c, e), ks, i + 1)
  {
    hide Access, FreshEntries;
    Hinting(c, e.key, e.next);
    var d := c.(pol := NextAccess(c.pol, e.key, e.next));
    if ks[i] in c.data {
      HitFresh(d, ks, i, e.size);
    } else {
      MissFresh(d, ks, i, e.size);
    }
  }

  lemma {:induction false} ColdIsFresh(capacity: nat, ks: seq<Key>)
    requires |ks| <= NEVER_AGAIN
    ensures Fresh(Cold(capacity, ColdBelady()), ks, 0)
  {
    assert Elements<Key>([]) == {};
  }

  lemma {:induction false} HintAt(es: seq<Event>, ks: seq<Key>, i: nat)
    requires Hints(es, ks) && i < |es|
    ensures es[i].OracleRequest? && es[i].key == ks[i] && es[i].next == NextUse(ks, i + 1, ks[i])
  {
  }

  /** After each request of a replay, at any sizes, the time stored for every resident is
      exactly its next request in the trace, or never. */
  lemma {:induction false} OracleIsFresh(capacity: nat, ks: seq<Key>, es: seq<Event>, i: nat)
    requires Hints(es, ks) && i <= |es|
    ensures Fresh(After(Ops(), Cold(capacity, ColdBelady()), es, i), ks, i)
  {
    hide Step, Fresh, Ops, ColdBelady, Cold, Hints;
    ColdIsFresh(capacity, ks);
    if i > 0 {
      OracleIsFresh(capacity, ks, es, i - 1);
      HintAt(es, ks, i - 1);
      StepFresh(After(Ops(), Cold(capacity, ColdBelady()), es, i - 1), ks, i - 1, es[i - 1]);
    }
  }

  // ---- hints

  /** A hint reaches only the key it came for: that key's entry takes its time, in place or
      behind the rest. Without one a newcomer is never needed again, as far as is known, and
      a key that is hit keeps its time. No other entry ever changes. */
  lemma {:induction false} HintsReachTheirKey(b: Belady, k: Key)
    requires Distinct(Keys(b.entries))
    ensures var r := BeladyPolicy.Hit(b, k).entries;
            && |r| == |b.entries| + (if k !in Keys(b.entries) && HasHint(b, k) then 1 else 0)
            && forall j :: 0 <= j < |b.entries| ==>
                 r[j] == if b.entries[j].key == k && b.pending.Some? && b.pending.value.key == k
                         then Entry(k, b.pending.value.next) else b.entries[j]
    ensures k !in Keys(b.entries) ==>
              BeladyPolicy.Admitted(b, k).entries ==
                b.entries + [Entry(k, if b.pending.Some? && b.pending.value.key == k then b.pending.value.next
                                      else 0x7FFF_FFFF_FFFF_FFFF)]
    ensures BeladyPolicy.Hit(b, k).pending == b.pending == BeladyPolicy.Admitted(b, k).pending
  {
    var es := b.entries;
    var i := IndexOf(Keys(es), k);
    forall j | 0 <= j < |es| ensures es[j].key == k <==> j == i {
      assert Keys(es)[j] == es[j].key;
      assert i < |es| ==> Keys(es)[i] == k;
    }
  }
}
