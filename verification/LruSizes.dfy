/** Exactly which sizes make LRU a stack policy: those of which none fits only the larger
    of two caches while another fits both. */
module LruSizes {
  import opened Base
  import opened CacheSpec
  import opened Policies
  import opened LruTheorems

  // ---- the claim, for a set of sizes

  /** The LRU cache of a given capacity after the first `i` events. */
  ghost function Lrued(capacity: nat, es: seq<Event>, i: nat): State<PolState>
    requires i <= |es|
  {
    After(Ops(), Cold(capacity, Lru([])), es, i)
  }

  /** Every key is always requested at one size, and that size is in `sizes`. */
  ghost predicate Drawn(es: seq<Event>, w: Key -> nat, sizes: iset<nat>) {
    FixedSizes(es, w) && forall j :: 0 <= j < |es| && !es[j].Delete? ==> w(es[j].key) in sizes
  }

  ghost predicate ResidentsIncluded(capacity: nat, larger: nat, sizes: iset<nat>) {
    forall es, w, i: nat :: Drawn(es, w, sizes) && i <= |es| ==>
      Lrued(capacity, es, i).data.Keys <= Lrued(larger, es, i).data.Keys
  }

  ghost predicate MissesNeverRise(capacity: nat, larger: nat, sizes: iset<nat>) {
    forall es, w, i: nat :: Drawn(es, w, sizes) && i <= |es| ==>
      Lrued(larger, es, i).stats.misses <= Lrued(capacity, es, i).stats.misses
  }

  /** Some size fits both caches and another only the larger. */
  ghost predicate Straddled(capacity: nat, larger: nat, sizes: iset<nat>) {
    exists y, z :: y in sizes && z in sizes && y <= capacity < z <= larger
  }

  // ---- a trace that breaks it

  /** Distinct keys, one for each number; the first is the empty one. */
  function Tag(i: nat): (k: Key)
    ensures |k| == i
  {
    seq(i, _ => 'k')
  }

  /** `y` bytes for the first key and `z` for any other. */
  function Two(y: nat, z: nat): Key -> nat {
    k => if k == "" then y else z
  }

  /** One key, then `m` others, then the first again. */
  ghost function Flood(m: nat, w: Key -> nat): (es: seq<Event>)
    ensures |es| == m + 2
    ensures forall i :: 0 <= i <= m ==> es[i] == Request(Tag(i), w(Tag(i)))
    ensures es[m + 1] == Request("", w(""))
  {
    seq(m + 1, i requires 0 <= i <= m => Request(Tag(i), w(Tag(i)))) + [Request("", w(""))]
  }

  lemma {:induction false} Served(capacity: nat, w: Key -> nat, es: seq<Event>, i: nat)
    requires FixedSizes(es, w) && i < |es| && es[i].Request?
    ensures var c, r := Lrued(capacity, es, i), Lrued(capacity, es, i + 1);
            && c.pol.Lru? && r.pol.Lru?
            && r.pol.order == Next(c.pol.order, es[i].key, w, capacity)
            && r.stats.misses == c.stats.misses + (if es[i].key in c.pol.order then 0 else 1)
  {
    hide Step, LruCache;
    RunIsLru(capacity, w, es, i);
    RunIsLru(capacity, w, es, i + 1);
    var c := After(Ops(), Cold(capacity, Lru([])), es, i);
    OrderIsResidents(c, w);
    StepIsNext(c, w, es[i]);
    OrderIsResidents(After(Ops(), Cold(capacity, Lru([])), es, i + 1), w);
  }

  lemma {:induction false} FloodIsFixed(m: nat, w: Key -> nat)
    ensures FixedSizes(Flood(m, w), w)
  {
    var es := Flood(m, w);
    assert forall i :: 0 <= i < |es| ==> i == m + 1 || es[i].size == w(es[i].key);
  }

  lemma {:induction false} LruedStarts(capacity: nat, es: seq<Event>)
    ensures Lrued(capacity, es, 0).pol == Lru([]) && Lrued(capacity, es, 0).stats.misses == 0
  {
  }

  /** The first key alone stays in the smaller cache, which refuses every other. */
  lemma {:induction false} SmallerKeepsFirst(capacity: nat, y: nat, z: nat, m: nat, i: nat)
    requires y <= capacity < z && 0 < i <= m + 1
    ensures var r := Lrued(capacity, Flood(m, Two(y, z)), i);
            r.pol == Lru([""]) && r.stats.misses == i
  {
    hide Lrued, Flood;
    var w := Two(y, z);
    var es := Flood(m, w);
    FloodIsFixed(m, w);
    Served(capacity, w, es, i - 1);
    if i == 1 {
      LruedStarts(capacity, es);
      assert Next([], "", w, capacity) == [""] by {
        assert [""] + [] == [""];
      }
    } else {
      SmallerKeepsFirst(capacity, y, z, m, i - 1);
      assert Tag(i - 1) !in [""];
    }
  }

  /** The keys tagged below `i`, the latest first. */
  ghost function Stack(i: nat): (s: seq<Key>)
    ensures |s| == i
    ensures forall j :: 0 <= j < i ==> |s[j]| == i - 1 - j
  {
    if i == 0 then [] else [Tag(i - 1)] + Stack(i - 1)
  }

  lemma {:induction false} WeightPrepended(k: Key, s: seq<Key>, w: Key -> nat)
    ensures Weight([k] + s, w) == w(k) + Weight(s, w)
  {
    if s == [] {
      assert [k] + s == [k] && [k][..0] == [];
    } else {
      var last := |s| - 1;
      assert ([k] + s)[..last + 1] == [k] + s[..last];
      WeightPrepended(k, s[..last], w);
    }
  }

  lemma {:induction false} StackWeight(y: nat, z: nat, i: nat)
    requires i > 0
    ensures Weight(Stack(i), Two(y, z)) == y + z * (i - 1)
  {
    WeightPrepended(Tag(i - 1), Stack(i - 1), Two(y, z));
    if i == 1 {
      assert Weight([], Two(y, z)) == 0;
    } else {
      StackWeight(y, z, i - 1);
    }
  }

  /** The larger cache holds some of the latest keys, and has missed them all. */
  lemma {:induction false} LargerHoldsLatest(larger: nat, y: nat, z: nat, m: nat, i: nat)
    requires y <= larger && z <= larger && i <= m + 1
    ensures var r := Lrued(larger, Flood(m, Two(y, z)), i);
            r.pol.Lru? && r.pol.order <= Stack(i) && r.stats.misses == i
  {
    hide Lrued, Flood, Fit, Weight;
    var w := Two(y, z);
    var es := Flood(m, w);
    if i == 0 {
      LruedStarts(larger, es);
    } else {
      FloodIsFixed(m, w);
      Served(larger, w, es, i - 1);
      LargerHoldsLatest(larger, y, z, m, i - 1);
      var o := Lrued(larger, es, i - 1).pol.order;
      NotTaggedYet(o, i - 1);
      var f := Fit(o, w, larger - w(Tag(i - 1)));
      assert o[..f] <= Stack(i - 1);
    }
  }

  lemma {:induction false} NotTaggedYet(o: seq<Key>, i: nat)
    requires o <= Stack(i)
    ensures Tag(i) !in o
  {
    assert forall j :: 0 <= j < |o| ==> o[j] == Stack(i)[j];
  }

  /** Enough others push the first key out of the larger cache. */
  lemma {:induction false} LargerLosesFirst(larger: nat, y: nat, z: nat)
    requires y <= larger && 0 < z <= larger
    ensures var m := larger / z + 1;
            var r := Lrued(larger, Flood(m, Two(y, z)), m + 1);
            r.pol.Lru? && "" !in r.pol.order
  {
    hide Lrued, Flood, Weight, Fit;
    var m := larger / z + 1;
    var w := Two(y, z);
    var es := Flood(m, w);
    FloodIsFixed(m, w);
    Served(larger, w, es, m);
    LargerHoldsLatest(larger, y, z, m, m);
    var o := Lrued(larger, es, m).pol.order;
    NotTaggedYet(o, m);
    var f := Fit(o, w, larger - z);
    FitFits(o, w, larger - z);
    StackWeight(y, z, m);
    assert z * (m - 1) > larger - z;
    assert o[..f] == Stack(m)[..f] && Stack(m)[..m] == Stack(m);
    assert f < m;
    assert forall j :: 0 <= j < f ==> |Stack(m)[j]| > 0;
  }

  /** Whenever one size fits both caches and another only the larger, some trace of the two
      leaves a resident of the smaller outside the larger, and then has the larger miss
      once more than the smaller has. */
  lemma {:induction false} StraddlingBreaksInclusion(capacity: nat, larger: nat, y: nat, z: nat)
    requires y <= capacity < z <= larger
    ensures var m := larger / z + 1; var es := Flood(m, Two(y, z));
            && FixedSizes(es, Two(y, z))
            && "" in Lrued(capacity, es, m + 1).data && "" !in Lrued(larger, es, m + 1).data
            && Lrued(capacity, es, m + 2).stats.misses == m + 1
            && Lrued(larger, es, m + 2).stats.misses == m + 2
  {
    hide Flood, Lrued, Weight, Fit;
    var m := larger / z + 1;
    var w := Two(y, z);
    var es := Flood(m, w);
    FloodIsFixed(m, w);
    SmallerKeepsFirst(capacity, y, z, m, m + 1);
    LargerHoldsLatest(larger, y, z, m, m + 1);
    LargerLosesFirst(larger, y, z);
    Served(capacity, w, es, m + 1);
    Served(larger, w, es, m + 1);
    ResidentsAreOrdered(capacity, w, es, m + 1);
    ResidentsAreOrdered(larger, w, es, m + 1);
  }

  lemma {:induction false} ResidentsAreOrdered(capacity: nat, w: Key -> nat, es: seq<Event>, i: nat)
    requires FixedSizes(es, w) && i <= |es|
    ensures var r := Lrued(capacity, es, i); r.pol.Lru? && forall k :: k in r.data <==> k in r.pol.order
  {
    hide After;
    RunIsLru(capacity, w, es, i);
    var r := Lrued(capacity, es, i);
    OrderIsResidents(r, w);
    assert forall k :: k in r.pol.order <==> k in Elements(r.pol.order);
  }

  // ---- exactly when it holds

  lemma {:induction false} UnstraddledFitsAlike(
    capacity: nat, larger: nat, sizes: iset<nat>, es: seq<Event>, w: Key -> nat)
    requires Drawn(es, w, sizes) && !Straddled(capacity, larger, sizes)
    ensures FitsAlike(es, w, capacity, larger)
  {
    if exists j :: 0 <= j < |es| && !es[j].Delete? && w(es[j].key) <= capacity {
      var j :| 0 <= j < |es| && !es[j].Delete? && w(es[j].key) <= capacity;
      forall i | 0 <= i < |es| && !es[i].Delete?
        ensures w(es[i].key) <= capacity || w(es[i].key) > larger
      {
        assert w(es[j].key) in sizes && w(es[i].key) in sizes;
      }
    }
  }

  lemma {:induction false} FloodIsDrawn(y: nat, z: nat, m: nat, sizes: iset<nat>)
    requires y in sizes && z in sizes
    ensures Drawn(Flood(m, Two(y, z)), Two(y, z), sizes)
  {
    FloodIsFixed(m, Two(y, z));
  }

  /** For any set of sizes: over all traces with one size per key, the larger cache always
      holds what the smaller does, and never misses more, if and only if no size fits only
      the larger cache while another fits both. */
  lemma {:induction false} InclusionExactly(capacity: nat, larger: nat, sizes: iset<nat>)
    requires capacity <= larger
    ensures ResidentsIncluded(capacity, larger, sizes) <==> !Straddled(capacity, larger, sizes)
    ensures MissesNeverRise(capacity, larger, sizes) <==> !Straddled(capacity, larger, sizes)
  {
    hide Lrued, Drawn, Flood;
    if Straddled(capacity, larger, sizes) {
      var y, z :| y in sizes && z in sizes && y <= capacity < z <= larger;
      var m := larger / z + 1;
      var es := Flood(m, Two(y, z));
      FloodIsDrawn(y, z, m, sizes);
      StraddlingBreaksInclusion(capacity, larger, y, z);
    } else {
      forall es, w, i: nat | Drawn(es, w, sizes) && i <= |es|
        ensures Lrued(capacity, es, i).data.Keys <= Lrued(larger, es, i).data.Keys
        ensures Lrued(larger, es, i).stats.misses <= Lrued(capacity, es, i).stats.misses
      {
        UnstraddledIncludes(capacity, larger, sizes, es, w, i);
      }
    }
  }

  lemma {:induction false} UnstraddledIncludes(
    capacity: nat, larger: nat, sizes: iset<nat>, es: seq<Event>, w: Key -> nat, i: nat)
    requires capacity <= larger && Drawn(es, w, sizes) && !Straddled(capacity, larger, sizes) && i <= |es|
    ensures Lrued(capacity, es, i).data.Keys <= Lrued(larger, es, i).data.Keys
    ensures Lrued(larger, es, i).stats.misses <= Lrued(capacity, es, i).stats.misses
  {
    hide After;
    UnstraddledFitsAlike(capacity, larger, sizes, es, w);
    LruInclusion(capacity, larger, w, es, i);
  }

  /** At all capacities at once, misses never rise if and only if there is one size. */
  lemma {:induction false} OneSizeExactly(sizes: iset<nat>)
    ensures (forall capacity: nat, larger: nat :: capacity <= larger ==> MissesNeverRise(capacity, larger, sizes))
            <==> (forall y, z :: y in sizes && z in sizes ==> y == z)
  {
    hide MissesNeverRise;
    forall capacity: nat, larger: nat | capacity <= larger
      ensures MissesNeverRise(capacity, larger, sizes) <==> !Straddled(capacity, larger, sizes)
    {
      InclusionExactly(capacity, larger, sizes);
    }
    if y, z :| y in sizes && z in sizes && y < z {
      assert Straddled(y, z, sizes);
      assert !MissesNeverRise(y, z, sizes);
    }
  }

  /** Every request is of some size in `sizes`, and one key may come at several. */
  ghost predicate Mixed(es: seq<Event>, sizes: iset<nat>) {
    forall j :: 0 <= j < |es| && !es[j].Delete? ==> es[j].size in sizes
  }

  ghost predicate MissesNeverRiseMixed(capacity: nat, larger: nat, sizes: iset<nat>) {
    forall es, i: nat :: Mixed(es, sizes) && i <= |es| ==>
      Lrued(larger, es, i).stats.misses <= Lrued(capacity, es, i).stats.misses
  }

  /** Letting keys change size as well leaves that condition as it is. */
  lemma {:induction false} OneSizeExactlyMixed(sizes: iset<nat>)
    ensures (forall capacity: nat, larger: nat :: capacity <= larger ==>
               MissesNeverRiseMixed(capacity, larger, sizes))
            <==> (forall y, z :: y in sizes && z in sizes ==> y == z)
  {
    hide Lrued;
    OneSizeExactly(sizes);
    forall capacity: nat, larger: nat | MissesNeverRiseMixed(capacity, larger, sizes)
      ensures MissesNeverRise(capacity, larger, sizes)
    {
      forall es, w, i: nat | Drawn(es, w, sizes) && i <= |es|
        ensures Lrued(larger, es, i).stats.misses <= Lrued(capacity, es, i).stats.misses
      {
        assert Mixed(es, sizes);
      }
    }
    if forall y, z :: y in sizes && z in sizes ==> y == z {
      forall capacity: nat, larger: nat | capacity <= larger
        ensures MissesNeverRiseMixed(capacity, larger, sizes)
      {
        OneSizeMixes(capacity, larger, sizes);
      }
    }
  }

  lemma {:induction false} OneSizeMixes(capacity: nat, larger: nat, sizes: iset<nat>)
    requires forall y, z :: y in sizes && z in sizes ==> y == z
    requires MissesNeverRise(capacity, larger, sizes)
    ensures MissesNeverRiseMixed(capacity, larger, sizes)
  {
    hide Lrued;
    forall es, i: nat | Mixed(es, sizes) && i <= |es|
      ensures Lrued(larger, es, i).stats.misses <= Lrued(capacity, es, i).stats.misses
    {
      var size: nat :| size in sizes || sizes == iset{};
      var w: Key -> nat := _ => size;
      assert Drawn(es, w, sizes);
    }
  }

  // ---- three requests

  lemma {:induction false} ThreeRequests(capacity: nat, w: Key -> nat, j: Key, k: Key)
    requires j != k && w(j) <= capacity
    ensures var es := [Request(j, w(j)), Request(k, w(k)), Request(j, w(j))];
            var o := Next([j], k, w, capacity);
            && (j in Lrued(capacity, es, 2).data <==> j in o)
            && Lrued(capacity, es, 3).stats.misses == if j in o then 2 else 3
  {
    var es := [Request(j, w(j)), Request(k, w(k)), Request(j, w(j))];
    assert Next([], j, w, capacity) == [j];
    hide Lrued, Next, Fit, Weight;
    LruedStarts(capacity, es);
    Served(capacity, w, es, 0);
    Served(capacity, w, es, 1);
    Served(capacity, w, es, 2);
    ResidentsAreOrdered(capacity, w, es, 2);
  }

  /** The shortest case: an object that fits only the larger cache, and not beside the
      resident, costs the larger a miss at the third request. */
  lemma {:induction false} LargeObjectRaisesMisses(capacity: nat, larger: nat, w: Key -> nat, j: Key, k: Key)
    requires j != k && w(j) <= capacity < w(k) <= larger < w(j) + w(k)
    ensures var es := [Request(j, w(j)), Request(k, w(k)), Request(j, w(j))];
            && j in Lrued(capacity, es, 2).data && j !in Lrued(larger, es, 2).data
            && Lrued(capacity, es, 3).stats.misses == 2 && Lrued(larger, es, 3).stats.misses == 3
  {
    hide Lrued;
    ThreeRequests(capacity, w, j, k);
    ThreeRequests(larger, w, j, k);
    assert Weight([j], w) == w(j) by {
      assert [j][..0] == [];
    }
    assert Fit([j], w, larger - w(k)) == 0;
  }
}
