/** Stack distance: which LRU requests hit, at unit size, told from the trace alone. */
module LruStack {
  import opened Base
  import opened CacheSpec
  import opened AnyPolicy
  import opened Policies
  import opened LruPolicy
  import opened LruTheorems
  import opened UnitSize

  lemma {:induction false} UnitSizes(es: seq<Event>)
    requires UnitRequests(es)
    ensures FixedSizes(es, One)
  {
  }

  function One(k: Key): nat {
    1
  }

  lemma {:induction false} UnitWeight(order: seq<Key>)
    ensures Weight(order, One) == |order|
  {
    if order != [] {
      UnitWeight(order[..|order| - 1]);
    }
  }

  lemma {:induction false} UnitFit(order: seq<Key>, room: nat)
    ensures Fit(order, One, room) == if |order| <= room then |order| else room
  {
    UnitWeight(order);
    if |order| > room {
      UnitFit(order[..|order| - 1], room);
    }
  }

  /** Every key requested so far, the latest first. */
  ghost function Recency(es: seq<Event>, i: nat): seq<Key>
    requires i <= |es|
  {
    if i == 0 then [] else ToFront(Recency(es, i - 1), es[i - 1].key)
  }

  function Top<T>(s: seq<T>, n: nat): seq<T> {
    if |s| <= n then s else s[..n]
  }

  lemma {:induction false} TopIndex(s: seq<Key>, k: Key, n: nat)
    requires k in Top(s, n)
    ensures IndexOf(Top(s, n), k) == IndexOf(s, k) < |Top(s, n)|
  {
    var a := IndexOf(Top(s, n), k);
    assert s[a] == k;
    assert Top(s, n)[IndexOf(s, k)] == k;
  }

  lemma {:induction false} TopHit(s: seq<Key>, k: Key, capacity: nat)
    requires capacity >= 1 && k in Top(s, capacity)
    ensures ToFront(Top(s, capacity), k) == Top(ToFront(s, k), capacity)
  {
    TopIndex(s, k, capacity);
    assert Cut(Top(s, capacity), IndexOf(s, k)) == Top(Cut(s, IndexOf(s, k)), capacity - 1);
  }

  lemma {:induction false} TopMiss(s: seq<Key>, k: Key, capacity: nat)
    requires capacity >= 1 && k !in Top(s, capacity)
    ensures [k] + Top(Top(s, capacity), capacity - 1) == Top(ToFront(s, k), capacity)
  {
    var i := IndexOf(s, k);
    if i < |s| {
      assert forall a :: 0 <= a < |Top(s, capacity)| ==> Top(s, capacity)[a] == s[a];
      assert i >= |Top(s, capacity)|;
      assert Top(Top(s, capacity), capacity - 1) == Top(Cut(s, i), capacity - 1);
    }
  }

  lemma {:induction false} TopToFront(s: seq<Key>, k: Key, capacity: nat)
    requires capacity >= 1
    ensures Next(Top(s, capacity), k, One, capacity) == Top(ToFront(s, k), capacity)
  {
    hide ToFront;
    if k in Top(s, capacity) {
      TopHit(s, k, capacity);
    } else {
      UnitFit(Top(s, capacity), capacity - 1);
      TopMiss(s, k, capacity);
    }
  }

  /** At unit size the cache holds exactly the top of the recency stack. */
  lemma {:induction false} ResidentsAreTopOfStack(capacity: nat, es: seq<Event>, i: nat)
    requires capacity >= 1 && UnitRequests(es) && i <= |es|
    ensures var r := After(Ops(), Cold(capacity, Lru([])), es, i);
            r.pol == Lru(Top(Recency(es, i), capacity)) && r.data.Keys == Elements(Top(Recency(es, i), capacity))
  {
    hide Step, LruCache, Next, ToFront, UnitRequests, Top;
    UnitSizes(es);
    UnitOrder(capacity, es, i);
    if i > 0 {
      ResidentsAreTopOfStack(capacity, es, i - 1);
      RunIsLru(capacity, One, es, i - 1);
      StepIsNext(After(Ops(), Cold(capacity, Lru([])), es, i - 1), One, es[i - 1]);
      TopToFront(Recency(es, i - 1), es[i - 1].key, capacity);
    }
  }

  /** Before the first request, and what holds at every one. */
  lemma {:induction false} UnitOrder(capacity: nat, es: seq<Event>, i: nat)
    requires UnitRequests(es) && i <= |es|
    ensures var r := After(Ops(), Cold(capacity, Lru([])), es, i);
            r.pol.Lru? && r.data.Keys == Elements(r.pol.order)
    ensures i == 0 ==> After(Ops(), Cold(capacity, Lru([])), es, i).pol.order == Top(Recency(es, 0), capacity)
    ensures i > 0 ==> !es[i - 1].Delete? && es[i - 1].size == 1
  {
    hide Step, LruCache;
    UnitSizes(es);
    RunIsLru(capacity, One, es, i);
    OrderIsResidents(After(Ops(), Cold(capacity, Lru([])), es, i), One);
  }

  /** The other keys requested since the last request of `k` before `i`. */
  ghost function Since(es: seq<Event>, i: nat, k: Key): set<Key>
    requires i <= |es|
  {
    set j | 0 <= j < i && es[j].key != k && (forall l :: j < l < i ==> es[l].key != k) :: es[j].key
  }

  lemma {:induction false} SinceGrows(es: seq<Event>, i: nat, k: Key)
    requires 0 < i <= |es|
    ensures Since(es, i, k) ==
            if es[i - 1].key == k then {} else Since(es, i - 1, k) + {es[i - 1].key}
  {
    if es[i - 1].key != k {
      assert es[i - 1].key in Since(es, i, k);
      forall x | x in Since(es, i - 1, k) ensures x in Since(es, i, k) {
        var j :| 0 <= j < i - 1 && es[j].key == x && es[j].key != k
                 && (forall l :: j < l < i - 1 ==> es[l].key != k);
        assert forall l :: j < l < i ==> es[l].key != k;
      }
    }
  }

  lemma {:induction false} CutSlices<T>(s: seq<T>, j: nat, i: nat)
    requires i <= |s| && j < |s|
    ensures j < i ==> Cut(s, j)[..i - 1] == Cut(s[..i], j)
    ensures i <= j ==> Cut(s, j)[..i] == s[..i]
  {
  }

  lemma {:induction false} BeforeCut(s: seq<Key>, x: Key, k: Key)
    requires Distinct(s) && k in s && k != x
    ensures var u := Without(s, x);
            k in u && Elements(u[..IndexOf(u, k)]) == Elements(s[..IndexOf(s, k)]) - {x}
  {
    var i, j := IndexOf(s, k), IndexOf(s, x);
    var u := Without(s, x);
    WithoutElements(s, x);
    if j < |s| {
      CutSlices(s, j, i);
      var n := if j < i then i - 1 else i;
      assert u[n] == k;
      IndexOfAt(u, n);
      if j < i {
        CutElements(s[..i], j);
      }
    }
  }

  lemma {:induction false} StackStep(s: seq<Key>, x: Key, k: Key)
    requires Distinct(s) && k in s && k != x
    ensures var t := ToFront(s, x);
            k in t && Elements(t[..IndexOf(t, k)]) == Elements(s[..IndexOf(s, k)]) + {x}
  {
    hide Without;
    BeforeCut(s, x, k);
    var u := Without(s, x);
    var n := IndexOf(u, k);
    MovedKeeps(s, x);
    var t := [x] + u;
    assert t[n + 1] == k;
    IndexOfAt(t, n + 1);
    assert t[..n + 1] == [x] + u[..n];
    ElementsConcat([x], u[..n]);
  }

  /** A key's depth in the stack is the number of other keys requested since. */
  lemma {:induction false} StackDepth(es: seq<Event>, i: nat, k: Key)
    requires i <= |es| && UnitRequests(es)
    ensures Distinct(Recency(es, i)) && Elements(Recency(es, i)) == Requested(es, i)
    ensures k in Recency(es, i) ==>
              Elements(Recency(es, i)[..IndexOf(Recency(es, i), k)]) == Since(es, i, k)
  {
    hide Since, Requested, Distinct, Elements, ToFront, IndexOf;
    if i == 0 {
      NothingYet(es);
    } else {
      StackDepth(es, i - 1, k);
      SinceGrows(es, i, k);
      RequestedGrows(es, i);
      StackMoves(Recency(es, i - 1), es[i - 1].key, k);
    }
  }

  lemma {:induction false} NothingYet(es: seq<Event>)
    ensures Requested(es, 0) == {} == Elements(Recency(es, 0)) && Distinct(Recency(es, 0))
  {
  }

  /** What one request does to the stack, and to what stands above `k`. */
  lemma {:induction false} StackMoves(s: seq<Key>, x: Key, k: Key)
    requires Distinct(s)
    ensures var t := ToFront(s, x);
            && Distinct(t) && Elements(t) == Elements(s) + {x}
            && (k == x ==> k in t && Elements(t[..IndexOf(t, k)]) == {})
            && (k != x && k in t ==>
                  k in s && Elements(t[..IndexOf(t, k)]) == Elements(s[..IndexOf(s, k)]) + {x})
  {
    MovedKeeps(s, x);
    var t := ToFront(s, x);
    if k == x {
      assert t[..IndexOf(t, k)] == [];
    } else if k in t {
      assert k in Elements(t);
      assert k in Elements(s);
      StackStep(s, x, k);
    }
  }

  /** Stack distance: a request hits exactly when its key was requested before and fewer
      than `capacity` other keys were requested since. */
  lemma {:induction false} LruStackDistance(capacity: nat, es: seq<Event>, i: nat)
    requires capacity >= 1 && UnitRequests(es) && i < |es|
    ensures var k := es[i].key;
            k in After(Ops(), Cold(capacity, Lru([])), es, i).data
            <==> k in Requested(es, i) && |Since(es, i, k)| < capacity
  {
    var k := es[i].key;
    ResidentsAreTopOfStack(capacity, es, i);
    StackDepth(es, i, k);
    var s := Recency(es, i);
    var d := IndexOf(s, k);
    hide After, Since, Requested, Recency;
    DepthIsSize(s, d);
    TopMember(s, k, capacity);
    assert k in s <==> k in Elements(s);
  }

  lemma {:induction false} DepthIsSize(s: seq<Key>, d: nat)
    requires Distinct(s) && d <= |s|
    ensures |Elements(s[..d])| == d
  {
    DistinctCardinality(s[..d]);
  }

  lemma {:induction false} TopMember(s: seq<Key>, k: Key, n: nat)
    ensures k in Elements(Top(s, n)) <==> k in s && IndexOf(s, k) < n
  {
    if k in Top(s, n) {
      var a :| 0 <= a < |Top(s, n)| && Top(s, n)[a] == k;
      assert s[a] == k;
    }
    if k in s && IndexOf(s, k) < n {
      assert Top(s, n)[IndexOf(s, k)] == k;
    }
  }
}
