/** Belady: each tracked key carries the time it is next needed, and a heap whose items
    know their slots keeps the latest of those times on top. */
module BeladyPolicy {
  import opened Base
  import opened Index
  import opened Heap

  /** Stands for a next use that does not come. */
  const NEVER_AGAIN: int := 0x7FFF_FFFF_FFFF_FFFF

  // ---- on values

  datatype Entry = Entry(key: Key, next: int)

  datatype Hint = Hint(key: Key, next: int)

  /** The tracked keys in order of admission, and the hint last delivered. */
  datatype Belady = Belady(entries: seq<Entry>, pending: Option<Hint>)

  function Label(e: Entry): Key {
    e.key
  }

  function Keys(es: seq<Entry>): seq<Key> {
    Names(Label, es)
  }

  function WithNext(es: seq<Entry>, k: Key, next: int): seq<Entry> {
    var i := IndexOf(Keys(es), k);
    if i < |es| then es[i := Entry(k, next)] else es + [Entry(k, next)]
  }

  function Hinted(b: Belady, k: Key, next: int): Belady {
    b.(pending := Some(Hint(k, next)))
  }

  function HasHint(b: Belady, k: Key): bool {
    b.pending.Some? && b.pending.value.key == k
  }

  function Hit(b: Belady, k: Key): Belady {
    if HasHint(b, k) then b.(entries := WithNext(b.entries, k, b.pending.value.next)) else b
  }

  function Admitted(b: Belady, k: Key): Belady {
    b.(entries := WithNext(b.entries, k, if HasHint(b, k) then b.pending.value.next else NEVER_AGAIN))
  }

  function Removed(b: Belady, k: Key): Belady {
    var i := IndexOf(Keys(b.entries), k);
    if i < |b.entries| then b.(entries := Cut(b.entries, i)) else b
  }

  /** The entry needed last, the earliest admitted among ties. */
  function Furthest(es: seq<Entry>): (m: nat)
    requires es != []
    ensures m < |es|
    ensures forall j :: 0 <= j < |es| ==> es[j].next <= es[m].next
    ensures forall j :: 0 <= j < m ==> es[j].next < es[m].next
  {
    if |es| == 1 then 0
    else
      var last := |es| - 1;
      var m := Furthest(es[..last]);
      if es[last].next > es[m].next then last else m
  }

  function Victim(b: Belady): Option<Key> {
    if b.entries == [] then None else Some(b.entries[Furthest(b.entries)].key)
  }

  // ---- what every call keeps

  lemma {:induction false} WithNextKeeps(es: seq<Entry>, k: Key, next: int)
    requires Distinct(Keys(es))
    ensures var r := WithNext(es, k, next);
            && Keys(r) == (if k in Keys(es) then Keys(es) else Keys(es) + [k])
            && Distinct(Keys(r))
  {
    var i := IndexOf(Keys(es), k);
    var r := WithNext(es, k, next);
    if i < |es| {
      assert Keys(r) == Keys(es);
    } else {
      assert Keys(r) == Keys(es) + [k];
    }
  }

  lemma {:induction false} RemovedKeeps(b: Belady, k: Key)
    requires Distinct(Keys(b.entries))
    ensures Distinct(Keys(Removed(b, k).entries))
    ensures Keys(Removed(b, k).entries) == Without(Keys(b.entries), k)
  {
    var ks := Keys(b.entries);
    var i := IndexOf(ks, k);
    if i < |ks| {
      CutDistinct(ks, i);
      assert Keys(Cut(b.entries, i)) == Cut(ks, i);
    }
  }

  // ---- in place

  class Item {
    const key: Key
    const order: nat
    var next: int
    var index: int

    constructor (key: Key, next: int, order: nat)
      ensures this.key == key && this.next == next && this.order == order
    {
      this.key, this.next, this.order := key, next, order;
    }
  }

  function KeyOf(it: Item): Key {
    it.key
  }

  ghost function RankOf(it: Item): Rank
    reads it`next
  {
    Rank(it.next, it.order)
  }

  /** A binary heap of items, each of which knows its own slot. */
  class ItemHeap {
    var h: seq<Item>
    ghost var ranks: seq<Rank>
    ghost var members: set<Item>

    ghost predicate Placed()
      reads this, members`index, members`next
      ensures Placed() ==> |ranks| == |h|
    {
      && |ranks| == |h|
      && (forall i :: 0 <= i < |h| ==> h[i] in members && h[i].index == i && ranks[i] == RankOf(h[i]))
      && (forall m :: m in members ==> 0 <= m.index < |h| && h[m.index] == m)
    }

    ghost predicate Valid()
      reads this, members`index, members`next
    {
      Placed() && Ordered(ranks, |ranks|)
    }

    constructor ()
      ensures Valid() && h == [] && members == {} && ranks == []
    {
      h, ranks, members := [], [], {};
    }

    method Less(i: nat, j: nat) returns (less: bool)
      requires Placed() && i < |h| && j < |h|
      ensures less <==> Beats(ranks[i], ranks[j])
    {
      if h[i].next != h[j].next {
        return h[i].next > h[j].next;
      }
      return h[i].order < h[j].order;
    }

    method Swap(i: nat, j: nat)
      requires Placed() && i < |h| && j < |h|
      modifies `h, `ranks, members`index
      ensures Placed() && ranks == Swapped(old(ranks), i, j) && h == Swapped(old(h), i, j)
    {
      h := Swapped(h, i, j);
      ranks := Swapped(ranks, i, j);
      h[i].index := i;
      h[j].index := j;
    }

    /** Moves the item at `j0` toward the root until its parent is not beaten. */
    method Up(j0: nat, ghost n: nat)
      requires Placed() && j0 < n <= |h| && OrderedBelow(ranks, n, j0)
      modifies `h, `ranks, members`index
      ensures Placed() && |h| == |old(h)| && h[n..] == old(h[n..]) && Ordered(ranks, n)
    {
      hide Placed, OrderedBelow;
      var j: nat := j0;
      while j > 0
        invariant Placed() && j < n <= |h| == |old(h)| == |ranks| && h[n..] == old(h[n..])
        invariant OrderedBelow(ranks, n, j)
      {
        var i := (j - 1) / 2;
        UpStep(ranks, n, j);
        var less := Less(j, i);
        if !less {
          return;
        }
        Swap(i, j);
        j := i;
      }
      UpDone(ranks, n);
    }

    /** Of the children of `i`, the one that goes first. */
    method FirstChild(i: nat, n: nat) returns (j: nat)
      requires Placed() && 2 * i + 1 < n <= |h|
      ensures j == TopChild(ranks, n, i)
    {
      var j1 := 2 * i + 1;
      j := j1;
      if j1 + 1 < n {
        var right := Less(j1 + 1, j1);
        if right {
          j := j1 + 1;
        }
      }
    }

    /** Moves the item at `i0` toward the leaves until no child beats it; says if it moved. */
    method Down(i0: nat, n: nat) returns (moved: bool)
      requires Placed() && i0 < n <= |h| && OrderedExcept(ranks, n, i0)
      modifies `h, `ranks, members`index
      ensures Placed() && |h| == |old(h)| && h[n..] == old(h[n..])
      ensures if moved then Ordered(ranks, n) else OrderedBelow(ranks, n, i0)
    {
      hide Placed, OrderedBelow, OrderedExcept, OrderedAbove, TopChild, Swapped, Ordered;
      var i: nat := i0;
      while true
        invariant Placed() && i0 <= i < n <= |h| == |old(h)| == |ranks| && h[n..] == old(h[n..])
        invariant OrderedExcept(ranks, n, i) && (i > i0 ==> OrderedAbove(ranks, n, i))
        decreases n - i
      {
        if 2 * i + 1 >= n {
          DownLeaf(ranks, n, i);
          break;
        }
        var j := FirstChild(i, n);
        DownStep(ranks, n, i);
        SwappedTail(h, i, j, n);
        var less := Less(j, i);
        if !less {
          break;
        }
        Swap(i, j);
        i := j;
        AboveIsExcept(ranks, n, i);
      }
      moved := i > i0;
      if moved {
        AboveIsExcept(ranks, n, i);
      }
    }

    /** Restores order after the item at `i` was given a new time. */
    method Fix(i: nat)
      requires Placed() && i < |h| && OrderedExcept(ranks, |h|, i)
      modifies `h, `ranks, members`index
      ensures Valid() && |h| == |old(h)|
    {
      hide OrderedBelow, OrderedExcept;
      var moved := Down(i, |h|);
      if !moved {
        Up(i, |h|);
      }
    }

    method SetNext(it: Item, next: int)
      requires Valid() && it in members
      modifies `h, `ranks, members`index, it`next
      ensures Valid() && it.next == next
    {
      ghost var i := it.index;
      ReplaceOne(ranks, |h|, i, Rank(next, it.order));
      it.next := next;
      ranks := ranks[i := Rank(next, it.order)];
      Fix(it.index);
    }

    method Push(it: Item)
      requires Valid() && it !in members
      modifies this, members`index, it`index
      ensures Valid() && members == old(members) + {it}
    {
      it.index := |h|;
      h, ranks, members := h + [it], ranks + [RankOf(it)], members + {it};
      Up(|h| - 1, |h|);
    }

    /** Takes the item in slot `i` out of the heap. */
    method Remove(i: nat)
      requires Valid() && i < |h|
      modifies this, members`index
      ensures Valid() && members == old(members) - {old(h[i])}
    {
      var n := |h| - 1;
      ghost var gone := h[i];
      if n != i {
        ReplaceOne(ranks, n, i, ranks[n]);
        Swap(i, n);
        SamePrefix(old(ranks)[i := old(ranks)[n]], ranks, n, i);
        hide OrderedBelow, OrderedExcept, Swapped;
        var moved := Down(i, n);
        if !moved {
          Up(i, n);
        }
      }
      Pop(gone);
    }

    method Pop(ghost gone: Item)
      requires Placed() && |h| > 0 && h[|h| - 1] == gone && Ordered(ranks, |h| - 1)
      modifies this, members`index
      ensures Valid() && members == old(members) - {gone}
    {
      var n := |h| - 1;
      h[n].index := -1;
      h, ranks, members := h[..n], ranks[..n], members - {gone};
    }

    /** The root is the item needed last. */
    lemma {:induction false} RootIsFurthest(m: Item)
      requires Valid() && m in members
      ensures h != [] && (m == h[0] || !Beats(RankOf(m), RankOf(h[0])))
    {
      RootBeatsAll(ranks, m.index);
    }
  }

  ghost predicate Shows(es: seq<Entry>, its: seq<Item>)
    reads its`next
    ensures Shows(es, its) ==> |es| == |its|
  {
    |es| == |its| && forall i :: 0 <= i < |its| ==> es[i] == Entry(its[i].key, its[i].next)
  }

  lemma {:induction false} ShowsCut(es: seq<Entry>, its: seq<Item>, i: nat)
    requires Shows(es, its) && i < |its|
    ensures Shows(Cut(es, i), Cut(its, i))
  {
  }

  /** Admission numbers grow along the list and stay below the next one. */
  ghost predicate Numbered(its: seq<Item>, counter: nat) {
    && (forall a, b :: 0 <= a < b < |its| ==> its[a].order < its[b].order)
    && (forall a :: 0 <= a < |its| ==> its[a].order < counter)
  }

  lemma {:induction false} NumberedCut(its: seq<Item>, counter: nat, i: nat)
    requires Numbered(its, counter) && i < |its|
    ensures Numbered(Cut(its, i), counter)
  {
    var r := Cut(its, i);
    forall a, b | 0 <= a < b < |r| ensures r[a].order < r[b].order {
      assert r[a] == its[if a < i then a else a + 1] && r[b] == its[if b < i then b else b + 1];
    }
  }

  lemma {:induction false} NumberedAppend(its: seq<Item>, counter: nat, it: Item)
    requires Numbered(its, counter) && it.order == counter
    ensures Numbered(its + [it], counter + 1)
  {
  }

  lemma {:induction false} NumberedDistinct(its: seq<Item>, counter: nat)
    requires Numbered(its, counter)
    ensures Distinct(its)
  {
    forall a, b | 0 <= a < b < |its| ensures its[a] != its[b] {
      assert its[a].order < its[b].order;
    }
  }

  /** An item no other is needed after holds the specified victim. */
  lemma {:induction false} TopIsFurthest(es: seq<Entry>, its: seq<Item>, counter: nat, top: Item)
    requires Shows(es, its) && Numbered(its, counter) && top in its
    requires forall i :: 0 <= i < |its| ==> its[i] == top || !Beats(RankOf(its[i]), RankOf(top))
    ensures es != [] && es[Furthest(es)].key == top.key
  {
    var t :| 0 <= t < |its| && its[t] == top;
    var m := Furthest(es);
    assert its[m] == top || !Beats(RankOf(its[m]), RankOf(top));
    assert its[m].order < counter && its[t].order < counter;
    assert es[m].next == its[m].next && es[t].next == top.next;
  }

  lemma {:induction false} ElementsOne<T>(x: T)
    ensures Elements([x]) == {x}
  {
  }

  lemma {:induction false} ShowsSet(es: seq<Entry>, its: seq<Item>, i: nat)
    requires i < |its| && Distinct(its) && |es| == |its|
    requires forall j :: 0 <= j < |its| && j != i ==> es[j] == Entry(its[j].key, its[j].next)
    ensures Shows(es[i := Entry(its[i].key, its[i].next)], its)
  {
  }

  class BELADY {
    var items: map<Key, Item>
    const heap: ItemHeap
    var counter: nat
    var pendingKey: Key
    var pendingNext: int
    var havePending: bool
    ghost var admitted: seq<Item>  // in order of admission
    ghost var entries: seq<Entry>  // what the items hold

    ghost predicate Valid()
      reads this, heap, heap.members
    {
      && heap.Valid()
      && heap.members == Elements(admitted)
      && Numbered(admitted, counter)
      && Indexed(KeyOf, items, admitted)
      && Shows(entries, admitted)
    }

    ghost function Value(): Belady
      reads this
    {
      Belady(entries, if havePending then Some(Hint(pendingKey, pendingNext)) else None)
    }

    constructor ()
      ensures Valid() && fresh(heap) && heap.members == {} && Value() == Belady([], None)
    {
      heap := new ItemHeap();
      items, counter, pendingKey, pendingNext, havePending := map[], 0, "", 0, false;
      admitted, entries := [], [];
    }

    lemma {:induction false} Tracks()
      requires Valid()
      ensures Distinct(admitted) && Distinct(Keys(entries))
      ensures forall k :: k in items <==> k in Keys(entries)
    {
      NumberedDistinct(admitted, counter);
      IndexedNames(KeyOf, items, admitted);
      assert Keys(entries) == Names(KeyOf, admitted);
    }

    /** Leaves every entry as it is and remembers the hint. */
    method OnNextAccess(key: Key, next: int)
      requires Valid()
      modifies `pendingKey, `pendingNext, `havePending
      ensures Valid() && Value() == Hinted(old(Value()), key, next)
    {
      hide Indexed, Numbered, Shows, Elements, ItemHeap.Valid;
      pendingKey, pendingNext, havePending := key, next, true;
    }

    method OnHit(key: Key)
      requires Valid()
      modifies this, heap, heap.members
      ensures Valid() && fresh(heap.members - old(heap.members))
      ensures Value() == Hit(old(Value()), key)
    {
      if havePending && pendingKey == key {
        SetNext(key, pendingNext);
      }
    }

    method CanAdmit(key: Key, size: nat) returns (ok: bool)
      ensures ok
    {
      ok := true;
    }

    method OnAdmit(key: Key)
      requires Valid()
      modifies this, heap, heap.members
      ensures Valid() && fresh(heap.members - old(heap.members))
      ensures Value() == Admitted(old(Value()), key)
    {
      var next := NEVER_AGAIN;
      if havePending && pendingKey == key {
        next := pendingNext;
      }
      SetNext(key, next);
    }

    /** Answers the specified victim and changes nothing. */
    method Evict() returns (victim: Option<Key>)
      requires Valid()
      ensures victim == Victim(Value())
    {
      EmptyTogether();
      if |heap.h| == 0 {
        return None;
      }
      TopIs(heap.h[0]);
      return Some(heap.h[0].key);
    }

    lemma {:induction false} EmptyTogether()
      requires Valid()
      ensures |heap.h| == 0 <==> entries == []
    {
      if |heap.h| > 0 {
        assert heap.h[0] in heap.members;
      }
      if entries != [] {
        assert admitted[0] in heap.members;
      }
    }

    lemma {:induction false} TopIs(top: Item)
      requires Valid() && heap.h != [] && top == heap.h[0]
      ensures entries != [] && entries[Furthest(entries)].key == top.key
    {
      assert top in heap.members;
      forall i | 0 <= i < |admitted| ensures admitted[i] == top || !Beats(RankOf(admitted[i]), RankOf(top)) {
        assert admitted[i] in heap.members;
        heap.RootIsFurthest(admitted[i]);
      }
      TopIsFurthest(entries, admitted, counter, top);
    }

    method OnRemove(key: Key)
      requires Valid()
      modifies this, heap, heap.members
      ensures Valid() && heap.members <= old(heap.members)
      ensures Value() == Removed(old(Value()), key)
    {
      hide Indexed, Numbered, Shows, Distinct, Elements, ItemHeap.Valid, Cut;
      Tracks();
      if key !in items {
        return;
      }
      var it := items[key];
      ghost var i := Locate(key);
      heap.Remove(it.index);
      Forget(key, i);
    }

    /** Drops an item the heap has let go of from the index. */
    method Forget(key: Key, ghost i: nat)
      requires key in items && i < |admitted| && admitted[i] == items[key] && items[key].key == key
      requires heap.Valid() && heap.members == Elements(admitted) - {items[key]}
      requires Numbered(admitted, counter) && Indexed(KeyOf, items, admitted) && Shows(entries, admitted)
      modifies `items, `admitted, `entries
      ensures Valid() && entries == Cut(old(entries), i)
    {
      hide Indexed, Numbered, Shows, Distinct, Elements, ItemHeap.Valid, Cut;
      NumberedDistinct(admitted, counter);
      IndexedCut(KeyOf, items, admitted, i);
      NumberedCut(admitted, counter, i);
      CutElements(admitted, i);
      ShowsCut(entries, admitted, i);
      items := items - {key};
      admitted, entries := Cut(admitted, i), Cut(entries, i);
    }

    lemma {:induction false} Locate(key: Key) returns (i: nat)
      requires Valid() && key in items
      ensures i < |admitted| && admitted[i] == items[key] && items[key].key == key
      ensures i < |entries| && i == IndexOf(Keys(entries), key)
      ensures items[key] in heap.members && 0 <= items[key].index < |heap.h|
      ensures heap.h[items[key].index] == items[key]
    {
      Tracks();
      i := Find(KeyOf, items, admitted, key);
      NameAt(Label, entries, i);
      assert items[key] in Elements(admitted);
    }

    /** Gives `key` the time `next`, in the entry it has or in a new last one. */
    method SetNext(key: Key, next: int)
      requires Valid()
      modifies `items, `counter, `admitted, `entries, heap, heap.members
      ensures Valid() && fresh(heap.members - old(heap.members))
      ensures entries == WithNext(old(entries), key, next)
    {
      hide Indexed, Numbered, Shows, Distinct, Elements, ItemHeap.Valid;
      Tracks();
      if key in items {
        Update(key, next);
        return;
      }
      var it := new Item(key, next, counter);
      AdmitItem(it);
    }

    method Update(key: Key, next: int)
      requires Valid() && key in items
      modifies `entries, heap, heap.members
      ensures Valid() && heap.members == old(heap.members)
      ensures entries == WithNext(old(entries), key, next)
    {
      ghost var i := Locate(key);
      NumberedDistinct(admitted, counter);
      hide Indexed, Numbered, Distinct, Elements, ItemHeap.Valid;
      heap.SetNext(items[key], next);
      ShowsSet(entries, admitted, i);
      entries := entries[i := Entry(key, next)];
    }

    method AdmitItem(it: Item)
      requires Valid() && it.key !in items && it !in heap.members && it.order == counter
      modifies `items, `counter, `admitted, `entries, heap, heap.members`index, it`index
      ensures Valid() && heap.members == old(heap.members) + {it}
      ensures entries == old(entries) + [Entry(it.key, it.next)]
    {
      hide Indexed, Numbered, Distinct, Elements, ItemHeap.Valid;
      IndexedAppend(KeyOf, items, admitted, it);
      NumberedAppend(admitted, counter, it);
      ElementsConcat(admitted, [it]);
      ElementsOne(it);
      heap.Push(it);
      counter := counter + 1;
      items := items[it.key := it];
      admitted, entries := admitted + [it], entries + [Entry(it.key, it.next)];
    }
  }
}
