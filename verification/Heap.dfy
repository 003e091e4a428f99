/** Binary-heap order on a sequence of ranks, and the two sift steps that restore it.
    A rank is a next-access time and an admission number. */
module Heap {
  datatype Rank = Rank(next: int, order: int)

  /** `a` sits above `b`: needed later, or as late and admitted earlier. */
  predicate Beats(a: Rank, b: Rank) {
    if a.next != b.next then a.next > b.next else a.order < b.order
  }

  function Parent(i: int): (p: nat)
    requires i > 0
    ensures p < i
  {
    (i - 1) / 2
  }

  /** The first `n` ranks are in heap order. */
  ghost predicate Ordered(a: seq<Rank>, n: nat)
    requires n <= |a|
  {
    forall j :: 0 < j < n ==> !Beats(a[j], a[Parent(j)])
  }

  /** In heap order except perhaps between `i` and its parent or children. */
  ghost predicate OrderedExcept(a: seq<Rank>, n: nat, i: nat)
    requires n <= |a|
  {
    && (forall j :: 0 < j < n && j != i && Parent(j) != i ==> !Beats(a[j], a[Parent(j)]))
    && Bridged(a, n, i)
  }

  /** The children of `i` do not beat its parent. */
  ghost predicate Bridged(a: seq<Rank>, n: nat, i: nat)
    requires n <= |a|
  {
    forall j :: 0 < j < n && Parent(j) == i && 0 < i < n ==> !Beats(a[j], a[Parent(i)])
  }

  /** In heap order except perhaps between `i` and its parent. */
  ghost predicate OrderedBelow(a: seq<Rank>, n: nat, i: nat)
    requires n <= |a|
  {
    && (forall j :: 0 < j < n && j != i ==> !Beats(a[j], a[Parent(j)]))
    && Bridged(a, n, i)
  }

  /** In heap order except perhaps between `i` and its children. */
  ghost predicate OrderedAbove(a: seq<Rank>, n: nat, i: nat)
    requires n <= |a|
  {
    && (forall j :: 0 < j < n && Parent(j) != i ==> !Beats(a[j], a[Parent(j)]))
    && Bridged(a, n, i)
  }

  function Swapped<T>(a: seq<T>, i: nat, j: nat): (r: seq<T>)
    requires i < |a| && j < |a|
    ensures |r| == |a|
  {
    a[i := a[j]][j := a[i]]
  }

  lemma {:induction false} UpStep(a: seq<Rank>, n: nat, j: nat)
    requires 0 < j < n <= |a| && OrderedBelow(a, n, j)
    ensures !Beats(a[j], a[Parent(j)]) ==> Ordered(a, n)
    ensures Beats(a[j], a[Parent(j)]) ==> OrderedBelow(Swapped(a, Parent(j), j), n, Parent(j))
  {
    var p := Parent(j);
    if Beats(a[j], a[p]) {
      var r := Swapped(a, p, j);
      forall k | 0 < k < n && k != p ensures !Beats(r[k], r[Parent(k)]) {
        UpPair(a, n, j, k);
      }
      forall k | 0 < k < n && Parent(k) == p && 0 < p < n ensures !Beats(r[k], r[Parent(p)]) {
        UpBridge(a, n, j, k);
      }
    }
  }

  lemma {:induction false} UpPair(a: seq<Rank>, n: nat, j: nat, k: nat)
    requires 0 < j < n <= |a| && OrderedBelow(a, n, j) && Beats(a[j], a[Parent(j)])
    requires 0 < k < n && k != Parent(j)
    ensures var r := Swapped(a, Parent(j), j); !Beats(r[k], r[Parent(k)])
  {
    var p := Parent(j);
    hide Parent;
    assert Parent(k) == j ==> !Beats(a[k], a[p]);
    assert k != j ==> !Beats(a[k], a[Parent(k)]);
  }

  lemma {:induction false} UpBridge(a: seq<Rank>, n: nat, j: nat, k: nat)
    requires 0 < j < n <= |a| && OrderedBelow(a, n, j) && Beats(a[j], a[Parent(j)])
    requires 0 < k < n && Parent(k) == Parent(j) && Parent(j) > 0
    ensures var r := Swapped(a, Parent(j), j); !Beats(r[k], r[Parent(Parent(j))])
  {
    var p := Parent(j);
    hide Parent;
    assert !Beats(a[p], a[Parent(p)]);
    assert k != j ==> !Beats(a[k], a[p]);
  }

  lemma {:induction false} UpDone(a: seq<Rank>, n: nat)
    requires 0 < n <= |a| && OrderedBelow(a, n, 0)
    ensures Ordered(a, n)
  {
  }

  /** The child of `i` that no sibling beats. */
  function TopChild(a: seq<Rank>, n: nat, i: nat): (j: nat)
    requires 2 * i + 1 < n <= |a|
    ensures i < j < n && Parent(j) == i
    ensures forall k :: 0 < k < n && Parent(k) == i ==> !Beats(a[k], a[j])
  {
    var j1 := 2 * i + 1;
    if j1 + 1 < n && Beats(a[j1 + 1], a[j1]) then j1 + 1 else j1
  }

  lemma {:induction false} SwappedTail<T>(a: seq<T>, i: nat, j: nat, n: nat)
    requires i < n <= |a| && j < n
    ensures |Swapped(a, i, j)| == |a| && Swapped(a, i, j)[n..] == a[n..]
  {
  }

  /** Sifting down: no child beats `i`, or swapping with the top child moves the gap. */
  lemma {:induction false} DownStep(a: seq<Rank>, n: nat, i: nat)
    requires 2 * i + 1 < n <= |a| && OrderedExcept(a, n, i)
    ensures var j := TopChild(a, n, i);
            if Beats(a[j], a[i]) then OrderedAbove(Swapped(a, i, j), n, j)
            else OrderedBelow(a, n, i)
  {
    var j := TopChild(a, n, i);
    if Beats(a[j], a[i]) {
      var r := Swapped(a, i, j);
      forall k | 0 < k < n && Parent(k) != j ensures !Beats(r[k], r[Parent(k)]) {
        if k == i {
          assert !Beats(a[j], a[Parent(i)]);
        }
      }
      forall k | 0 < k < n && Parent(k) == j ensures !Beats(r[k], r[i]) {
        assert !Beats(a[k], a[j]);
      }
    }
  }

  lemma {:induction false} DownLeaf(a: seq<Rank>, n: nat, i: nat)
    requires i < n <= |a| && 2 * i + 1 >= n && OrderedExcept(a, n, i)
    ensures OrderedBelow(a, n, i)
  {
  }

  lemma {:induction false} AboveIsExcept(a: seq<Rank>, n: nat, i: nat)
    requires n <= |a| && OrderedAbove(a, n, i)
    ensures OrderedExcept(a, n, i)
    ensures OrderedBelow(a, n, i) ==> Ordered(a, n)
  {
    if OrderedBelow(a, n, i) {
      forall j | 0 < j < n ensures !Beats(a[j], a[Parent(j)]) {
      }
    }
  }

  /** Giving one slot any rank leaves order everywhere else. */
  lemma {:induction false} ReplaceOne(a: seq<Rank>, n: nat, i: nat, x: Rank)
    requires i < n <= |a| && Ordered(a, n)
    ensures OrderedExcept(a[i := x], n, i)
  {
    var r := a[i := x];
    forall j | 0 < j < n && Parent(j) == i && i > 0 ensures !Beats(r[j], r[Parent(i)]) {
      assert !Beats(a[j], a[i]) && !Beats(a[i], a[Parent(i)]);
    }
  }

  lemma {:induction false} RootBeatsAll(a: seq<Rank>, i: nat)
    requires i < |a| && Ordered(a, |a|)
    ensures !Beats(a[i], a[0])
  {
    if i > 0 {
      RootBeatsAll(a, Parent(i));
      assert !Beats(a[i], a[Parent(i)]);
    }
  }

  lemma {:induction false} SamePrefix(a: seq<Rank>, b: seq<Rank>, n: nat, i: nat)
    requires n <= |a| && n <= |b| && (forall j :: 0 <= j < n ==> a[j] == b[j])
    requires OrderedExcept(a, n, i)
    ensures OrderedExcept(b, n, i)
  {
  }
}
