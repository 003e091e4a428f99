/** Sorting by a total order. */
module Sorting {

  ghost predicate TotalOrder<T(!new)>(leq: (T, T) -> bool) {
    && (forall a, b :: leq(a, b) || leq(b, a))
    && (forall a, b :: leq(a, b) && leq(b, a) ==> a == b)
    && (forall a, b, c :: leq(a, b) && leq(b, c) ==> leq(a, c))
  }

  ghost predicate Sorted<T>(leq: (T, T) -> bool, s: seq<T>) {
    forall i, j :: 0 <= i < j < |s| ==> leq(s[i], s[j])
  }

  /** A sequence has one sorted order: sorted sequences of the same elements are equal. */
  lemma {:induction false} SortedIsUnique<T(!new)>(leq: (T, T) -> bool, s: seq<T>, t: seq<T>)
    requires TotalOrder(leq) && Sorted(leq, s) && Sorted(leq, t) && multiset(s) == multiset(t)
    ensures s == t
  {
    assert |s| == |multiset(s)| == |multiset(t)| == |t|;
    hide Sorted;
    if s != [] {
      assert s == [s[0]] + s[1..] && t == [t[0]] + t[1..];
      assert s[0] in multiset(t) && t[0] in multiset(s);
      HeadIsLeast(leq, s, t[0]);
      HeadIsLeast(leq, t, s[0]);
      assert s[0] == t[0];
      hide Sorted, TotalOrder;
      assert multiset(s[1..]) == multiset(s) - multiset{s[0]};
      assert multiset(t[1..]) == multiset(t) - multiset{t[0]};
      SortedIsUnique(leq, s[1..], t[1..]);
    }
  }

  lemma {:induction false} HeadIsLeast<T(!new)>(leq: (T, T) -> bool, s: seq<T>, x: T)
    requires TotalOrder(leq) && Sorted(leq, s) && x in s
    ensures leq(s[0], x) && Sorted(leq, s[1..])
  {
    var i :| 0 <= i < |s| && s[i] == x;
    Total(leq, x, x);
  }

  lemma {:induction false} PlacedIsSorted<T(!new)>(leq: (T, T) -> bool, s: seq<T>, x: T, i: nat)
    requires TotalOrder(leq) && Sorted(leq, s) && i <= |s|
    requires i > 0 ==> leq(s[i - 1], x)
    requires forall j :: i <= j < |s| ==> leq(x, s[j])
    ensures Sorted(leq, s[..i] + [x] + s[i..])
    ensures multiset(s[..i] + [x] + s[i..]) == multiset(s) + multiset{x}
  {
    assert s == s[..i] + s[i..];
    var r := s[..i] + [x] + s[i..];
    forall a, b | 0 <= a < b < |r| ensures leq(r[a], r[b]) {
      if b == i && a + 1 < i {
        assert leq(s[a], s[i - 1]) && leq(s[i - 1], x);
      }
    }
  }

  lemma {:induction false} Total<T(!new)>(leq: (T, T) -> bool, a: T, b: T)
    requires TotalOrder(leq)
    ensures leq(a, b) || leq(b, a)
  {
  }

  /** `s` with `x` put where it belongs. */
  method InsertSorted<T(!new)>(leq: (T, T) -> bool, s: seq<T>, x: T) returns (r: seq<T>)
    requires TotalOrder(leq) && Sorted(leq, s)
    ensures Sorted(leq, r) && multiset(r) == multiset(s) + multiset{x}
  {
    hide TotalOrder, Sorted;
    var i := |s|;
    while i > 0 && !leq(s[i - 1], x)
      invariant 0 <= i <= |s|
      invariant forall j :: i <= j < |s| ==> leq(x, s[j])
    {
      Total(leq, s[i - 1], x);
      i := i - 1;
    }
    PlacedIsSorted(leq, s, x, i);
    r := s[..i] + [x] + s[i..];
  }

  method Sort<T(!new)>(leq: (T, T) -> bool, s: seq<T>) returns (r: seq<T>)
    requires TotalOrder(leq)
    ensures Sorted(leq, r) && multiset(r) == multiset(s)
  {
    r := [];
    hide TotalOrder;
    for i := 0 to |s|
      invariant Sorted(leq, r) && multiset(r) == multiset(s[..i])
    {
      assert s[..i + 1] == s[..i] + [s[i]];
      r := InsertSorted(leq, r, s[i]);
    }
    assert s[..|s|] == s;
  }
}
