/** Keys, options, and the few facts about sequences and maps that every other
    module leans on. */
module Base {

  type Key = string

  datatype Option<+T> = None | Some(value: T)

  // ---- sequences of distinct elements

  ghost predicate Distinct<T>(s: seq<T>) {
    forall i, j :: 0 <= i < j < |s| ==> s[i] != s[j]
  }

  function Elements<T>(s: seq<T>): (r: set<T>)
  {
    set x | x in s
  }

  /** `s` without the element at `i`. */
  function Cut<T>(s: seq<T>, i: nat): (r: seq<T>)
    requires i < |s|
    ensures |r| == |s| - 1
    ensures forall j :: 0 <= j < |r| ==> r[j] == if j < i then s[j] else s[j + 1]
  {
    s[..i] + s[i + 1..]
  }

  lemma {:induction false} CutMember<T>(s: seq<T>, i: nat, x: T)
    requires i < |s| && x in s && x != s[i]
    ensures x in Cut(s, i)
  {
    var j :| 0 <= j < |s| && s[j] == x;
    assert Cut(s, i)[if j < i then j else j - 1] == x;
  }

  lemma {:induction false} CutWithin<T>(s: seq<T>, i: nat)
    requires i < |s|
    ensures forall x :: x in Cut(s, i) ==> x in s
  {
  }

  lemma {:induction false} CutDistinct<T>(s: seq<T>, i: nat)
    requires Distinct(s) && i < |s|
    ensures Distinct(Cut(s, i)) && s[i] !in Cut(s, i)
  {
    var r := Cut(s, i);
    forall a, b | 0 <= a < b < |r| ensures r[a] != r[b] {
      assert r[a] == s[if a < i then a else a + 1] && r[b] == s[if b < i then b else b + 1];
    }
    forall a | 0 <= a < |r| ensures r[a] != s[i] {
      assert r[a] == s[if a < i then a else a + 1];
    }
  }

  lemma {:induction false} ApartFrom<T>(s: seq<T>, i: nat)
    requires Distinct(s) && i < |s|
    ensures forall j :: 0 <= j < |s| && j != i ==> s[j] != s[i]
  {
  }

  /** Where `k` first occurs in `s`, or the length of `s` when it does not. */
  function IndexOf<T(==)>(s: seq<T>, k: T): (i: nat)
    ensures i <= |s| && (i < |s| ==> s[i] == k)
    ensures forall j :: 0 <= j < i ==> s[j] != k
  {
    if s == [] || s[0] == k then 0 else 1 + IndexOf(s[1..], k)
  }

  lemma {:induction false} IndexOfAt<T>(s: seq<T>, i: nat)
    requires Distinct(s) && i < |s|
    ensures IndexOf(s, s[i]) == i
  {
    assert s[IndexOf(s, s[i])] == s[i];
  }

  /** `s` with the first occurrence of `k`, if any, dropped. */
  function Without<T(==)>(s: seq<T>, k: T): seq<T> {
    var i := IndexOf(s, k);
    if i < |s| then Cut(s, i) else s
  }

  lemma {:induction false} CutElements<T>(s: seq<T>, i: nat)
    requires Distinct(s) && i < |s|
    ensures Elements(Cut(s, i)) == Elements(s) - {s[i]}
  {
    CutDistinct(s, i);
    forall x | x in s && x != s[i] ensures x in Cut(s, i) {
      CutMember(s, i, x);
    }
    forall x | x in Cut(s, i) ensures x in s {
      var j :| 0 <= j < |Cut(s, i)| && Cut(s, i)[j] == x;
      assert s[if j < i then j else j + 1] == x;
    }
  }

  lemma {:induction false} WithoutAbsent<T>(s: seq<T>, k: T)
    requires k !in s
    ensures Without(s, k) == s
  {
  }

  lemma {:induction false} WithoutElements<T>(s: seq<T>, k: T)
    requires Distinct(s)
    ensures Distinct(Without(s, k))
    ensures Elements(Without(s, k)) == Elements(s) - {k}
  {
    var i := IndexOf(s, k);
    if i < |s| {
      CutDistinct(s, i);
      CutElements(s, i);
    }
  }

  /** Moving an element to either end keeps a sequence distinct, with the same elements. */
  lemma {:induction false} MovedKeeps<T>(s: seq<T>, k: T)
    requires Distinct(s)
    ensures Distinct(Without(s, k) + [k]) && Elements(Without(s, k) + [k]) == Elements(s) + {k}
    ensures Distinct([k] + Without(s, k)) && Elements([k] + Without(s, k)) == Elements(s) + {k}
  {
    WithoutElements(s, k);
    var r := Without(s, k);
    assert k !in Elements(r);
    ElementsConcat(r, [k]);
    ElementsConcat([k], r);
  }

  lemma {:induction false} ElementOf<T>(s: seq<T>, i: nat)
    requires i < |s|
    ensures Elements(s) + {s[i]} == Elements(s)
  {
  }

  lemma {:induction false} ElementsConcat<T>(s: seq<T>, t: seq<T>)
    ensures Elements(s + t) == Elements(s) + Elements(t)
  {
  }

  lemma {:induction false} DistinctCardinality<T>(s: seq<T>)
    requires Distinct(s)
    ensures |Elements(s)| == |s|
  {
    if s != [] {
      DistinctCardinality(s[1..]);
      assert Elements(s) == Elements(s[1..]) + {s[0]};
    }
  }

  lemma {:induction false} SubsetCardinality<T>(a: set<T>, b: set<T>)
    requires a <= b
    ensures |a| <= |b|
    ensures |a| == |b| ==> a == b
  {
    assert b == a + (b - a);
    if a != b {
      var x :| x in b - a;
    }
  }

  // ---- sums over finite maps

  /** The sum of a map's values: the bytes a set of sized objects occupies. */
  ghost function Bytes(d: map<Key, nat>): nat {
    if d == map[] then 0 else var k :| k in d; d[k] + Bytes(d - {k})
  }

  lemma {:induction false} BytesRemove(d: map<Key, nat>, k: Key)
    requires k in d
    ensures Bytes(d) == d[k] + Bytes(d - {k})
    decreases |d|
  {
    var j :| j in d && Bytes(d) == d[j] + Bytes(d - {j});
    if j != k {
      assert |d - {j}| < |d| && |d - {k}| < |d| by {
        assert (d - {j}).Keys == d.Keys - {j} && (d - {k}).Keys == d.Keys - {k};
      }
      BytesRemove(d - {j}, k);
      BytesRemove(d - {k}, j);
      assert d - {j} - {k} == d - {k} - {j};
    }
  }

  lemma {:induction false} BytesInsert(d: map<Key, nat>, k: Key, size: nat)
    requires k !in d
    ensures Bytes(d[k := size]) == Bytes(d) + size
  {
    BytesRemove(d[k := size], k);
    assert d[k := size] - {k} == d;
  }

  /** Fewer objects, or smaller ones, occupy no more bytes. */
  lemma {:induction false} BytesMonotone(d: map<Key, nat>, e: map<Key, nat>)
    requires d.Keys <= e.Keys && forall k :: k in d ==> d[k] <= e[k]
    ensures Bytes(d) <= Bytes(e)
    decreases |d|
  {
    if d != map[] {
      var k :| k in d;
      assert |d - {k}| < |d| by {
        assert (d - {k}).Keys == d.Keys - {k};
      }
      BytesMonotone(d - {k}, e - {k});
      BytesRemove(d, k);
      BytesRemove(e, k);
    }
  }
}
