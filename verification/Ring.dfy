/** Consistent hashing: servers own arcs of a ring of hashes, and a new server takes keys
    only for itself. */
module HashRing {
  import opened Base
  import opened Text
  import opened Sorting

  type Hash = h: int | 0 <= h < 0x1_0000_0000

  const VIRTUAL_NODES: nat := 20

  // ---- on values

  /** A server's points on the ring. */
  function Point(checksum: string -> Hash, addr: string, i: nat): Hash {
    checksum(addr + "#" + Decimal(i))
  }

  ghost function Points(checksum: string -> Hash, addr: string, n: nat): set<Hash> {
    set i | 0 <= i < n :: Point(checksum, addr, i)
  }

  /** `m` after `addr` has claimed its first `n` points, whoever held them before. */
  function Claimed(checksum: string -> Hash, m: map<Hash, string>, addr: string, n: nat): map<Hash, string> {
    if n == 0 then m else Claimed(checksum, m, addr, n - 1)[Point(checksum, addr, n - 1) := addr]
  }

  /** Who holds each point after the servers joined in turn. */
  ghost function Joined(checksum: string -> Hash, addrs: seq<string>): map<Hash, string> {
    if addrs == [] then map[]
    else
      var last := |addrs| - 1;
      Claimed(checksum, Joined(checksum, addrs[..last]), addrs[last], VIRTUAL_NODES)
  }

  /** `x` is the first of `s` at or after `h`, wrapping past the top to the least. */
  ghost predicate IsFirst(s: set<Hash>, h: Hash, x: Hash) {
    && x in s
    && if h <= x then forall y :: y in s && h <= y ==> x <= y
       else forall y :: y in s ==> y < h && x <= y
  }

  /** The server responsible for hash `h`. */
  ghost function Owner(m: map<Hash, string>, h: Hash): string
    requires exists x :: IsFirst(m.Keys, h, x)
  {
    var x :| IsFirst(m.Keys, h, x); m[x]
  }

  lemma {:induction false} FirstIsUnique(s: set<Hash>, h: Hash, x: Hash, y: Hash)
    requires IsFirst(s, h, x) && IsFirst(s, h, y)
    ensures x == y
  {
  }

  lemma {:induction false} LeastExists(s: set<Hash>) returns (x: Hash)
    requires s != {}
    ensures x in s && forall y :: y in s ==> x <= y
    decreases |s|
  {
    x :| x in s;
    if s != {x} {
      var t := s - {x};
      var y := LeastExists(t);
      assert s == t + {x};
      if y < x {
        x := y;
      }
    } else {
      assert forall y :: y in s ==> y == x;
    }
  }

  /** Every hash has a first point on a ring that is not empty. */
  lemma {:induction false} FirstExists(s: set<Hash>, h: Hash) returns (x: Hash)
    requires s != {}
    ensures IsFirst(s, h, x)
  {
    var after := set y | y in s && h <= y;
    if after != {} {
      x := LeastExists(after);
      assert x in after;
      assert forall y :: y in s && h <= y ==> y in after;
    } else {
      x := LeastExists(s);
      assert forall y :: y in s ==> y !in after;
    }
  }

  lemma {:induction false} ClaimedMap(checksum: string -> Hash, m: map<Hash, string>, addr: string, n: nat)
    ensures var r := Claimed(checksum, m, addr, n); var ps := Points(checksum, addr, n);
            && r.Keys == m.Keys + ps
            && forall x :: x in r ==> r[x] == if x in ps then addr else m[x]
  {
    if n == 0 {
      assert Points(checksum, addr, 0) == {};
    } else {
      ClaimedMap(checksum, m, addr, n - 1);
      assert Points(checksum, addr, n) == Points(checksum, addr, n - 1) + {Point(checksum, addr, n - 1)};
    }
  }

  // ---- monotonicity

  /** When a server joins, a hash whose first point is now one of the newcomer's goes to
      it, and every other keeps its owner; points that collide change hands too. */
  lemma {:induction false} JoiningMovesOnlyToNewcomer(
    checksum: string -> Hash, m: map<Hash, string>, addr: string, h: Hash)
    requires m != map[]
    ensures var r := Claimed(checksum, m, addr, VIRTUAL_NODES);
            && (exists x :: IsFirst(m.Keys, h, x)) && (exists x :: IsFirst(r.Keys, h, x))
            && Owner(r, h) == if exists x :: x in Points(checksum, addr, VIRTUAL_NODES) && IsFirst(r.Keys, h, x)
                              then addr else Owner(m, h)
  {
    var r := Claimed(checksum, m, addr, VIRTUAL_NODES);
    ClaimedMap(checksum, m, addr, VIRTUAL_NODES);
    var k :| k in m;
    var x := FirstExists(m.Keys, h);
    var y := FirstExists(r.Keys, h);
    forall z | IsFirst(m.Keys, h, z) ensures z == x { FirstIsUnique(m.Keys, h, x, z); }
    forall z | IsFirst(r.Keys, h, z) ensures z == y { FirstIsUnique(r.Keys, h, y, z); }
    if y !in Points(checksum, addr, VIRTUAL_NODES) {
      assert IsFirst(m.Keys, h, y);
    }
  }

  lemma {:induction false} JoinedIsClaimed(checksum: string -> Hash, addrs: seq<string>, addr: string)
    ensures Joined(checksum, addrs + [addr])
            == Claimed(checksum, Joined(checksum, addrs), addr, VIRTUAL_NODES)
  {
    assert (addrs + [addr])[..|addrs|] == addrs;
  }

  lemma {:induction false} JoinedIsPeopled(checksum: string -> Hash, addrs: seq<string>, h: Hash)
    requires addrs != []
    ensures Joined(checksum, addrs) != map[] && exists x :: IsFirst(Joined(checksum, addrs).Keys, h, x)
  {
    var last := |addrs| - 1;
    ClaimedMap(checksum, Joined(checksum, addrs[..last]), addrs[last], VIRTUAL_NODES);
    assert Point(checksum, addrs[last], 0) in Points(checksum, addrs[last], VIRTUAL_NODES);
    assert Point(checksum, addrs[last], 0) in Joined(checksum, addrs).Keys;
    var x := FirstExists(Joined(checksum, addrs).Keys, h);
  }

  /** However many servers join, each hash stays with its owner or goes to one of them. */
  lemma {:induction false} ManyJoinsMoveOnlyToNewcomers(
    checksum: string -> Hash, addrs: seq<string>, more: seq<string>, h: Hash)
    requires addrs != []
    ensures exists x :: IsFirst(Joined(checksum, addrs).Keys, h, x)
    ensures exists x :: IsFirst(Joined(checksum, addrs + more).Keys, h, x)
    ensures var was, now := Owner(Joined(checksum, addrs), h), Owner(Joined(checksum, addrs + more), h);
            now == was || now in more
  {
    JoinedIsPeopled(checksum, addrs, h);
    if more == [] {
      assert addrs + more == addrs;
    } else {
      var last := |more| - 1;
      var before := addrs + more[..last];
      assert addrs + more == before + [more[last]];
      ManyJoinsMoveOnlyToNewcomers(checksum, addrs, more[..last], h);
      JoinedIsClaimed(checksum, before, more[last]);
      JoinedIsPeopled(checksum, before, h);
      JoiningMovesOnlyToNewcomer(checksum, Joined(checksum, before), more[last], h);
    }
  }

  // ---- the points themselves

  /** `a`'s name for its `i`-th point. */
  function Label(a: string, i: nat): string {
    a + "#" + Decimal(i)
  }

  /** Where the last '#' stands, or the length when there is none. */
  function LastHash(x: string): nat {
    if x == [] then 0 else if x[|x| - 1] == '#' then |x| - 1 else LastHash(x[..|x| - 1])
  }

  lemma {:induction false} LastHashAt(a: string, s: string)
    requires '#' !in s
    ensures LastHash(a + "#" + s) == |a|
  {
    var x := a + "#" + s;
    if s == [] {
      assert x[|x| - 1] == '#';
    } else {
      assert x[|x| - 1] == s[|s| - 1] && x[..|x| - 1] == a + "#" + s[..|s| - 1];
      LastHashAt(a, s[..|s| - 1]);
    }
  }

  /** No two servers share a name for a point, and no server uses one twice. */
  lemma {:induction false} LabelsAreUnique(a: string, i: nat, b: string, j: nat)
    requires Label(a, i) == Label(b, j)
    ensures a == b && i == j
  {
    DecimalReadsBack(i);
    DecimalReadsBack(j);
    LastHashAt(a, Decimal(i));
    LastHashAt(b, Decimal(j));
    var x := Label(a, i);
    assert x[..|a|] == a && x[..|b|] == b;
    assert x[|a| + 1..] == Decimal(i) && x[|b| + 1..] == Decimal(j);
  }

  /** Whether server `a` has a point at `x`: one of its twenty. */
  ghost predicate Claims(checksum: string -> Hash, a: string, x: Hash) {
    exists i :: 0 <= i < 20 && x == checksum(Label(a, i))
  }

  lemma {:induction false} ClaimsArePoints(checksum: string -> Hash, a: string, x: Hash)
    ensures Claims(checksum, a, x) <==> x in Points(checksum, a, VIRTUAL_NODES)
  {
    assert forall i: nat :: Point(checksum, a, i) == checksum(Label(a, i));
  }

  /** The ring has exactly the points of the servers that joined, and each belongs to the
      last of those that have it. */
  lemma {:induction false} PointsBelongToLastClaimant(checksum: string -> Hash, addrs: seq<string>, x: Hash)
    ensures var m := Joined(checksum, addrs);
            && (x in m <==> exists a :: a in addrs && Claims(checksum, a, x))
            && (x in m ==> exists j :: 0 <= j < |addrs| && m[x] == addrs[j] && Claims(checksum, addrs[j], x)
                             && forall k :: j < k < |addrs| ==> !Claims(checksum, addrs[k], x))
  {
    hide Claims, Points, Claimed;
    if addrs != [] {
      var last := |addrs| - 1;
      var before := addrs[..last];
      assert addrs == before + [addrs[last]];
      PointsBelongToLastClaimant(checksum, before, x);
      ClaimedMap(checksum, Joined(checksum, before), addrs[last], VIRTUAL_NODES);
      ClaimsArePoints(checksum, addrs[last], x);
      if x in Joined(checksum, before) && !Claims(checksum, addrs[last], x) {
        var j :| 0 <= j < |before| && Joined(checksum, before)[x] == before[j] && Claims(checksum, before[j], x)
                 && forall k :: j < k < |before| ==> !Claims(checksum, before[k], x);
        assert addrs[j] == before[j];
        assert forall k :: j < k < last ==> addrs[k] == before[k];
      }
    }
  }

  /** No two of the servers' points fall together. */
  ghost predicate NoCollisions(checksum: string -> Hash, addrs: set<string>) {
    forall a, b, i: nat, j: nat ::
      a in addrs && b in addrs && i < 20 && j < 20 && Label(a, i) != Label(b, j) ==>
        checksum(Label(a, i)) != checksum(Label(b, j))
  }

  lemma {:induction false} PointsAreMany(checksum: string -> Hash, addrs: set<string>, a: string, n: nat)
    requires NoCollisions(checksum, addrs) && a in addrs && n <= 20
    ensures |Points(checksum, a, n)| == n
  {
    hide NoCollisions, Point, Points;
    PointsGrow(checksum, a, n);
    if n > 0 {
      PointsAreMany(checksum, addrs, a, n - 1);
      forall i: nat | i < n - 1 ensures Point(checksum, a, i) != Point(checksum, a, n - 1) {
        PointsDiffer(checksum, addrs, a, i, n - 1);
      }
    }
  }

  lemma {:induction false} PointsGrow(checksum: string -> Hash, a: string, n: nat)
    ensures n == 0 ==> Points(checksum, a, n) == {}
    ensures n > 0 ==> Points(checksum, a, n) == Points(checksum, a, n - 1) + {Point(checksum, a, n - 1)}
    ensures n > 0 && (forall i: nat :: i < n - 1 ==> Point(checksum, a, i) != Point(checksum, a, n - 1)) ==>
              Point(checksum, a, n - 1) !in Points(checksum, a, n - 1)
  {
  }

  lemma {:induction false} PointsDiffer(checksum: string -> Hash, addrs: set<string>, a: string, i: nat, j: nat)
    requires NoCollisions(checksum, addrs) && a in addrs && i < j < 20
    ensures Point(checksum, a, i) != Point(checksum, a, j)
  {
    if Label(a, i) == Label(a, j) {
      LabelsAreUnique(a, i, a, j);
    }
    assert Point(checksum, a, i) == checksum(Label(a, i)) && Point(checksum, a, j) == checksum(Label(a, j));
  }

  lemma {:induction false} PointsAreApart(checksum: string -> Hash, addrs: set<string>, a: string, b: string, x: Hash)
    requires NoCollisions(checksum, addrs) && a in addrs && b in addrs
    requires Claims(checksum, a, x) && Claims(checksum, b, x)
    ensures a == b
  {
    var i :| 0 <= i < 20 && x == checksum(Label(a, i));
    var j :| 0 <= j < 20 && x == checksum(Label(b, j));
    if Label(a, i) == Label(b, j) {
      LabelsAreUnique(a, i, b, j);
    }
  }

  /** The points a server owns. */
  ghost function Owned(m: map<Hash, string>, a: string): set<Hash> {
    set x | x in m && m[x] == a
  }

  /** Where no points fall together, every server that has joined, however often, owns
      exactly twenty. */
  lemma {:induction false} EachOwnsTwenty(checksum: string -> Hash, addrs: seq<string>, a: string)
    requires NoCollisions(checksum, Elements(addrs)) && a in addrs
    ensures |Owned(Joined(checksum, addrs), a)| == 20
  {
    hide Claims, NoCollisions;
    var m := Joined(checksum, addrs);
    forall x ensures x in Owned(m, a) <==> x in Points(checksum, a, VIRTUAL_NODES) {
      PointsBelongToLastClaimant(checksum, addrs, x);
      ClaimsArePoints(checksum, a, x);
      if x in m && Claims(checksum, a, x) {
        assert m[x] in addrs && Claims(checksum, m[x], x);
        PointsAreApart(checksum, Elements(addrs), a, m[x], x);
      }
    }
    assert Owned(m, a) == Points(checksum, a, VIRTUAL_NODES);
    PointsAreMany(checksum, Elements(addrs), a, 20);
  }

  /** And a server that joins for the first time adds twenty points. */
  lemma {:induction false} JoiningAddsTwenty(checksum: string -> Hash, addrs: seq<string>, a: string)
    requires NoCollisions(checksum, Elements(addrs) + {a}) && a !in addrs
    ensures |Joined(checksum, addrs + [a])| == |Joined(checksum, addrs)| + 20
  {
    hide Claims, NoCollisions;
    var m, ps := Joined(checksum, addrs), Points(checksum, a, VIRTUAL_NODES);
    JoinedIsClaimed(checksum, addrs, a);
    ClaimedMap(checksum, m, a, VIRTUAL_NODES);
    forall x | x in ps ensures x !in m {
      PointsBelongToLastClaimant(checksum, addrs, x);
      ClaimsArePoints(checksum, a, x);
      if x in m {
        var b :| b in addrs && Claims(checksum, b, x);
        PointsAreApart(checksum, Elements(addrs) + {a}, a, b, x);
      }
    }
    PointsAreMany(checksum, Elements(addrs) + {a}, a, 20);
    assert Joined(checksum, addrs + [a]).Keys == m.Keys + ps;
  }

  // ---- in place

  function Repeated(addr: string, n: nat): (r: seq<string>)
    ensures |r| == n
  {
    if n == 0 then [] else Repeated(addr, n - 1) + [addr]
  }

  lemma {:induction false} SameElements<T>(s: seq<T>, t: seq<T>)
    requires multiset(s) == multiset(t)
    ensures Elements(s) == Elements(t) && |s| == |t|
  {
    forall x ensures x in s <==> x in t {
      assert x in s <==> x in multiset(s);
      assert x in t <==> x in multiset(t);
    }
    assert |s| == |multiset(s)| == |multiset(t)| == |t|;
  }

  predicate AtMost(a: Hash, b: Hash) {
    a <= b
  }

  class Ring {
    const checksum: string -> Hash
    var nodes: seq<string>
    var hashes: seq<Hash>
    var hashMap: map<Hash, string>
    ghost var addrs: seq<string>  // the servers, in order of joining

    ghost predicate Valid()
      reads this
    {
      && Sorted(AtMost, hashes)
      && Elements(hashes) == hashMap.Keys
      && hashMap == Joined(checksum, addrs)
      && |nodes| == |hashes| == VIRTUAL_NODES * |addrs|
    }

    constructor (checksum: string -> Hash)
      ensures Valid() && addrs == [] && this.checksum == checksum
    {
      this.checksum := checksum;
      nodes, hashes, hashMap, addrs := [], [], map[], [];
      new;
      assert Elements<Hash>([]) == {};
    }

    /** Adds a server unless its address is blank. Points it shares with another become its own. */
    method AddNode(addr: string) returns (ok: bool)
      requires Valid()
      modifies this
      ensures Valid() && (ok <==> TrimSpace(addr) != "")
      ensures addrs == if ok then old(addrs) + [addr] else old(addrs)
      ensures nodes == old(nodes) + Repeated(addr, if ok then VIRTUAL_NODES else 0)
    {
      hide TrimSpace, Sorted, Joined;
      if TrimSpace(addr) == "" {
        return false;
      }
      for i := 0 to VIRTUAL_NODES
        invariant hashMap == Claimed(checksum, old(hashMap), addr, i)
        invariant Elements(hashes) == hashMap.Keys
        invariant nodes == old(nodes) + Repeated(addr, i) && |hashes| == |old(hashes)| + i
        invariant addrs == old(addrs)
      {
        var hashValue := Point(checksum, addr, i);
        nodes := nodes + [addr];
        ElementsConcat(hashes, [hashValue]);
        hashes := hashes + [hashValue];
        hashMap := hashMap[hashValue := addr];
      }
      ghost var unsorted := hashes;
      hashes := Sort(AtMost, hashes);
      SameElements(hashes, unsorted);
      JoinedIsClaimed(checksum, addrs, addr);
      addrs := addrs + [addr];
      return true;
    }

    /** The server responsible for a key: by binary search, the one at the first hash at or
        after the key's, wrapping around. */
    method GetNode(key: string) returns (node: Option<string>)
      requires Valid()
      ensures node.None? <==> addrs == []
      ensures node.Some? ==>
                (exists x :: IsFirst(hashMap.Keys, checksum(key), x))
                && node.value == Owner(Joined(checksum, addrs), checksum(key))
    {
      if |hashes| == 0 {
        return None;
      }
      var keyHash := checksum(key);
      var i, j := 0, |hashes|;
      while i < j
        invariant 0 <= i <= j <= |hashes|
        invariant forall a :: 0 <= a < i ==> hashes[a] < keyHash
        invariant forall a :: j <= a < |hashes| ==> hashes[a] >= keyHash
      {
        var mid := (i + j) / 2;
        if hashes[mid] >= keyHash {
          j := mid;
        } else {
          i := mid + 1;
        }
      }
      var idx := if i == |hashes| then 0 else i;
      FoundIsFirst(idx, i, keyHash);
      return Some(hashMap[hashes[idx]]);
    }

    lemma {:induction false} FoundIsFirst(idx: nat, i: nat, h: Hash)
      requires Valid() && hashes != [] && i <= |hashes| && idx == if i == |hashes| then 0 else i
      requires forall a :: 0 <= a < i ==> hashes[a] < h
      requires forall a :: i <= a < |hashes| ==> hashes[a] >= h
      ensures hashes[idx] in hashMap && IsFirst(hashMap.Keys, h, hashes[idx])
      ensures (exists x :: IsFirst(hashMap.Keys, h, x)) && hashMap[hashes[idx]] == Owner(hashMap, h)
    {
      assert hashes[idx] in Elements(hashes);
      forall y | y in hashMap.Keys
        ensures if i == |hashes| then y < h && hashes[idx] <= y else h <= y ==> hashes[idx] <= y
      {
        assert y in Elements(hashes);
        var a :| 0 <= a < |hashes| && hashes[a] == y;
        assert idx < a ==> AtMost(hashes[idx], hashes[a]);
      }
      assert IsFirst(hashMap.Keys, h, hashes[idx]);
      forall z | IsFirst(hashMap.Keys, h, z) ensures z == hashes[idx] {
        FirstIsUnique(hashMap.Keys, h, hashes[idx], z);
      }
    }
  }
}
