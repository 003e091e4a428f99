/** A map from keys to list nodes that agrees with the list it indexes. Every policy
    keeps one; the lemmas here say how it follows the list. */
module Index {
  import opened Base

  function Names<N>(name: N -> Key, ns: seq<N>): (ks: seq<Key>)
    ensures |ks| == |ns| && forall i :: 0 <= i < |ns| ==> ks[i] == name(ns[i])
  {
    seq(|ns|, i requires 0 <= i < |ns| => name(ns[i]))
  }

  /** Each listed node is filed under its own name, and nothing else is filed. */
  ghost predicate Indexed<N>(name: N -> Key, items: map<Key, N>, ns: seq<N>) {
    && (forall i :: 0 <= i < |ns| ==> name(ns[i]) in items && items[name(ns[i])] == ns[i])
    && (forall k :: k in items ==> items[k] in ns && name(items[k]) == k)
  }

  lemma {:induction false} IndexedNames<N>(name: N -> Key, items: map<Key, N>, ns: seq<N>)
    requires Indexed(name, items, ns) && Distinct(ns)
    ensures Distinct(Names(name, ns))
    ensures forall k :: k in items <==> k in Names(name, ns)
  {
    forall k | k in items ensures k in Names(name, ns) {
      var i :| 0 <= i < |ns| && ns[i] == items[k];
      assert Names(name, ns)[i] == k;
    }
  }

  lemma {:induction false} Find<N>(name: N -> Key, items: map<Key, N>, ns: seq<N>, k: Key) returns (i: nat)
    requires Indexed(name, items, ns) && k in items
    ensures i < |ns| && ns[i] == items[k] && name(ns[i]) == k
  {
    i :| 0 <= i < |ns| && ns[i] == items[k];
  }

  lemma {:induction false} NameAt<N>(name: N -> Key, ns: seq<N>, i: nat)
    requires Distinct(Names(name, ns)) && i < |ns|
    ensures IndexOf(Names(name, ns), name(ns[i])) == i
  {
    IndexOfAt(Names(name, ns), i);
  }

  lemma {:induction false} IndexedAppend<N>(name: N -> Key, items: map<Key, N>, ns: seq<N>, n: N)
    requires Indexed(name, items, ns) && name(n) !in items
    ensures Indexed(name, items[name(n) := n], ns + [n])
    ensures Names(name, ns + [n]) == Names(name, ns) + [name(n)]
    ensures n !in ns
  {
    assert n in ns + [n];
    assert forall m :: m in ns ==> m in ns + [n];
  }

  lemma {:induction false} IndexedPrepend<N>(name: N -> Key, items: map<Key, N>, ns: seq<N>, n: N)
    requires Indexed(name, items, ns) && name(n) !in items
    ensures Indexed(name, items[name(n) := n], [n] + ns)
    ensures Names(name, [n] + ns) == [name(n)] + Names(name, ns)
    ensures n !in ns
  {
    assert n in [n] + ns;
    assert forall m :: m in ns ==> m in [n] + ns;
  }

  lemma {:induction false} NamesCut<N>(name: N -> Key, items: map<Key, N>, ns: seq<N>, i: nat)
    requires Indexed(name, items, ns) && Distinct(ns) && i < |ns|
    ensures Names(name, Cut(ns, i)) == Without(Names(name, ns), name(ns[i]))
  {
    IndexedNames(name, items, ns);
    IndexOfAt(Names(name, ns), i);
    assert Names(name, Cut(ns, i)) == Cut(Names(name, ns), i);
  }

  lemma {:induction false} IndexedCut<N>(name: N -> Key, items: map<Key, N>, ns: seq<N>, i: nat)
    requires Indexed(name, items, ns) && Distinct(ns) && i < |ns|
    ensures Indexed(name, items - {name(ns[i])}, Cut(ns, i))
  {
    var rest := Cut(ns, i);
    forall k | k in items && k != name(ns[i]) ensures items[k] in rest {
      CutMember(ns, i, items[k]);
    }
    forall j | 0 <= j < |rest| ensures name(rest[j]) in items && name(rest[j]) != name(ns[i]) {
      assert rest[j] == ns[if j < i then j else j + 1];
    }
  }

  lemma {:induction false} FiledUnder<N>(name: N -> Key, items: map<Key, N>, ns: seq<N>, i: nat)
    requires Indexed(name, items, ns) && i < |ns|
    ensures name(ns[i]) in items && items[name(ns[i])] == ns[i]
  {
  }

  /** Moving a node to the front leaves the index as it is. */
  lemma {:induction false} IndexedToFront<N>(name: N -> Key, items: map<Key, N>, ns: seq<N>, i: nat)
    requires Indexed(name, items, ns) && Distinct(ns) && i < |ns|
    ensures var moved := [ns[i]] + Cut(ns, i);
            && Indexed(name, items, moved)
            && Names(name, moved) == [name(ns[i])] + Without(Names(name, ns), name(ns[i]))
  {
    hide Distinct, Cut, Names, Without, Indexed;
    var k := name(ns[i]);
    IndexedCut(name, items, ns, i);
    NamesCut(name, items, ns, i);
    FiledUnder(name, items, ns, i);
    IndexedPrepend(name, items - {k}, Cut(ns, i), ns[i]);
    assert (items - {k})[k := ns[i]] == items;
  }
}
