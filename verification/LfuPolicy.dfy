/** LFU: a bucket of nodes for each frequency in use, and bounds on which those are. */
module LfuPolicy {
  import opened Base
  import opened Index

  // ---- on values

  /** A tracked key and its frequency. Entries are kept in order of arrival at their
      present frequency, which is all the frequency lists remember. */
  datatype Entry = Entry(key: Key, freq: int)

  function Label(e: Entry): Key {
    e.key
  }

  function Keys(es: seq<Entry>): seq<Key> {
    Names(Label, es)
  }

  ghost predicate Sane(es: seq<Entry>) {
    Distinct(Keys(es)) && forall i :: 0 <= i < |es| ==> es[i].freq >= 1
  }

  function Promoted(es: seq<Entry>, k: Key): seq<Entry> {
    var i := IndexOf(Keys(es), k);
    if i < |es| then Cut(es, i) + [Entry(k, es[i].freq + 1)] else es
  }

  function Admitted(es: seq<Entry>, k: Key): seq<Entry> {
    if k in Keys(es) then es else es + [Entry(k, 1)]
  }

  function Removed(es: seq<Entry>, k: Key): seq<Entry> {
    var i := IndexOf(Keys(es), k);
    if i < |es| then Cut(es, i) else es
  }

  /** The entry that is least in (frequency, time of arrival at it). */
  function Least(es: seq<Entry>): (m: nat)
    requires es != []
    ensures m < |es|
    ensures forall j :: 0 <= j < |es| ==> es[m].freq <= es[j].freq
    ensures forall j :: 0 <= j < m ==> es[m].freq < es[j].freq
  {
    if |es| == 1 then 0
    else
      var last := |es| - 1;
      var m := Least(es[..last]);
      if es[last].freq < es[m].freq then last else m
  }

  function Victim(es: seq<Entry>): Option<Key> {
    if es == [] then None else Some(es[Least(es)].key)
  }

  // ---- one frequency's list

  /** The keys at frequency `f`, in order of arrival. */
  function AtFreq(es: seq<Entry>, f: int): seq<Key> {
    if es == [] then []
    else
      var last := |es| - 1;
      var before := AtFreq(es[..last], f);
      if es[last].freq == f then before + [es[last].key] else before
  }

  lemma {:induction false} AtFreqAppend(es: seq<Entry>, e: Entry, f: int)
    ensures AtFreq(es + [e], f) == if e.freq == f then AtFreq(es, f) + [e.key] else AtFreq(es, f)
  {
    assert (es + [e])[..|es|] == es;
  }

  lemma {:induction false} AtFreqMember(es: seq<Entry>, f: int, k: Key)
    ensures k in AtFreq(es, f) <==> Entry(k, f) in es
  {
    if es != [] {
      var last := |es| - 1;
      AtFreqMember(es[..last], f, k);
      assert es == es[..last] + [es[last]];
    }
  }

  lemma {:induction false} AtFreqCut(es: seq<Entry>, i: nat, f: int)
    requires Distinct(Keys(es)) && i < |es|
    ensures AtFreq(Cut(es, i), f)
            == if es[i].freq == f then Without(AtFreq(es, f), es[i].key) else AtFreq(es, f)
  {
    hide Cut, Without, Distinct, Keys;
    var last := |es| - 1;
    var init := es[..last];
    InitKeys(es);
    if i == last {
      CutLast(es);
      if es[i].freq == f {
        AtFreqMember(init, f, es[i].key);
        WithoutLast(AtFreq(init, f), es[i].key);
      }
    } else {
      AtFreqCut(init, i, f);
      CutInit(es, i);
      if es[i].freq == f && es[last].freq == f {
        AtFreqMember(init, f, es[i].key);
        assert init[i] == Entry(es[i].key, f);
        WithoutBefore(AtFreq(init, f), es[i].key, es[last].key);
      }
    }
  }

  lemma {:induction false} InitKeys(es: seq<Entry>)
    requires Distinct(Keys(es)) && es != []
    ensures var last := |es| - 1;
            && Distinct(Keys(es[..last])) && forall e :: e in es[..last] ==> e.key != es[last].key
  {
    var last := |es| - 1;
    assert Keys(es[..last]) == Keys(es)[..last];
    forall a | 0 <= a < last ensures es[a].key != es[last].key {
      assert Keys(es)[a] != Keys(es)[last];
    }
  }

  lemma {:induction false} CutLast<T>(s: seq<T>)
    requires s != []
    ensures Cut(s, |s| - 1) == s[..|s| - 1]
  {
  }

  lemma {:induction false} CutInit(es: seq<Entry>, i: nat)
    requires i < |es| - 1
    ensures var last := |es| - 1;
            Cut(es, i) != [] && Cut(es, i)[..last - 1] == Cut(es[..last], i) && Cut(es, i)[last - 1] == es[last]
  {
  }

  lemma {:induction false} WithoutLast<T>(s: seq<T>, k: T)
    requires k !in s
    ensures Without(s + [k], k) == s
  {
    assert (s + [k])[|s|] == k;
    assert IndexOf(s + [k], k) == |s|;
  }

  lemma {:induction false} WithoutBefore<T>(s: seq<T>, k: T, x: T)
    requires k in s
    ensures Without(s + [x], k) == Without(s, k) + [x]
  {
    var i := IndexOf(s, k);
    assert i < |s|;
    assert IndexOf(s + [x], k) == i by {
      var j := IndexOf(s + [x], k);
      assert forall a :: 0 <= a < i ==> (s + [x])[a] != k;
      assert (s + [x])[i] == k;
    }
    assert Cut(s + [x], i) == Cut(s, i) + [x];
  }

  /** The head of the lowest occupied frequency is the least entry. */
  lemma {:induction false} LeastIsLowestHead(es: seq<Entry>, f: int)
    requires AtFreq(es, f) != [] && forall g :: g < f ==> AtFreq(es, g) == []
    ensures es != [] && es[Least(es)] == Entry(AtFreq(es, f)[0], f)
  {
    var last := |es| - 1;
    var init := es[..last];
    assert AtFreq(es, es[last].freq) != [];
    if AtFreq(init, f) != [] {
      forall g | g < f ensures AtFreq(init, g) == [] {
        assert AtFreq(es, g) == [];
      }
      LeastIsLowestHead(init, f);
    } else if init != [] {
      var m := Least(init);
      AtFreqMember(init, init[m].freq, init[m].key);
      assert init[m] in init;
      assert AtFreq(es, init[m].freq) != [];
      AtFreqMember(init, f, init[m].key);
    }
  }

  // ---- what every call keeps

  lemma {:induction false} PromotedKeeps(es: seq<Entry>, k: Key)
    requires Sane(es)
    ensures Sane(Promoted(es, k))
    ensures Elements(Keys(Promoted(es, k))) == Elements(Keys(es))
  {
    var ks := Keys(es);
    var i := IndexOf(ks, k);
    if i < |es| {
      PromotedKeys(es, k);
      hide Distinct, Elements, Keys, Without;
      MovedKeeps(ks, k);
      ElementOf(ks, i);
    }
  }

  lemma {:induction false} PromotedKeys(es: seq<Entry>, k: Key)
    requires IndexOf(Keys(es), k) < |es|
    ensures Keys(Promoted(es, k)) == Without(Keys(es), k) + [k]
  {
  }

  lemma {:induction false} AdmittedKeeps(es: seq<Entry>, k: Key)
    requires Sane(es) && k !in Keys(es)
    ensures Sane(Admitted(es, k)) && Keys(Admitted(es, k)) == Keys(es) + [k]
  {
    assert Keys(es + [Entry(k, 1)]) == Keys(es) + [k];
  }

  lemma {:induction false} RemovedKeeps(es: seq<Entry>, k: Key)
    requires Sane(es)
    ensures Sane(Removed(es, k)) && Keys(Removed(es, k)) == Without(Keys(es), k)
  {
    var i := IndexOf(Keys(es), k);
    if i < |es| {
      CutDistinct(Keys(es), i);
      assert Keys(Cut(es, i)) == Cut(Keys(es), i);
    }
  }

  // ---- in place

  class Node {
    const key: Key
    var freq: int
    var older: Node?
    var newer: Node?

    constructor (key: Key, freq: int)
      ensures this.key == key && this.freq == freq
    {
      this.key, this.freq := key, freq;
    }
  }

  function KeyOf(n: Node): Key {
    n.key
  }

  function First(ns: seq<Node>): Node? {
    if ns == [] then null else ns[0]
  }

  function Final(ns: seq<Node>): Node? {
    if ns == [] then null else ns[|ns| - 1]
  }

  ghost predicate OlderLinked(ns: seq<Node>)
    reads ns`older
  {
    forall i {:trigger ns[i].older} :: 0 <= i < |ns| ==> ns[i].older == if i == 0 then null else ns[i - 1]
  }

  ghost predicate NewerLinked(ns: seq<Node>)
    reads ns`newer
  {
    forall i {:trigger ns[i].newer} :: 0 <= i < |ns| ==>
      ns[i].newer == if i + 1 == |ns| then null else ns[i + 1]
  }

  /** One frequency's nodes, doubly linked; `Linked(ns)` says they are `ns`. */
  class Bucket {
    var head: Node?
    var tail: Node?
    var n: int

    constructor ()
      ensures Linked([])
    {
      head, tail, n := null, null, 0;
    }

    ghost predicate Linked(ns: seq<Node>)
      reads this, ns`older, ns`newer
      ensures Linked(ns) ==> Distinct(ns) && n == |ns| && (head == null <==> ns == [])
      ensures Linked(ns) && ns != [] ==> head == ns[0]
    {
      && Distinct(ns)
      && n == |ns|
      && head == First(ns) && tail == Final(ns)
      && OlderLinked(ns) && NewerLinked(ns)
    }

    /** Links `m` behind the nodes `ns` this bucket lists. */
    method Append(m: Node, ghost ns: seq<Node>)
      requires Linked(ns) && m !in ns
      modifies this, ns`newer, m`older, m`newer
      ensures Linked(ns + [m])
    {
      m.older, m.newer := tail, null;
      if tail != null {
        tail.newer := m;
      }
      tail := m;
      if head == null {
        head := m;
      }
      n := n + 1;
    }

    /** Takes `m` out of the links toward the newest. */
    method SkipNewer(m: Node, ghost ns: seq<Node>, ghost i: nat)
      requires Distinct(ns) && NewerLinked(ns) && OlderLinked(ns) && i < |ns| && ns[i] == m
      requires head == First(ns)
      modifies `head, ns`newer
      ensures NewerLinked(Cut(ns, i)) && head == First(Cut(ns, i))
      ensures m.newer == (if i + 1 < |ns| then ns[i + 1] else null)
    {
      if m.older != null {
        ApartFrom(ns, i - 1);
        m.older.newer := m.newer;
      } else {
        head := m.newer;
      }
    }

    /** Takes `m` out of the links toward the oldest. */
    method SkipOlder(m: Node, ghost ns: seq<Node>, ghost i: nat)
      requires Distinct(ns) && OlderLinked(ns) && i < |ns| && ns[i] == m
      requires m.newer == (if i + 1 < |ns| then ns[i + 1] else null)
      requires tail == Final(ns) && NewerLinked(Cut(ns, i))
      modifies `tail, ns`older
      ensures OlderLinked(Cut(ns, i)) && NewerLinked(Cut(ns, i)) && tail == Final(Cut(ns, i))
    {
      if m.newer != null {
        ApartFrom(ns, i + 1);
        m.newer.older := m.older;
      } else {
        tail := m.older;
      }
    }

    method Unlink(m: Node, ghost ns: seq<Node>, ghost i: nat)
      requires Linked(ns) && i < |ns| && ns[i] == m
      modifies this, ns`older, ns`newer
      ensures Linked(Cut(ns, i))
    {
      hide Distinct, Cut, First, Final, OlderLinked, NewerLinked;
      CutDistinct(ns, i);
      CutWithin(ns, i);
      SkipNewer(m, ns, i);
      SkipOlder(m, ns, i);
      m.older, m.newer := null, null;
      n := n - 1;
    }
  }

  function LaneOf(lanes: map<int, seq<Node>>, f: int): seq<Node> {
    if f in lanes then lanes[f] else []
  }

  ghost predicate Tracks(items: map<Key, Node>, es: seq<Entry>) {
    Sane(es) && forall k :: k in items <==> k in Keys(es)
  }

  ghost predicate Lists(items: map<Key, Node>, lanes: map<int, seq<Node>>) {
    forall f, i :: 0 <= i < |LaneOf(lanes, f)| ==>
      var n := LaneOf(lanes, f)[i]; n.key in items && items[n.key] == n
  }

  ghost predicate Orders(lanes: map<int, seq<Node>>, es: seq<Entry>) {
    forall f :: Names(KeyOf, LaneOf(lanes, f)) == AtFreq(es, f)
  }

  /** The lists hold exactly the tracked keys, each in the order of `es`. */
  ghost predicate Files(items: map<Key, Node>, lanes: map<int, seq<Node>>, es: seq<Entry>) {
    Tracks(items, es) && Lists(items, lanes) && Orders(lanes, es)
  }

  /** Where a tracked key is listed. */
  lemma {:induction false} Located(items: map<Key, Node>, lanes: map<int, seq<Node>>, es: seq<Entry>, k: Key)
    returns (f: int, i: nat)
    requires Files(items, lanes, es) && k in items
    ensures i < |LaneOf(lanes, f)| && LaneOf(lanes, f)[i] == items[k] && items[k].key == k
    ensures var p := IndexOf(Keys(es), k); p < |es| && es[p] == Entry(k, f)
  {
    var p := IndexOf(Keys(es), k);
    f := es[p].freq;
    assert es[p] == Entry(k, f) && es[p] in es;
    AtFreqMember(es, f, k);
    i :| 0 <= i < |LaneOf(lanes, f)| && Names(KeyOf, LaneOf(lanes, f))[i] == k;
  }

  /** A key's frequency is that of the one list it is on. */
  lemma {:induction false} FreqOfListed(es: seq<Entry>, k: Key, f: int)
    requires Distinct(Keys(es)) && k in AtFreq(es, f)
    ensures var p := IndexOf(Keys(es), k); p < |es| && es[p] == Entry(k, f)
  {
    AtFreqMember(es, f, k);
    var p :| 0 <= p < |es| && es[p] == Entry(k, f);
    NameAt(Label, es, p);
  }

  lemma {:induction false} NamesCutAt(items: map<Key, Node>, ns: seq<Node>, i: nat)
    requires i < |ns| && Distinct(ns)
    requires forall j :: 0 <= j < |ns| ==> ns[j].key in items && items[ns[j].key] == ns[j]
    ensures Names(KeyOf, Cut(ns, i)) == Without(Names(KeyOf, ns), ns[i].key)
  {
    var ks := Names(KeyOf, ns);
    forall a, b | 0 <= a < b < |ns| ensures ks[a] != ks[b] {
      assert items[ns[a].key] != items[ns[b].key];
    }
    NameAt(KeyOf, ns, i);
    assert Names(KeyOf, Cut(ns, i)) == Cut(ks, i);
  }

  lemma {:induction false} CutLane(
    items: map<Key, Node>, lanes: map<int, seq<Node>>, es: seq<Entry>, k: Key, f: int, i: nat)
    requires Files(items, lanes, es) && k in items
    requires i < |LaneOf(lanes, f)| && LaneOf(lanes, f)[i] == items[k] && Distinct(LaneOf(lanes, f))
    ensures items[k].key == k
    ensures IndexOf(Keys(es), k) < |es| && es[IndexOf(Keys(es), k)] == Entry(k, f)
    ensures Names(KeyOf, Cut(LaneOf(lanes, f), i)) == AtFreq(Removed(es, k), f)
    ensures forall g :: g != f ==> AtFreq(Removed(es, k), g) == AtFreq(es, g)
  {
    ListedAt(items, lanes, es, k, f, i);
    hide AtFreq, Without, Distinct, Removed, Cut, Names;
    RemovedAtFreq(es, k, f);
    NamesCutAt(items, LaneOf(lanes, f), i);
  }

  lemma {:induction false} ListedAt(
    items: map<Key, Node>, lanes: map<int, seq<Node>>, es: seq<Entry>, k: Key, f: int, i: nat)
    requires Files(items, lanes, es) && k in items
    requires i < |LaneOf(lanes, f)| && LaneOf(lanes, f)[i] == items[k]
    ensures items[k].key == k
    ensures IndexOf(Keys(es), k) < |es| && es[IndexOf(Keys(es), k)] == Entry(k, f)
  {
    hide AtFreq;
    var f', i' := Located(items, lanes, es, k);
    assert Names(KeyOf, LaneOf(lanes, f))[i] == k;
    FreqOfListed(es, k, f);
  }

  lemma {:induction false} RemovedAtFreq(es: seq<Entry>, k: Key, f: int)
    requires Distinct(Keys(es))
    requires IndexOf(Keys(es), k) < |es| && es[IndexOf(Keys(es), k)] == Entry(k, f)
    ensures AtFreq(Removed(es, k), f) == Without(AtFreq(es, f), k)
    ensures forall g :: g != f ==> AtFreq(Removed(es, k), g) == AtFreq(es, g)
  {
    hide AtFreq, Distinct;
    forall g ensures AtFreq(Removed(es, k), g) == if g == f then Without(AtFreq(es, f), k) else AtFreq(es, g) {
      AtFreqCut(es, IndexOf(Keys(es), k), g);
    }
  }

  lemma {:induction false} TracksCut(items: map<Key, Node>, es: seq<Entry>, k: Key)
    requires Tracks(items, es)
    ensures Tracks(items - {k}, Removed(es, k))
  {
    RemovedKeeps(es, k);
    WithoutElements(Keys(es), k);
    hide Removed, Sane, Without, Distinct, Keys;
    forall j ensures j in Keys(Removed(es, k)) <==> j in Elements(Keys(es)) - {k} {
      assert j in Keys(Removed(es, k)) <==> j in Elements(Keys(Removed(es, k)));
    }
  }

  /** Lists that agree with the tracked entries hold only tracked nodes. */
  lemma {:induction false} ListsCut(
    items: map<Key, Node>, before: map<int, seq<Node>>, after: map<int, seq<Node>>, rest: seq<Entry>,
    k: Key)
    requires Lists(items, before) && Tracks(items - {k}, rest) && Orders(after, rest)
    requires forall g, j :: 0 <= j < |LaneOf(after, g)| ==> LaneOf(after, g)[j] in LaneOf(before, g)
    ensures Lists(items - {k}, after)
  {
    forall g, j | 0 <= j < |LaneOf(after, g)|
      ensures var n := LaneOf(after, g)[j]; n.key in items - {k} && items[n.key] == n
    {
      var n := LaneOf(after, g)[j];
      assert Names(KeyOf, LaneOf(after, g))[j] == n.key;
      AtFreqMember(rest, g, n.key);
      EntryInKeys(rest, Entry(n.key, g));
    }
  }

  lemma {:induction false} FilesCut(
    items: map<Key, Node>, before: map<int, seq<Node>>, after: map<int, seq<Node>>, es: seq<Entry>,
    k: Key, f: int, i: nat)
    requires Files(items, before, es) && k in items
    requires i < |LaneOf(before, f)| && LaneOf(before, f)[i] == items[k] && Distinct(LaneOf(before, f))
    requires forall g :: LaneOf(after, g) == if g == f then Cut(LaneOf(before, f), i) else LaneOf(before, g)
    ensures Files(items - {k}, after, Removed(es, k))
    ensures items[k].key == k
    ensures IndexOf(Keys(es), k) < |es| && es[IndexOf(Keys(es), k)] == Entry(k, f)
  {
    hide Removed, Tracks, AtFreq, Lists, Distinct, LaneOf;
    CutLane(items, before, es, k, f, i);
    TracksCut(items, es, k);
    forall g, j | 0 <= j < |LaneOf(after, g)| ensures LaneOf(after, g)[j] in LaneOf(before, g) {
    }
    ListsCut(items, before, after, Removed(es, k), k);
  }

  lemma {:induction false} PromotedIs(es: seq<Entry>, k: Key, f: int)
    requires IndexOf(Keys(es), k) < |es| && es[IndexOf(Keys(es), k)] == Entry(k, f)
    ensures Promoted(es, k) == Removed(es, k) + [Entry(k, f + 1)]
  {
  }

  lemma {:induction false} EntryInKeys(es: seq<Entry>, e: Entry)
    requires e in es
    ensures e.key in Keys(es)
  {
    var i :| 0 <= i < |es| && es[i] == e;
    assert Keys(es)[i] == e.key;
  }

  lemma {:induction false} TracksAppend(items: map<Key, Node>, es: seq<Entry>, n: Node, f: int)
    requires Tracks(items, es) && n.key !in items && f >= 1
    ensures Tracks(items[n.key := n], es + [Entry(n.key, f)])
  {
    assert Keys(es + [Entry(n.key, f)]) == Keys(es) + [n.key];
  }

  lemma {:induction false} FilesAppend(
    items: map<Key, Node>, before: map<int, seq<Node>>, after: map<int, seq<Node>>, es: seq<Entry>,
    n: Node, f: int)
    requires Files(items, before, es) && n.key !in items && f >= 1
    requires forall g :: LaneOf(after, g) == if g == f then LaneOf(before, f) + [n] else LaneOf(before, g)
    ensures Files(items[n.key := n], after, es + [Entry(n.key, f)])
  {
    hide Tracks, AtFreq, LaneOf;
    TracksAppend(items, es, n, f);
    forall g ensures Names(KeyOf, LaneOf(after, g)) == AtFreq(es + [Entry(n.key, f)], g) {
      AtFreqAppend(es, Entry(n.key, f), g);
    }
  }

  /** Every listed node is known, and its home is the list it is on. */
  ghost predicate Housed(lanes: map<int, seq<Node>>, home: map<Node, int>, nodes: set<Node>) {
    forall f, i :: f in lanes && 0 <= i < |lanes[f]| ==>
      lanes[f][i] in nodes && lanes[f][i] in home && home[lanes[f][i]] == f
  }

  lemma {:induction false} HousedApart(
    lanes: map<int, seq<Node>>, home: map<Node, int>, nodes: set<Node>, f: int, n: Node)
    requires Housed(lanes, home, nodes) && f in lanes
    ensures forall g, i :: g in lanes && g != f && 0 <= i < |lanes[g]| ==> lanes[g][i] !in lanes[f]
    ensures forall i :: 0 <= i < |lanes[f]| ==> lanes[f][i] in nodes
    ensures n in lanes[f] ==> forall g :: g in lanes && g != f ==> n !in lanes[g]
  {
  }

  lemma {:induction false} HousedAppend(
    lanes: map<int, seq<Node>>, home: map<Node, int>, nodes: set<Node>, f: int, n: Node)
    requires Housed(lanes, home, nodes) && f in lanes && forall g :: g in lanes ==> n !in lanes[g]
    ensures Housed(lanes[f := lanes[f] + [n]], home[n := f], nodes + {n})
  {
    forall g, i | g in lanes && 0 <= i < |lanes[g]| ensures lanes[g][i] != n {
      assert lanes[g][i] in lanes[g];
    }
  }

  lemma {:induction false} HousedCut(
    lanes: map<int, seq<Node>>, home: map<Node, int>, nodes: set<Node>, f: int, i: nat)
    requires Housed(lanes, home, nodes) && f in lanes && i < |lanes[f]|
    ensures Housed(lanes[f := Cut(lanes[f], i)], home, nodes)
  {
  }

  class LFU {
    var items: map<Key, Node>
    var buckets: map<int, Bucket>
    var minFreq: int
    var maxFreq: int
    ghost var lanes: map<int, seq<Node>>  // what each bucket lists
    ghost var entries: seq<Entry>
    ghost var home: map<Node, int>  // the frequency each node was last filed under
    ghost var nodes: set<Node>
    ghost var owned: set<Bucket>

    /** Buckets are separate objects. */
    ghost predicate Separate()
      reads `buckets, `lanes, `owned
    {
      && buckets.Keys == lanes.Keys
      && (forall f :: f in buckets ==> buckets[f] in owned)
      && (forall f, g :: f in buckets && g in buckets && f != g ==> buckets[f] != buckets[g])
    }

    /** And no node is listed twice. */
    ghost predicate Apart()
      reads `buckets, `lanes, `home, `nodes, `owned
    {
      Separate() && Housed(lanes, home, nodes)
    }

    ghost predicate AllLinked()
      requires Apart()
      reads `buckets, `lanes, `home, `nodes, `owned, nodes`older, nodes`newer, owned
    {
      forall f :: f in buckets ==> buckets[f].Linked(lanes[f])
    }

    ghost predicate Tidy()
      reads `buckets, `lanes, `home, `nodes, `owned, nodes`older, nodes`newer, owned
    {
      Apart() && AllLinked()
    }

    ghost predicate Settled()
      reads `home, `nodes, nodes`freq
    {
      forall n :: n in nodes ==> n in home && n.freq == home[n]
    }

    /** No live frequency lies outside minFreq..maxFreq. */
    ghost predicate Bounded()
      reads `lanes, `minFreq, `maxFreq
    {
      maxFreq >= 1 && forall f :: LaneOf(lanes, f) != [] ==> 1 <= f && minFreq <= f <= maxFreq
    }

    ghost predicate Valid()
      reads this, nodes, owned
    {
      Tidy() && Settled() && Files(items, lanes, entries) && Bounded()
    }

    constructor ()
      ensures Valid() && entries == [] && nodes == {} && owned == {}
    {
      items, buckets, minFreq, maxFreq := map[], map[], 1, 1;
      lanes, entries, home, nodes, owned := map[], [], map[], {}, {};
    }

    method OpenBucket(freq: int)
      requires Tidy()
      modifies `buckets, `lanes, `owned
      ensures Tidy() && fresh(owned - old(owned)) && freq in buckets
      ensures lanes == if freq in old(lanes) then old(lanes) else old(lanes)[freq := []]
    {
      if freq !in buckets {
        var b := new Bucket();
        buckets := buckets[freq := b];
        owned := owned + {b};
        lanes := lanes[freq := []];
      }
    }

    method LinkInto(freq: int, n: Node)
      requires Tidy() && forall f :: f in lanes ==> n !in lanes[f]
      modifies `buckets, `lanes, `home, `nodes, `owned, owned, nodes`newer, n`older, n`newer
      ensures Tidy() && home == old(home)[n := freq] && nodes == old(nodes) + {n}
      ensures fresh(owned - old(owned))
      ensures forall g :: LaneOf(lanes, g) == if g == freq then LaneOf(old(lanes), g) + [n] else LaneOf(old(lanes), g)
    {
      OpenBucket(freq);
      AppendTo(freq, n);
    }

    method AppendTo(freq: int, n: Node)
      requires Tidy() && freq in buckets && forall f :: f in lanes ==> n !in lanes[f]
      modifies `lanes, `home, `nodes, owned, nodes`newer, n`older, n`newer
      ensures Tidy() && home == old(home)[n := freq] && nodes == old(nodes) + {n}
      ensures lanes == old(lanes)[freq := old(lanes[freq]) + [n]]
    {
      hide Housed, Bucket.Linked, Distinct, Cut;
      HousedApart(lanes, home, nodes, freq, n);
      HousedAppend(lanes, home, nodes, freq, n);
      buckets[freq].Append(n, lanes[freq]);
      assert forall g :: g in buckets && g != freq ==> buckets[g].Linked(lanes[g]);
      home, nodes := home[n := freq], nodes + {n};
      Relist(freq, lanes[freq] + [n]);
    }

    /** Records what one bucket lists now. */
    ghost method Relist(freq: int, ns: seq<Node>)
      requires Separate() && freq in buckets && Housed(lanes[freq := ns], home, nodes)
      requires buckets[freq].Linked(ns) && forall g :: g in buckets && g != freq ==> buckets[g].Linked(lanes[g])
      modifies `lanes
      ensures Tidy() && lanes == old(lanes)[freq := ns]
    {
      hide Housed, Bucket.Linked;
      lanes := lanes[freq := ns];
    }

    method UnlinkFrom(freq: int, n: Node, ghost i: nat)
      requires Tidy() && i < |LaneOf(lanes, freq)| && LaneOf(lanes, freq)[i] == n
      modifies `buckets, `lanes, owned, nodes`older, nodes`newer
      ensures Tidy() && forall f :: f in lanes ==> n !in lanes[f]
      ensures forall g :: LaneOf(lanes, g) == if g == freq then Cut(LaneOf(old(lanes), g), i) else LaneOf(old(lanes), g)
    {
      hide Bucket.Linked;
      CutFrom(freq, n, i);
      // An emptied bucket is dropped, except the first, which the next newcomer refills.
      if buckets[freq].n == 0 && freq != 1 {
        buckets := buckets - {freq};
        lanes := lanes - {freq};
      }
    }

    method CutFrom(freq: int, n: Node, ghost i: nat)
      requires Tidy() && freq in buckets && i < |lanes[freq]| && lanes[freq][i] == n
      modifies `lanes, owned, nodes`older, nodes`newer
      ensures Tidy() && forall f :: f in lanes ==> n !in lanes[f]
      ensures lanes == old(lanes)[freq := Cut(old(lanes[freq]), i)]
    {
      hide Housed, Bucket.Linked, Distinct, Cut;
      HousedApart(lanes, home, nodes, freq, n);
      HousedCut(lanes, home, nodes, freq, i);
      buckets[freq].Unlink(n, lanes[freq], i);
      assert forall g :: g in buckets && g != freq ==> buckets[g].Linked(lanes[g]);
      CutDistinct(lanes[freq], i);
      Relist(freq, Cut(lanes[freq], i));
    }

    method BucketEmpty(freq: int) returns (empty: bool)
      requires Tidy()
      ensures empty <==> LaneOf(lanes, freq) == []
    {
      empty := freq !in buckets || buckets[freq].n == 0;
    }

    /** Leaves `minFreq` at an occupied frequency with none occupied below it, if any is. */
    method RaiseMinFreq()
      requires Tidy() && Bounded()
      modifies `minFreq
      ensures Bounded()
      ensures (exists f :: LaneOf(lanes, f) != []) ==> LaneOf(lanes, minFreq) != []
    {
      if minFreq < 1 {
        minFreq := 1;
      }
      var f := minFreq;
      while f <= maxFreq
        invariant minFreq <= f
        invariant forall g :: g < f ==> LaneOf(lanes, g) == []
        decreases maxFreq - f
      {
        var empty := BucketEmpty(f);
        if !empty {
          minFreq := f;
          return;
        }
        f := f + 1;
      }
      minFreq := 1;
    }

    /** The list node of a tracked key, and what the specification holds of it. */
    lemma {:induction false} Locate(key: Key) returns (i: nat)
      requires Valid() && key in items
      ensures items[key] in nodes && items[key].key == key
      ensures i < |LaneOf(lanes, items[key].freq)| && LaneOf(lanes, items[key].freq)[i] == items[key]
      ensures Distinct(LaneOf(lanes, items[key].freq)) && items[key].freq >= 1
    {
      var f, j := Located(items, lanes, entries, key);
      i := j;
      assert buckets[f].Linked(lanes[f]);
    }

    /** Takes a tracked node off its list. */
    method Detach(n: Node, ghost i: nat)
      requires Tidy() && Files(items, lanes, entries) && n.key in items && items[n.key] == n
      requires i < |LaneOf(lanes, n.freq)| && LaneOf(lanes, n.freq)[i] == n && Distinct(LaneOf(lanes, n.freq))
      modifies `buckets, `lanes, `entries, owned, nodes`older, nodes`newer
      ensures Tidy() && (forall f :: f in lanes ==> n !in lanes[f])
      ensures Files(items - {n.key}, lanes, entries) && entries == Removed(old(entries), n.key)
      ensures Promoted(old(entries), n.key) == entries + [Entry(n.key, n.freq + 1)]
      ensures forall f :: LaneOf(lanes, f) != [] ==> LaneOf(old(lanes), f) != []
    {
      hide Files, Removed, Distinct, Tidy, Sane, LaneOf;
      ghost var before := lanes;
      UnlinkFrom(n.freq, n, i);
      FilesCut(items, before, lanes, entries, n.key, n.freq, i);
      PromotedIs(entries, n.key, n.freq);
      entries := Removed(entries, n.key);
    }

    /** Appends an unlisted node to the list of its frequency. */
    method Attach(n: Node)
      requires Tidy() && n.freq >= 1 && (forall f :: f in lanes ==> n !in lanes[f])
      requires Files(items - {n.key}, lanes, entries)
      modifies `buckets, `lanes, `home, `nodes, `owned, `entries, owned, nodes`newer, n`older, n`newer
      ensures Tidy() && home == old(home)[n := n.freq] && nodes == old(nodes) + {n}
      ensures fresh(owned - old(owned))
      ensures Files(items[n.key := n], lanes, entries) && entries == old(entries) + [Entry(n.key, n.freq)]
      ensures forall f :: LaneOf(lanes, f) != [] ==> f == n.freq || LaneOf(old(lanes), f) != []
    {
      hide Files, Distinct, Tidy, Sane, LaneOf;
      ghost var before := lanes;
      LinkInto(n.freq, n);
      FilesAppend(items - {n.key}, before, lanes, entries, n, n.freq);
      assert (items - {n.key})[n.key := n] == items[n.key := n];
      entries := entries + [Entry(n.key, n.freq)];
    }

    lemma {:induction false} Untracked(key: Key)
      requires Files(items, lanes, entries) && key !in items
      ensures Promoted(entries, key) == entries && Removed(entries, key) == entries
      ensures Admitted(entries, key) == entries + [Entry(key, 1)]
    {
    }

    lemma {:induction false} Tracked(key: Key)
      requires Files(items, lanes, entries) && key in items
      ensures Admitted(entries, key) == entries && entries != []
    {
    }

    /** Moves a tracked node to the list of the next frequency. */
    method Promote(n: Node, ghost i: nat)
      requires Tidy() && Settled() && Files(items, lanes, entries)
      requires n.key in items && items[n.key] == n && n in nodes
      requires i < |LaneOf(lanes, n.freq)| && LaneOf(lanes, n.freq)[i] == n && Distinct(LaneOf(lanes, n.freq))
      requires n.freq >= 1
      modifies `buckets, `lanes, `home, `nodes, `owned, `entries, owned, nodes
      ensures Tidy() && Settled() && Files(items, lanes, entries)
      ensures nodes == old(nodes) && fresh(owned - old(owned)) && n.freq == old(n.freq) + 1
      ensures entries == Promoted(old(entries), n.key)
      ensures forall f :: LaneOf(lanes, f) != [] ==> f == n.freq || LaneOf(old(lanes), f) != []
    {
      hide Files, Promoted, Removed, Distinct, Tidy, LaneOf;
      Detach(n, i);
      n.freq := n.freq + 1;
      Attach(n);
      assert items[n.key := n] == items;
    }

    method OnHit(key: Key)
      requires Valid()
      modifies this, nodes, owned
      ensures Valid() && nodes == old(nodes) && fresh(owned - old(owned))
      ensures entries == Promoted(old(entries), key)
    {
      hide Files, Promoted, Removed, Distinct, Tidy, LaneOf;
      if key !in items {
        Untracked(key);
        return;
      }
      var n := items[key];
      ghost var i := Locate(key);
      var was := n.freq;
      Promote(n, i);
      KeepBounds(was, n.freq);
    }

    method KeepBounds(was: int, now: int)
      requires Tidy() && maxFreq >= 1 && now >= 1
      requires forall f :: LaneOf(lanes, f) != [] ==> 1 <= f && minFreq <= f && (f == now || f <= maxFreq)
      modifies `minFreq, `maxFreq
      ensures Bounded()
    {
      hide LaneOf;
      if now > maxFreq {
        maxFreq := now;
      }
      // If `was` was the least and is now empty, the least lies higher.
      var empty := BucketEmpty(was);
      if was == minFreq && empty {
        RaiseMinFreq();
      }
    }

    method CanAdmit(key: Key, size: nat) returns (ok: bool)
      ensures ok
    {
      ok := true;
    }

    method OnAdmit(key: Key)
      requires Valid()
      modifies this, nodes, owned
      ensures Valid() && fresh(nodes - old(nodes)) && fresh(owned - old(owned))
      ensures entries == Admitted(old(entries), key)
    {
      hide Files, Admitted, Tidy;
      if key in items {
        Tracked(key);
        return;
      }
      Untracked(key);
      var n := new Node(key, 1);
      Unlisted(n);
      AdmitNode(n);
    }

    method AdmitNode(n: Node)
      requires Valid() && n.freq == 1 && n.key !in items && forall f :: f in lanes ==> n !in lanes[f]
      modifies this, owned, nodes`newer, n`older, n`newer
      ensures Valid() && nodes == old(nodes) + {n} && fresh(owned - old(owned))
      ensures entries == old(entries) + [Entry(n.key, 1)]
    {
      hide Files, Distinct, Tidy, LaneOf;
      assert items - {n.key} == items;
      Attach(n);
      items := items[n.key := n];
      // Nothing can have a frequency below the newcomer's.
      minFreq := 1;
    }

    lemma {:induction false} Unlisted(n: Node)
      requires Tidy() && n !in nodes
      ensures forall f :: f in lanes ==> n !in lanes[f]
    {
    }

    method Evict() returns (victim: Option<Key>)
      requires Valid()
      modifies `minFreq
      ensures Valid() && victim == Victim(entries)
    {
      hide Files, Distinct, Tidy, LaneOf;
      EmptyTogether();
      if |items| == 0 {
        return None;
      }
      RaiseMinFreq();
      LowestHead();
      victim := Some(buckets[minFreq].head.key);
    }

    lemma {:induction false} EmptyTogether()
      requires Valid()
      ensures |items| == 0 <==> entries == []
      ensures entries != [] ==> exists f :: LaneOf(lanes, f) != []
    {
      if entries != [] {
        assert Keys(entries)[0] in items;
        var f, i := Located(items, lanes, entries, Keys(entries)[0]);
        assert LaneOf(lanes, f) != [];
      } else {
        assert forall k :: k in items ==> k in Keys(entries);
        assert items == map[];
      }
    }

    /** The head of the lowest occupied list is the specified victim. */
    lemma {:induction false} LowestHead()
      requires Valid() && LaneOf(lanes, minFreq) != []
      ensures minFreq in buckets && buckets[minFreq].head != null
      ensures Victim(entries) == Some(buckets[minFreq].head.key)
    {
      assert buckets[minFreq].Linked(lanes[minFreq]);
      assert Names(KeyOf, LaneOf(lanes, minFreq)) == AtFreq(entries, minFreq);
      forall g | g < minFreq ensures AtFreq(entries, g) == [] {
        assert Names(KeyOf, LaneOf(lanes, g)) == AtFreq(entries, g);
      }
      LeastIsLowestHead(entries, minFreq);
    }

    method OnRemove(key: Key)
      requires Valid()
      modifies this, nodes, owned
      ensures Valid() && nodes == old(nodes) && fresh(owned - old(owned))
      ensures entries == Removed(old(entries), key)
    {
      hide Files, Removed, Distinct, Tidy, LaneOf;
      if key !in items {
        Untracked(key);
        return;
      }
      var n := items[key];
      ghost var i := Locate(key);
      RemoveNode(n, i);
    }

    method RemoveNode(n: Node, ghost i: nat)
      requires Valid() && n.key in items && items[n.key] == n
      requires i < |LaneOf(lanes, n.freq)| && LaneOf(lanes, n.freq)[i] == n && Distinct(LaneOf(lanes, n.freq))
      modifies `items, `buckets, `lanes, `entries, owned, nodes`older, nodes`newer
      ensures Valid() && entries == Removed(old(entries), n.key)
    {
      hide Files, Removed, Distinct, Tidy, LaneOf;
      Detach(n, i);
      items := items - {n.key};
    }
  }
}
