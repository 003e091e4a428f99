/** S3-FIFO: newcomers queue in small, survivors and returners in main, and the keys small
    gave up are remembered for a while as ghosts. */
module S3FifoPolicy {
  import opened Base
  import opened Index

  // ---- on values: each queue oldest first

  datatype Entry = Entry(key: Key, size: nat, freq: nat)

  datatype S3 = S3(
    small: seq<Entry>, main: seq<Entry>, ghosts: seq<Entry>,
    smallCap: int, mainCap: int, ghostCap: int, moveToMain: int,
    hitOnGhost: bool, hasEvicted: bool)

  const FREQ_CAP: nat := 3

  function Label(e: Entry): Key {
    e.key
  }

  function Keys(q: seq<Entry>): seq<Key> {
    Names(Label, q)
  }

  function Used(q: seq<Entry>): nat {
    if q == [] then 0 else Used(q[..|q| - 1]) + q[|q| - 1].size
  }

  function Pushed(q: seq<Entry>, k: Key, size: nat): seq<Entry> {
    if k in Keys(q) then q else q + [Entry(k, size, 0)]
  }

  function Taken(q: seq<Entry>, k: Key): seq<Entry> {
    var i := IndexOf(Keys(q), k);
    if i < |q| then Cut(q, i) else q
  }

  function Bumped(q: seq<Entry>, k: Key): seq<Entry> {
    var i := IndexOf(Keys(q), k);
    if i < |q| then q[i := q[i].(freq := q[i].freq + 1)] else q
  }

  function Hit(s: S3, k: Key): S3 {
    if k in Keys(s.small) then s.(small := Bumped(s.small, k)) else s.(main := Bumped(s.main, k))
  }

  /** Accepts or refuses `k`, and either way forgets its ghost. */
  function Decided(s: S3, k: Key, size: nat): (S3, bool) {
    var hit := s.ghostCap > 0 && k in Keys(s.ghosts);
    (s.(hitOnGhost := hit, ghosts := if hit then Taken(s.ghosts, k) else s.ghosts),
     if size > s.smallCap then false else hit || size < s.smallCap)
  }

  function Admitted(s: S3, k: Key, size: nat): S3 {
    if s.hitOnGhost then s.(hitOnGhost := false, main := Pushed(s.main, k, size))
    else if !s.hasEvicted && Used(s.small) >= s.smallCap then s.(main := Pushed(s.main, k, size))
    else s.(small := Pushed(s.small, k, size))
  }

  function Removed(s: S3, k: Key): S3 {
    if k in Keys(s.small) then s.(small := Taken(s.small, k)) else s.(main := Taken(s.main, k))
  }

  // ---- the ghost queue

  /** Drops the oldest ghosts until `size` more bytes fit. */
  function Shed(q: seq<Entry>, cap: int, size: nat): seq<Entry> {
    if Used(q) + size > cap && q != [] then Shed(q[1..], cap, size) else q
  }

  lemma {:induction false} ShedStep(q: seq<Entry>, cap: int, size: nat)
    ensures Used(q) + size > cap && q != [] ==> Shed(q, cap, size) == Shed(q[1..], cap, size)
    ensures Used(q) + size <= cap || q == [] ==> Shed(q, cap, size) == q
  {
  }

  function Remembered(q: seq<Entry>, cap: int, k: Key, size: nat): seq<Entry> {
    if cap <= 0 || size > cap || k in Keys(q) then q else Pushed(Shed(q, cap, size), k, size)
  }

  // ---- the clock over main

  function Freqs(q: seq<Entry>): nat {
    if q == [] then 0 else Freqs(q[..|q| - 1]) + q[|q| - 1].freq
  }

  function Min(a: nat, b: nat): nat {
    if a <= b then a else b
  }

  lemma {:induction false} FreqsConcat(q: seq<Entry>, r: seq<Entry>)
    ensures Freqs(q + r) == Freqs(q) + Freqs(r)
  {
    if r == [] {
      assert q + r == q;
    } else {
      assert (q + r)[..|q + r| - 1] == q + r[..|r| - 1];
      FreqsConcat(q, r[..|r| - 1]);
    }
  }

  lemma {:induction false} FreqsHead(q: seq<Entry>)
    requires q != []
    ensures Freqs(q) == q[0].freq + Freqs(q[1..])
  {
    assert q == q[..1] + q[1..];
    FreqsConcat(q[..1], q[1..]);
  }

  /** An entry with its counter as the clock leaves it after one pass. */
  function Passed(e: Entry): Entry {
    e.(freq := if e.freq == 0 then 0 else Min(e.freq, FREQ_CAP) - 1)
  }

  /** The queue after its head has been reinserted at the tail. */
  function Turned(q: seq<Entry>): seq<Entry>
    requires q != []
  {
    q[1..] + [Passed(q[0])]
  }

  lemma {:induction false} TurnedLess(q: seq<Entry>)
    requires q != [] && q[0].freq >= 1
    ensures Freqs(Turned(q)) < Freqs(q)
  {
    FreqsHead(q);
    FreqsConcat(q[1..], [Passed(q[0])]);
    assert Freqs([Passed(q[0])]) == Passed(q[0]).freq by {
      assert [Passed(q[0])][..0] == [];
    }
  }

  /** The clock: what it leaves, and its victim. */
  function Clock(q: seq<Entry>): (seq<Entry>, Option<Key>)
    decreases Freqs(q)
  {
    if q == [] then (q, None)
    else if q[0].freq >= 1 then TurnedLess(q); Clock(Turned(q))
    else (q[1..], Some(q[0].key))
  }

  lemma {:induction false} ClockStep(q: seq<Entry>)
    ensures q == [] ==> Clock(q) == (q, None)
    ensures q != [] && q[0].freq >= 1 ==> Clock(q) == Clock(Turned(q)) && Freqs(Turned(q)) < Freqs(q)
    ensures q != [] && q[0].freq == 0 ==> Clock(q) == (q[1..], Some(q[0].key))
  {
    if q != [] && q[0].freq >= 1 {
      TurnedLess(q);
    }
  }

  /** How many reinsertions the clock makes. */
  function Turns(q: seq<Entry>): nat
    decreases Freqs(q)
  {
    if q == [] || q[0].freq == 0 then 0 else TurnedLess(q); 1 + Turns(Turned(q))
  }

  // ---- eviction

  function EvictMain(s: S3): (S3, Option<Key>) {
    var (q, victim) := Clock(s.main);
    (s.(main := q), victim)
  }

  function EvictSmall(s: S3): (S3, Option<Key>)
    decreases |s.small|
  {
    if s.small == [] then EvictMain(s)
    else
      var n := s.small[0];
      var rest := s.(small := s.small[1..]);
      if n.freq >= s.moveToMain then
        EvictSmall(rest.(main := Pushed(s.main, n.key, n.size)))
      else
        (rest.(ghosts := Remembered(s.ghosts, s.ghostCap, n.key, n.size)), Some(n.key))
  }

  lemma {:induction false} EvictSmallStep(s: S3)
    ensures s.small == [] ==> EvictSmall(s) == EvictMain(s)
    ensures s.small != [] ==>
      var n := s.small[0]; var rest := s.(small := s.small[1..]);
      EvictSmall(s) ==
        if n.freq >= s.moveToMain then EvictSmall(rest.(main := Pushed(s.main, n.key, n.size)))
        else (rest.(ghosts := Remembered(s.ghosts, s.ghostCap, n.key, n.size)), Some(n.key))
  {
  }

  function Evicted(s: S3): (S3, Option<Key>) {
    var t := s.(hasEvicted := true);
    if Used(s.main) > s.mainCap || Used(s.small) == 0 then EvictMain(t) else EvictSmall(t)
  }

  // ---- the clock in closed form

  /** An entry's counter after `passes` passes of the clock. */
  function Aged(e: Entry, passes: nat): Entry {
    e.(freq := if passes == 0 then e.freq
               else if Min(e.freq, 3) <= passes then 0 else Min(e.freq, 3) - passes)
  }

  function AgedAll(q: seq<Entry>, passes: nat): (r: seq<Entry>)
    ensures |r| == |q| && forall i :: 0 <= i < |q| ==> r[i] == Aged(q[i], passes)
  {
    seq(|q|, i requires 0 <= i < |q| => Aged(q[i], passes))
  }

  /** `v` is the earliest entry whose capped counter is least. */
  ghost predicate EarliestLeast(q: seq<Entry>, v: nat) {
    && v < |q|
    && (forall i :: 0 <= i < |q| ==> Min(q[v].freq, 3) <= Min(q[i].freq, 3))
    && (forall i :: 0 <= i < v ==> Min(q[v].freq, 3) < Min(q[i].freq, 3))
  }

  lemma {:induction false} TurnsStep(q: seq<Entry>)
    ensures q != [] && q[0].freq >= 1 ==> Turns(q) == 1 + Turns(Turned(q))
  {
  }

  lemma {:induction false} TurnMoves(a: seq<Entry>, b: seq<Entry>)
    requires a != []
    ensures Turned(a + b) == a[1..] + (b + [Passed(a[0])])
    ensures b + [Passed(a[0])] + AgedAll(a[1..], 1) == b + AgedAll(a, 1)
  {
    AgedHead(a);
    hide Passed, AgedAll;
    assert (a + b)[1..] == a[1..] + b && (a + b)[0] == a[0];
    Associates(a[1..], b, [Passed(a[0])]);
    Associates(b, [Passed(a[0])], AgedAll(a[1..], 1));
  }

  lemma {:induction false} AgedHead(a: seq<Entry>)
    requires a != []
    ensures AgedAll(a, 1) == [Passed(a[0])] + AgedAll(a[1..], 1)
  {
  }

  lemma {:induction false} Associates<T>(x: seq<T>, y: seq<T>, z: seq<T>)
    ensures x + y + z == x + (y + z)
  {
  }

  /** Entries with live counters at the front go round one after another. */
  lemma {:induction false} ClockTurns(a: seq<Entry>, b: seq<Entry>)
    requires forall i :: 0 <= i < |a| ==> a[i].freq >= 1
    ensures Clock(a + b) == Clock(b + AgedAll(a, 1)) && Turns(a + b) == |a| + Turns(b + AgedAll(a, 1))
    decreases |a|
  {
    if a == [] {
      assert a + b == b == b + AgedAll(a, 1);
    } else {
      assert (a + b)[0] == a[0];
      ClockStep(a + b);
      TurnsStep(a + b);
      hide Clock, Turns, AgedAll, Passed;
      TurnMoves(a, b);
      ClockTurns(a[1..], b + [Passed(a[0])]);
    }
  }

  lemma {:induction false} ClockStops(q: seq<Entry>, v: nat)
    requires v < |q| && q[v].freq == 0 && forall i :: 0 <= i < v ==> q[i].freq >= 1
    ensures Clock(q) == (q[v + 1..] + AgedAll(q[..v], 1), Some(q[v].key)) && Turns(q) == v
  {
    assert q == q[..v] + q[v..];
    ClockTurns(q[..v], q[v..]);
    var r := q[v..] + AgedAll(q[..v], 1);
    assert r[0] == q[v] && r[1..] == q[v + 1..] + AgedAll(q[..v], 1);
  }

  /** When every counter is live the clock goes a whole lap. */
  lemma {:induction false} ClockLaps(q: seq<Entry>)
    requires forall i :: 0 <= i < |q| ==> q[i].freq >= 1
    ensures Clock(q) == Clock(AgedAll(q, 1)) && Turns(q) == |q| + Turns(AgedAll(q, 1))
  {
    assert q + [] == q && [] + AgedAll(q, 1) == AgedAll(q, 1);
    ClockTurns(q, []);
  }

  lemma {:induction false} AgedTwice(q: seq<Entry>, passes: nat)
    ensures AgedAll(AgedAll(q, 1), passes) == AgedAll(q, passes + 1)
  {
  }

  lemma {:induction false} AgedSlices(q: seq<Entry>, v: nat, passes: nat)
    requires v < |q|
    ensures AgedAll(q, passes)[v + 1..] == AgedAll(q[v + 1..], passes)
    ensures AgedAll(q, passes)[..v] == AgedAll(q[..v], passes)
  {
  }

  /** The victim is the FIFO-earliest entry minimising its counter capped at three.
      What remains is the rotation after it: entries behind the victim have been
      passed that many times, those ahead of it once more. */
  lemma {:induction false} ClockClosedForm(q: seq<Entry>, v: nat)
    requires EarliestLeast(q, v)
    ensures var m := Min(q[v].freq, 3);
            && Clock(q) == (AgedAll(q[v + 1..], m) + AgedAll(q[..v], m + 1), Some(q[v].key))
            && Turns(q) == m * |q| + v
            && Turns(q) <= 3 * |q|
    decreases Min(q[v].freq, 3)
  {
    hide Clock, Turns;
    var m := Min(q[v].freq, 3);
    if m == 0 {
      ClockStops(q, v);
      assert AgedAll(q[v + 1..], 0) == q[v + 1..];
    } else {
      ClockLaps(q);
      ClockClosedForm(AgedAll(q, 1), v);
      AgedSlices(q, v, 1);
      AgedTwice(q[v + 1..], m - 1);
      AgedTwice(q[..v], m);
      assert v > 0 ==> Min(q[0].freq, 3) > m;
    }
  }

  /** Some entry is the earliest least, so the clock always finds a victim. */
  lemma {:induction false} EarliestLeastExists(q: seq<Entry>) returns (v: nat)
    requires q != []
    ensures EarliestLeast(q, v)
  {
    var last := |q| - 1;
    if last == 0 {
      v := 0;
    } else {
      v := EarliestLeastExists(q[..last]);
      if Min(q[last].freq, 3) < Min(q[v].freq, 3) {
        v := last;
      }
    }
  }

  // ---- agreement with the cache's contents

  ghost predicate Sized(q: seq<Entry>, d: map<Key, nat>) {
    && Distinct(Keys(q))
    && forall i :: 0 <= i < |q| ==> q[i].key in d && d[q[i].key] == q[i].size
  }

  /** Small and main are disjoint and hold exactly the residents, at their sizes. */
  ghost predicate Splits(small: seq<Entry>, main: seq<Entry>, d: map<Key, nat>) {
    && Sized(small, d) && Sized(main, d)
    && d.Keys == Elements(Keys(small)) + Elements(Keys(main))
    && Elements(Keys(small)) !! Elements(Keys(main))
  }

  /** The ghost holds no resident and stays within its capacity. */
  ghost predicate Haunts(ghosts: seq<Entry>, cap: int, d: map<Key, nat>) {
    && Distinct(Keys(ghosts))
    && Elements(Keys(ghosts)) !! d.Keys
    && (cap >= 0 ==> Used(ghosts) <= cap)
    && (cap <= 0 ==> ghosts == [])
  }

  ghost predicate Agrees(s: S3, d: map<Key, nat>) {
    Splits(s.small, s.main, d) && Haunts(s.ghosts, s.ghostCap, d)
  }

  lemma {:induction false} UsedConcat(q: seq<Entry>, r: seq<Entry>)
    ensures Used(q + r) == Used(q) + Used(r)
  {
    if r == [] {
      assert q + r == q;
    } else {
      assert (q + r)[..|q + r| - 1] == q + r[..|r| - 1];
      UsedConcat(q, r[..|r| - 1]);
    }
  }

  lemma {:induction false} SizedBytes(q: seq<Entry>, d: map<Key, nat>)
    requires Sized(q, d)
    ensures Bytes(d) == Used(q) + Bytes(d - Elements(Keys(q)))
  {
    if q == [] {
      assert d - Elements(Keys(q)) == d;
    } else {
      var last := |q| - 1;
      var init := q[..last];
      assert Keys(init) == Keys(q)[..last];
      SizedBytes(init, d);
      var rest := d - Elements(Keys(init));
      assert q[last].key in rest;
      BytesRemove(rest, q[last].key);
      assert Keys(q) == Keys(init) + [q[last].key];
      assert rest - {q[last].key} == d - Elements(Keys(q));
    }
  }

  /** The two queues' byte counts add up to the cache's. */
  lemma {:induction false} SplitsBytes(small: seq<Entry>, main: seq<Entry>, d: map<Key, nat>)
    requires Splits(small, main, d)
    ensures Used(small) + Used(main) == Bytes(d)
  {
    SizedBytes(small, d);
    var rest := d - Elements(Keys(small));
    assert rest.Keys == Elements(Keys(main));
    assert Sized(main, rest);
    SizedBytes(main, rest);
    assert rest - Elements(Keys(main)) == map[];
  }

  lemma {:induction false} SizedCut(q: seq<Entry>, i: nat, d: map<Key, nat>)
    requires Sized(q, d) && i < |q|
    ensures Sized(Cut(q, i), d) && Keys(Cut(q, i)) == Without(Keys(q), q[i].key)
    ensures Elements(Keys(Cut(q, i))) == Elements(Keys(q)) - {q[i].key}
    ensures Taken(q, q[i].key) == Cut(q, i)
  {
    NameAt(Label, q, i);
    assert Keys(Cut(q, i)) == Cut(Keys(q), i);
    WithoutElements(Keys(q), q[i].key);
  }

  lemma {:induction false} SizedAppend(q: seq<Entry>, e: Entry, d: map<Key, nat>)
    requires Sized(q, d) && e.key !in Keys(q) && e.key in d && d[e.key] == e.size
    ensures Sized(q + [e], d) && Keys(q + [e]) == Keys(q) + [e.key]
    ensures Elements(Keys(q + [e])) == Elements(Keys(q)) + {e.key}
  {
    assert Keys(q + [e]) == Keys(q) + [e.key];
    ElementsConcat(Keys(q), [e.key]);
  }

  lemma {:induction false} SizedNarrow(q: seq<Entry>, d: map<Key, nat>, k: Key)
    requires Sized(q, d) && k !in Elements(Keys(q))
    ensures Sized(q, d - {k})
  {
    forall i | 0 <= i < |q| ensures q[i].key != k {
      assert Keys(q)[i] == q[i].key;
    }
  }

  lemma {:induction false} HeadIsCut(q: seq<Entry>)
    requires q != []
    ensures q[1..] == Cut(q, 0)
  {
  }

  lemma {:induction false} ClockKeeps(q: seq<Entry>, d: map<Key, nat>)
    requires Sized(q, d) && q != []
    ensures var (r, victim) := Clock(q);
            && victim.Some? && victim.value in Elements(Keys(q))
            && Sized(r, d) && Elements(Keys(r)) == Elements(Keys(q)) - {victim.value}
    ensures Freqs(Clock(q).0) + Turns(q) <= Freqs(q)
    decreases Freqs(q)
  {
    hide Sized, Keys, Elements;
    HeadIsCut(q);
    SizedCut(q, 0, d);
    HeadKey(q, d);
    if q[0].freq >= 1 {
      TurnedLess(q);
      SizedAppend(q[1..], Passed(q[0]), d);
      ClockKeeps(Turned(q), d);
    } else {
      FreqsHead(q);
    }
  }

  lemma {:induction false} HeadKey(q: seq<Entry>, d: map<Key, nat>)
    requires Sized(q, d) && q != []
    ensures q[0].key in Elements(Keys(q)) && q[0].key in d && d[q[0].key] == q[0].size
    ensures q[0].key !in Keys(q[1..])
  {
    assert Keys(q)[0] == q[0].key;
    assert Keys(q[1..]) == Keys(q)[1..];
  }

  // ---- what every call keeps

  lemma {:induction false} BumpedKeeps(q: seq<Entry>, k: Key, d: map<Key, nat>)
    requires Sized(q, d)
    ensures Sized(Bumped(q, k), d) && Keys(Bumped(q, k)) == Keys(q)
    ensures Freqs(Bumped(q, k)) == Freqs(q) + if k in Keys(q) then 1 else 0
  {
    var i := IndexOf(Keys(q), k);
    if i < |q| {
      assert Keys(Bumped(q, k)) == Keys(q);
      hide Freqs;
      FreqsSet(q, i, q[i].(freq := q[i].freq + 1));
    }
  }

  lemma {:induction false} FreqsSet(q: seq<Entry>, i: nat, e: Entry)
    requires i < |q|
    ensures Freqs(q[i := e]) == Freqs(q) - q[i].freq + e.freq
  {
    hide Freqs;
    var r := q[i := e];
    FreqsAt(q, i);
    FreqsAt(r, i);
    assert r[..i] == q[..i] && r[i + 1..] == q[i + 1..];
  }

  lemma {:induction false} BumpedAbsent(q: seq<Entry>, k: Key)
    ensures k !in Keys(q) ==> Bumped(q, k) == q
  {
  }

  lemma {:induction false} TakenAbsent(q: seq<Entry>, k: Key)
    ensures k !in Keys(q) ==> Taken(q, k) == q
  {
  }

  lemma {:induction false} HitKeeps(s: S3, k: Key, d: map<Key, nat>)
    requires Agrees(s, d) && k in d
    ensures Agrees(Hit(s, k), d)
    ensures Waiting(Hit(s, k)) == Waiting(s) + 1
  {
    hide Sized;
    BumpedKeeps(s.small, k, d);
    BumpedKeeps(s.main, k, d);
  }

  lemma {:induction false} FreqsAt(q: seq<Entry>, i: nat)
    requires i < |q|
    ensures Freqs(q) == Freqs(q[..i]) + q[i].freq + Freqs(q[i + 1..])
  {
    assert q == q[..i] + q[i..];
    FreqsConcat(q[..i], q[i..]);
    FreqsHead(q[i..]);
    assert q[i..][1..] == q[i + 1..];
  }

  lemma {:induction false} FreqsCut(q: seq<Entry>, i: nat)
    requires i < |q|
    ensures Freqs(Cut(q, i)) + q[i].freq == Freqs(q)
  {
    FreqsAt(q, i);
    FreqsConcat(q[..i], q[i + 1..]);
  }

  lemma {:induction false} TakenKeeps(q: seq<Entry>, k: Key, d: map<Key, nat>)
    requires Sized(q, d)
    ensures Sized(Taken(q, k), d - {k}) && Elements(Keys(Taken(q, k))) == Elements(Keys(q)) - {k}
    ensures Freqs(Taken(q, k)) <= Freqs(q)
  {
    var i := IndexOf(Keys(q), k);
    if i < |q| {
      assert q[i].key == k by {
        assert Keys(q)[i] == k;
      }
      hide Sized, Taken, Cut, Elements, Without, Keys;
      SizedCut(q, i, d);
      SizedNarrow(Cut(q, i), d, k);
      FreqsCut(q, i);
    } else {
      SizedNarrow(q, d, k);
    }
  }

  lemma {:induction false} RemovedKeeps(s: S3, k: Key, d: map<Key, nat>)
    requires Agrees(s, d)
    ensures Agrees(Removed(s, k), d - {k}) && Waiting(Removed(s, k)) <= Waiting(s)
  {
    hide Sized, Taken;
    assert k in Keys(s.small) <==> k in Elements(Keys(s.small));
    if k in Keys(s.small) {
      TakenKeeps(s.small, k, d);
      SizedNarrow(s.main, d, k);
    } else {
      TakenKeeps(s.main, k, d);
      SizedNarrow(s.small, d, k);
    }
  }

  lemma {:induction false} RemovedCaps(s: S3, k: Key)
    ensures Removed(s, k).mainCap == s.mainCap
  {
  }

  lemma {:induction false} UsedHead(q: seq<Entry>)
    requires q != []
    ensures Used(q) == q[0].size + Used(q[1..])
  {
    assert q == q[..1] + q[1..];
    UsedConcat(q[..1], q[1..]);
    assert q[..1][..0] == [];
  }

  lemma {:induction false} UsedCut(q: seq<Entry>, i: nat)
    requires i < |q|
    ensures Used(Cut(q, i)) + q[i].size == Used(q)
  {
    hide Used;
    assert q == q[..i] + q[i..];
    UsedConcat(q[..i], q[i..]);
    UsedHead(q[i..]);
    assert q[i..][1..] == q[i + 1..];
    UsedConcat(q[..i], q[i + 1..]);
  }

  lemma {:induction false} GhostTaken(q: seq<Entry>, k: Key)
    requires Distinct(Keys(q))
    ensures Distinct(Keys(Taken(q, k))) && Used(Taken(q, k)) <= Used(q)
    ensures Elements(Keys(Taken(q, k))) == Elements(Keys(q)) - {k}
  {
    WithoutElements(Keys(q), k);
    var i := IndexOf(Keys(q), k);
    if i < |q| {
      assert Keys(Cut(q, i)) == Cut(Keys(q), i);
      hide Keys, Cut, Distinct, Elements, Without;
      UsedCut(q, i);
    }
  }

  /** After the decision the key is no ghost, so admitting it makes no duplicate. */
  lemma {:induction false} DecidedKeeps(s: S3, k: Key, size: nat, d: map<Key, nat>)
    requires Agrees(s, d) && k !in d
    ensures var (r, ok) := Decided(s, k, size);
            && Agrees(r, d) && k !in Elements(Keys(r.ghosts)) && Waiting(r) == Waiting(s)
            && (ok ==> size <= s.smallCap)
  {
    if s.ghostCap > 0 && k in Keys(s.ghosts) {
      GhostTaken(s.ghosts, k);
    }
  }

  lemma {:induction false} SizedWiden(q: seq<Entry>, d: map<Key, nat>, k: Key, size: nat)
    requires Sized(q, d) && k !in d
    ensures Sized(q, d[k := size]) && k !in Keys(q) && k !in Elements(Keys(q))
  {
    assert forall i :: 0 <= i < |q| ==> Keys(q)[i] == q[i].key;
  }

  lemma {:induction false} PushedSplits(q: seq<Entry>, other: seq<Entry>, d: map<Key, nat>, k: Key, size: nat)
    requires Splits(q, other, d) && k !in d
    ensures Splits(Pushed(q, k, size), other, d[k := size])
  {
    hide Sized, Elements, Keys;
    SizedWiden(q, d, k, size);
    SizedWiden(other, d, k, size);
    SizedAppend(q, Entry(k, size, 0), d[k := size]);
    assert d[k := size].Keys == d.Keys + {k};
  }

  lemma {:induction false} SplitsSwap(q: seq<Entry>, r: seq<Entry>, d: map<Key, nat>)
    ensures Splits(q, r, d) <==> Splits(r, q, d)
  {
    hide Sized, Elements, Keys;
    assert Elements(Keys(q)) + Elements(Keys(r)) == Elements(Keys(r)) + Elements(Keys(q));
  }

  lemma {:induction false} AdmittedKeeps(s: S3, k: Key, size: nat, d: map<Key, nat>)
    requires Agrees(s, d) && k !in d && k !in Elements(Keys(s.ghosts))
    ensures Agrees(Admitted(s, k, size), d[k := size]) && Waiting(Admitted(s, k, size)) == Waiting(s)
  {
    hide Splits, Elements, Keys, Pushed;
    assert d[k := size].Keys == d.Keys + {k};
    PushedSplits(s.small, s.main, d, k, size);
    SplitsSwap(s.small, s.main, d);
    PushedSplits(s.main, s.small, d, k, size);
    SplitsSwap(s.small, Pushed(s.main, k, size), d[k := size]);
    PushedFreqs(s.main, k, size);
    PushedFreqs(s.small, k, size);
  }

  lemma {:induction false} ShedKeeps(q: seq<Entry>, cap: int, size: nat)
    requires Distinct(Keys(q)) && size <= cap
    ensures var r := Shed(q, cap, size);
            && Distinct(Keys(r)) && Elements(Keys(r)) <= Elements(Keys(q)) && Used(r) + size <= cap
  {
    if Used(q) + size > cap && q != [] {
      assert Keys(q[1..]) == Keys(q)[1..];
      ShedKeeps(q[1..], cap, size);
    }
  }

  lemma {:induction false} RememberedKeeps(q: seq<Entry>, cap: int, k: Key, size: nat, d: map<Key, nat>)
    requires Haunts(q, cap, d) && k in d
    ensures var r := Remembered(q, cap, k, size);
            Haunts(r, cap, d - {k}) && Elements(Keys(r)) <= Elements(Keys(q)) + {k}
  {
    if !(cap <= 0 || size > cap || k in Keys(q)) {
      ShedKeeps(q, cap, size);
      var r := Shed(q, cap, size);
      var e := Entry(k, size, 0);
      assert k !in Elements(Keys(r));
      assert Keys(r + [e]) == Keys(r) + [k];
      ElementsConcat(Keys(r), [k]);
    }
  }

  /** `r` is `s` with one victim, a resident, out of its queues. */
  ghost predicate Victimised(s: S3, d: map<Key, nat>, r: S3, victim: Option<Key>) {
    && victim.Some? && victim.value in d
    && Agrees(r, d - {victim.value})
    && Elements(Keys(r.ghosts)) <= Elements(Keys(s.ghosts)) + {victim.value}
  }

  lemma {:induction false} EvictMainKeeps(s: S3, d: map<Key, nat>)
    requires Agrees(s, d) && s.main != []
    ensures Victimised(s, d, EvictMain(s).0, EvictMain(s).1)
    ensures Waiting(EvictMain(s).0) + Turns(s.main) <= Waiting(s)
  {
    hide Sized, Clock, Turns;
    ClockKeeps(s.main, d);
    var (r, victim) := Clock(s.main);
    var v := victim.value;
    SizedNarrow(s.small, d, v);
    SizedNarrow(r, d, v);
  }

  lemma {:induction false} NoKey(q: seq<Entry>, k: Key)
    requires k !in Elements(Keys(q))
    ensures k !in Keys(q)
  {
  }

  lemma {:induction false} PromotionSplits(small: seq<Entry>, main: seq<Entry>, d: map<Key, nat>)
    requires Splits(small, main, d) && small != []
    ensures Splits(small[1..], Pushed(main, small[0].key, small[0].size), d)
  {
    hide Sized, Elements, Keys, Cut, Without;
    var n := small[0];
    HeadIsCut(small);
    HeadKey(small, d);
    SizedCut(small, 0, d);
    NoKey(main, n.key);
    SizedAppend(main, Entry(n.key, n.size, 0), d);
  }

  lemma {:induction false} DemotionSplits(small: seq<Entry>, main: seq<Entry>, d: map<Key, nat>)
    requires Splits(small, main, d) && small != []
    ensures Splits(small[1..], main, d - {small[0].key}) && small[0].key in d
  {
    hide Sized, Elements, Keys, Cut, Without;
    var k := small[0].key;
    HeadIsCut(small);
    HeadKey(small, d);
    SizedCut(small, 0, d);
    SizedNarrow(small[1..], d, k);
    SizedNarrow(main, d, k);
  }

  lemma {:induction false} PushedFreqs(q: seq<Entry>, k: Key, size: nat)
    ensures Freqs(Pushed(q, k, size)) == Freqs(q)
  {
    var e := Entry(k, size, 0);
    assert [e][..0] == [];
    FreqsConcat(q, [e]);
  }

  /** Reinsertions, plus the threshold for every promotion, of one sweep of small. */
  function SmallCost(s: S3): int
    decreases |s.small|
  {
    if s.small == [] then Turns(s.main)
    else if s.small[0].freq >= s.moveToMain then
      s.moveToMain +
      SmallCost(s.(small := s.small[1..], main := Pushed(s.main, s.small[0].key, s.small[0].size)))
    else 0
  }

  lemma {:induction false} EvictSmallKeeps(s: S3, d: map<Key, nat>)
    requires Agrees(s, d) && (s.small != [] || s.main != [])
    ensures Victimised(s, d, EvictSmall(s).0, EvictSmall(s).1)
    ensures Waiting(EvictSmall(s).0) + SmallCost(s) <= Waiting(s)
    decreases |s.small|
  {
    hide Haunts, Splits, Turns, Clock;
    if s.small == [] {
      EvictMainKeeps(s, d);
    } else {
      var n := s.small[0];
      FreqsHead(s.small);
      if n.freq >= s.moveToMain {
        var t := s.(small := s.small[1..], main := Pushed(s.main, n.key, n.size));
        PromotionSplits(s.small, s.main, d);
        PushedFreqs(s.main, n.key, n.size);
        EvictSmallKeeps(t, d);
      } else {
        DemotionSplits(s.small, s.main, d);
        RememberedKeeps(s.ghosts, s.ghostCap, n.key, n.size, d);
      }
    }
  }

  /** The hits the live counters remember. */
  function Waiting(s: S3): nat {
    Freqs(s.small) + Freqs(s.main)
  }

  /** What one eviction costs: main-queue reinsertions, and promotions at the threshold each. */
  function Cost(s: S3): int {
    if Used(s.main) > s.mainCap || Used(s.small) == 0 then Turns(s.main) else SmallCost(s.(hasEvicted := true))
  }

  /** With any bytes resident an eviction names a resident, and the live counters pay for it. */
  lemma {:induction false} EvictedKeeps(s: S3, d: map<Key, nat>)
    requires Agrees(s, d) && Bytes(d) > 0 && s.mainCap >= 0
    ensures Victimised(s, d, Evicted(s).0, Evicted(s).1)
    ensures Waiting(Evicted(s).0) + Cost(s) <= Waiting(s)
  {
    SplitsBytes(s.small, s.main, d);
    hide Splits, Haunts, Turns, Clock, EvictSmall;
    var t := s.(hasEvicted := true);
    if Used(s.main) > s.mainCap || Used(s.small) == 0 {
      EvictMainKeeps(t, d);
    } else {
      EvictSmallKeeps(t, d);
    }
  }

  /** `r` keeps the capacities of `s` and its admission flag, and remembers an eviction. */
  ghost predicate EvictedFrom(s: S3, r: S3) {
    r.mainCap == s.mainCap && r.smallCap == s.smallCap && r.hitOnGhost == s.hitOnGhost && r.hasEvicted
  }

  lemma {:induction false} EvictSmallShape(s: S3)
    requires s.hasEvicted
    ensures EvictedFrom(s, EvictSmall(s).0)
    decreases |s.small|
  {
    if s.small != [] && s.small[0].freq >= s.moveToMain {
      EvictSmallShape(s.(small := s.small[1..], main := Pushed(s.main, s.small[0].key, s.small[0].size)));
    }
  }

  lemma {:induction false} EvictedShape(s: S3)
    ensures EvictedFrom(s, Evicted(s).0)
  {
    EvictSmallShape(s.(hasEvicted := true));
  }

  /** Nothing changes when the key removed is not resident, as that of a victim just named may be. */
  lemma {:induction false} RemovedAbsent(s: S3, k: Key, d: map<Key, nat>)
    requires Agrees(s, d) && k !in d
    ensures Removed(s, k) == s
  {
    assert k !in Elements(Keys(s.small)) && k !in Elements(Keys(s.main));
  }

  // ---- in place

  class Node {
    const key: Key
    const size: nat
    var freq: nat
    var older: Node?
    var newer: Node?

    constructor (key: Key, size: nat)
      ensures this.key == key && this.size == size && freq == 0
    {
      this.key, this.size, freq := key, size, 0;
    }
  }

  function KeyOf(n: Node): Key {
    n.key
  }

  function First(ns: seq<Node>): Node? {
    if ns == [] then null else ns[0]
  }

  function Final(ns: seq<Node>): Node? {
    if ns == [] then null else ns[|ns| - 1]
  }

  ghost predicate OlderLinked(ns: seq<Node>)
    reads ns`older
  {
    forall i {:trigger ns[i].older} :: 0 <= i < |ns| ==> ns[i].older == if i == 0 then null else ns[i - 1]
  }

  ghost predicate NewerLinked(ns: seq<Node>)
    reads ns`newer
  {
    forall i {:trigger ns[i].newer} :: 0 <= i < |ns| ==>
      ns[i].newer == if i + 1 == |ns| then null else ns[i + 1]
  }

  ghost predicate Shows(es: seq<Entry>, ns: seq<Node>)
    reads ns`freq
    ensures Shows(es, ns) ==> |es| == |ns|
  {
    |es| == |ns| && forall i :: 0 <= i < |ns| ==> es[i] == Entry(ns[i].key, ns[i].size, ns[i].freq)
  }

  lemma {:induction false} ShowsCut(es: seq<Entry>, ns: seq<Node>, i: nat)
    requires Shows(es, ns) && i < |ns|
    ensures Shows(Cut(es, i), Cut(ns, i))
  {
  }

  lemma {:induction false} ShowsSize(es: seq<Entry>, ns: seq<Node>, i: nat)
    requires Shows(es, ns) && i < |ns|
    ensures es[i].size == ns[i].size && es[i].key == ns[i].key && es[i].freq == ns[i].freq
  {
  }

  lemma {:induction false} ShowsKeys(es: seq<Entry>, ns: seq<Node>)
    requires Shows(es, ns)
    ensures Keys(es) == Names(KeyOf, ns)
  {
  }

  lemma {:induction false} UsedSetFreq(q: seq<Entry>, i: nat, f: nat)
    requires i < |q|
    ensures Used(q[i := q[i].(freq := f)]) == Used(q)
  {
    var last := |q| - 1;
    var r := q[i := q[i].(freq := f)];
    if i < last {
      UsedSetFreq(q[..last], i, f);
      assert r[..last] == q[..last][i := q[i].(freq := f)];
    } else {
      assert r[..last] == q[..last];
    }
  }

  /** One of the three queues: linked nodes, indexed by key, with their bytes added up. */
  class Queue {
    var items: map<Key, Node>
    var head: Node?
    var tail: Node?
    var used: int
    const capacity: int
    ghost var nodes: seq<Node>  // oldest first
    ghost var entries: seq<Entry>  // what the nodes hold
    ghost var repr: set<Node>

    ghost predicate Linked()
      reads `head, `tail, `nodes, nodes`older, nodes`newer
      ensures Linked() ==> Distinct(nodes) && (head == null <==> nodes == [])
      ensures Linked() && nodes != [] ==> head == nodes[0]
    {
      && Distinct(nodes) && head == First(nodes) && tail == Final(nodes)
      && OlderLinked(nodes) && NewerLinked(nodes)
    }

    ghost predicate Owned()
      reads `nodes, `repr
    {
      forall i :: 0 <= i < |nodes| ==> nodes[i] in repr
    }

    ghost predicate Valid()
      reads this, repr
      ensures Valid() ==> used == Used(entries) && (head == null <==> entries == [])
    {
      && Owned() && Linked() && Shows(entries, nodes)
      && Indexed(KeyOf, items, nodes)
      && used == Used(entries)
    }

    lemma {:induction false} Tracks()
      requires Valid()
      ensures forall k :: k in items <==> k in Keys(entries)
      ensures Distinct(Keys(entries))
    {
      IndexedNames(KeyOf, items, nodes);
      ShowsKeys(entries, nodes);
    }

    constructor (capacity: int)
      ensures Valid() && entries == [] && repr == {} && this.capacity == capacity
    {
      items, head, tail, used := map[], null, null, 0;
      this.capacity := capacity;
      nodes, entries, repr := [], [], {};
    }

    method LinkLast(n: Node)
      requires Linked() && n !in nodes
      modifies `head, `tail, `nodes, nodes`newer, n`older, n`newer
      ensures Linked() && nodes == old(nodes) + [n]
    {
      n.older, n.newer := tail, null;
      if tail != null {
        tail.newer := n;
      }
      tail := n;
      if head == null {
        head := n;
      }
      nodes := nodes + [n];
    }

    method Push(key: Key, size: nat) returns (n: Node)
      requires Valid()
      modifies this, repr
      ensures Valid() && fresh(repr - old(repr)) && old(repr) <= repr
      ensures entries == Pushed(old(entries), key, size)
      ensures key !in old(Keys(entries)) ==> |nodes| == |entries| && n == nodes[|entries| - 1] && n in repr
    {
      hide Indexed, Linked, Shows, Distinct, Used;
      Tracks();
      if key in items {
        n := items[key];
        return;
      }
      n := new Node(key, size);
      PushNode(n);
    }

    method PushNode(n: Node)
      requires Valid() && n.key !in items && n !in repr && n.freq == 0
      modifies this, nodes`newer, n`older, n`newer
      ensures Valid() && repr == old(repr) + {n}
      ensures nodes == old(nodes) + [n] && entries == old(entries) + [Entry(n.key, n.size, 0)]
    {
      hide Indexed, Linked, Distinct;
      IndexedAppend(KeyOf, items, nodes, n);
      items := items[n.key := n];
      used := used + n.size;
      LinkLast(n);
      repr := repr + {n};
      entries := entries + [Entry(n.key, n.size, 0)];
    }

    /** Takes `n` out of the links toward the newest. */
    method SkipNewer(n: Node, ghost i: nat)
      requires Distinct(nodes) && NewerLinked(nodes) && OlderLinked(nodes) && i < |nodes| && nodes[i] == n
      requires head == First(nodes)
      modifies `head, nodes`newer
      ensures NewerLinked(Cut(nodes, i)) && head == First(Cut(nodes, i))
      ensures n.newer == (if i + 1 < |nodes| then nodes[i + 1] else null)
    {
      if n.older != null {
        ApartFrom(nodes, i - 1);
        n.older.newer := n.newer;
      } else {
        head := n.newer;
      }
    }

    /** Takes `n` out of the links toward the oldest. */
    method SkipOlder(n: Node, ghost i: nat)
      requires Distinct(nodes) && OlderLinked(nodes) && i < |nodes| && nodes[i] == n
      requires n.newer == (if i + 1 < |nodes| then nodes[i + 1] else null)
      requires tail == Final(nodes) && NewerLinked(Cut(nodes, i))
      modifies `tail, nodes`older
      ensures OlderLinked(Cut(nodes, i)) && NewerLinked(Cut(nodes, i)) && tail == Final(Cut(nodes, i))
    {
      if n.newer != null {
        ApartFrom(nodes, i + 1);
        n.newer.older := n.older;
      } else {
        tail := n.older;
      }
    }

    method Relink(n: Node, ghost i: nat)
      requires Linked() && i < |nodes| && nodes[i] == n
      modifies `head, `tail, `nodes, nodes`older, nodes`newer
      ensures Linked() && nodes == Cut(old(nodes), i)
    {
      hide Distinct, Cut, First, Final, OlderLinked, NewerLinked;
      CutDistinct(nodes, i);
      CutWithin(nodes, i);
      SkipNewer(n, i);
      SkipOlder(n, i);
      nodes := Cut(nodes, i);
      n.older, n.newer := null, null;
    }

    method Drop(n: Node, ghost i: nat)
      requires Linked() && Owned() && Shows(entries, nodes) && i < |nodes| && nodes[i] == n
      modifies `head, `tail, `nodes, `entries, nodes`older, nodes`newer
      ensures Linked() && Owned() && Shows(entries, nodes)
      ensures nodes == Cut(old(nodes), i) && entries == Cut(old(entries), i)
    {
      hide Linked, Distinct, Shows;
      Relink(n, i);
      ShowsCut(entries, old(nodes), i);
      entries := Cut(entries, i);
    }

    method Unlink(n: Node, ghost i: nat)
      requires Valid() && i < |nodes| && nodes[i] == n
      modifies this, nodes`older, nodes`newer
      ensures Valid() && repr == old(repr) && n in repr
      ensures entries == Cut(old(entries), i)
    {
      hide Indexed, Linked, Distinct, Shows, Used, Cut;
      IndexedCut(KeyOf, items, nodes, i);
      ShowsSize(entries, nodes, i);
      UsedCut(entries, i);
      Drop(n, i);
      items := items - {n.key};
      used := used - n.size;
    }

    method Remove(key: Key) returns (ok: bool)
      requires Valid()
      modifies this, repr
      ensures Valid() && repr == old(repr)
      ensures entries == Taken(old(entries), key) && ok == (key in old(Keys(entries)))
    {
      hide Linked, Distinct, Cut;
      Tracks();
      ok := key in items;
      if ok {
        ghost var i := Locate(key);
        Unlink(items[key], i);
      }
    }

    lemma {:induction false} Locate(key: Key) returns (i: nat)
      requires Valid() && key in items
      ensures i < |nodes| && nodes[i] == items[key] && Taken(entries, key) == Cut(entries, i)
      ensures items[key] in repr && i < |entries|
      ensures entries[i] == Entry(key, items[key].size, items[key].freq)
    {
      Tracks();
      i := Find(KeyOf, items, nodes, key);
      NameAt(Label, entries, i);
    }

    method Bump(key: Key)
      requires Valid() && key in items
      modifies `entries, repr
      ensures Valid() && entries == Bumped(old(entries), key)
    {
      hide Indexed, Linked, Shows, Distinct, Used;
      ghost var i := Locate(key);
      Tracks();
      NameAt(Label, entries, i);
      var n := items[key];
      SetFreq(n, n.freq + 1, i);
    }

    lemma {:induction false} Front()
      requires Valid() && head != null
      ensures nodes != [] && nodes[0] == head && entries != [] && head in repr
      ensures entries[0] == Entry(head.key, head.size, head.freq)
      ensures head.key !in Keys(entries[1..]) && entries[1..] == Cut(entries, 0)
    {
      Tracks();
      assert Keys(entries)[0] == head.key && Keys(entries[1..]) == Keys(entries)[1..];
    }

    /** Pushes a key the queue does not hold, with a counter already running. */
    method PushWith(key: Key, size: nat, f: nat)
      requires Valid() && key !in Keys(entries)
      modifies this, repr
      ensures Valid() && fresh(repr - old(repr))
      ensures entries == old(entries) + [Entry(key, size, f)]
    {
      hide Valid;
      var m := Push(key, size);
      ghost var last := |entries| - 1;
      SetFreq(m, f, last);
    }

    /** Takes the oldest node out. */
    method PopFront() returns (n: Node)
      requires Valid() && head != null
      modifies this, repr`older, repr`newer
      ensures Valid() && repr == old(repr) && n.key !in Keys(entries)
      ensures old(entries) != [] && entries == old(entries)[1..]
      ensures old(entries)[0] == Entry(n.key, n.size, n.freq)
    {
      hide Linked, Shows, Indexed, Used, Cut;
      Front();
      n := head;
      Unlink(n, 0);
    }

    /** Links a turned node's entry behind the rest, its counter capped and one lower. */
    method Reinsert(n: Node, ghost q: seq<Entry>)
      requires Valid() && n.freq >= 1 && n.key !in Keys(entries)
      requires q != [] && q[0] == Entry(n.key, n.size, n.freq) && entries == q[1..]
      modifies this, repr
      ensures Valid() && fresh(repr - old(repr)) && entries == Turned(q)
    {
      hide Valid;
      var freq := n.freq;
      if freq > FREQ_CAP {
        freq := FREQ_CAP;
      }
      PushWith(n.key, n.size, freq - 1);
    }

    /** Turns the queue until a counter at zero comes to the front, and takes that node out. */
    method RunClock() returns (victim: Option<Key>)
      requires Valid()
      modifies this, repr
      ensures Valid() && fresh(repr - old(repr))
      ensures (entries, victim) == Clock(old(entries))
    {
      hide Valid, Clock, Freqs, Turned;
      while head != null
        invariant Valid() && fresh(repr - old(repr))
        invariant Clock(entries) == Clock(old(entries))
        decreases Freqs(entries)
      {
        ghost var q := entries;
        ClockStep(q);
        var n := PopFront();
        if n.freq >= 1 {
          Reinsert(n, q);
          continue;
        }
        return Some(n.key);
      }
      ClockStep(entries);
      return None;
    }

    /** Adds `key` within the capacity, giving up older entries for it, or leaves all as is. */
    method Remember(key: Key, size: nat)
      requires Valid()
      modifies this, repr
      ensures Valid() && fresh(repr - old(repr))
      ensures entries == Remembered(old(entries), capacity, key, size)
    {
      hide Valid, Used, Shed;
      Tracks();
      if capacity <= 0 || size > capacity || key in items {
        return;
      }
      while used + size > capacity && head != null
        invariant Valid() && repr == old(repr)
        invariant Shed(entries, capacity, size) == Shed(old(entries), capacity, size)
        decreases |entries|
      {
        ShedStep(entries, capacity, size);
        var n := PopFront();
      }
      ShedStep(entries, capacity, size);
      var m := Push(key, size);
    }

    method SetFreq(n: Node, f: nat, ghost i: nat)
      requires Valid() && i < |nodes| && nodes[i] == n
      modifies n`freq, `entries
      ensures Valid() && entries == old(entries)[i := old(entries)[i].(freq := f)]
    {
      hide Indexed, Linked, Used;
      UsedSetFreq(entries, i, f);
      n.freq := f;
      entries := entries[i := entries[i].(freq := f)];
    }
  }

  class S3FIFO {
    const small: Queue
    const main: Queue
    const ghosts: Queue
    const moveToMain: int
    var hitOnGhost: bool  // set by CanAdmit, consumed by the OnAdmit that follows
    var hasEvicted: bool

    ghost function Nodes(): set<Node>
      reads small`repr, main`repr, ghosts`repr
    {
      small.repr + main.repr + ghosts.repr
    }

    ghost predicate Apart()
      reads small`repr, main`repr, ghosts`repr
    {
      && small != main && small != ghosts && main != ghosts
      && small.repr !! main.repr !! ghosts.repr
    }

    ghost predicate Valid()
      reads this, small, main, ghosts, small.repr, main.repr, ghosts.repr
    {
      Apart() && small.Valid() && main.Valid() && ghosts.Valid()
    }

    ghost function Value(): S3
      reads this, small, main, ghosts
    {
      S3(small.entries, main.entries, ghosts.entries,
         small.capacity, main.capacity, ghosts.capacity, moveToMain, hitOnGhost, hasEvicted)
    }

    constructor (smallCap: int, mainCap: int, ghostCap: int, moveToMain: int)
      ensures Valid() && fresh({small, main, ghosts}) && Nodes() == {}
      ensures Value() == S3([], [], [], smallCap, mainCap, ghostCap, moveToMain, false, false)
    {
      small := new Queue(smallCap);
      main := new Queue(mainCap);
      ghosts := new Queue(ghostCap);
      this.moveToMain, hitOnGhost, hasEvicted := moveToMain, false, false;
    }

    method OnHit(key: Key)
      requires Valid()
      modifies small, main, Nodes()
      ensures Valid() && Nodes() == old(Nodes())
      ensures Value() == Hit(old(Value()), key)
    {
      hide Queue.Valid, Bumped;
      small.Tracks();
      main.Tracks();
      BumpedAbsent(main.entries, key);
      if key in small.items {
        small.Bump(key);
      } else if key in main.items {
        main.Bump(key);
      }
    }

    method CanAdmit(key: Key, size: nat) returns (ok: bool)
      requires Valid()
      modifies this, ghosts, Nodes()
      ensures Valid() && Nodes() == old(Nodes())
      ensures (Value(), ok) == Decided(old(Value()), key, size)
    {
      hide Queue.Valid;
      hitOnGhost := false;
      if ghosts.capacity > 0 {
        var found := ghosts.Remove(key);
        if found {
          hitOnGhost := true;
        }
      }
      if size > small.capacity {
        return false;
      }
      if hitOnGhost {
        return true;
      }
      return size < small.capacity;
    }

    method OnAdmit(key: Key, size: nat)
      requires Valid()
      modifies this, small, main, Nodes()
      ensures Valid() && fresh(Nodes() - old(Nodes()))
      ensures Value() == Admitted(old(Value()), key, size)
    {
      hide Queue.Valid;
      if hitOnGhost {
        hitOnGhost := false;
        var n := main.Push(key, size);
        return;
      }
      if !hasEvicted && small.used >= small.capacity {
        var n := main.Push(key, size);
        return;
      }
      var n := small.Push(key, size);
    }

    /** The specified clock, run on main. */
    method EvictFromMain() returns (victim: Option<Key>)
      requires Valid()
      modifies main, main.repr
      ensures Valid() && fresh(main.repr - old(main.repr))
      ensures (Value(), victim) == EvictMain(old(Value()))
    {
      hide Queue.Valid, Clock;
      victim := main.RunClock();
    }

    method PushMain(key: Key, size: nat)
      requires Valid()
      modifies main, Nodes()
      ensures Valid() && fresh(Nodes() - old(Nodes()))
      ensures Value() == old(Value()).(main := Pushed(old(main.entries), key, size))
    {
      hide Queue.Valid, Pushed;
      var n := main.Push(key, size);
    }

    method GhostAdd(key: Key, size: nat)
      requires Valid()
      modifies ghosts, Nodes()
      ensures Valid() && fresh(Nodes() - old(Nodes()))
      ensures Value() == old(Value()).(ghosts := Remembered(old(ghosts.entries), ghosts.capacity, key, size))
    {
      hide Queue.Valid, Remembered;
      ghosts.Remember(key, size);
    }

    /** Moves entries from small to main until one falls below the threshold and becomes a
        ghost, or small runs out and main is asked. */
    method EvictFromSmall() returns (victim: Option<Key>)
      requires Valid()
      modifies small, main, ghosts, Nodes()
      ensures Valid() && fresh(Nodes() - old(Nodes()))
      ensures (Value(), victim) == EvictSmall(old(Value()))
    {
      hide Queue.Valid, EvictMain, EvictSmall, Pushed, Remembered;
      while small.head != null
        invariant Valid() && fresh(Nodes() - old(Nodes()))
        invariant EvictSmall(Value()) == EvictSmall(old(Value()))
        decreases |small.entries|
      {
        EvictSmallStep(Value());
        var n := small.PopFront();
        if n.freq >= moveToMain {
          PushMain(n.key, n.size);
          continue;
        }
        GhostAdd(n.key, n.size);
        return Some(n.key);
      }
      EvictSmallStep(Value());
      victim := EvictFromMain();
    }

    method Evict() returns (victim: Option<Key>)
      requires Valid()
      modifies this, small, main, ghosts, Nodes()
      ensures Valid() && fresh(Nodes() - old(Nodes()))
      ensures (Value(), victim) == Evicted(old(Value()))
    {
      hide Queue.Valid, EvictMain, EvictSmall, Used;
      hasEvicted := true;
      if main.used > main.capacity || small.used == 0 {
        victim := EvictFromMain();
      } else {
        victim := EvictFromSmall();
      }
    }

    method OnRemove(key: Key)
      requires Valid()
      modifies small, main, Nodes()
      ensures Valid() && Nodes() == old(Nodes())
      ensures Value() == Removed(old(Value()), key)
    {
      hide Queue.Valid, Taken;
      var found := small.Remove(key);
      if found {
        return;
      }
      TakenAbsent(old(small.entries), key);
      found := main.Remove(key);
    }
  }
}
