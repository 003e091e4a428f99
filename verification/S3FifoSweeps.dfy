/** S3-FIFO's sweeps and decisions in closed form: what an eviction takes and leaves, when
    it finds nothing, and what an admission decision forgets. */
module S3FifoSweeps {
  import opened Base
  import opened S3FifoPolicy

  // ---- when nothing is named

  lemma {:induction false} ClockNames(q: seq<Entry>)
    ensures Clock(q).1.None? <==> q == []
  {
    if q != [] {
      var v := EarliestLeastExists(q);
      ClockClosedForm(q, v);
    }
  }

  lemma {:induction false} EvictSmallNames(s: S3)
    ensures EvictSmall(s).1.None? <==> s.small == [] && s.main == []
    decreases |s.small|
  {
    hide Clock;
    ClockNames(s.main);
    if s.small != [] && s.small[0].freq >= s.moveToMain {
      var n := s.small[0];
      var main := Pushed(s.main, n.key, n.size);
      assert main != [] by {
        assert s.main == [] ==> n.key !in Keys(s.main);
      }
      EvictSmallNames(s.(small := s.small[1..], main := main));
    }
  }

  /** An eviction names nothing exactly when the main queue is empty and the small one
      holds no bytes. Objects of no bytes may still be there. */
  lemma {:induction false} NothingIsNamed(s: S3)
    requires s.mainCap >= 0
    ensures Evicted(s).1.None? <==> s.main == [] && Used(s.small) == 0
  {
    hide Clock, EvictSmall;
    ClockNames(s.main);
    EvictSmallNames(s.(hasEvicted := true));
  }

  // ---- the sweep of the small queue

  /** No key stands twice in small, or in both queues. */
  ghost predicate Apart(s: S3) {
    Distinct(Keys(s.small)) && forall i :: 0 <= i < |s.small| ==> s.small[i].key !in Keys(s.main)
  }

  /** The entries of `q` with their counters at zero. */
  function Restarted(q: seq<Entry>): (r: seq<Entry>)
    ensures |r| == |q| && forall i :: 0 <= i < |r| ==> r[i] == q[i].(freq := 0)
  {
    seq(|q|, i requires 0 <= i < |q| => q[i].(freq := 0))
  }

  /** `s` after the first `n` entries of small have moved to main. */
  function Moved(s: S3, n: nat): S3
    requires n <= |s.small|
  {
    s.(small := s.small[n..], main := s.main + Restarted(s.small[..n]))
  }

  lemma {:induction false} MoveOne(s: S3)
    requires Apart(s) && s.small != []
    ensures Moved(s, 1) == s.(small := s.small[1..], main := Pushed(s.main, s.small[0].key, s.small[0].size))
    ensures Apart(Moved(s, 1))
  {
    var n := s.small[0];
    assert Restarted(s.small[..1]) == [Entry(n.key, n.size, 0)];
    var t := Moved(s, 1);
    assert Keys(t.small) == Keys(s.small)[1..];
    assert Keys(t.main) == Keys(s.main) + [n.key];
    forall i | 0 <= i < |t.small| ensures t.small[i].key !in Keys(t.main) {
      assert t.small[i] == s.small[i + 1] && Keys(s.small)[i + 1] != Keys(s.small)[0];
    }
  }

  lemma {:induction false} MoveMore(s: S3, n: nat)
    requires 0 < n <= |s.small|
    ensures Moved(Moved(s, 1), n - 1) == Moved(s, n)
  {
    var a, b := s.small[..1], s.small[1..][..n - 1];
    assert s.small[..n] == a + b;
    RestartedParts(a, b);
    Associates(s.main, Restarted(a), Restarted(b));
    assert s.small[1..][n - 1..] == s.small[n..];
  }

  lemma {:induction false} RestartedParts(a: seq<Entry>, b: seq<Entry>)
    ensures Restarted(a + b) == Restarted(a) + Restarted(b)
  {
  }

  /** A sweep goes through its promotions as if they had been made beforehand. */
  lemma {:induction false} SweepMoves(s: S3, n: nat)
    requires Apart(s) && n <= |s.small|
    requires forall i :: 0 <= i < n ==> s.small[i].freq >= s.moveToMain
    ensures EvictSmall(s) == EvictSmall(Moved(s, n))
    decreases n
  {
    hide EvictSmall, Apart;
    if n == 0 {
      assert s.main + Restarted(s.small[..0]) == s.main;
      assert Moved(s, 0) == s;
    } else {
      EvictSmallStep(s);
      MoveOne(s);
      MoveMore(s, n);
      SweepMoves(Moved(s, 1), n - 1);
    }
  }

  /** `v` is the first entry of small below the promotion threshold. */
  ghost predicate FirstBelow(s: S3, v: nat) {
    && v < |s.small| && s.small[v].freq < s.moveToMain
    && forall i :: 0 <= i < v ==> s.small[i].freq >= s.moveToMain
  }

  /** The first entry below the threshold is the victim and becomes a ghost; those ahead of
      it go behind main, in order, with their counters at zero; those behind it stay. */
  lemma {:induction false} SmallClosedForm(s: S3, v: nat)
    requires Apart(s) && FirstBelow(s, v)
    ensures var n := s.small[v];
            EvictSmall(s) == (s.(small := s.small[v + 1..], main := s.main + Restarted(s.small[..v]),
                                 ghosts := Remembered(s.ghosts, s.ghostCap, n.key, n.size)),
                              Some(n.key))
  {
    hide EvictSmall, Remembered, Apart;
    SweepMoves(s, v);
    EvictSmallStep(Moved(s, v));
    assert s.small[v..][0] == s.small[v] && s.small[v..][1..] == s.small[v + 1..];
  }

  /** With every entry at the threshold the whole small queue goes behind main, and the
      clock over both finds the victim. */
  lemma {:induction false} SmallOverflows(s: S3)
    requires Apart(s) && forall i :: 0 <= i < |s.small| ==> s.small[i].freq >= s.moveToMain
    ensures EvictSmall(s) == EvictMain(s.(small := [], main := s.main + Restarted(s.small)))
  {
    hide EvictSmall, EvictMain, Apart;
    SweepMoves(s, |s.small|);
    EvictSmallStep(Moved(s, |s.small|));
    assert s.small[..|s.small|] == s.small && s.small[|s.small|..] == [];
  }

  lemma {:induction false} AgreeingIsApart(s: S3, d: map<Key, nat>)
    requires Agrees(s, d)
    ensures Apart(s)
  {
    forall i | 0 <= i < |s.small| ensures s.small[i].key !in Keys(s.main) {
      assert Keys(s.small)[i] == s.small[i].key;
      assert s.small[i].key in Elements(Keys(s.small));
    }
  }

  lemma {:induction false} PushedHas(q: seq<Entry>, k: Key, size: nat)
    ensures k in Keys(Pushed(q, k, size))
    ensures forall j :: j in Keys(Pushed(q, k, size)) <==> j in Keys(q) || j == k
  {
    assert Keys(q + [Entry(k, size, 0)]) == Keys(q) + [k];
  }

  /** Whatever a sweep promotes on the way, its victim from small is a ghost afterwards, if
      the ghosts' capacity can hold it at all. */
  lemma {:induction false} DemotedIsRemembered(s: S3, v: nat)
    requires Apart(s) && FirstBelow(s, v)
    ensures var (r, victim) := EvictSmall(s); var n := s.small[v];
            victim == Some(n.key) && (0 < s.ghostCap && n.size <= s.ghostCap ==> n.key in Keys(r.ghosts))
  {
    hide EvictSmall, Apart;
    SmallClosedForm(s, v);
    var n := s.small[v];
    PushedHas(Shed(s.ghosts, s.ghostCap, n.size), n.key, n.size);
  }

  // ---- what a decision forgets

  /** A ghost the decision would find. */
  predicate Returning(s: S3, k: Key) {
    s.ghostCap > 0 && k in Keys(s.ghosts)
  }

  lemma {:induction false} TakenIsShorter(q: seq<Entry>, k: Key)
    requires k in Keys(q)
    ensures |Taken(q, k)| < |q|
  {
  }

  /** The decision is a pure predicate on what the policy remembers exactly when the key is
      no ghost, and on the whole policy when no flag is left set either. */
  lemma {:induction false} DecisionIsPure(s: S3, k: Key, size: nat)
    ensures Decided(s, k, size).0.ghosts == s.ghosts <==> !Returning(s, k)
    ensures Decided(s, k, size).0 == s <==> !Returning(s, k) && !s.hitOnGhost
  {
    if Returning(s, k) {
      TakenIsShorter(s.ghosts, k);
    }
  }

  /** A refusal costs a ghost exactly when the key is one and is now too large for small. */
  lemma {:induction false} RefusalForgets(s: S3, k: Key, size: nat)
    ensures var (r, ok) := Decided(s, k, size);
            (!ok && r.ghosts != s.ghosts) <==> (Returning(s, k) && size > s.smallCap)
  {
    DecisionIsPure(s, k, size);
  }

  // ---- what each call does to the queues, entry by entry

  /** `r` is `q` with the counter of `k`, if it is there, one higher. */
  ghost predicate Raised(q: seq<Entry>, r: seq<Entry>, k: Key) {
    && |r| == |q|
    && forall j :: 0 <= j < |q| ==> r[j] == Entry(q[j].key, q[j].size, q[j].freq + if q[j].key == k then 1 else 0)
  }

  /** `r` is `q` without `k`, if it is there, the rest in order and as they were. */
  ghost predicate Dropped(q: seq<Entry>, r: seq<Entry>, k: Key) {
    || (r == q && forall j :: 0 <= j < |q| ==> q[j].key != k)
    || (exists i :: 0 <= i < |q| && q[i].key == k && r == q[..i] + q[i + 1..])
  }

  lemma {:induction false} KeyAt(q: seq<Entry>, k: Key)
    ensures k in Keys(q) <==> exists j :: 0 <= j < |q| && q[j].key == k
  {
    forall j | 0 <= j < |q| ensures Keys(q)[j] == q[j].key {
    }
  }

  lemma {:induction false} BumpRaises(q: seq<Entry>, k: Key)
    requires Distinct(Keys(q))
    ensures Raised(q, Bumped(q, k), k)
  {
    var i := IndexOf(Keys(q), k);
    forall j | 0 <= j < |q| && j != i ensures q[j].key != k {
      assert Keys(q)[j] == q[j].key;
      assert i < |q| ==> Keys(q)[i] == k;
    }
  }

  lemma {:induction false} TakingDrops(q: seq<Entry>, k: Key)
    ensures Dropped(q, Taken(q, k), k)
  {
    var i := IndexOf(Keys(q), k);
    if i < |q| {
      assert Keys(q)[i] == q[i].key;
    } else {
      KeyAt(q, k);
    }
  }

  /** A hit raises the counter of the key's own entry and does nothing else. */
  lemma {:induction false} HitRaises(s: S3, k: Key, d: map<Key, nat>)
    requires Agrees(s, d) && k in d
    ensures var r := Hit(s, k);
            && Raised(s.small, r.small, k) && Raised(s.main, r.main, k)
            && r == s.(small := r.small, main := r.main)
  {
    BumpRaises(s.small, k);
    BumpRaises(s.main, k);
    BumpedAbsent(s.main, k);
    BumpedAbsent(s.small, k);
    assert k in Keys(s.small) <==> k in Elements(Keys(s.small));
    assert k in Keys(s.main) <==> k in Elements(Keys(s.main));
    hide Raised, Bumped;
  }

  /** A removal takes the key out of small and main and does nothing else. */
  lemma {:induction false} RemovalDrops(s: S3, k: Key, d: map<Key, nat>)
    requires Agrees(s, d)
    ensures var r := Removed(s, k);
            && Dropped(s.small, r.small, k) && Dropped(s.main, r.main, k)
            && r == s.(small := r.small, main := r.main)
  {
    TakingDrops(s.small, k);
    TakingDrops(s.main, k);
    TakenAbsent(s.small, k);
    TakenAbsent(s.main, k);
    assert k in Keys(s.small) <==> k in Elements(Keys(s.small));
    assert k in Keys(s.main) <==> k in Elements(Keys(s.main));
    hide Dropped, Taken;
  }

  /** A decision takes the key out of the ghosts, notes whether it was one, and does
      nothing else. */
  lemma {:induction false} DecisionDrops(s: S3, k: Key, size: nat, d: map<Key, nat>)
    requires Agrees(s, d)
    ensures var r := Decided(s, k, size).0;
            && Dropped(s.ghosts, r.ghosts, k)
            && r == s.(ghosts := r.ghosts, hitOnGhost := k in Keys(s.ghosts))
  {
    TakingDrops(s.ghosts, k);
    TakenAbsent(s.ghosts, k);
    hide Dropped, Taken;
  }

  /** An admitted object stands last in its queue, its counter at zero, and no other entry
      anywhere changes. */
  lemma {:induction false} AdmissionAppends(s: S3, k: Key, size: nat, d: map<Key, nat>)
    requires Agrees(s, d) && k !in d
    ensures var n := Entry(k, size, 0);
            Admitted(s, k, size) ==
              if s.hitOnGhost || (!s.hasEvicted && Used(s.small) >= s.smallCap)
              then s.(main := s.main + [n], hitOnGhost := false)
              else s.(small := s.small + [n])
  {
    assert k !in Keys(s.small) by {
      assert k !in Elements(Keys(s.small));
    }
    assert k !in Keys(s.main) by {
      assert k !in Elements(Keys(s.main));
    }
  }

  // ---- what an eviction does to the ghosts

  lemma {:induction false} ShedForm(q: seq<Entry>, cap: int, size: nat) returns (n: nat)
    requires size <= cap
    ensures n <= |q| && Shed(q, cap, size) == q[n..] && Used(q[n..]) + size <= cap
    ensures n == 0 || Used(q[n - 1..]) + size > cap
  {
    if Used(q) + size > cap && q != [] {
      ShedStep(q, cap, size);
      var m := ShedForm(q[1..], cap, size);
      n := m + 1;
      assert q[1..][m..] == q[n..];
      assert m > 0 ==> q[1..][m - 1..] == q[n - 1..];
      assert n == 1 ==> q[0..] == q;
    } else {
      ShedStep(q, cap, size);
      n := 0;
      assert q[0..] == q;
    }
  }

  /** `r` is `q` after remembering `e`: it stands last, and the fewest oldest are gone that
      let it fit. Nothing happens when it could not fit at all. */
  ghost predicate Haunted(q: seq<Entry>, r: seq<Entry>, cap: int, e: Entry) {
    if cap <= 0 || e.size > cap then r == q
    else exists n :: 0 <= n <= |q| && r == q[n..] + [e] && Used(q[n..]) + e.size <= cap
                     && (n == 0 || Used(q[n - 1..]) + e.size > cap)
  }

  lemma {:induction false} RememberingHaunts(q: seq<Entry>, cap: int, k: Key, size: nat)
    requires k !in Keys(q)
    ensures Haunted(q, Remembered(q, cap, k, size), cap, Entry(k, size, 0))
  {
    if cap > 0 && size <= cap {
      var n := ShedForm(q, cap, size);
      assert k !in Keys(q[n..]) by {
        assert Keys(q[n..]) == Keys(q)[n..];
      }
      hide Shed;
      assert Remembered(q, cap, k, size) == q[n..] + [Entry(k, size, 0)];
    }
  }

  // ---- a whole eviction

  /** Main's clock took `main[v]`, the earliest whose counter, capped at three, is least. */
  ghost predicate SweptMain(s: S3, r: S3, victim: Option<Key>, v: nat) {
    && EarliestLeast(s.main, v) && victim == Some(s.main[v].key)
    && var m := Min(s.main[v].freq, 3);
       r == s.(hasEvicted := true,
               main := AgedAll(s.main[v + 1..], m) + AgedAll(s.main[..v], m + 1))
  }

  /** Small's sweep took `small[v]`, the first below the threshold, and remembers it. */
  ghost predicate SweptSmall(s: S3, r: S3, victim: Option<Key>, v: nat) {
    && FirstBelow(s, v) && victim == Some(s.small[v].key)
    && Haunted(s.ghosts, r.ghosts, s.ghostCap, Entry(s.small[v].key, s.small[v].size, 0))
    && r == s.(hasEvicted := true, small := s.small[v + 1..], main := s.main + Restarted(s.small[..v]),
               ghosts := r.ghosts)
  }

  /** The queue an eviction sweeps first: main over its share, or small out of bytes. */
  predicate MainFirst(s: S3) {
    Used(s.main) > s.mainCap || Used(s.small) == 0
  }

  lemma {:induction false} MainSweep(s: S3) returns (v: nat)
    requires s.main != []
    ensures SweptMain(s, EvictMain(s.(hasEvicted := true)).0, EvictMain(s.(hasEvicted := true)).1, v)
  {
    v := EarliestLeastExists(s.main);
    hide Clock, Turns;
    ClockClosedForm(s.main, v);
  }

  lemma {:induction false} FirstBelowExists(s: S3) returns (v: nat)
    requires exists i :: 0 <= i < |s.small| && s.small[i].freq < s.moveToMain
    ensures FirstBelow(s, v)
  {
    var i :| 0 <= i < |s.small| && s.small[i].freq < s.moveToMain;
    v := 0;
    while s.small[v].freq >= s.moveToMain
      invariant v <= i && forall j :: 0 <= j < v ==> s.small[j].freq >= s.moveToMain
      decreases i - v
    {
      v := v + 1;
    }
  }

  lemma {:induction false} SmallSweep(s: S3, d: map<Key, nat>, v: nat)
    requires Agrees(s, d) && FirstBelow(s, v)
    ensures SweptSmall(s, EvictSmall(s.(hasEvicted := true)).0, EvictSmall(s.(hasEvicted := true)).1, v)
  {
    AgreeingIsApart(s, d);
    var t, n := s.(hasEvicted := true), s.small[v];
    assert n.key !in Keys(s.ghosts) by {
      assert Keys(s.small)[v] == n.key;
      assert n.key in Elements(Keys(s.small));
      assert n.key !in Elements(Keys(s.ghosts));
    }
    hide EvictSmall, Apart, Remembered;
    assert Apart(t) by {
      ApartIgnoresFlag(s);
    }
    SmallClosedForm(t, v);
    RememberingHaunts(s.ghosts, s.ghostCap, n.key, n.size);
  }

  lemma {:induction false} ApartIgnoresFlag(s: S3)
    ensures Apart(s) ==> Apart(s.(hasEvicted := true))
  {
  }

  /** An eviction, in full. If main is over its share or small holds no bytes, main is
      swept and nothing else changes. Otherwise small is: its first entry below the
      threshold is the victim; or, with none, all of small joins main and main is swept. */
  lemma {:induction false} EvictionClosedForm(s: S3, d: map<Key, nat>) returns (v: nat)
    requires Agrees(s, d) && Bytes(d) > 0 && s.mainCap >= 0
    ensures var (r, victim) := Evicted(s);
            if MainFirst(s) then SweptMain(s, r, victim, v)
            else if exists i :: 0 <= i < |s.small| && s.small[i].freq < s.moveToMain then
              SweptSmall(s, r, victim, v)
            else SweptMain(s.(small := [], main := s.main + Restarted(s.small)), r, victim, v)
  {
    SplitsBytes(s.small, s.main, d);
    var t := s.(hasEvicted := true);
    if MainFirst(s) {
      hide EvictSmall, EvictMain;
      v := MainSweep(s);
    } else if exists i :: 0 <= i < |s.small| && s.small[i].freq < s.moveToMain {
      hide EvictSmall, EvictMain, SweptSmall;
      v := FirstBelowExists(s);
      SmallSweep(s, d, v);
    } else {
      AgreeingIsApart(s, d);
      ApartIgnoresFlag(s);
      hide EvictSmall, EvictMain, SweptMain, Apart;
      SmallOverflows(t);
      v := MainSweep(s.(small := [], main := s.main + Restarted(s.small)));
    }
  }

  // ---- what a sweep costs

  lemma {:induction false} SmallCostMoves(s: S3, n: nat)
    requires Apart(s) && n <= |s.small|
    requires forall i :: 0 <= i < n ==> s.small[i].freq >= s.moveToMain
    ensures SmallCost(s) == s.moveToMain * n + SmallCost(Moved(s, n))
    decreases n
  {
    hide SmallCost, Apart, Moved;
    MoveNone(s);
    if n > 0 {
      SmallCostStep(s);
      MoveOne(s);
      MoveMore(s, n);
      MovedIs(s, n);
      SmallCostMoves(Moved(s, 1), n - 1);
      assert s.moveToMain * n == s.moveToMain + s.moveToMain * (n - 1);
    }
  }

  lemma {:induction false} MoveNone(s: S3)
    ensures Moved(s, 0) == s
  {
    assert s.main + Restarted(s.small[..0]) == s.main;
  }

  lemma {:induction false} MovedIs(s: S3, n: nat)
    requires 0 < n <= |s.small|
    ensures Moved(s, 1).small == s.small[1..] && Moved(s, 1).moveToMain == s.moveToMain
  {
  }

  lemma {:induction false} SmallCostStep(s: S3)
    ensures s.small != [] && s.small[0].freq >= s.moveToMain ==>
              SmallCost(s) == s.moveToMain +
                SmallCost(s.(small := s.small[1..], main := Pushed(s.main, s.small[0].key, s.small[0].size)))
    ensures s.small != [] && s.small[0].freq < s.moveToMain ==> SmallCost(s) == 0
    ensures s.small == [] ==> SmallCost(s) == Turns(s.main)
  {
  }

  /** The cost of an eviction: main's reinsertions if main is swept, and for a sweep of small
      the threshold for each entry promoted, with main's reinsertions if none was left. */
  lemma {:induction false} CostClosedForm(s: S3, d: map<Key, nat>, v: nat)
    requires Agrees(s, d)
    ensures Used(s.main) > s.mainCap || Used(s.small) == 0 ==> Cost(s) == Turns(s.main)
    ensures !(Used(s.main) > s.mainCap || Used(s.small) == 0) && FirstBelow(s, v) ==> Cost(s) == s.moveToMain * v
    ensures !(Used(s.main) > s.mainCap || Used(s.small) == 0)
              && (forall i :: 0 <= i < |s.small| ==> s.small[i].freq >= s.moveToMain) ==>
              Cost(s) == s.moveToMain * |s.small| + Turns(s.main + Restarted(s.small))
  {
    AgreeingIsApart(s, d);
    ApartIgnoresFlag(s);
    var t := s.(hasEvicted := true);
    hide SmallCost, Turns, Apart;
    if FirstBelow(s, v) {
      SmallCostMoves(t, v);
      SmallCostStep(Moved(t, v));
      assert s.small[v..][0] == s.small[v];
    }
    if forall i :: 0 <= i < |s.small| ==> s.small[i].freq >= s.moveToMain {
      SmallCostMoves(t, |s.small|);
      SmallCostStep(Moved(t, |s.small|));
      assert s.small[..|s.small|] == s.small && s.small[|s.small|..] == [];
    }
  }
}
