/** S3-FIFO under the cache: where a missed object goes once room has been made for it,
    and the inputs on which the policy does less than its interface asks. */
module S3FifoTheorems {
  import opened Base
  import opened CacheSpec
  import opened Policies
  import opened Agreement
  import opened S3FifoSweeps
  import T = S3FifoPolicy

  // ---- where a missed object goes

  /** `r` is `c` after making room: the same cache, or one that has evicted. */
  ghost predicate Emptied(c: State<PolState>, r: State<PolState>) {
    && c.pol.S3Fifo? && r.pol.S3Fifo?
    && r.pol.s3.smallCap == c.pol.s3.smallCap && r.pol.s3.hitOnGhost == c.pol.s3.hitOnGhost
    && c.stats.evictions <= r.stats.evictions
    && (if r.stats.evictions == c.stats.evictions then r == c else r.pol.s3.hasEvicted)
  }

  lemma {:induction false} OneEmptied(c: State<PolState>, k: Key)
    requires c.pol.S3Fifo? && c.used == Bytes(c.data) > 0 && Ready(c.pol, c.data, k)
    ensures Evict(c.pol).1.Some?
    ensures var r := AfterEviction(c); Emptied(c, r) && r.stats.evictions == c.stats.evictions + 1
  {
    OneEviction(c, k);
    hide T.Evicted, Ready, Bytes;
    T.EvictedShape(c.pol.s3);
    var v := Evict(c.pol).1.value;
    assert AfterEviction(c).pol == S3Fifo(T.Removed(T.Evicted(c.pol.s3).0, v));
  }

  lemma {:induction false} RoomEmpties(c: State<PolState>, k: Key, need: nat, budget: nat)
    requires c.pol.S3Fifo? && c.used == Bytes(c.data) && Ready(c.pol, c.data, k)
    requires need <= c.capacity && |c.data| <= budget
    ensures Emptied(c, EvictToFit(Ops(), c, need, budget))
    decreases budget
  {
    hide Evict, AfterEviction, EvictToFit, Ready, Bytes;
    EvictToFitStep(c, need, budget);
    if c.used + need > c.capacity {
      OneEviction(c, k);
      OneEmptied(c, k);
      RoomEmpties(AfterEviction(c), k, need, budget - 1);
    }
  }

  /** The queue `k` is admitted to, from a state ready for it. */
  lemma {:induction false} AdmittedWhere(s: T.S3, d: map<Key, nat>, k: Key, size: nat)
    requires Ready(S3Fifo(s), d, k)
    ensures var r := T.Admitted(s, k, size);
            && k !in T.Keys(r.ghosts)
            && (k in T.Keys(r.main) <==> s.hitOnGhost || (!s.hasEvicted && T.Used(s.small) >= s.smallCap))
            && (k in T.Keys(r.small) <==> k !in T.Keys(r.main))
  {
    hide T.Sized;
    assert k !in T.Keys(s.ghosts) by {
      assert k !in Elements(T.Keys(s.ghosts));
    }
    assert k !in T.Keys(s.small) && k !in T.Keys(s.main) by {
      assert k !in Elements(T.Keys(s.small)) + Elements(T.Keys(s.main));
    }
    PushedHas(s.main, k, size);
    PushedHas(s.small, k, size);
  }

  /** What the decision on a missed key finds and answers. */
  lemma {:induction false} DecidedWhere(s: T.S3, d: map<Key, nat>, k: Key, size: nat)
    requires T.Agrees(s, d)
    ensures var (t, ok) := T.Decided(s, k, size);
            && (ok <==> size < s.smallCap || (size == s.smallCap && k in T.Keys(s.ghosts)))
            && t.hitOnGhost == (k in T.Keys(s.ghosts))
            && t.small == s.small && t.smallCap == s.smallCap && t.hasEvicted == s.hasEvicted
  {
  }

  /** `k` stands in main if it has come back as a ghost, or if it arrived in a cache that has
      never evicted, nor did so to make room for it, with small already full; else in small. */
  ghost predicate Placed(c: State<PolState>, r: State<PolState>, k: Key)
    requires c.pol.S3Fifo?
  {
    var s := c.pol.s3;
    && r.pol.S3Fifo?
    && k !in T.Keys(r.pol.s3.ghosts)
    && (k in T.Keys(r.pol.s3.main) <==>
          || k in T.Keys(s.ghosts)
          || (r.stats.evictions == c.stats.evictions && !s.hasEvicted && T.Used(s.small) >= s.smallCap))
    && (k in T.Keys(r.pol.s3.small) <==> k !in T.Keys(r.pol.s3.main))
  }

  lemma {:induction false} InsertPlaces(c: State<PolState>, k: Key, size: nat)
    requires c.pol.S3Fifo? && c.used == Bytes(c.data) && Agrees(c.pol, c.data) && k !in c.data
    requires size <= c.capacity && CanAdmit(c.pol, k, size).1
    ensures Placed(c, Insert(Ops(), c, k, size), k)
  {
    DecidedWhere(c.pol.s3, c.data, k, size);
    DecideReady(c.pol, c.data, k, size);
    hide Insert, Ready, Agrees, EvictToFit, T.Decided, T.Admitted, Bytes;
    InsertForm(c, k, size);
    RoomEmpties(c.(pol := CanAdmit(c.pol, k, size).0), k, size, |c.data| + SPARE_BUDGET);
    var roomy := Roomy(c, k, size);
    assert roomy.pol.S3Fifo?;
    AdmittedWhere(roomy.pol.s3, roomy.data, k, size);
    assert Ops().onAdmit(roomy.pol, k, size) == S3Fifo(T.Admitted(roomy.pol.s3, k, size));
  }

  /** A missed object is accepted below the small queue's capacity, and at it if it comes
      back as a ghost; and once room is made it is placed accordingly. */
  lemma {:induction false} ReturningGoesToMain(c: State<PolState>, k: Key, size: nat)
    requires Healthy(c) && c.pol.S3Fifo? && k !in c.data && size <= c.capacity
    ensures var r := Access(Ops(), c, k, size); var s := c.pol.s3;
            && (k in r.data <==> size < s.smallCap || (size == s.smallCap && k in T.Keys(s.ghosts)))
            && (k in r.data ==> Placed(c, r, k))
  {
    MissAdmits(c, k, size);
    DecidedWhere(c.pol.s3, c.data, k, size);
    if CanAdmit(c.pol, k, size).1 {
      hide Insert;
      InsertPlaces(c.(stats := CountMiss(c.stats, size)), k, size);
    }
  }

  // ---- inputs on which less is done

  /** An S3-FIFO that has been told nothing. */
  function Blank(smallCap: int, mainCap: int, ghostCap: int, moveToMain: int): T.S3 {
    T.S3([], [], [], smallCap, mainCap, ghostCap, moveToMain, false, false)
  }

  lemma {:induction false} FirstMiss(capacity: nat, s: T.S3, k: Key, size: nat)
    requires s == Blank(s.smallCap, s.mainCap, s.ghostCap, s.moveToMain) && size < s.smallCap <= capacity
    ensures var r := Access(Ops(), Cold(capacity, S3Fifo(s)), k, size);
            && r.data == map[k := size] && r.used == size && r.capacity == capacity
            && r.pol == S3Fifo(s.(small := [T.Entry(k, size, 0)]))
  {
    var c := Cold(capacity, S3Fifo(s));
    var d := c.(stats := CountMiss(c.stats, size));
    assert T.Decided(s, k, size) == (s, true);
    assert Ops().canAdmit(d.pol, k, size) == (d.pol, true);
    assert d.(pol := d.pol) == d;
    assert Insert(Ops(), d, k, size) == CacheSpec.Admit(Ops(), d, k, size);
    assert T.Admitted(s, k, size) == s.(small := [T.Entry(k, size, 0)]);
    assert Ops().onAdmit(d.pol, k, size) == S3Fifo(T.Admitted(s, k, size));
  }

  /** One request for an object of no bytes leaves a resident that no eviction would name. */
  lemma {:induction false} ZeroBytesAreNeverNamed(capacity: nat, s: T.S3, k: Key)
    requires s == Blank(s.smallCap, s.mainCap, s.ghostCap, s.moveToMain)
    requires 0 < s.smallCap <= capacity && s.mainCap >= 0
    ensures var r := Access(Ops(), Cold(capacity, S3Fifo(s)), k, 0);
            && k in r.data && r.pol.S3Fifo? && T.Keys(r.pol.s3.small) == [k]
            && Evict(r.pol).1.None?
  {
    FirstMiss(capacity, s, k, 0);
    var t := s.(small := [T.Entry(k, 0, 0)]);
    assert T.Used(t.small) == 0 by {
      assert t.small[..0] == [];
    }
    hide T.Evicted;
    NothingIsNamed(t);
  }

  // ---- a refusal that costs a ghost

  /** One object in small, and the eviction that makes a ghost of it. */
  lemma {:induction false} OnlyObjectDemoted(s: T.S3, k: Key, size: nat)
    requires s == Blank(s.smallCap, s.mainCap, s.ghostCap, s.moveToMain)
    requires 0 < size <= s.ghostCap && s.mainCap >= 0 && s.moveToMain >= 1
    ensures var t := s.(small := [T.Entry(k, size, 0)]); var (r, victim) := T.Evicted(t);
            && victim == Some(k) && T.Removed(r, k) == r
            && r == s.(ghosts := [T.Entry(k, size, 0)], hasEvicted := true)
  {
    var e := T.Entry(k, size, 0);
    var t := s.(small := [e], hasEvicted := true);
    assert T.Used([e]) == size by {
      assert [e][..0] == [];
    }
    SmallClosedForm(t, 0);
    assert T.Remembered([], s.ghostCap, k, size) == [e];
    assert t.small[1..] == [] && t.main + Restarted(t.small[..0]) == [];
  }

  /** A second object that pushes the first out, and is placed where it was. */
  lemma {:induction false} SecondMiss(c: State<PolState>, s: T.S3, a: Key, b: Key, size: nat)
    requires s == Blank(s.smallCap, s.mainCap, s.ghostCap, s.moveToMain) && a != b
    requires 0 < size <= s.ghostCap && size < s.smallCap <= c.capacity < 2 * size
    requires s.mainCap >= 0 && s.moveToMain >= 1
    requires c.data == map[a := size] && c.used == size && c.pol == S3Fifo(s.(small := [T.Entry(a, size, 0)]))
    ensures var r := Access(Ops(), c, b, size);
            && r.capacity == c.capacity && b in r.data && r.pol.S3Fifo?
            && r.pol.s3.smallCap == s.smallCap && T.Keys(r.pol.s3.ghosts) == [a]
  {
    var d := c.(stats := CountMiss(c.stats, size));
    var t := d.pol.s3;
    assert T.Decided(t, b, size) == (t, true);
    assert Ops().canAdmit(d.pol, b, size) == (d.pol, true) && d.(pol := d.pol) == d;
    OnlyObjectDemoted(s, a, size);
    var g := s.(ghosts := [T.Entry(a, size, 0)], hasEvicted := true);
    hide T.Evicted, T.Removed;
    assert Ops().evict(d.pol) == (S3Fifo(g), Some(a)) && Ops().onRemove(S3Fifo(g), a) == S3Fifo(g);
    var roomy := EvictOne(Ops(), d.(pol := S3Fifo(g)), a);
    assert roomy.used == 0 && roomy.pol == S3Fifo(g);
    assert EvictToFit(Ops(), roomy, size, |d.data| + SPARE_BUDGET - 1) == roomy;
    assert EvictToFit(Ops(), d, size, |d.data| + SPARE_BUDGET) == roomy;
    assert Insert(Ops(), d, b, size) == CacheSpec.Admit(Ops(), roomy, b, size);
    assert T.Admitted(g, b, size).ghosts == g.ghosts;
    assert Ops().onAdmit(roomy.pol, b, size) == S3Fifo(T.Admitted(g, b, size));
  }

  /** A ghost, the small one's evicted object, that is requested at a size above the small
      queue's capacity: it is refused, and no ghost any more. */
  lemma {:induction false} GhostRefused(c: State<PolState>, k: Key, size: nat)
    requires Healthy(c) && c.pol.S3Fifo? && k in T.Keys(c.pol.s3.ghosts)
    requires c.pol.s3.smallCap < size <= c.capacity
    ensures k !in c.data
    ensures var r := Access(Ops(), c, k, size);
            && k !in r.data && r.data == c.data && r.stats.rejections == c.stats.rejections + 1
            && r.pol.S3Fifo? && k !in T.Keys(r.pol.s3.ghosts)
  {
    assert k in Elements(T.Keys(c.pol.s3.ghosts));
    var d := c.(stats := CountMiss(c.stats, size));
    DecideReady(c.pol, c.data, k, size);
    var (p, ok) := CanAdmit(c.pol, k, size);
    assert !ok;
    assert Ops().canAdmit(d.pol, k, size) == (p, ok);
    assert Insert(Ops(), d, k, size) == Reject(d.(pol := p));
    assert k !in Elements(T.Keys(p.s3.ghosts));
  }

  /** Three requests from cold after which an evicted object has come back too large for
      the small queue, been refused, and is not remembered either. */
  lemma {:induction false} RefusedReturnIsForgotten(
    capacity: nat, s: T.S3, a: Key, b: Key, size: nat, larger: nat)
    requires s == Blank(s.smallCap, s.mainCap, s.ghostCap, s.moveToMain) && a != b
    requires 0 < size <= s.ghostCap && size < s.smallCap < larger <= capacity < 2 * size
    requires s.mainCap >= 0 && s.moveToMain >= 1
    ensures var es := [Request(a, size), Request(b, size), Request(a, larger)];
            var before := After(Ops(), Cold(capacity, S3Fifo(s)), es, 2);
            var r := After(Ops(), Cold(capacity, S3Fifo(s)), es, 3);
            && before.pol.S3Fifo? && a in T.Keys(before.pol.s3.ghosts)
            && r.pol.S3Fifo? && a !in T.Keys(r.pol.s3.ghosts)
            && r.data == before.data && r.stats.rejections == before.stats.rejections + 1
  {
    hide Access, T.Keys;
    var c := Cold(capacity, S3Fifo(s));
    var es := [Request(a, size), Request(b, size), Request(a, larger)];
    ColdIsHealthy(capacity, S3Fifo(s));
    FirstMiss(capacity, s, a, size);
    var c1 := Access(Ops(), c, a, size);
    AccessIsHealthy(c, a, size);
    SecondMiss(c1, s, a, b, size);
    AccessIsHealthy(c1, b, size);
    var c2 := Access(Ops(), c1, b, size);
    assert After(Ops(), c, es, 1) == c1;
    assert After(Ops(), c, es, 2) == c2;
    GhostRefused(c2, a, larger);
    assert After(Ops(), c, es, 3) == Access(Ops(), c2, a, larger);
  }
}
