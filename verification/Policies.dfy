/** The six policies behind the one interface, and the contract they all meet: what a
    policy tracks is exactly what the cache holds. */
module Policies {
  import opened Base
  import opened CacheSpec
  import F = FifoPolicy
  import L = LruPolicy
  import U = LfuPolicy
  import V = SievePolicy
  import T = S3FifoPolicy
  import B = BeladyPolicy

  datatype PolState =
    | Fifo(queue: seq<Key>)
    | Lru(order: seq<Key>)
    | Lfu(entries: seq<U.Entry>)
    | Sieve(sieve: V.Sieve)
    | S3Fifo(s3: T.S3)
    | Belady(belady: B.Belady)
    | Custom(code: Policy<nat>, state: nat)  // any other policy, with its state coded as a number

  function NextAccess(p: PolState, k: Key, next: int): PolState {
    match p
    case Belady(b) => Belady(B.Hinted(b, k, next))
    case Custom(code, s) => Custom(code, code.onNext(s, k, next))
    case _ => p
  }

  function Hit(p: PolState, k: Key): PolState {
    match p
    case Fifo(q) => p
    case Lru(o) => Lru(L.Touched(o, k))
    case Lfu(es) => Lfu(U.Promoted(es, k))
    case Sieve(s) => Sieve(V.Marked(s, k))
    case S3Fifo(s) => S3Fifo(T.Hit(s, k))
    case Belady(b) => Belady(B.Hit(b, k))
    case Custom(code, s) => Custom(code, code.onHit(s, k))
  }

  function CanAdmit(p: PolState, k: Key, size: nat): (PolState, bool) {
    match p
    case S3Fifo(s) => var (r, ok) := T.Decided(s, k, size); (S3Fifo(r), ok)
    case Custom(code, s) => var (r, ok) := code.canAdmit(s, k, size); (Custom(code, r), ok)
    case _ => (p, true)
  }

  function Admit(p: PolState, k: Key, size: nat): PolState {
    match p
    case Fifo(q) => Fifo(F.Admitted(q, k))
    case Lru(o) => Lru(L.ToFront(o, k))
    case Lfu(es) => Lfu(U.Admitted(es, k))
    case Sieve(s) => Sieve(V.Admitted(s, k))
    case S3Fifo(s) => S3Fifo(T.Admitted(s, k, size))
    case Belady(b) => Belady(B.Admitted(b, k))
    case Custom(code, s) => Custom(code, code.onAdmit(s, k, size))
  }

  function Evict(p: PolState): (PolState, Option<Key>) {
    match p
    case Fifo(q) => (p, F.Victim(q))
    case Lru(o) => (p, L.Victim(o))
    case Lfu(es) => (p, U.Victim(es))
    case Sieve(s) => var (r, v) := V.Evicted(s); (Sieve(r), v)
    case S3Fifo(s) => var (r, v) := T.Evicted(s); (S3Fifo(r), v)
    case Belady(b) => (p, B.Victim(b))
    case Custom(code, s) => var (r, v) := code.evict(s); (Custom(code, r), v)
  }

  function Drop(p: PolState, k: Key): PolState {
    match p
    case Fifo(q) => Fifo(Without(q, k))
    case Lru(o) => Lru(Without(o, k))
    case Lfu(es) => Lfu(U.Removed(es, k))
    case Sieve(s) => Sieve(V.Removed(s, k))
    case S3Fifo(s) => S3Fifo(T.Removed(s, k))
    case Belady(b) => Belady(B.Removed(b, k))
    case Custom(code, s) => Custom(code, code.onRemove(s, k))
  }

  /** The interface a cache is given. */
  function Ops(): Policy<PolState> {
    Policy(NextAccess, Hit, CanAdmit, Admit, Evict, Drop)
  }

  // ---- the contract

  ghost function Tracked(p: PolState): seq<Key>
    requires !p.Custom? && !p.S3Fifo?
  {
    match p
    case Fifo(q) => q
    case Lru(o) => o
    case Lfu(es) => U.Keys(es)
    case Sieve(s) => V.Keys(s.q)
    case Belady(b) => B.Keys(b.entries)
  }

  /** The policy tracks exactly the residents (and S3-FIFO their sizes too). */
  ghost predicate Agrees(p: PolState, d: map<Key, nat>) {
    match p
    case Custom(_, _) => false
    case S3Fifo(s) => s.mainCap >= 0 && T.Agrees(s, d)
    case _ =>
      && Distinct(Tracked(p)) && Elements(Tracked(p)) == d.Keys
      && (p.Lfu? ==> U.Sane(p.entries))
      && (p.Sieve? ==> V.Sane(p.sieve))
  }

  /** Keys a policy remembers without holding: S3-FIFO's ghosts. */
  ghost function Haunting(p: PolState): set<Key> {
    if p.S3Fifo? then Elements(T.Keys(p.s3.ghosts)) else {}
  }

  /** Ready to admit `k`: it is no resident, and no ghost either. */
  ghost predicate Ready(p: PolState, d: map<Key, nat>, k: Key) {
    Agrees(p, d) && k !in d && k !in Haunting(p)
  }

  lemma {:induction false} HitAgrees(p: PolState, d: map<Key, nat>, k: Key)
    requires Agrees(p, d) && k in d
    ensures Agrees(Hit(p, k), d)
  {
    hide Distinct, Elements, Without, U.Promoted, V.Marked, T.Agrees, B.WithNext, U.Keys, V.Keys, B.Keys;
    match p
    case Fifo(q) =>
    case Lru(o) => LruHitAgrees(o, d, k);
    case Lfu(es) => U.PromotedKeeps(es, k);
    case Sieve(s) => V.MarkedKeeps(s, k);
    case S3Fifo(s) => T.HitKeeps(s, k, d);
    case Belady(b) => BeladyHitAgrees(b, d, k);
  }

  lemma {:induction false} LruHitAgrees(o: seq<Key>, d: map<Key, nat>, k: Key)
    requires Agrees(Lru(o), d) && k in d
    ensures Agrees(Hit(Lru(o), k), d)
  {
    MovedKeeps(o, k);
    assert k in Elements(o);
  }

  lemma {:induction false} BeladyHitAgrees(b: B.Belady, d: map<Key, nat>, k: Key)
    requires Agrees(Belady(b), d) && k in d
    ensures Agrees(Hit(Belady(b), k), d)
  {
    if B.HasHint(b, k) {
      B.WithNextKeeps(b.entries, k, b.pending.value.next);
      assert k in Elements(B.Keys(b.entries));
    }
  }

  lemma {:induction false} DecideReady(p: PolState, d: map<Key, nat>, k: Key, size: nat)
    requires Agrees(p, d) && k !in d
    ensures Ready(CanAdmit(p, k, size).0, d, k)
  {
    if p.S3Fifo? {
      T.DecidedKeeps(p.s3, k, size, d);
    }
  }

  lemma {:induction false} AppendedTracks(ks: seq<Key>, k: Key, d: map<Key, nat>, size: nat)
    requires Distinct(ks) && Elements(ks) == d.Keys && k !in d
    ensures k !in ks && Distinct(ks + [k]) && Elements(ks + [k]) == d[k := size].Keys
    ensures Without(ks, k) == ks && Distinct([k] + ks) && Elements([k] + ks) == d[k := size].Keys
  {
    assert k !in Elements(ks);
    WithoutAbsent(ks, k);
    MovedKeeps(ks, k);
    assert d[k := size].Keys == d.Keys + {k};
  }

  lemma {:induction false} AdmitAgrees(p: PolState, d: map<Key, nat>, k: Key, size: nat)
    requires Ready(p, d, k)
    ensures Agrees(Admit(p, k, size), d[k := size])
  {
    hide Distinct, Elements;
    if p.S3Fifo? {
      T.AdmittedKeeps(p.s3, k, size, d);
    } else {
      AppendedTracks(Tracked(p), k, d, size);
      match p
      case Fifo(q) =>
      case Lru(o) =>
      case Lfu(es) => U.AdmittedKeeps(es, k);
      case Sieve(s) => V.AdmittedKeeps(s, k);
      case Belady(b) => B.WithNextKeeps(b.entries, k, if B.HasHint(b, k) then b.pending.value.next else B.NEVER_AGAIN);
    }
  }

  lemma {:induction false} DropAgrees(p: PolState, d: map<Key, nat>, k: Key)
    requires Agrees(p, d)
    ensures Agrees(Drop(p, k), d - {k})
  {
    hide Distinct, Elements, Without, Cut, IndexOf, T.Removed, T.Agrees;
    if p.S3Fifo? {
      T.RemovedKeeps(p.s3, k, d);
      T.RemovedCaps(p.s3, k);
    } else {
      WithoutElements(Tracked(p), k);
      match p
      case Fifo(q) =>
      case Lru(o) =>
      case Lfu(es) => U.RemovedKeeps(es, k);
      case Sieve(s) => V.RemovedKeeps(s, k);
      case Belady(b) => B.RemovedKeeps(b, k);
    }
  }

  /** `r` and `victim` are a sound answer to an eviction request. */
  ghost predicate EvictsSoundly(p: PolState, d: map<Key, nat>, r: PolState, victim: Option<Key>) {
    && victim.Some? && victim.value in d
    && Agrees(Drop(r, victim.value), d - {victim.value})
    && Haunting(Drop(r, victim.value)) <= Haunting(p) + {victim.value}
  }

  /** While any byte is resident an eviction names a resident, and the removal that
      follows leaves the policy agreeing with what is left. */
  lemma {:induction false} EvictAgrees(p: PolState, d: map<Key, nat>)
    requires Agrees(p, d) && Bytes(d) > 0
    ensures EvictsSoundly(p, d, Evict(p).0, Evict(p).1)
  {
    if p.S3Fifo? {
      S3EvictAgrees(p.s3, d);
    } else {
      assert Tracked(p) == [] ==> d == map[];
      EvictNames(p, d);
      var (r, victim) := Evict(p);
      DropAgrees(r, d, victim.value);
    }
  }

  lemma {:induction false} S3EvictAgrees(s: T.S3, d: map<Key, nat>)
    requires T.Agrees(s, d) && s.mainCap >= 0 && Bytes(d) > 0
    ensures EvictsSoundly(S3Fifo(s), d, Evict(S3Fifo(s)).0, Evict(S3Fifo(s)).1)
  {
    hide T.Evicted, T.Agrees, Elements, T.Keys, T.Removed;
    T.EvictedKeeps(s, d);
    var (r, victim) := T.Evicted(s);
    T.RemovedAbsent(r, victim.value, d - {victim.value});
    T.EvictedShape(s);
  }

  lemma {:induction false} EvictNames(p: PolState, d: map<Key, nat>)
    requires !p.S3Fifo? && Agrees(p, d) && Tracked(p) != []
    ensures var (r, victim) := Evict(p); victim.Some? && victim.value in d && Agrees(r, d) && !r.S3Fifo?
  {
    match p
    case Fifo(q) => assert q[0] in Elements(q);
    case Lru(o) => assert o[|o| - 1] in Elements(o);
    case Lfu(es) => assert U.Keys(es)[U.Least(es)] in Elements(U.Keys(es));
    case Sieve(s) =>
      V.EvictedKeeps(s);
      assert Evict(p).1.value in Elements(V.Keys(s.q));
    case Belady(b) => assert B.Keys(b.entries)[B.Furthest(b.entries)] in Elements(B.Keys(b.entries));
  }
}
