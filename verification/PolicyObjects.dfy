/** One handle for any policy object, and its calls: each does to the object what the
    policy interface does to the object's value. */
module PolicyObjects {
  import opened Base
  import opened CacheSpec
  import opened Policies
  import F = FifoPolicy
  import L = LruPolicy
  import U = LfuPolicy
  import V = SievePolicy
  import T = S3FifoPolicy
  import B = BeladyPolicy

  /** Any other policy: its state, coded as a number, in a field of its own. */
  class CustomPolicy {
    const code: Policy<nat>
    var state: nat

    constructor (code: Policy<nat>, state: nat)
      ensures this.code == code && this.state == state
    {
      this.code, this.state := code, state;
    }
  }

  datatype Handle =
    | OfFifo(fifo: F.FIFO)
    | OfLru(lru: L.LRU)
    | OfLfu(lfu: U.LFU)
    | OfSieve(sieve: V.SIEVE)
    | OfS3Fifo(s3: T.S3FIFO)
    | OfBelady(belady: B.BELADY)
    | OfCustom(custom: CustomPolicy)

  /** The objects a handle always reaches. */
  ghost function Roots(h: Handle): set<object> {
    match h
    case OfFifo(o) => {o}
    case OfLru(o) => {o}
    case OfLfu(o) => {o}
    case OfSieve(o) => {o}
    case OfS3Fifo(o) => {o, o.small, o.main, o.ghosts}
    case OfBelady(o) => {o, o.heap}
    case OfCustom(o) => {o}
  }

  /** Everything the policy owns. */
  ghost function Parts(h: Handle): (r: set<object>)
    reads Roots(h)
    ensures Roots(h) <= r
  {
    Roots(h) +
    match h
    case OfFifo(o) => (set n | n in o.nodes)
    case OfLru(o) => (set n | n in o.nodes)
    case OfLfu(o) => o.nodes + o.owned
    case OfSieve(o) => (set n | n in o.nodes)
    case OfS3Fifo(o) => o.Nodes()
    case OfBelady(o) => o.heap.members
    case OfCustom(o) => {}
  }

  ghost predicate Valid(h: Handle)
    reads Roots(h), Parts(h)
  {
    match h
    case OfFifo(o) => o.Valid()
    case OfLru(o) => o.Valid()
    case OfLfu(o) => o.Valid()
    case OfSieve(o) => o.Valid()
    case OfS3Fifo(o) => o.Valid()
    case OfBelady(o) => o.Valid()
    case OfCustom(o) => true
  }

  ghost function Value(h: Handle): PolState
    reads Roots(h)
  {
    match h
    case OfFifo(o) => Fifo(o.Queue())
    case OfLru(o) => Lru(o.Order())
    case OfLfu(o) => Lfu(o.entries)
    case OfSieve(o) => Sieve(o.Value())
    case OfS3Fifo(o) => S3Fifo(o.Value())
    case OfBelady(o) => Belady(o.Value())
    case OfCustom(o) => Custom(o.code, o.state)
  }

  method OnHit(h: Handle, key: Key)
    requires Valid(h)
    modifies Parts(h)
    ensures Valid(h) && (forall o :: o in Parts(h) ==> o in old(Parts(h)) || fresh(o))
    ensures Value(h) == Hit(old(Value(h)), key)
  {
    hide F.FIFO.Valid, L.LRU.Valid, U.LFU.Valid, V.SIEVE.Valid, T.S3FIFO.Valid, B.BELADY.Valid;
    hide F.FIFO.Queue, L.LRU.Order, V.SIEVE.Value, T.S3FIFO.Value, T.S3FIFO.Nodes, B.BELADY.Value;
    hide L.Touched, U.Promoted, V.Marked, T.Hit, B.Hit;
    match h
    case OfFifo(o) => o.OnHit(key);
    case OfLru(o) => o.OnHit(key);
    case OfLfu(o) => o.OnHit(key);
    case OfSieve(o) => o.OnHit(key);
    case OfS3Fifo(o) => o.OnHit(key);
    case OfBelady(o) => o.OnHit(key);
    case OfCustom(o) => o.state := o.code.onHit(o.state, key);
  }

  method OnNextAccess(h: Handle, key: Key, next: int)
    requires Valid(h)
    modifies Parts(h)
    ensures Valid(h) && (forall o :: o in Parts(h) ==> o in old(Parts(h)) || fresh(o))
    ensures Value(h) == NextAccess(old(Value(h)), key, next)
  {
    hide F.FIFO.Valid, L.LRU.Valid, U.LFU.Valid, V.SIEVE.Valid, T.S3FIFO.Valid, B.BELADY.Valid;
    hide F.FIFO.Queue, L.LRU.Order, V.SIEVE.Value, T.S3FIFO.Value, T.S3FIFO.Nodes, B.BELADY.Value;
    hide B.Hinted;
    match h
    case OfBelady(o) => o.OnNextAccess(key, next);
    case OfCustom(o) => o.state := o.code.onNext(o.state, key, next);
    case _ =>
  }

  method MayAdmit(h: Handle, key: Key, size: nat) returns (ok: bool)
    requires Valid(h)
    modifies Parts(h)
    ensures Valid(h) && (forall o :: o in Parts(h) ==> o in old(Parts(h)) || fresh(o))
    ensures (Value(h), ok) == CanAdmit(old(Value(h)), key, size)
  {
    hide F.FIFO.Valid, L.LRU.Valid, U.LFU.Valid, V.SIEVE.Valid, T.S3FIFO.Valid, B.BELADY.Valid;
    hide F.FIFO.Queue, L.LRU.Order, V.SIEVE.Value, T.S3FIFO.Value, T.S3FIFO.Nodes, B.BELADY.Value;
    hide T.Decided;
    match h
    case OfFifo(o) => ok := o.CanAdmit(key, size);
    case OfLru(o) => ok := o.CanAdmit(key, size);
    case OfLfu(o) => ok := o.CanAdmit(key, size);
    case OfSieve(o) => ok := o.CanAdmit(key, size);
    case OfS3Fifo(o) => ok := o.CanAdmit(key, size);
    case OfBelady(o) => ok := o.CanAdmit(key, size);
    case OfCustom(o) =>
      var r := o.code.canAdmit(o.state, key, size);
      o.state, ok := r.0, r.1;
  }

  method OnAdmit(h: Handle, key: Key, size: nat)
    requires Valid(h)
    modifies Parts(h)
    ensures Valid(h) && (forall o :: o in Parts(h) ==> o in old(Parts(h)) || fresh(o))
    ensures Value(h) == Policies.Admit(old(Value(h)), key, size)
  {
    hide F.FIFO.Valid, L.LRU.Valid, U.LFU.Valid, V.SIEVE.Valid, T.S3FIFO.Valid, B.BELADY.Valid;
    hide F.FIFO.Queue, L.LRU.Order, V.SIEVE.Value, T.S3FIFO.Value, T.S3FIFO.Nodes, B.BELADY.Value;
    hide F.Admitted, L.ToFront, U.Admitted, V.Admitted, T.Admitted, B.Admitted;
    match h
    case OfFifo(o) => o.OnAdmit(key);
    case OfLru(o) => o.OnAdmit(key);
    case OfLfu(o) => o.OnAdmit(key);
    case OfSieve(o) => o.OnAdmit(key);
    case OfS3Fifo(o) => o.OnAdmit(key, size);
    case OfBelady(o) => o.OnAdmit(key);
    case OfCustom(o) => o.state := o.code.onAdmit(o.state, key, size);
  }

  method NameVictim(h: Handle) returns (victim: Option<Key>)
    requires Valid(h)
    modifies Parts(h)
    ensures Valid(h) && (forall o :: o in Parts(h) ==> o in old(Parts(h)) || fresh(o))
    ensures (Value(h), victim) == Evict(old(Value(h)))
  {
    hide F.FIFO.Valid, L.LRU.Valid, U.LFU.Valid, V.SIEVE.Valid, T.S3FIFO.Valid, B.BELADY.Valid;
    hide F.FIFO.Queue, L.LRU.Order, V.SIEVE.Value, T.S3FIFO.Value, T.S3FIFO.Nodes, B.BELADY.Value;
    hide F.Victim, L.Victim, U.Victim, V.Evicted, T.Evicted, B.Victim;
    match h
    case OfFifo(o) => victim := o.Evict();
    case OfLru(o) => victim := o.Evict();
    case OfLfu(o) => victim := o.Evict();
    case OfSieve(o) => victim := o.Evict();
    case OfS3Fifo(o) => victim := o.Evict();
    case OfBelady(o) => victim := o.Evict();
    case OfCustom(o) =>
      var r := o.code.evict(o.state);
      o.state, victim := r.0, r.1;
  }

  method OnRemove(h: Handle, key: Key)
    requires Valid(h)
    modifies Parts(h)
    ensures Valid(h) && (forall o :: o in Parts(h) ==> o in old(Parts(h)) || fresh(o))
    ensures Value(h) == Drop(old(Value(h)), key)
  {
    hide F.FIFO.Valid, L.LRU.Valid, U.LFU.Valid, V.SIEVE.Valid, T.S3FIFO.Valid, B.BELADY.Valid;
    hide F.FIFO.Queue, L.LRU.Order, V.SIEVE.Value, T.S3FIFO.Value, T.S3FIFO.Nodes, B.BELADY.Value;
    hide Without, U.Removed, V.Removed, T.Removed, B.Removed;
    match h
    case OfFifo(o) => o.OnRemove(key);
    case OfLru(o) => o.OnRemove(key);
    case OfLfu(o) => o.OnRemove(key);
    case OfSieve(o) => o.OnRemove(key);
    case OfS3Fifo(o) => o.OnRemove(key);
    case OfBelady(o) => o.OnRemove(key);
    case OfCustom(o) => o.state := o.code.onRemove(o.state, key);
  }
}
