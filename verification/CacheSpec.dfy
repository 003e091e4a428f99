/** What the cache does, as a function of its state and of a policy it knows only
    through the six calls of the policy interface. */
module CacheSpec {
  import opened Base

  /** The interface a cache sees: each call maps the policy's state to its next
      state and, where the call answers something, to the answer. */
  datatype Policy<!P> = Policy(
    onNext: (P, Key, int) -> P,
    onHit: (P, Key) -> P,
    canAdmit: (P, Key, nat) -> (P, bool),
    onAdmit: (P, Key, nat) -> P,
    evict: P -> (P, Option<Key>),
    onRemove: (P, Key) -> P
  )

  datatype Stats = Stats(
    requests: nat, hits: nat, misses: nat,
    bytesRequested: nat, bytesHit: nat, bytesMissed: nat,
    evictions: nat, admissions: nat, rejections: nat, policyErrors: nat)

  const NO_STATS := Stats(0, 0, 0, 0, 0, 0, 0, 0, 0, 0)

  datatype State<P> = State(data: map<Key, nat>, capacity: int, used: int, pol: P, stats: Stats)

  function Cold<P>(capacity: int, pol: P): State<P> {
    State(map[], capacity, 0, pol, NO_STATS)
  }

  function Remove<P>(ops: Policy<P>, c: State<P>, k: Key): State<P> {
    if k in c.data then
      c.(data := c.data - {k}, used := c.used - c.data[k], pol := ops.onRemove(c.pol, k))
    else
      c.(pol := ops.onRemove(c.pol, k))
  }

  /** One victim named by the policy is dropped and counted. */
  function EvictOne<P>(ops: Policy<P>, c: State<P>, victim: Key): State<P> {
    Remove(ops, c, victim).(stats :=
      if victim in c.data then c.stats.(evictions := c.stats.evictions + 1)
      else c.stats.(policyErrors := c.stats.policyErrors + 1))
  }

  function EvictToFit<P>(ops: Policy<P>, c: State<P>, need: nat, budget: nat): State<P>
    decreases budget
  {
    if c.used + need <= c.capacity then c
    else if budget == 0 then c.(stats := c.stats.(policyErrors := c.stats.policyErrors + 1))
    else
      var (p, victim) := ops.evict(c.pol);
      match victim
      case None => c.(pol := p)
      case Some(v) => EvictToFit(ops, EvictOne(ops, c.(pol := p), v), need, budget - 1)
  }

  const SPARE_BUDGET: nat := 64

  function Reject<P>(c: State<P>): State<P> {
    c.(stats := c.stats.(rejections := c.stats.rejections + 1))
  }

  function Admit<P>(ops: Policy<P>, c: State<P>, k: Key, size: nat): State<P> {
    c.(data := c.data[k := size], used := c.used + size, pol := ops.onAdmit(c.pol, k, size),
       stats := c.stats.(admissions := c.stats.admissions + 1))
  }

  function Insert<P>(ops: Policy<P>, c: State<P>, k: Key, size: nat): State<P> {
    if size > c.capacity then Reject(c)
    else
      var (p, ok) := ops.canAdmit(c.pol, k, size);
      if !ok then Reject(c.(pol := p))
      else
        var roomy := EvictToFit(ops, c.(pol := p), size, |c.data| + SPARE_BUDGET);
        if roomy.used + size > roomy.capacity then Reject(roomy) else Admit(ops, roomy, k, size)
  }

  function CountHit(s: Stats, size: nat): Stats {
    s.(requests := s.requests + 1, bytesRequested := s.bytesRequested + size,
       hits := s.hits + 1, bytesHit := s.bytesHit + size)
  }

  function CountMiss(s: Stats, size: nat): Stats {
    s.(requests := s.requests + 1, bytesRequested := s.bytesRequested + size,
       misses := s.misses + 1, bytesMissed := s.bytesMissed + size)
  }

  function Access<P>(ops: Policy<P>, c: State<P>, k: Key, size: nat): State<P> {
    if k in c.data then
      c.(stats := CountHit(c.stats, size), pol := ops.onHit(c.pol, k))
    else
      Insert(ops, c.(stats := CountMiss(c.stats, size)), k, size)
  }

  function AccessOracle<P>(ops: Policy<P>, c: State<P>, k: Key, size: nat, next: int): State<P> {
    Access(ops, c.(pol := ops.onNext(c.pol, k, next)), k, size)
  }

  function ResetStats<P>(c: State<P>): State<P> {
    c.(stats := NO_STATS)
  }

  // ---- runs

  datatype Event =
    | Request(key: Key, size: nat)
    | OracleRequest(key: Key, size: nat, next: int)
    | Delete(key: Key)

  function Step<P>(ops: Policy<P>, c: State<P>, e: Event): State<P> {
    match e
    case Request(k, size) => Access(ops, c, k, size)
    case OracleRequest(k, size, next) => AccessOracle(ops, c, k, size, next)
    case Delete(k) => Remove(ops, c, k)
  }

  /** The state after the first `i` events of `es`. */
  function After<P>(ops: Policy<P>, c: State<P>, es: seq<Event>, i: nat): State<P>
    requires i <= |es|
  {
    if i == 0 then c else Step(ops, After(ops, c, es, i - 1), es[i - 1])
  }
}
