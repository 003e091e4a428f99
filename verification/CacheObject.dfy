/** The cache itself: it owns capacity accounting and drives a policy object through the
    interface, one call at a time. */
module CacheObject {
  import opened Base
  import S = CacheSpec
  import opened Policies
  import A = Agreement
  import P = PolicyObjects
  import F = FifoPolicy
  import L = LruPolicy
  import U = LfuPolicy
  import V = SievePolicy
  import T = S3FifoPolicy
  import B = BeladyPolicy

  lemma {:induction false} VictimOut(c: S.State<PolState>, v: Key)
    requires Policies.Evict(c.pol).1 == Some(v)
    ensures S.EvictOne(Ops(), c.(pol := Policies.Evict(c.pol).0), v) == A.AfterEviction(c)
  {
    hide Policies.Evict, S.EvictOne;
  }

  lemma {:induction false} InsertForm(c: S.State<PolState>, k: Key, size: nat)
    ensures var (p, ok) := Policies.CanAdmit(c.pol, k, size);
            var roomy := S.EvictToFit(Ops(), c.(pol := p), size, |c.data| + S.SPARE_BUDGET);
            S.Insert(Ops(), c, k, size) ==
              if size > c.capacity then S.Reject(c)
              else if !ok then S.Reject(c.(pol := p))
              else if roomy.used + size > roomy.capacity then S.Reject(roomy)
              else S.Admit(Ops(), roomy, k, size)
  {
    hide Policies.CanAdmit, S.EvictToFit, S.Admit;
    assert Ops().canAdmit(c.pol, k, size) == Policies.CanAdmit(c.pol, k, size);
  }

  class Cache {
    var data: map<Key, nat>
    const capacity: int
    var used: int
    const pol: P.Handle
    const oracle: bool  // whether requests must carry hints
    var stats: S.Stats

    ghost predicate Valid()
      reads this, P.Roots(pol), P.Parts(pol)
    {
      P.Valid(pol) && this !in P.Roots(pol) && this !in P.Parts(pol)
    }

    ghost function State(): S.State<PolState>
      reads this, P.Roots(pol)
    {
      S.State(data, capacity, used, P.Value(pol), stats)
    }

    /** An online cache. Oracle policies are refused here. */
    constructor New(capacity: nat, pol: P.Handle)
      requires capacity > 0 && P.Valid(pol) && !pol.OfBelady?
      ensures Valid() && this.pol == pol && !oracle
      ensures State() == S.Cold(capacity, P.Value(pol))
    {
      hide F.FIFO.Valid, L.LRU.Valid, U.LFU.Valid, V.SIEVE.Valid, T.S3FIFO.Valid, B.BELADY.Valid;
      this.capacity, this.pol, oracle := capacity, pol, false;
      data, used, stats := map[], 0, S.NO_STATS;
    }

    /** A cache whose every request must come with a hint for the policy. */
    constructor NewOracle(capacity: nat, pol: P.Handle)
      requires capacity > 0 && P.Valid(pol) && (pol.OfBelady? || pol.OfCustom?)
      ensures Valid() && this.pol == pol && oracle
      ensures State() == S.Cold(capacity, P.Value(pol))
    {
      hide F.FIFO.Valid, L.LRU.Valid, U.LFU.Valid, V.SIEVE.Valid, T.S3FIFO.Valid, B.BELADY.Valid;
      this.capacity, this.pol, oracle := capacity, pol, true;
      data, used, stats := map[], 0, S.NO_STATS;
    }

    method Access(key: Key, size: nat) returns (hit: bool)
      requires Valid() && !oracle
      modifies this, P.Parts(pol)
      ensures Valid() && (forall o :: o in P.Parts(pol) ==> o in old(P.Parts(pol)) || fresh(o))
      ensures State() == S.Access(Ops(), old(State()), key, size)
      ensures hit <==> key in old(data)
    {
      hide P.Valid, P.Parts, P.Value, S.Access;
      hit := Serve(key, size);
    }

    method AccessOracle(key: Key, size: nat, next: int) returns (hit: bool)
      requires Valid() && oracle
      modifies this, P.Parts(pol)
      ensures Valid() && (forall o :: o in P.Parts(pol) ==> o in old(P.Parts(pol)) || fresh(o))
      ensures State() == S.AccessOracle(Ops(), old(State()), key, size, next)
      ensures hit <==> key in old(data)
    {
      hide P.Valid, P.Parts, P.Value, NextAccess, S.Access;
      P.OnNextAccess(pol, key, next);
      assert State() == old(State()).(pol := Ops().onNext(old(State()).pol, key, next));
      hit := Serve(key, size);
    }

    /** One request, hit or miss. */
    method Serve(key: Key, size: nat) returns (hit: bool)
      requires Valid()
      modifies this, P.Parts(pol)
      ensures Valid() && (forall o :: o in P.Parts(pol) ==> o in old(P.Parts(pol)) || fresh(o))
      ensures State() == S.Access(Ops(), old(State()), key, size)
      ensures hit <==> key in old(data)
    {
      hide P.Valid, P.Parts, P.Value, Policies.Hit, S.Insert;
      stats := stats.(requests := stats.requests + 1, bytesRequested := stats.bytesRequested + size);
      if key in data {
        stats := stats.(hits := stats.hits + 1, bytesHit := stats.bytesHit + size);
        P.OnHit(pol, key);
        return true;
      }
      stats := stats.(misses := stats.misses + 1, bytesMissed := stats.bytesMissed + size);
      var _ := Insert(key, size);
      return false;
    }

    /** Ends in the specified state for a miss, and answers whether the key is in it. */
    method Insert(key: Key, size: nat) returns (resident: bool)
      requires Valid() && key !in data
      modifies this, P.Parts(pol)
      ensures Valid() && (forall o :: o in P.Parts(pol) ==> o in old(P.Parts(pol)) || fresh(o))
      ensures State() == S.Insert(Ops(), old(State()), key, size)
      ensures resident <==> key in data
    {
      hide P.Valid, P.Parts, P.Value, Policies.CanAdmit, S.Admit, S.EvictToFit, S.Reject, S.Insert;
      InsertForm(State(), key, size);
      if size > capacity {
        Reject();
        return false;
      }
      var ok := P.MayAdmit(pol, key, size);
      if !ok {
        Reject();
        return false;
      }
      var _ := EvictToFit(size);
      if used + size > capacity {
        Reject();
        return false;
      }
      Place(key, size);
      return true;
    }

    method Reject()
      requires Valid()
      modifies `stats
      ensures Valid() && State() == S.Reject(old(State()))
    {
      hide P.Valid, P.Parts, P.Value;
      stats := stats.(rejections := stats.rejections + 1);
    }

    method Place(key: Key, size: nat)
      requires Valid()
      modifies this, P.Parts(pol)
      ensures Valid() && (forall o :: o in P.Parts(pol) ==> o in old(P.Parts(pol)) || fresh(o))
      ensures State() == S.Admit(Ops(), old(State()), key, size) && key in data
    {
      hide P.Valid, P.Parts, P.Value, Policies.Admit;
      P.OnAdmit(pol, key, size);
      data := data[key := size];
      used := used + size;
      stats := stats.(admissions := stats.admissions + 1);
    }

    /** Evicts until `need` more bytes fit, within a budget that a policy naming only
        non-residents exhausts. */
    method EvictToFit(need: nat) returns (fits: bool)
      requires Valid()
      modifies this, P.Parts(pol)
      ensures Valid() && (forall o :: o in P.Parts(pol) ==> o in old(P.Parts(pol)) || fresh(o))
      ensures State() == S.EvictToFit(Ops(), old(State()), need, |old(data)| + S.SPARE_BUDGET)
      ensures fits <==> used + need <= capacity
      ensures data.Keys <= old(data).Keys
    {
      hide P.Valid, P.Parts, P.Value, Policies.Evict, S.EvictOne, S.EvictToFit, A.AfterEviction;
      var budget: nat := |data| + S.SPARE_BUDGET;
      while used + need > capacity
        invariant Valid() && (forall o :: o in P.Parts(pol) ==> o in old(P.Parts(pol)) || fresh(o))
        invariant data.Keys <= old(data).Keys
        invariant S.EvictToFit(Ops(), State(), need, budget)
                  == S.EvictToFit(Ops(), old(State()), need, |old(data)| + S.SPARE_BUDGET)
        decreases budget
      {
        ghost var before := State();
        A.EvictToFitStep(before, need, budget);
        if budget == 0 {
          stats := stats.(policyErrors := stats.policyErrors + 1);
          return false;
        }
        budget := budget - 1;
        var victim := P.NameVictim(pol);
        if victim.None? {
          return false;
        }
        VictimOut(before, victim.value);
        EvictOne(victim.value);
      }
      A.EvictToFitStep(State(), need, budget);
      return true;
    }

    /** Drops a victim: an eviction if it was resident, a policy error if not. */
    method EvictOne(victim: Key)
      requires Valid()
      modifies this, P.Parts(pol)
      ensures Valid() && (forall o :: o in P.Parts(pol) ==> o in old(P.Parts(pol)) || fresh(o))
      ensures State() == S.EvictOne(Ops(), old(State()), victim)
      ensures data.Keys == old(data).Keys - {victim}
    {
      hide P.Valid, P.Parts, P.Value;
      var was := RemoveKey(victim);
      if was {
        stats := stats.(evictions := stats.evictions + 1);
      } else {
        stats := stats.(policyErrors := stats.policyErrors + 1);
      }
    }

    /** The specified removal of any key, with what its residency was. */
    method RemoveKey(key: Key) returns (was: bool)
      requires Valid()
      modifies this, P.Parts(pol)
      ensures Valid() && (forall o :: o in P.Parts(pol) ==> o in old(P.Parts(pol)) || fresh(o))
      ensures State() == S.Remove(Ops(), old(State()), key)
      ensures was <==> key in old(data)
    {
      hide P.Valid, P.Parts, P.Value, Policies.Drop;
      if key !in data {
        P.OnRemove(pol, key);
        return false;
      }
      var size := data[key];
      data := data - {key};
      used := used - size;
      P.OnRemove(pol, key);
      return true;
    }

    method Delete(key: Key) returns (was: bool)
      requires Valid()
      modifies this, P.Parts(pol)
      ensures Valid() && (forall o :: o in P.Parts(pol) ==> o in old(P.Parts(pol)) || fresh(o))
      ensures State() == S.Remove(Ops(), old(State()), key)
      ensures was <==> key in old(data)
    {
      hide P.Valid, P.Parts, P.Value, S.Remove;
      was := RemoveKey(key);
    }

    /** Zeroes the counters and touches nothing else. */
    method ResetStats()
      requires Valid()
      modifies `stats
      ensures Valid() && State() == S.ResetStats(old(State()))
    {
      hide P.Valid, P.Parts, P.Value;
      stats := S.NO_STATS;
    }
  }
}
