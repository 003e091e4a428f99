/** What a run tells of one key: when it was admitted and last requested, and how often it
    has been hit since it was admitted. */
module History {
  import opened Base
  import opened CacheSpec
  import opened AnyPolicy

  /** For a resident: one plus the hits on `k` since it was last admitted. */
  ghost function Popularity<P>(ops: Policy<P>, c: State<P>, es: seq<Event>, i: nat, k: Key): nat
    requires i <= |es|
  {
    if i == 0 then 0
    else if k !in After(ops, c, es, i - 1).data then (if k in After(ops, c, es, i).data then 1 else 0)
    else Popularity(ops, c, es, i - 1, k) + (if !es[i - 1].Delete? && es[i - 1].key == k then 1 else 0)
  }

  /** When `k` last became resident before `i`, or -1. */
  ghost function AdmittedAt<P>(ops: Policy<P>, c: State<P>, es: seq<Event>, i: nat, k: Key): (t: int)
    requires i <= |es|
    ensures -1 <= t < i
  {
    if i == 0 then -1
    else if k !in After(ops, c, es, i - 1).data && k in After(ops, c, es, i).data then i - 1
    else AdmittedAt(ops, c, es, i - 1, k)
  }

  /** When `k` was last requested before `i`, or -1. */
  ghost function LastRequest(es: seq<Event>, i: nat, k: Key): (t: int)
    requires i <= |es|
    ensures -1 <= t < i
  {
    if i == 0 then -1
    else if !es[i - 1].Delete? && es[i - 1].key == k then i - 1
    else LastRequest(es, i - 1, k)
  }

  ghost function Pop<P>(ops: Policy<P>, c: State<P>, es: seq<Event>, i: nat): Key -> nat
    requires i <= |es|
  {
    k => Popularity(ops, c, es, i, k)
  }

  ghost function Last(es: seq<Event>, i: nat): Key -> int
    requires i <= |es|
  {
    k => LastRequest(es, i, k)
  }

  ghost function Arrival<P>(ops: Policy<P>, c: State<P>, es: seq<Event>, i: nat): Key -> int
    requires i <= |es|
  {
    k => AdmittedAt(ops, c, es, i, k)
  }

  /** One event shifts all three for its own key, if at all, and for no other resident. */
  lemma {:induction false} HistoryShifts<P>(ops: Policy<P>, c: State<P>, es: seq<Event>, i: nat)
    requires 0 < i <= |es|
    ensures var b, r, e := After(ops, c, es, i - 1), After(ops, c, es, i), es[i - 1];
            && (forall x :: x in b.data && x != e.key ==>
                  && Popularity(ops, c, es, i, x) == Popularity(ops, c, es, i - 1, x)
                  && AdmittedAt(ops, c, es, i, x) == AdmittedAt(ops, c, es, i - 1, x) < i - 1
                  && LastRequest(es, i, x) == LastRequest(es, i - 1, x) < i - 1)
            && (!e.Delete? ==> LastRequest(es, i, e.key) == i - 1)
            && (!e.Delete? && e.key in b.data ==>
                  && Popularity(ops, c, es, i, e.key) == Popularity(ops, c, es, i - 1, e.key) + 1
                  && AdmittedAt(ops, c, es, i, e.key) == AdmittedAt(ops, c, es, i - 1, e.key))
            && (e.key !in b.data && e.key in r.data ==>
                  && Popularity(ops, c, es, i, e.key) == 1
                  && AdmittedAt(ops, c, es, i, e.key) == i - 1)
  {
    hide Step;
  }
}
