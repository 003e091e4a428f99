/** A loaded trace and its summary. */
module Trace {
  import opened Base

  datatype Request = Request(time: int, key: Key, size: nat)

  datatype Summary = Summary(requests: nat, uniqueObjects: nat, workingSetBytes: nat)

  /** Each requested key with the largest size it is requested at. */
  ghost function Largest(reqs: seq<Request>): map<Key, nat> {
    if reqs == [] then map[]
    else
      var before := Largest(reqs[..|reqs| - 1]);
      var r := reqs[|reqs| - 1];
      if r.key in before && before[r.key] >= r.size then before else before[r.key := r.size]
  }

  /** What that means: a key is there exactly when it is requested, and its size is one it
      is requested at and no smaller than any other. */
  lemma {:induction false} LargestIsLargest(reqs: seq<Request>)
    ensures forall i :: 0 <= i < |reqs| ==> reqs[i].key in Largest(reqs) && reqs[i].size <= Largest(reqs)[reqs[i].key]
    ensures forall k :: k in Largest(reqs) ==>
              exists i :: 0 <= i < |reqs| && reqs[i].key == k && reqs[i].size == Largest(reqs)[k]
  {
    if reqs != [] {
      var last := |reqs| - 1;
      LargestIsLargest(reqs[..last]);
      assert forall i :: 0 <= i < last ==> reqs[..last][i] == reqs[i];
      forall k | k in Largest(reqs)
        ensures exists i :: 0 <= i < |reqs| && reqs[i].key == k && reqs[i].size == Largest(reqs)[k]
      {
        if k in Largest(reqs[..last]) && Largest(reqs)[k] == Largest(reqs[..last])[k] {
          var i :| 0 <= i < last && reqs[..last][i].key == k && reqs[..last][i].size == Largest(reqs)[k];
          assert reqs[i].key == k;
        } else {
          assert reqs[last].key == k && reqs[last].size == Largest(reqs)[k];
        }
      }
    }
  }

  lemma {:induction false} LargestStep(reqs: seq<Request>, i: nat)
    requires i < |reqs|
    ensures var before := Largest(reqs[..i]); var r := reqs[i];
            Largest(reqs[..i + 1]) ==
            if r.key in before && before[r.key] >= r.size then before else before[r.key := r.size]
  {
    assert reqs[..i + 1][..i] == reqs[..i];
  }

  /** The entries of `sizes` for the keys in `counted`. */
  ghost function Only(sizes: map<Key, nat>, counted: set<Key>): map<Key, nat> {
    map k | k in sizes && k in counted :: sizes[k]
  }

  lemma {:induction false} CountOne(sizes: map<Key, nat>, counted: set<Key>, k: Key)
    requires k in sizes && k !in counted
    ensures Bytes(Only(sizes, counted + {k})) == Bytes(Only(sizes, counted)) + sizes[k]
  {
    BytesInsert(Only(sizes, counted), k, sizes[k]);
    assert Only(sizes, counted + {k}) == Only(sizes, counted)[k := sizes[k]];
  }

  /** The working set is every object once, at its largest size. */
  method Summarize(reqs: seq<Request>) returns (st: Summary)
    ensures st == Summary(|reqs|, |Largest(reqs)|, Bytes(Largest(reqs)))
  {
    var sizes: map<Key, nat> := map[];
    for i := 0 to |reqs|
      invariant sizes == Largest(reqs[..i])
    {
      LargestStep(reqs, i);
      if reqs[i].key !in sizes || reqs[i].size > sizes[reqs[i].key] {
        sizes := sizes[reqs[i].key := reqs[i].size];
      }
    }
    assert reqs[..|reqs|] == reqs;
    LargestIsLargest(reqs);

    var total: nat := 0;
    var counted: set<Key> := {};
    assert Only(sizes, {}) == map[];
    for i := 0 to |reqs|
      invariant total == Bytes(Only(sizes, counted))
      invariant forall j :: 0 <= j < i ==> reqs[j].key in counted
    {
      var k := reqs[i].key;
      if k !in counted {
        CountOne(sizes, counted, k);
        counted := counted + {k};
        total := total + sizes[k];
      }
    }
    assert Only(sizes, counted) == sizes;
    st := Summary(|reqs|, |sizes|, total);
  }
}
