/** Splitting long IN lists over several queries (backend/app/graph/_chunking.py). */
module Chunking {
  import opened Wrappers

  const IN_CHUNK_SIZE := 500

  datatype ValueError = ValueError(size: int)

  function Concat<T>(batches: seq<seq<T>>): seq<T> {
    if batches == [] then [] else Concat(batches[..|batches| - 1]) + batches[|batches| - 1]
  }

  /** In order, nothing lost or repeated; every batch full except perhaps the last, none empty. */
  ghost predicate Splits<T>(batches: seq<seq<T>>, values: seq<T>, size: nat) {
    && Concat(batches) == values
    && (forall i :: 0 <= i < |batches| ==> 0 < |batches[i]| <= size)
    && (forall i :: 0 <= i < |batches| - 1 ==> |batches[i]| == size)
  }

  method Chunked<T>(values: seq<T>, size: int) returns (r: Result<seq<seq<T>>, ValueError>)
    ensures r.Err? <==> size <= 0
    ensures r.Err? ==> r.error == ValueError(size)
    ensures r.Ok? ==> Splits(r.value, values, size)
  {
    if size <= 0 {
      return Err(ValueError(size));
    }
    var batches: seq<seq<T>> := [];
    var batch: seq<T> := [];
    for i := 0 to |values|
      invariant Concat(batches) + batch == values[..i]
      invariant |batch| < size
      invariant forall k :: 0 <= k < |batches| ==> |batches[k]| == size
    {
      batch := batch + [values[i]];
      assert Concat(batches) + batch == values[..i + 1];
      if |batch| >= size {
        assert (batches + [batch])[..|batches|] == batches;
        batches := batches + [batch];
        batch := [];
      }
    }
    assert values[..|values|] == values;
    if batch != [] {
      assert (batches + [batch])[..|batches|] == batches;
      batches := batches + [batch];
    }
    return Ok(batches);
  }

  /** Every value falls into some batch, and the batches hold nothing else. */
  lemma {:induction false} InSomeBatch<T>(batches: seq<seq<T>>, x: T)
    ensures x in Concat(batches) <==> exists i :: 0 <= i < |batches| && x in batches[i]
  {
    if batches != [] {
      var m := |batches| - 1;
      InSomeBatch(batches[..m], x);
      assert forall i :: 0 <= i < m ==> batches[..m][i] == batches[i];
    }
  }

  /** The elements of a set in some order, as Python iterates over it. */
  method Enumerate<T(==)>(s: set<T>) returns (elements: seq<T>)
    ensures forall x :: x in elements <==> x in s
    ensures |elements| == |s|
  {
    elements := [];
    var rest := s;
    while rest != {}
      invariant rest <= s && |elements| + |rest| == |s|
      invariant forall x :: x in elements <==> x in s - rest
      decreases |rest|
    {
      var x :| x in rest;
      elements := elements + [x];
      rest := rest - {x};
    }
  }
}
