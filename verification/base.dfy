/** Small value types shared by the rest of the model. */
module Base {

  /** An optional value; `None` stands for Go's `nil` slice or `nil` error. */
  datatype Option<+T> = None | Some(value: T)

  /** The outcome of an operation that can fail with an error value. */
  datatype Result<+T, +E> = Success(value: T) | Failure(error: E)

  /** Go's built-in `min` on two integers. */
  function Min(a: int, b: int): int
  {
    if a < b then a else b
  }

  /** The keys that `key` gives the elements of `xs`, collected in order. */
  function KeySet<T, K(==)>(xs: seq<T>, key: T -> K): set<K>
  {
    if xs == [] then {} else KeySet(xs[..|xs| - 1], key) + {key(xs[|xs| - 1])}
  }

  /** No two elements of `xs` have the same key. */
  predicate DistinctKeys<T, K(==)>(xs: seq<T>, key: T -> K)
  {
    forall i, j | 0 <= i < j < |xs| :: key(xs[i]) != key(xs[j])
  }

  lemma KeySetSnoc<T, K>(xs: seq<T>, x: T, key: T -> K)
    ensures KeySet(xs + [x], key) == KeySet(xs, key) + {key(x)}
  {
    assert (xs + [x])[..|xs|] == xs;
  }

  /** The key set holds exactly the elements' keys. */
  lemma {:induction false} KeySetMembers<T, K>(xs: seq<T>, key: T -> K, k: K)
    ensures k in KeySet(xs, key) <==> exists i :: 0 <= i < |xs| && key(xs[i]) == k
  {
    if xs != [] {
      var init := xs[..|xs| - 1];
      KeySetMembers(init, key, k);
      if k in KeySet(init, key) {
        var i :| 0 <= i < |init| && key(init[i]) == k;
        assert xs[i] == init[i];
      }
      if exists i :: 0 <= i < |xs| && key(xs[i]) == k {
        var i :| 0 <= i < |xs| && key(xs[i]) == k;
        if i < |init| {
          assert init[i] == xs[i];
        }
      }
    }
  }

  /** There are at most as many keys as elements, and exactly as many when no two elements share a key. */
  lemma {:induction false} KeySetSize<T, K>(xs: seq<T>, key: T -> K)
    ensures |KeySet(xs, key)| <= |xs|
    ensures |KeySet(xs, key)| == |xs| <==> DistinctKeys(xs, key)
  {
    if xs != [] {
      var init := xs[..|xs| - 1];
      var last := xs[|xs| - 1];
      KeySetSize(init, key);
      KeySetMembers(init, key, key(last));
      if key(last) in KeySet(init, key) {
        var i :| 0 <= i < |init| && key(init[i]) == key(last);
        assert xs[i] == init[i];
        assert !DistinctKeys(xs, key);
      } else {
        assert |KeySet(xs, key)| == |KeySet(init, key)| + 1;
        if DistinctKeys(xs, key) {
          forall i, j | 0 <= i < j < |init| ensures key(init[i]) != key(init[j]) {
            assert init[i] == xs[i] && init[j] == xs[j];
          }
        }
        if DistinctKeys(init, key) {
          forall i, j | 0 <= i < j < |xs| ensures key(xs[i]) != key(xs[j]) {
            assert init[i] == xs[i];
            if j < |init| {
              assert init[j] == xs[j];
            } else {
              KeySetMembers(init, key, key(xs[i]));
            }
          }
        }
      }
    }
  }
}
