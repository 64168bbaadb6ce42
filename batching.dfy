/**
 * The batching done by the extract loop: for i in range(0, len(addresses), B)
 * the loop takes the slice addresses[i:i+B]. Python clamps the slice at the
 * end of the list, so the last batch may be shorter than B.
 */
module Batching {
  import opened Sequences

  /** The slice xs[i:i+size], clamped at the end of `xs`. */
  function Slice<T>(xs: seq<T>, i: nat, size: nat): (b: seq<T>)
    requires i <= |xs|
    ensures |b| == if i + size <= |xs| then size else |xs| - i
    ensures forall k :: 0 <= k < |b| ==> b[k] == xs[i + k]
  {
    xs[i..if i + size <= |xs| then i + size else |xs|]
  }

  /** The batches visited from offset `i` onwards: one per offset i, i + size, ... below |xs|. */
  function BatchesFrom<T>(xs: seq<T>, i: nat, size: nat): seq<seq<T>>
    requires size > 0
    decreases |xs| - i
  {
    if i >= |xs| then [] else [Slice(xs, i, size)] + BatchesFrom(xs, i + size, size)
  }

  /** All the batches the loop visits, in loop order. */
  function Batches<T>(xs: seq<T>, size: nat): seq<seq<T>>
    requires size > 0
  {
    BatchesFrom(xs, 0, size)
  }

  /** The batches from offset i concatenate to the rest of the list from i. */
  lemma {:induction false} BatchesFromFlatten<T>(xs: seq<T>, i: nat, size: nat)
    requires size > 0 && i <= |xs|
    ensures Flatten(BatchesFrom(xs, i, size)) == xs[i..]
    decreases |xs| - i
  {
    if i < |xs| {
      var b := Slice(xs, i, size);
      var j := i + |b|;
      if i + size <= |xs| {
        BatchesFromFlatten(xs, i + size, size);
      } else {
        assert BatchesFrom(xs, i + size, size) == [];
      }
      assert xs[i..] == b + xs[j..];
    }
  }

  /** No address is dropped or repeated: the batches, concatenated in order, are the list. */
  lemma {:induction false} BatchesFlatten<T>(xs: seq<T>, size: nat)
    requires size > 0
    ensures Flatten(Batches(xs, size)) == xs
  {
    BatchesFromFlatten(xs, 0, size);
  }

  /** Every batch holds between 1 and `size` elements, and all but the last exactly `size`. */
  predicate WellSized<T>(bs: seq<seq<T>>, size: nat)
  {
    && (forall k :: 0 <= k < |bs| ==> 1 <= |bs[k]| <= size)
    && (forall k :: 0 <= k < |bs| - 1 ==> |bs[k]| == size)
  }

  /** Every batch holds between 1 and `size` elements, and all but the last exactly `size`. */
  lemma {:induction false} BatchesFromSizes<T>(xs: seq<T>, i: nat, size: nat)
    requires size > 0
    ensures WellSized(BatchesFrom(xs, i, size), size)
    decreases |xs| - i
  {
    if i < |xs| {
      BatchesFromSizes(xs, i + size, size);
      var bs := BatchesFrom(xs, i, size);
      var rest := BatchesFrom(xs, i + size, size);
      assert bs == [Slice(xs, i, size)] + rest;
      if i + size >= |xs| {
        assert rest == [];
      }
      forall k | 1 <= k < |bs|
        ensures bs[k] == rest[k - 1]
      {
      }
    }
  }

  /** Batch sizes for the whole list. */
  lemma {:induction false} BatchesSizes<T>(xs: seq<T>, size: nat)
    requires size > 0
    ensures WellSized(Batches(xs, size), size)
  {
    BatchesFromSizes(xs, 0, size);
  }

  /**
   * The number of batches from offset i is the ceiling of (|xs| - i) / size:
   * that many full batches cover the rest, one fewer does not.
   */
  lemma {:induction false} BatchesFromCount<T>(xs: seq<T>, i: nat, size: nat)
    requires size > 0 && i <= |xs|
    ensures var n := |BatchesFrom(xs, i, size)|;
      n * size >= |xs| - i && (n == 0 || (n - 1) * size < |xs| - i)
    decreases |xs| - i
  {
    if i < |xs| {
      var n := |BatchesFrom(xs, i, size)|;
      if i + size <= |xs| {
        BatchesFromCount(xs, i + size, size);
        var m := |BatchesFrom(xs, i + size, size)|;
        assert n == m + 1;
        assert n * size == m * size + size;
        assert (n - 1) * size == m * size;
        if m > 0 {
          assert (m - 1) * size + size == m * size;
        }
      } else {
        assert n == 1;
      }
    }
  }

  /** The number of batches is ceil(|xs| / size), stated with division. */
  lemma {:induction false} BatchesCount<T>(xs: seq<T>, size: nat)
    requires size > 0
    ensures |Batches(xs, size)| == (|xs| + size - 1) / size
  {
    BatchesFromCount(xs, 0, size);
    var n := |Batches(xs, size)|;
    CeilingUnique(|xs|, size, n);
  }

  /** The only n with (n - 1) * d < m <= n * d (or n == 0 == m) is (m + d - 1) / d. */
  lemma {:induction false} CeilingUnique(m: nat, d: nat, n: nat)
    requires d > 0
    requires n * d >= m && (n == 0 || (n - 1) * d < m)
    ensures n == (m + d - 1) / d
  {
    var q := (m + d - 1) / d;
    var r := (m + d - 1) % d;
    assert q * d + r == m + d - 1;
    if n < q {
      MultiplyMonotone(n + 1, q, d);
    } else if n > q {
      MultiplyMonotone(q + 1, n, d);
    }
  }

  lemma {:induction false} MultiplyMonotone(a: nat, b: nat, d: nat)
    requires a <= b
    ensures a * d <= b * d
  {
  }

  /** An empty address list gives no batches, and a non-empty one at least one. */
  lemma {:induction false} BatchesEmpty<T>(xs: seq<T>, size: nat)
    requires size > 0
    ensures Batches(xs, size) == [] <==> xs == []
  {
  }

  /** The worked case: three addresses in batches of two. */
  lemma {:induction false} BatchesOfThree()
    ensures Batches(["0xAA", "0xBB", "0xCC"], 2) == [["0xAA", "0xBB"], ["0xCC"]]
  {
    var xs := ["0xAA", "0xBB", "0xCC"];
    assert BatchesFrom(xs, 4, 2) == [];
    assert Slice(xs, 2, 2) == ["0xCC"];
    assert Slice(xs, 0, 2) == ["0xAA", "0xBB"];
  }
}
