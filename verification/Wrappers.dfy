/** Optional values, which the linker's sources write as std::optional or a nullable pointer, and lists
    without repetition. */
module Wrappers {

  datatype Option<+T> = None | Some(value: T)

  /** No element occurs twice. */
  ghost predicate NoRepeats<T>(xs: seq<T>) {
    forall i, j | 0 <= i < j < |xs| :: xs[i] != xs[j]
  }

  /** Element k of ys is the one at idx[k] in xs. */
  ghost predicate PickedAt<T>(xs: seq<T>, ys: seq<T>, idx: seq<nat>, k: nat) {
    k < |idx| && k < |ys| && idx[k] < |xs| && ys[k] == xs[idx[k]]
  }

  /** ys is xs with some elements left out. */
  ghost predicate Picks<T>(xs: seq<T>, ys: seq<T>, idx: seq<nat>) {
    && |idx| == |ys| && (forall i, j | 0 <= i < j < |idx| :: idx[i] < idx[j])
    && (forall k {:trigger PickedAt(xs, ys, idx, k)} | 0 <= k < |idx| :: PickedAt(xs, ys, idx, k))
  }

  /** The last element, taken or left out. */
  lemma PickNext<T>(xs: seq<T>, ys: seq<T>, idx: seq<nat>, taken: bool) returns (more: seq<nat>)
    requires xs != [] && Picks(xs[..|xs| - 1], ys, idx)
    ensures Picks(xs, ys + if taken then [xs[|xs| - 1]] else [], more)
    ensures |xs| - 1 !in idx && more == idx + if taken then [|xs| - 1] else []
  {
    var n := |xs| - 1;
    more := idx + if taken then [n] else [];
    var now := ys + if taken then [xs[n]] else [];
    forall k | 0 <= k < |idx| ensures idx[k] < n && PickedAt(xs, now, more, k) {
      assert PickedAt(xs[..n], ys, idx, k);
    }
    assert taken ==> PickedAt(xs, now, more, |idx|);
  }
}
