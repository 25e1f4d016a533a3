/** Prefix sums: how much the first k items of a list take up. */
module Sums {
  function Before(lengths: seq<nat>, k: nat): nat
    requires k <= |lengths|
  {
    if k == 0 then 0 else Before(lengths, k - 1) + lengths[k - 1]
  }

  function Total(lengths: seq<nat>): nat { Before(lengths, |lengths|) }

  lemma {:induction false} BeforeMonotone(lengths: seq<nat>, j: nat, k: nat)
    requires j <= k <= |lengths|
    ensures Before(lengths, j) <= Before(lengths, k)
    decreases k
  {
    if j < k {
      BeforeMonotone(lengths, j, k - 1);
    }
  }
}
