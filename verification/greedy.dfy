/** The distribution policy of an unindexed insert or extract on a multi-slot
    buffer, as a reference definition independent of the buffer's loop.

    `xs` holds each slot's headroom (free space for an insert, stored energy
    for an extract). Slots are served in index order, and slot `k` receives
    the smaller of its headroom and what is left of the request after every
    slot below it took all of its own headroom. */
module Greedy {
  import opened Transfer

  predicate NonNegative(xs: seq<int>) {
    forall k :: 0 <= k < |xs| ==> xs[k] >= 0
  }

  /** Sum of the first `m` entries. */
  function PrefixSum(xs: seq<int>, m: nat): (r: int)
    requires m <= |xs|
    ensures NonNegative(xs) ==> r >= 0
  {
    if m == 0 then 0 else PrefixSum(xs, m - 1) + xs[m - 1]
  }

  /** A sequence of zeros sums to zero. */
  lemma {:induction false} ZerosSumToZero(xs: seq<int>, m: nat)
    requires m <= |xs| && forall i :: 0 <= i < |xs| ==> xs[i] == 0
    ensures PrefixSum(xs, m) == 0
  {
    if m > 0 {
      ZerosSumToZero(xs, m - 1);
    }
  }

  /** Changing one entry by `d` changes every prefix sum that covers it by `d`. */
  lemma {:induction false} PrefixSumUpdate(xs: seq<int>, k: nat, d: int, m: nat)
    requires k < |xs| && m <= |xs|
    ensures PrefixSum(xs[k := xs[k] + d], m) == PrefixSum(xs, m) + (if k < m then d else 0)
  {
    if m > 0 {
      PrefixSumUpdate(xs, k, d, m - 1);
    }
  }

  /** The part of `request` that slot `k` receives. */
  function Share(xs: seq<int>, k: nat, request: int): (r: int)
    requires k < |xs|
    ensures 0 <= xs[k] ==> 0 <= r <= xs[k]
  {
    Min(xs[k], Max(0, request - PrefixSum(xs, k)))
  }

  lemma {:induction false} PrefixSumMonotone(xs: seq<int>, i: nat, j: nat)
    requires NonNegative(xs) && i <= j <= |xs|
    ensures PrefixSum(xs, i) <= PrefixSum(xs, j)
    decreases j
  {
    if i < j {
      PrefixSumMonotone(xs, i, j - 1);
    }
  }

  /** Serving slot `m` raises the running total from min(request, P(m)) to min(request, P(m+1)). */
  lemma ShareStep(xs: seq<int>, m: nat, request: int)
    requires NonNegative(xs) && m < |xs|
    ensures Min(request, PrefixSum(xs, m)) + Share(xs, m, request) == Min(request, PrefixSum(xs, m + 1))
  {
  }

  /** Once the slots below `k` can hold the whole request, slot `k` receives nothing. */
  lemma ShareAfterSaturation(xs: seq<int>, k: nat, request: int)
    requires NonNegative(xs) && k < |xs| && request <= PrefixSum(xs, k)
    ensures Share(xs, k, request) == 0
  {
  }

  /** Lowest index first: when a slot receives anything, every slot below it
      received all of its headroom. */
  lemma LowerSlotsServedFirst(xs: seq<int>, k: nat, j: nat, request: int)
    requires NonNegative(xs) && k < j < |xs| && Share(xs, j, request) > 0
    ensures Share(xs, k, request) == xs[k]
  {
    PrefixSumMonotone(xs, k + 1, j);
  }

  /** Adding every slot's share to `base` adds min(request, P(m)) to its prefix sums. */
  lemma {:induction false} AddedSharesSum(base: seq<int>, xs: seq<int>, result: seq<int>, request: int, m: nat)
    requires NonNegative(xs) && 0 <= request
    requires |base| == |xs| == |result| && m <= |xs|
    requires forall k :: 0 <= k < |xs| ==> result[k] == base[k] + Share(xs, k, request)
    ensures PrefixSum(result, m) == PrefixSum(base, m) + Min(request, PrefixSum(xs, m))
  {
    if m > 0 {
      AddedSharesSum(base, xs, result, request, m - 1);
      ShareStep(xs, m - 1, request);
    }
  }

  /** Taking every slot's share from `base` takes min(request, P(m)) from its prefix sums. */
  lemma {:induction false} TakenSharesSum(base: seq<int>, xs: seq<int>, result: seq<int>, request: int, m: nat)
    requires NonNegative(xs) && 0 <= request
    requires |base| == |xs| == |result| && m <= |xs|
    requires forall k :: 0 <= k < |xs| ==> result[k] == base[k] - Share(xs, k, request)
    ensures PrefixSum(result, m) == PrefixSum(base, m) - Min(request, PrefixSum(xs, m))
  {
    if m > 0 {
      TakenSharesSum(base, xs, result, request, m - 1);
      ShareStep(xs, m - 1, request);
    }
  }
}
