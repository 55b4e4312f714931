/** The loop both `EnergyHandlerUtil` copies run over a handler's slots: add
    each value to a Java `int` running sum, and return a sentinel as soon as the
    check `sum + amount < sum` fires on the wrapped addition. */
module SaturatingSum {
  import opened Transfer
  import opened Greedy

  /** The loop from slot `i` on, `sum` being the running total so far. */
  function SumFrom(values: seq<Int32>, i: nat, sum: Int32, sentinel: Int32): (r: Int32)
    requires i <= |values|
    decreases |values| - i
  {
    if i == |values| then sum
    else
      var amount := values[i];
      if Wrap32(sum + amount) < sum then sentinel
      else SumFrom(values, i + 1, Wrap32(sum + amount), sentinel)
  }

  /** `getAmount(handler)` / `getCapacity(handler)` over the slot values. */
  function Sum(values: seq<Int32>, sentinel: Int32): Int32 {
    SumFrom(values, 0, 0, sentinel)
  }

  /** The reference: the exact total when every value is non-negative and the
      total fits in an `int`, the sentinel otherwise. */
  function ExactOrSentinel(values: seq<Int32>, sentinel: Int32): (r: Int32)
    ensures r == sentinel || (NonNegative(values) && r == PrefixSum(values, |values|))
  {
    var total := PrefixSum(values, |values|);
    if NonNegative(values) && total <= INT32_MAX then total else sentinel
  }

  /** While the check has not fired, the running sum is the exact prefix sum,
      and the check fires exactly at the first negative value or the first
      prefix sum above `INT32_MAX`. */
  lemma {:induction false} SumFromIsExactOrSentinel(values: seq<Int32>, i: nat, sentinel: Int32)
    requires i <= |values| && 0 <= PrefixSum(values, i) <= INT32_MAX
    requires forall k :: 0 <= k < i ==> 0 <= values[k]
    ensures SumFrom(values, i, PrefixSum(values, i), sentinel) == ExactOrSentinel(values, sentinel)
    decreases |values| - i
  {
    if i < |values| {
      var sum := PrefixSum(values, i);
      var amount := values[i];
      if amount < 0 {
        assert Wrap32(sum + amount) == sum + amount;
        assert !NonNegative(values);
      } else if sum + amount > INT32_MAX {
        assert Wrap32(sum + amount) == sum + amount - 0x1_0000_0000;
        if NonNegative(values) {
          PrefixSumMonotone(values, i + 1, |values|);
        }
      } else {
        SumFromIsExactOrSentinel(values, i + 1, sentinel);
      }
    }
  }

  /** The whole loop: the exact total when every value is non-negative and the
      total fits in an `int`, the sentinel otherwise. */
  lemma SumIsExactOrSentinel(values: seq<Int32>, sentinel: Int32)
    ensures Sum(values, sentinel) == ExactOrSentinel(values, sentinel)
    ensures NonNegative(values) && PrefixSum(values, |values|) <= INT32_MAX
            ==> Sum(values, sentinel) == PrefixSum(values, |values|)
    ensures !NonNegative(values) || INT32_MAX < PrefixSum(values, |values|) ==> Sum(values, sentinel) == sentinel
    ensures 0 <= sentinel ==> 0 <= Sum(values, sentinel)
    ensures |values| == 0 ==> Sum(values, sentinel) == 0
  {
    SumFromIsExactOrSentinel(values, 0, sentinel);
  }
}
