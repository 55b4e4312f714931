/** `transfer/EnergyHandlerUtil`: the same two totals with `Integer.MAX_VALUE`
    as the overflow result, which makes them saturating sums of the slots. */
module TransferEnergyHandlerUtil {
  import opened Transfer
  import SaturatingSum
  import Greedy
  import opened Handlers

  /** `EMPTY`: documented as accepting every transfer, but every method answers
      0 or false, so it is the same no-op handler as the other copy's. */
  const EMPTY: Handler := Empty

  /** `getAmount(handler)`: the stored energy, or `Integer.MAX_VALUE` when the
      total does not fit in an `int`. */
  function GetAmount(h: Handler): (r: Int32)
    requires Valid(h)
    ensures 0 <= r
    ensures r == Min(Stored(h), INT32_MAX)
  {
    SaturatingSum.SumIsExactOrSentinel(Amounts(h), INT32_MAX as Int32);
    SaturatingSum.Sum(Amounts(h), INT32_MAX as Int32)
  }

  /** `getCapacity(handler)`: the summed capacities, or `Integer.MAX_VALUE`
      when the total does not fit in an `int`. */
  function GetCapacity(h: Handler): (r: Int32)
    requires Valid(h)
    ensures 0 <= r
    ensures r == Min(Greedy.PrefixSum(Capacities(h), Size(h) as int), INT32_MAX)
  {
    SaturatingSum.SumIsExactOrSentinel(Capacities(h), INT32_MAX as Int32);
    SaturatingSum.Sum(Capacities(h), INT32_MAX as Int32)
  }

  /** An executed transfer changes the reported total by the amount moved,
      as long as the total stays representable. */
  lemma TotalFollowsTransfers(h: Handler, amount: Int32)
    requires Valid(h) && !h.Void?
    ensures var m := Insert(h, amount, Execute);
            Stored(m.state) <= INT32_MAX ==> GetAmount(m.state) == GetAmount(h) + m.amount
    ensures var m := Extract(h, amount, Execute);
            Stored(h) <= INT32_MAX ==> GetAmount(m.state) == GetAmount(h) - m.amount
  {
    ExecuteMovesReportedAmount(h, 0, amount);
  }
}
