/** `transfer/energy/EnergyHandlerUtil`: the no-op handler and the two totals,
    which add a handler's slots into a Java `int` and return `MAX_VALUE` (2E9)
    when the addition wraps. Both totals are declared to stay within
    [0, MAX_VALUE]; as written they do not, so the model keeps the loop as
    written beside a corrected total that saturates at `MAX_VALUE`. */
module EnergyHandlerUtil {
  import opened Transfer
  import BufferCore
  import SaturatingSum
  import opened Handlers

  /** `EMPTY`: size 0, every query 0 or false, every transfer 0. */
  const EMPTY: Handler := Empty

  /** `getAmount(handler)` as written. */
  function GetAmountAsWritten(h: Handler): (r: Int32)
    requires Valid(h)
    ensures 0 <= r
    ensures Stored(h) <= INT32_MAX ==> r == Stored(h)
    ensures INT32_MAX < Stored(h) ==> r == MAX_VALUE
  {
    SaturatingSum.SumIsExactOrSentinel(Amounts(h), MAX_VALUE as Int32);
    SaturatingSum.Sum(Amounts(h), MAX_VALUE as Int32)
  }

  /** `getCapacity(handler)` as written. */
  function GetCapacityAsWritten(h: Handler): (r: Int32)
    requires Valid(h)
    ensures 0 <= r
    ensures var total := Greedy.PrefixSum(Capacities(h), Size(h) as int);
            && (total <= INT32_MAX ==> r == total)
            && (INT32_MAX < total ==> r == MAX_VALUE)
  {
    SaturatingSum.SumIsExactOrSentinel(Capacities(h), MAX_VALUE as Int32);
    SaturatingSum.Sum(Capacities(h), MAX_VALUE as Int32)
  }

  /** Two two-slot buffers whose totals fit in an `int` but exceed 2E9: one
      holding 2E9 and 1E8, one with capacity 1.05E9 per slot. No addition
      wraps, so the loop as written returns 2.1E9 for both, above the
      declared bound `MAX_VALUE`. */
  lemma AsWrittenExceedsDeclaredRange()
    ensures var h := EarlyBuffer(BufferCore.Slots([2_000_000_000, 100_000_000], 2_000_000_000, 0, 0));
            && Valid(h)
            && GetAmountAsWritten(h) == 2_100_000_000 > MAX_VALUE
    ensures var h := EarlyBuffer(BufferCore.Slots([0, 0], 1_050_000_000, 0, 0));
            && Valid(h)
            && GetCapacityAsWritten(h) == 2_100_000_000 > MAX_VALUE
  {
    BufferAmountsAreSlots(EarlyBuffer(BufferCore.Slots([2_000_000_000, 100_000_000], 2_000_000_000, 0, 0)));
    var h := EarlyBuffer(BufferCore.Slots([0, 0], 1_050_000_000, 0, 0));
    var caps := Capacities(h);
    assert caps[0] == 1_050_000_000 && caps[1] == 1_050_000_000;
    assert Greedy.PrefixSum(caps, 2) == 2_100_000_000 by {
      assert Greedy.PrefixSum(caps, 1) == Greedy.PrefixSum(caps, 0) + caps[0];
    }
  }

  /** The total as intended: the stored energy, saturating at `MAX_VALUE`. */
  function GetAmount(h: Handler): (r: Int32)
    requires Valid(h)
    ensures 0 <= r <= MAX_VALUE
    ensures Stored(h) <= MAX_VALUE ==> r == Stored(h)
    ensures MAX_VALUE <= Stored(h) ==> r == MAX_VALUE
  {
    Min(GetAmountAsWritten(h), MAX_VALUE)
  }

  /** The capacity total as intended: the summed capacities, saturating at `MAX_VALUE`. */
  function GetCapacity(h: Handler): (r: Int32)
    requires Valid(h)
    ensures 0 <= r <= MAX_VALUE
    ensures var total := Greedy.PrefixSum(Capacities(h), Size(h) as int);
            && (total <= MAX_VALUE ==> r == total)
            && (MAX_VALUE <= total ==> r == MAX_VALUE)
  {
    Min(GetCapacityAsWritten(h), MAX_VALUE)
  }

  /** The corrected totals agree with the loop as written whenever the loop
      stays within its declared range, and never exceed the capacity total. */
  lemma CorrectedAgreesWithinRange(h: Handler)
    requires Valid(h)
    ensures GetAmountAsWritten(h) <= MAX_VALUE ==> GetAmount(h) == GetAmountAsWritten(h)
    ensures GetCapacityAsWritten(h) <= MAX_VALUE ==> GetCapacity(h) == GetCapacityAsWritten(h)
    ensures GetAmount(h) <= GetCapacity(h)
  {
    StoredWithinCapacities(h, Size(h) as int);
  }

  /** Every prefix of the amounts is bounded by the same prefix of the capacities. */
  lemma {:induction false} StoredWithinCapacities(h: Handler, m: nat)
    requires Valid(h) && m <= Size(h) as int
    ensures Greedy.PrefixSum(Amounts(h), m) <= Greedy.PrefixSum(Capacities(h), m)
  {
    if m > 0 {
      StoredWithinCapacities(h, m - 1);
      var i := (m - 1) as Int32;
      assert Handlers.GetAmount(h, i) == Ok(Amounts(h)[i]);
      assert Handlers.GetCapacity(h, i) == Ok(Capacities(h)[i]);
    }
  }

  /** `EMPTY` holds nothing, allows nothing and moves nothing. */
  lemma EmptyDoesNothing(index: Int32, amount: Int32, action: Action)
    ensures Size(EMPTY) == 0 && GetAmount(EMPTY) == 0 && GetCapacity(EMPTY) == 0
    ensures Handlers.GetAmount(EMPTY, index) == Ok(0) && Handlers.GetCapacity(EMPTY, index) == Ok(0)
    ensures !AllowsInsertion(EMPTY) && !AllowsExtraction(EMPTY)
    ensures InsertAt(EMPTY, index, amount, action) == Ok(Moved(0, EMPTY))
    ensures ExtractAt(EMPTY, index, amount, action) == Ok(Moved(0, EMPTY))
    ensures Insert(EMPTY, amount, action) == Moved(0, EMPTY)
    ensures Extract(EMPTY, amount, action) == Moved(0, EMPTY)
  {
    HintIsSomeIndex(EMPTY);
  }
}
