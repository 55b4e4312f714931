/** The slot logic both `EnergyBuffer` classes share statement for statement:
    a fixed sequence of slots, one capacity for every slot, and per-call
    insertion and extraction caps; indexed and unindexed insert and extract,
    `getAmount`, the per-index hints, and the fluent builder's setters.

    The two classes differ only in their constructor checks, in whether
    `getCapacity` checks its index, in `set` and in `Builder.create`; those
    parts live in the modules EnergyBuffer (the `templates` class) and
    EarlyEnergyBuffer (the older class). */
module BufferCore {
  import opened Transfer
  import opened Greedy

  /** The fields of an `EnergyBuffer`; `size` is `|energy|`. */
  datatype Slots = Slots(energy: seq<Int32>, capacity: Int32, maxInsert: Int32, maxExtract: Int32)

  /** The invariant both constructors establish and every operation keeps. */
  predicate Valid(b: Slots) {
    && 0 <= b.capacity
    && forall i :: 0 <= i < |b.energy| ==> 0 <= b.energy[i] <= b.capacity
  }

  /** Only slot contents may differ between `b` and `b'`. */
  predicate SameConfig(b: Slots, b': Slots) {
    && |b'.energy| == |b.energy|
    && b'.capacity == b.capacity
    && b'.maxInsert == b.maxInsert
    && b'.maxExtract == b.maxExtract
  }

  /** Free space left in each slot. */
  function Room(b: Slots): (r: seq<int>)
    requires Valid(b)
    ensures |r| == |b.energy| && NonNegative(r)
    ensures forall k :: 0 <= k < |r| ==> r[k] == b.capacity - b.energy[k]
  {
    seq(|b.energy|, k requires 0 <= k < |b.energy| => b.capacity - b.energy[k])
  }

  /** Energy stored across all slots (unbounded, unlike the util's int sum). */
  function Total(b: Slots): int {
    PrefixSum(b.energy, |b.energy|)
  }

  // ---------------------------------------------------------------------------
  // Per-index queries

  /** `getAmount(index)`. */
  function GetAmount(b: Slots, index: Int32): (r: Result<Int32>)
    requires Valid(b)
    ensures r.Ok? <==> InRange(index, |b.energy|)
    ensures r.Err? ==> r.error == IndexOutOfBounds
    ensures r.Ok? ==> 0 <= r.value <= b.capacity && r.value == b.energy[index]
  {
    if !InRange(index, |b.energy|) then Err(IndexOutOfBounds) else Ok(b.energy[index])
  }

  /** `allowsInsertion(index)`: a configuration hint, independent of how full the slot is. */
  function AllowsInsertionAt(b: Slots, index: Int32): (r: Result<bool>)
    ensures r.Ok? <==> InRange(index, |b.energy|)
    ensures r.Err? ==> r.error == IndexOutOfBounds
    ensures r.Ok? ==> (r.value <==> b.maxInsert > 0)
  {
    if !InRange(index, |b.energy|) then Err(IndexOutOfBounds) else Ok(b.maxInsert > 0)
  }

  /** `allowsExtraction(index)`: a configuration hint, independent of how full the slot is. */
  function AllowsExtractionAt(b: Slots, index: Int32): (r: Result<bool>)
    ensures r.Ok? <==> InRange(index, |b.energy|)
    ensures r.Err? ==> r.error == IndexOutOfBounds
    ensures r.Ok? ==> (r.value <==> b.maxExtract > 0)
  {
    if !InRange(index, |b.energy|) then Err(IndexOutOfBounds) else Ok(b.maxExtract > 0)
  }

  // ---------------------------------------------------------------------------
  // One slot

  /** `insertCommon` / `commonInsert`: put as much of `amount` into slot
      `index` as fits, committing only when executing. */
  function InsertCommon(b: Slots, index: nat, amount: Int32, action: Action): (m: Moved<Slots>)
    requires Valid(b) && index < |b.energy| && 0 < amount
    ensures 0 <= m.amount <= amount && b.energy[index] + m.amount <= b.capacity
    ensures b.maxInsert > 0 ==> m.amount == amount || b.energy[index] + m.amount == b.capacity
    ensures b.maxInsert <= 0 ==> m.amount == 0
    ensures m.state == if action.IsExecuting() then b.(energy := b.energy[index := b.energy[index] + m.amount]) else b
  {
    if !(b.maxInsert > 0) then Moved(0, b)
    else
      var current := b.energy[index];
      var inserted := Min(b.capacity - current, amount);
      Moved(inserted, if action.IsExecuting() then b.(energy := b.energy[index := current + inserted]) else b)
  }

  /** `extractCommon`: take as much of `amount` out of slot `index` as it
      holds, committing only when executing. */
  function ExtractCommon(b: Slots, index: nat, amount: Int32, action: Action): (m: Moved<Slots>)
    requires Valid(b) && index < |b.energy|
    ensures 0 <= m.amount <= Max(0, amount) && m.amount <= b.energy[index]
    ensures b.maxExtract > 0 && 0 < amount ==> m.amount == amount || m.amount == b.energy[index]
    ensures b.maxExtract <= 0 ==> m.amount == 0
    ensures m.state == if action.IsExecuting() then b.(energy := b.energy[index := b.energy[index] - m.amount]) else b
  {
    if amount <= 0 then Moved(0, b)
    else if !(b.maxExtract > 0) then Moved(0, b)
    else
      var current := b.energy[index];
      if current == 0 then Moved(0, b)
      else
        var handled := Min(current, amount);
        Moved(handled, if action.IsExecuting() then b.(energy := b.energy[index := current - handled]) else b)
  }

  // ---------------------------------------------------------------------------
  // Indexed transfers

  /** `insert(index, amount, action)`. */
  function InsertAt(b: Slots, index: Int32, amount: Int32, action: Action): (r: Result<Moved<Slots>>)
    requires Valid(b)
    ensures r.Ok? <==> InRange(index, |b.energy|)
    ensures r.Err? ==> r.error == IndexOutOfBounds
    ensures r.Ok? ==>
              var m := r.value;
              var request := Min(b.maxInsert, amount);
              && Valid(m.state)
              && 0 <= m.amount <= Max(0, request)
              && b.energy[index] + m.amount <= b.capacity
              && (0 < request ==> m.amount == request || b.energy[index] + m.amount == b.capacity)
              && m.state == if action.Execute? then b.(energy := b.energy[index := b.energy[index] + m.amount]) else b
  {
    if !InRange(index, |b.energy|) then Err(IndexOutOfBounds)
    else
      var request := Min(b.maxInsert, amount);
      if request <= 0 then Ok(Moved(0, b))
      else Ok(InsertCommon(b, index, request, action))
  }

  /** `extract(index, amount, action)`. */
  function ExtractAt(b: Slots, index: Int32, amount: Int32, action: Action): (r: Result<Moved<Slots>>)
    requires Valid(b)
    ensures r.Ok? <==> InRange(index, |b.energy|)
    ensures r.Err? ==> r.error == IndexOutOfBounds
    ensures r.Ok? ==>
              var m := r.value;
              var request := Min(b.maxExtract, amount);
              && Valid(m.state)
              && 0 <= m.amount <= Max(0, request)
              && m.amount <= b.energy[index]
              && (0 < request ==> m.amount == request || m.amount == b.energy[index])
              && m.state == if action.Execute? then b.(energy := b.energy[index := b.energy[index] - m.amount]) else b
  {
    if !InRange(index, |b.energy|) then Err(IndexOutOfBounds)
    else
      var request := Min(b.maxExtract, amount);
      if request <= 0 then Ok(Moved(0, b))
      else Ok(ExtractCommon(b, index, request, action))
  }

  // ---------------------------------------------------------------------------
  // Unindexed transfers: the greedy loops

  /** The loop of `insert(amount, action)` from slot `index` on, `handled`
      being what the slots below `index` accepted. */
  function InsertLoop(b: Slots, index: nat, request: Int32, handled: Int32, action: Action): (m: Moved<Slots>)
    requires Valid(b) && index <= |b.energy| && 0 <= handled <= request
    ensures SameConfig(b, m.state)
    ensures handled <= m.amount <= request
    ensures action.Simulate? ==> m.state == b
    decreases |b.energy| - index
  {
    if index == |b.energy| || handled == request then Moved(handled, b)
    else
      var step := InsertCommon(b, index, request - handled, action);
      InsertLoop(step.state, index + 1, request, handled + step.amount, action)
  }

  /** The loop of `extract(amount, action)` from slot `index` on. */
  function ExtractLoop(b: Slots, index: nat, request: Int32, handled: Int32, action: Action): (m: Moved<Slots>)
    requires Valid(b) && index <= |b.energy| && 0 <= handled <= request
    ensures SameConfig(b, m.state)
    ensures handled <= m.amount <= request
    ensures action.Simulate? ==> m.state == b
    decreases |b.energy| - index
  {
    if index == |b.energy| || handled == request then Moved(handled, b)
    else
      var step := ExtractCommon(b, index, request - handled, action);
      ExtractLoop(step.state, index + 1, request, handled + step.amount, action)
  }

  /** `insert(amount, action)`: the request, capped by `maxInsert`, spread over the slots. */
  function Insert(b: Slots, amount: Int32, action: Action): (m: Moved<Slots>)
    requires Valid(b)
    ensures Valid(m.state) && SameConfig(b, m.state)
    ensures 0 <= m.amount <= Max(0, Min(b.maxInsert, amount))
    ensures action.Simulate? ==> m.state == b
  {
    var request := Min(b.maxInsert, amount);
    if request <= 0 then Moved(0, b)
    else
      assert Filled(b, request, 0) == b.energy;
      InsertLoopIsGreedy(b, 0, request, action);
      InsertLoop(b, 0, request, 0, action)
  }

  /** `extract(amount, action)`: the request, capped by `maxExtract`, drawn from the slots. */
  function Extract(b: Slots, amount: Int32, action: Action): (m: Moved<Slots>)
    requires Valid(b)
    ensures Valid(m.state) && SameConfig(b, m.state)
    ensures 0 <= m.amount <= Max(0, Min(b.maxExtract, amount))
    ensures action.Simulate? ==> m.state == b
  {
    var request := Min(b.maxExtract, amount);
    if request <= 0 then Moved(0, b)
    else
      assert Drained(b, request, 0) == b.energy;
      ExtractLoopIsGreedy(b, 0, request, action);
      ExtractLoop(b, 0, request, 0, action)
  }

  // ---------------------------------------------------------------------------
  // Reference definitions of the greedy distribution

  /** Slot contents once the slots below `m` took their share of `request`. */
  function Filled(b: Slots, request: int, m: nat): (r: seq<Int32>)
    requires Valid(b) && m <= |b.energy|
    ensures |r| == |b.energy| && Valid(b.(energy := r))
  {
    var room := Room(b);
    seq(|b.energy|, k requires 0 <= k < |b.energy| =>
      if k < m then b.energy[k] + Share(room, k, request) else b.energy[k])
  }

  /** Slot contents once the slots below `m` gave up their share of `request`. */
  function Drained(b: Slots, request: int, m: nat): (r: seq<Int32>)
    requires Valid(b) && m <= |b.energy|
    ensures |r| == |b.energy| && Valid(b.(energy := r))
  {
    seq(|b.energy|, k requires 0 <= k < |b.energy| =>
      if k < m then b.energy[k] - Share(b.energy, k, request) else b.energy[k])
  }

  lemma StockNonNegative(b: Slots)
    requires Valid(b)
    ensures NonNegative(b.energy)
  {
  }

  /** The buffer after the slots below `m` took their insertion share. */
  function FilledState(b0: Slots, request: int, m: nat, action: Action): (b: Slots)
    requires Valid(b0) && m <= |b0.energy|
    ensures Valid(b) && SameConfig(b0, b)
  {
    if action.Execute? then b0.(energy := Filled(b0, request, m)) else b0
  }

  /** The buffer after the slots below `m` gave up their extraction share. */
  function DrainedState(b0: Slots, request: int, m: nat, action: Action): (b: Slots)
    requires Valid(b0) && m <= |b0.energy|
    ensures Valid(b) && SameConfig(b0, b)
  {
    if action.Execute? then b0.(energy := Drained(b0, request, m)) else b0
  }

  /** Once the request is used up, the remaining slots keep their contents. */
  lemma FilledSaturated(b0: Slots, request: int, index: nat)
    requires Valid(b0) && index <= |b0.energy| && request <= PrefixSum(Room(b0), index)
    ensures Filled(b0, request, index) == Filled(b0, request, |b0.energy|)
  {
    var room := Room(b0);
    forall k | index <= k < |b0.energy|
      ensures Share(room, k, request) == 0
    {
      PrefixSumMonotone(room, index, k);
      ShareAfterSaturation(room, k, request);
    }
  }

  lemma DrainedSaturated(b0: Slots, request: int, index: nat)
    requires Valid(b0) && index <= |b0.energy| && request <= PrefixSum(b0.energy, index)
    ensures Drained(b0, request, index) == Drained(b0, request, |b0.energy|)
  {
    StockNonNegative(b0);
    forall k | index <= k < |b0.energy|
      ensures Share(b0.energy, k, request) == 0
    {
      PrefixSumMonotone(b0.energy, index, k);
      ShareAfterSaturation(b0.energy, k, request);
    }
  }

  /** One turn of the insert loop serves slot `index` its greedy share. */
  lemma InsertStepIsShare(b0: Slots, index: nat, request: Int32, action: Action)
    requires Valid(b0) && 0 < request <= b0.maxInsert && index < |b0.energy|
    requires PrefixSum(Room(b0), index) < request
    ensures var handled := PrefixSum(Room(b0), index);
            InsertCommon(FilledState(b0, request, index, action), index, request - handled, action)
            == Moved(Share(Room(b0), index, request), FilledState(b0, request, index + 1, action))
  {
    var room := Room(b0);
    var handled := PrefixSum(room, index);
    var b := FilledState(b0, request, index, action);
    assert b.energy[index] == b0.energy[index];
    var share := Share(room, index, request);
    assert share == Min(b0.capacity - b0.energy[index], request - handled);
    var step := InsertCommon(b, index, request - handled, action);
    assert step.amount == share;
    if action.Execute? {
      var after := Filled(b0, request, index + 1);
      assert step.state.energy == b.energy[index := b.energy[index] + share];
      forall k | 0 <= k < |after|
        ensures step.state.energy[k] == after[k]
      {
      }
      assert step.state.energy == after;
    }
  }

  /** One turn of the extract loop takes slot `index`'s greedy share. */
  lemma ExtractStepIsShare(b0: Slots, index: nat, request: Int32, action: Action)
    requires Valid(b0) && 0 < request <= b0.maxExtract && index < |b0.energy|
    requires PrefixSum(b0.energy, index) < request
    ensures var handled := PrefixSum(b0.energy, index);
            ExtractCommon(DrainedState(b0, request, index, action), index, request - handled, action)
            == Moved(Share(b0.energy, index, request), DrainedState(b0, request, index + 1, action))
  {
    StockNonNegative(b0);
    var step := ExtractCommon(DrainedState(b0, request, index, action), index, request - PrefixSum(b0.energy, index), action);
    if action.Execute? {
      assert step.state.energy == Drained(b0, request, index + 1);
    }
  }

  /** The insert loop's exit: past the last slot, or once the request is used up. */
  lemma InsertLoopSaturated(b0: Slots, index: nat, request: Int32, action: Action)
    requires Valid(b0) && 0 < request <= b0.maxInsert && index <= |b0.energy|
    requires index == |b0.energy| || request <= PrefixSum(Room(b0), index)
    ensures InsertLoop(FilledState(b0, request, index, action), index, request, Min(request, PrefixSum(Room(b0), index)), action)
            == Moved(Min(request, PrefixSum(Room(b0), |b0.energy|)), FilledState(b0, request, |b0.energy|, action))
  {
    if index < |b0.energy| {
      PrefixSumMonotone(Room(b0), index, |b0.energy|);
      FilledSaturated(b0, request, index);
    }
  }

  /** The insert loop's turn at slot `index`, unfolded once. */
  lemma InsertLoopUnfold(b0: Slots, index: nat, request: Int32, action: Action)
    requires Valid(b0) && 0 < request <= b0.maxInsert && index < |b0.energy|
    requires PrefixSum(Room(b0), index) < request
    ensures InsertLoop(FilledState(b0, request, index, action), index, request, Min(request, PrefixSum(Room(b0), index)), action)
            == InsertLoop(FilledState(b0, request, index + 1, action), index + 1, request, Min(request, PrefixSum(Room(b0), index + 1)), action)
  {
    var room := Room(b0);
    var b := FilledState(b0, request, index, action);
    var handled := Min(request, PrefixSum(room, index));
    InsertStepIsShare(b0, index, request, action);
    var step := InsertCommon(b, index, request - handled, action);
    assert step == Moved(Share(room, index, request), FilledState(b0, request, index + 1, action));
    ShareStep(room, index, request);
    assert InsertLoop(b, index, request, handled, action)
        == InsertLoop(step.state, index + 1, request, handled + step.amount, action);
  }

  lemma {:induction false} InsertLoopIsGreedy(b0: Slots, index: nat, request: Int32, action: Action)
    requires Valid(b0) && 0 < request <= b0.maxInsert && index <= |b0.energy|
    ensures InsertLoop(FilledState(b0, request, index, action), index, request, Min(request, PrefixSum(Room(b0), index)), action)
            == Moved(Min(request, PrefixSum(Room(b0), |b0.energy|)), FilledState(b0, request, |b0.energy|, action))
    decreases |b0.energy| - index
  {
    if index == |b0.energy| || request <= PrefixSum(Room(b0), index) {
      InsertLoopSaturated(b0, index, request, action);
    } else {
      InsertLoopUnfold(b0, index, request, action);
      InsertLoopIsGreedy(b0, index + 1, request, action);
    }
  }

  /** The extract loop's exit: past the last slot, or once the request is used up. */
  lemma ExtractLoopSaturated(b0: Slots, index: nat, request: Int32, action: Action)
    requires Valid(b0) && 0 < request <= b0.maxExtract && index <= |b0.energy|
    requires index == |b0.energy| || request <= PrefixSum(b0.energy, index)
    ensures ExtractLoop(DrainedState(b0, request, index, action), index, request, Min(request, PrefixSum(b0.energy, index)), action)
            == Moved(Min(request, PrefixSum(b0.energy, |b0.energy|)), DrainedState(b0, request, |b0.energy|, action))
  {
    StockNonNegative(b0);
    if index < |b0.energy| {
      PrefixSumMonotone(b0.energy, index, |b0.energy|);
      DrainedSaturated(b0, request, index);
    }
  }

  /** The extract loop's turn at slot `index`, unfolded once. */
  lemma ExtractLoopUnfold(b0: Slots, index: nat, request: Int32, action: Action)
    requires Valid(b0) && 0 < request <= b0.maxExtract && index < |b0.energy|
    requires PrefixSum(b0.energy, index) < request
    ensures ExtractLoop(DrainedState(b0, request, index, action), index, request, Min(request, PrefixSum(b0.energy, index)), action)
            == ExtractLoop(DrainedState(b0, request, index + 1, action), index + 1, request, Min(request, PrefixSum(b0.energy, index + 1)), action)
  {
    StockNonNegative(b0);
    var b := DrainedState(b0, request, index, action);
    var handled := Min(request, PrefixSum(b0.energy, index));
    ExtractStepIsShare(b0, index, request, action);
    var step := ExtractCommon(b, index, request - handled, action);
    assert step == Moved(Share(b0.energy, index, request), DrainedState(b0, request, index + 1, action));
    ShareStep(b0.energy, index, request);
    assert ExtractLoop(b, index, request, handled, action)
        == ExtractLoop(step.state, index + 1, request, handled + step.amount, action);
  }

  lemma {:induction false} ExtractLoopIsGreedy(b0: Slots, index: nat, request: Int32, action: Action)
    requires Valid(b0) && 0 < request <= b0.maxExtract && index <= |b0.energy|
    ensures ExtractLoop(DrainedState(b0, request, index, action), index, request, Min(request, PrefixSum(b0.energy, index)), action)
            == Moved(Min(request, PrefixSum(b0.energy, |b0.energy|)), DrainedState(b0, request, |b0.energy|, action))
    decreases |b0.energy| - index
  {
    if index == |b0.energy| || request <= PrefixSum(b0.energy, index) {
      ExtractLoopSaturated(b0, index, request, action);
    } else {
      ExtractLoopUnfold(b0, index, request, action);
      ExtractLoopIsGreedy(b0, index + 1, request, action);
    }
  }

  /** Unindexed insert moves min(capped request, total free space), filling
      each slot with its greedy share; SIMULATE and EXECUTE report the same amount. */
  lemma InsertIsGreedy(b: Slots, amount: Int32, action: Action)
    requires Valid(b)
    ensures var request := Min(b.maxInsert, amount);
            var m := Insert(b, amount, action);
            && m.amount == Max(0, Min(request, PrefixSum(Room(b), |b.energy|)))
            && m.state == if action.Execute? && 0 < request then b.(energy := Filled(b, request, |b.energy|)) else b
  {
    var request := Min(b.maxInsert, amount);
    if 0 < request {
      assert Filled(b, request, 0) == b.energy;
      InsertLoopIsGreedy(b, 0, request, action);
    }
  }

  /** Unindexed extract moves min(capped request, total stored), draining
      each slot by its greedy share; SIMULATE and EXECUTE report the same amount. */
  lemma ExtractIsGreedy(b: Slots, amount: Int32, action: Action)
    requires Valid(b)
    ensures var request := Min(b.maxExtract, amount);
            var m := Extract(b, amount, action);
            && m.amount == Max(0, Min(request, PrefixSum(b.energy, |b.energy|)))
            && m.state == if action.Execute? && 0 < request then b.(energy := Drained(b, request, |b.energy|)) else b
  {
    StockNonNegative(b);
    var request := Min(b.maxExtract, amount);
    if 0 < request {
      assert Drained(b, request, 0) == b.energy;
      ExtractLoopIsGreedy(b, 0, request, action);
    }
  }

  /** An executed unindexed insert raises the stored total by exactly the
      amount it reports. */
  lemma InsertAddsReportedAmount(b: Slots, amount: Int32)
    requires Valid(b)
    ensures var m := Insert(b, amount, Execute);
            Total(m.state) == Total(b) + m.amount
  {
    InsertIsGreedy(b, amount, Execute);
    var request := Min(b.maxInsert, amount);
    if 0 < request {
      var n := |b.energy|;
      AddedSharesSum(b.energy, Room(b), Filled(b, request, n), request, n);
    }
  }

  /** An executed unindexed extract lowers the stored total by exactly the
      amount it reports. */
  lemma ExtractTakesReportedAmount(b: Slots, amount: Int32)
    requires Valid(b)
    ensures var m := Extract(b, amount, Execute);
            Total(m.state) == Total(b) - m.amount
  {
    StockNonNegative(b);
    ExtractIsGreedy(b, amount, Execute);
    var request := Min(b.maxExtract, amount);
    if 0 < request {
      var n := |b.energy|;
      TakenSharesSum(b.energy, b.energy, Drained(b, request, n), request, n);
    }
  }

  /** Lowest index first: after an executed unindexed insert, a slot that
      gained energy has only full slots below it. */
  lemma InsertFillsLowestFirst(b: Slots, amount: Int32, j: nat, k: nat)
    requires Valid(b) && k < j < |b.energy|
    requires var m := Insert(b, amount, Execute); m.state.energy[j] > b.energy[j]
    ensures Insert(b, amount, Execute).state.energy[k] == b.capacity
  {
    InsertIsGreedy(b, amount, Execute);
    LowerSlotsServedFirst(Room(b), k, j, Min(b.maxInsert, amount));
  }

  /** Lowest index first: after an executed unindexed extract, a slot that
      lost energy has only empty slots below it. */
  lemma ExtractDrainsLowestFirst(b: Slots, amount: Int32, j: nat, k: nat)
    requires Valid(b) && k < j < |b.energy|
    requires var m := Extract(b, amount, Execute); m.state.energy[j] < b.energy[j]
    ensures Extract(b, amount, Execute).state.energy[k] == 0
  {
    StockNonNegative(b);
    ExtractIsGreedy(b, amount, Execute);
    LowerSlotsServedFirst(b.energy, k, j, Min(b.maxExtract, amount));
  }

  // ---------------------------------------------------------------------------
  // Round trips

  /** Inserting an amount neither the rate nor the free space limits, then
      extracting the same amount from the same slot, restores the buffer. */
  lemma InsertThenExtractRestores(b: Slots, index: Int32, amount: Int32)
    requires Valid(b) && InRange(index, |b.energy|)
    requires 0 <= amount <= b.maxInsert && amount <= b.maxExtract
    requires b.energy[index] + amount <= b.capacity
    ensures var inserted := InsertAt(b, index, amount, Execute);
            && inserted.Ok? && inserted.value.amount == amount
            && var extracted := ExtractAt(inserted.value.state, index, amount, Execute);
            && extracted.Ok? && extracted.value.amount == amount
            && extracted.value.state == b
  {
    var inserted := InsertAt(b, index, amount, Execute);
    var extracted := ExtractAt(inserted.value.state, index, amount, Execute);
    assert extracted.value.state.energy == b.energy;
  }

  /** Extracting an amount neither the rate nor the stored energy limits, then
      inserting the same amount into the same slot, restores the buffer. */
  lemma ExtractThenInsertRestores(b: Slots, index: Int32, amount: Int32)
    requires Valid(b) && InRange(index, |b.energy|)
    requires 0 <= amount <= b.maxExtract && amount <= b.maxInsert
    requires amount <= b.energy[index]
    ensures var extracted := ExtractAt(b, index, amount, Execute);
            && extracted.Ok? && extracted.value.amount == amount
            && var inserted := InsertAt(extracted.value.state, index, amount, Execute);
            && inserted.Ok? && inserted.value.amount == amount
            && inserted.value.state == b
  {
    var extracted := ExtractAt(b, index, amount, Execute);
    var inserted := InsertAt(extracted.value.state, index, amount, Execute);
    assert inserted.value.state.energy == b.energy;
  }

  // ---------------------------------------------------------------------------
  // The builder's setters

  /** The fields of `EnergyBuffer.Builder`. */
  datatype Builder = Builder(size: Int32, energy: seq<Int32>, capacity: Int32, maxInsertRate: Int32, maxExtractRate: Int32)

  /** Every builder reached through `size(n)` keeps one seed per slot. */
  predicate Consistent(bl: Builder) {
    |bl.energy| == bl.size
  }

  /** `size(n)`: sets the slot count and reallocates the seeds, all zero; `new int[n]` throws for n < 0. */
  function WithSize(bl: Builder, size: Int32): (r: Result<Builder>)
    ensures r.Ok? <==> 0 <= size
    ensures r.Err? ==> r.error == NegativeArraySize
    ensures r.Ok? ==> Consistent(r.value) && r.value.size == size
    ensures r.Ok? ==> forall i :: 0 <= i < size ==> r.value.energy[i] == 0
    ensures r.Ok? ==> r.value.(size := bl.size, energy := bl.energy) == bl
  {
    if size < 0 then Err(NegativeArraySize)
    else Ok(bl.(size := size, energy := seq(size, _ => 0)))
  }

  /** `capacity(c)`. */
  function WithCapacity(bl: Builder, capacity: Int32): (r: Builder)
    ensures r.capacity == capacity
    ensures r.(capacity := bl.capacity) == bl
  {
    bl.(capacity := capacity)
  }

  /** `maxInsertRate(rate)`. */
  function WithMaxInsertRate(bl: Builder, rate: Int32): (r: Builder)
    ensures r.maxInsertRate == rate
    ensures r.(maxInsertRate := bl.maxInsertRate) == bl
  {
    bl.(maxInsertRate := rate)
  }

  /** `maxExtractRate(rate)`. */
  function WithMaxExtractRate(bl: Builder, rate: Int32): (r: Builder)
    ensures r.maxExtractRate == rate
    ensures r.(maxExtractRate := bl.maxExtractRate) == bl
  {
    bl.(maxExtractRate := rate)
  }

  /** `maxTransferRate(rate)`: one rate for both directions. */
  function WithMaxTransferRate(bl: Builder, rate: Int32): (r: Builder)
    ensures r.maxInsertRate == rate && r.maxExtractRate == rate
    ensures r.(maxInsertRate := bl.maxInsertRate, maxExtractRate := bl.maxExtractRate) == bl
  {
    WithMaxInsertRate(WithMaxExtractRate(bl, rate), rate)
  }

  /** `energy(index, amount)`: seeds one slot; the index is checked against the size. */
  function WithEnergyAt(bl: Builder, index: Int32, amount: Int32): (r: Result<Builder>)
    requires Consistent(bl)
    ensures r.Ok? <==> InRange(index, bl.size)
    ensures r.Err? ==> r.error == IndexOutOfBounds
    ensures r.Ok? ==> r.value.(energy := bl.energy) == bl && Consistent(r.value)
    ensures r.Ok? ==> r.value.energy[index] == amount
    ensures r.Ok? ==> forall i :: 0 <= i < bl.size && i != index ==> r.value.energy[i] == bl.energy[i]
  {
    if !InRange(index, bl.size) then Err(IndexOutOfBounds)
    else Ok(bl.(energy := bl.energy[index := amount]))
  }

  /** `energy(amount)`: seeds every slot with the same amount. */
  function WithEnergy(bl: Builder, amount: Int32): (r: Builder)
    requires Consistent(bl)
    ensures r.(energy := bl.energy) == bl && Consistent(r)
    ensures forall i :: 0 <= i < bl.size ==> r.energy[i] == amount
  {
    bl.(energy := seq(bl.size, _ => amount))
  }
}
