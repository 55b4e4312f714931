# Energy transfer handlers, modelled in Dafny

This project models the energy half of NeoForge's transfer API. An
`IEnergyHandler` exposes `size()` indices (sub-buffers). Each index has an
amount and a capacity, and takes indexed `insert`/`extract` calls. A
`TransferAction` says whether a call only SIMULATEs the transfer or EXECUTEs it.
The unindexed `insert`/`extract` let the handler spread a request over its
indices. `allowsInsertion()`/`allowsExtraction()` are hints, by default true
when any index allows the direction.

The model covers:

- **Two generations of the multi-slot `EnergyBuffer`.** Both share one insert
  and extract algorithm (module `BufferCore`). Unindexed transfers walk the
  slots from index 0 upwards, each slot taking what it can of the remainder
  of `min(rate, amount)`.
  - The `templates` class (module `EnergyBuffer`) validates all five
    constructor arguments, bounds-checks every getter and implements `set`.
  - The older class (module `EarlyEnergyBuffer`) checks only the array length
    and the capacity, and its `getCapacity` ignores the index.
  - Each class has a fluent `Builder`.
- **`ComponentEnergyBuffer`.** A one-slot handler over an item's data
  component, modelled as an optional integer cell. It clamps into
  [0, capacity] on every read and write, and never looks at its index.
- **The void and empty handlers.** `VoidEnergyBuffer` (both copies) accepts
  and destroys everything. `DefaultEnergyBuffer` and the two `EMPTY`
  constants have size 0 and do nothing.
- **The deprecated `IEnergyStorage`.** Its default methods express the indexed
  API through the six legacy methods (module `EnergyStorage`).
- **The two `EnergyHandlerUtil` copies.** Each sums amounts or capacities over
  a handler's indices in Java `int` arithmetic, with an overflow check
  (modules `SaturatingSum`, `EnergyHandlerUtil` and
  `TransferEnergyHandlerUtil`).

The handler classes other than the legacy adapter are one closed sum,
`Handlers.Handler`. For every case of that sum the model proves:

- the hints: an unindexed hint is true exactly when some index allows the
  direction, and a false hint means nothing moves;
- the lower bounds: amounts, capacities and transfer results are
  non-negative, and a transfer never moves more than a non-negative request (the
  `MAX_VALUE` upper bounds are not proved, see "Left out");
- SIMULATE/EXECUTE agreement.

Conservation (an executed transfer changes the stored total by exactly the
amount it reports) is proved for every handler that stores energy, i.e. all
but the void handler, which reports what it destroys. The legacy adapter
keeps the hint and SIMULATE promises whenever the legacy storage behind it
keeps the legacy ones (`EnergyStorage.HonestStorageIsHonestHandler`). The game tests' assertions
are replayed as lemmas in module `Scenarios`.

Modelling conventions:

- Java `int` is the subset type `Transfer.Int32`. Its wrap-around is written
  out (`Transfer.Wrap32`) where the overflow check relies on it.
- An exception the code throws is an `Err` of `Transfer.Error`:
  - `IllegalArgument` carries the rejected argument.
  - `IndexOutOfBounds` is an array access out of range.
  - `NegativeArraySize` is `new int[n]` with `n < 0`.
- Every operation returns its result together with the handler's new state
  (`Transfer.Moved`). A SIMULATE call returns the state unchanged.
- The greedy distribution of the unindexed transfers has an independent
  closed form (module `Greedy`: slot `k` receives
  `min(headroom[k], max(0, request - sum of headroom below k))`). The loops
  are proved equal to it.

### Where the code and its comments differ

- The code is modelled, not the comments. `transfer/EnergyHandlerUtil.EMPTY`
  is documented as accepting everything, but its insert returns 0. It is the
  same no-op handler as the other `EMPTY`.
- `IEnergyHandler.size()` is annotated as at least 1. `DefaultEnergyBuffer`,
  both `EMPTY` handlers and an older `EnergyBuffer` built with zero slots all
  report 0.
- Neither `EnergyBuffer` checks that the seed array is long enough before
  reading `energy[i]`. A short array fails with `IndexOutOfBounds` after the
  argument checks pass.
- `ComponentEnergyBuffer` declares that it implements
  `IEnergyHandlerModifiable`, which is taken to mean
  `IEnergyHandler.Modifiable`. Its `extract` guards on the unindexed
  `allowsExtraction()`, which here is the index-0 answer.
- The interface annotates `MAX_VALUE` from the `transfer/energy` copy of the
  util (2,000,000,000). The tests import the `transfer` copy, whose sentinel
  is `Integer.MAX_VALUE`, so `Scenarios` uses that one.
- The Javadoc of `transfer/energy/EnergyHandlerUtil.getAmount` and
  `getCapacity` says an overflowing total returns `Integer.MAX_VALUE`. The
  code returns that class's `MAX_VALUE` (2,000,000,000), which is also the
  bound in the methods' `@Range`. The model follows the code, and the
  corrected totals follow the `@Range`.
- The void handler returns a negative request unchanged from `insert`. Its
  two classes behave identically.


## Model

| member | source | states |
|---|---|---|
| Transfer.Clamp | src/main/java/net/neoforged/neoforge/transfer/energy/ComponentEnergyBuffer.java:109 | the result lies in [lo, hi]; it is the value itself inside the range, lo below it and hi above it |
| Transfer.Wrap32 | src/main/java/net/neoforged/neoforge/transfer/energy/EnergyHandlerUtil.java:80 | Java `int` addition: the result is congruent to the exact sum modulo 2^32 and equals it whenever the sum fits in an `int` |
| Greedy.PrefixSumUpdate | src/main/java/net/neoforged/neoforge/transfer/energy/templates/EnergyBuffer.java:157-158 | changing one slot by d changes every slot total that covers it by exactly d and leaves the others alone |
| Greedy.LowerSlotsServedFirst | src/main/java/net/neoforged/neoforge/transfer/energy/templates/EnergyBuffer.java:128-133 | in the greedy distribution, a slot that receives anything has every lower slot served up to its full headroom |
| Greedy.AddedSharesSum | src/main/java/net/neoforged/neoforge/transfer/energy/templates/EnergyBuffer.java:127-134 | adding every slot's greedy share raises the total by min(request, total headroom) |
| Greedy.TakenSharesSum | src/main/java/net/neoforged/neoforge/transfer/energy/templates/EnergyBuffer.java:167-173 | taking every slot's greedy share lowers the total by min(request, total stock) |
| EnergyHandler.AnyIndexAllowsIffSomeIndex | src/main/java/net/neoforged/neoforge/transfer/handlers/IEnergyHandler.java:77-83 | the interface's default hint loop returns true exactly when some index in [0, size) allows the direction, and false for size 0 |
| BufferCore.GetAmount | src/main/java/net/neoforged/neoforge/transfer/energy/templates/EnergyBuffer.java:202-206 | Ok exactly for an index in [0, size), with that slot's value, which lies in [0, capacity]; IndexOutOfBounds otherwise |
| BufferCore.AllowsInsertionAt | src/main/java/net/neoforged/neoforge/transfer/energy/templates/EnergyBuffer.java:214-218 | Ok exactly for an in-range index; the answer is maxInsert > 0 whatever the slot holds |
| BufferCore.AllowsExtractionAt | src/main/java/net/neoforged/neoforge/transfer/energy/templates/EnergyBuffer.java:220-224 | Ok exactly for an in-range index; the answer is maxExtract > 0 whatever the slot holds |
| BufferCore.InsertCommon | src/main/java/net/neoforged/neoforge/transfer/energy/templates/EnergyBuffer.java:153-160 | moves at most the request and never past capacity; moves all of it or fills the slot when maxInsert > 0, nothing otherwise; EXECUTE adds exactly the amount to the target slot only, SIMULATE changes nothing |
| BufferCore.ExtractCommon | src/main/java/net/neoforged/neoforge/transfer/energy/templates/EnergyBuffer.java:190-200 | moves at most the request and never more than the slot holds; moves all of it or empties the slot when maxExtract > 0, nothing otherwise; EXECUTE takes exactly the amount from the target slot only |
| BufferCore.InsertAt | src/main/java/net/neoforged/neoforge/transfer/energy/templates/EnergyBuffer.java:137-145 | IndexOutOfBounds exactly for an out-of-range index; the amount is min(capacity - slot, min(maxInsert, amount)) when that request is positive and 0 otherwise; EXECUTE changes only the target slot, by the amount; the invariant holds afterwards |
| BufferCore.ExtractAt | src/main/java/net/neoforged/neoforge/transfer/energy/templates/EnergyBuffer.java:176-184 | IndexOutOfBounds exactly for an out-of-range index; the amount is min(slot, min(maxExtract, amount)) when that request is positive and 0 otherwise; EXECUTE changes only the target slot, by the amount |
| BufferCore.InsertLoop | src/main/java/net/neoforged/neoforge/transfer/energy/templates/EnergyBuffer.java:127-134 | the loop from any slot keeps the configuration, ends with at least the running total and at most the request moved, and writes nothing on SIMULATE |
| BufferCore.ExtractLoop | src/main/java/net/neoforged/neoforge/transfer/energy/templates/EnergyBuffer.java:167-173 | the loop from any slot keeps the configuration, ends with at least the running total and at most the request moved, and writes nothing on SIMULATE |
| BufferCore.Insert | src/main/java/net/neoforged/neoforge/transfer/energy/templates/EnergyBuffer.java:122-135 | keeps the slot invariant and the configuration; moves between 0 and the capped request; SIMULATE changes nothing |
| BufferCore.Extract | src/main/java/net/neoforged/neoforge/transfer/energy/templates/EnergyBuffer.java:162-174 | keeps the slot invariant and the configuration; moves between 0 and the capped request; SIMULATE changes nothing |
| BufferCore.InsertLoopIsGreedy | src/main/java/net/neoforged/neoforge/transfer/energy/templates/EnergyBuffer.java:127-134 | the slot loop, started at any slot with the running total so far, ends with min(request, total free space) moved and every slot holding its greedy share |
| BufferCore.ExtractLoopIsGreedy | src/main/java/net/neoforged/neoforge/transfer/energy/templates/EnergyBuffer.java:167-173 | the slot loop, started at any slot, ends with min(request, total stored) moved and every slot drained by its greedy share |
| BufferCore.InsertIsGreedy | src/main/java/net/neoforged/neoforge/transfer/energy/templates/EnergyBuffer.java:122-135 | unindexed insert moves exactly max(0, min(maxInsert, amount, total free space)) and, on EXECUTE, leaves each slot holding its greedy share; SIMULATE reports the same amount and changes nothing |
| BufferCore.ExtractIsGreedy | src/main/java/net/neoforged/neoforge/transfer/energy/templates/EnergyBuffer.java:162-174 | unindexed extract moves exactly max(0, min(maxExtract, amount, total stored)) and, on EXECUTE, drains each slot by its greedy share; SIMULATE reports the same amount |
| BufferCore.InsertAddsReportedAmount | src/main/java/net/neoforged/neoforge/transfer/energy/templates/EnergyBuffer.java:132 | an executed unindexed insert raises the stored total by exactly the amount it returns |
| BufferCore.ExtractTakesReportedAmount | src/main/java/net/neoforged/neoforge/transfer/energy/templates/EnergyBuffer.java:171 | an executed unindexed extract lowers the stored total by exactly the amount it returns |
| BufferCore.InsertFillsLowestFirst | src/main/java/net/neoforged/neoforge/transfer/energy/EnergyBuffer.java:106-116 | after an unindexed insert, any slot that gained energy has only full slots below it |
| BufferCore.ExtractDrainsLowestFirst | src/main/java/net/neoforged/neoforge/transfer/energy/EnergyBuffer.java:150-161 | after an unindexed extract, any slot that lost energy has only empty slots below it |
| BufferCore.InsertThenExtractRestores | src/main/java/net/neoforged/neoforge/transfer/energy/templates/EnergyBuffer.java:137-184 | inserting an amount that neither rate nor space limits, then extracting it from the same slot, returns that amount twice and restores the buffer |
| BufferCore.ExtractThenInsertRestores | src/main/java/net/neoforged/neoforge/transfer/energy/templates/EnergyBuffer.java:137-184 | extracting an amount that neither rate nor stock limits, then inserting it into the same slot, restores the buffer |
| BufferCore.WithSize | src/main/java/net/neoforged/neoforge/transfer/energy/templates/EnergyBuffer.java:309-313 | fails with NegativeArraySize exactly for a negative size; otherwise the seed array is reallocated with `size` zeros and nothing else changes |
| BufferCore.WithCapacity | src/main/java/net/neoforged/neoforge/transfer/energy/templates/EnergyBuffer.java:257-260 | sets the capacity and changes nothing else |
| BufferCore.WithMaxInsertRate | src/main/java/net/neoforged/neoforge/transfer/energy/templates/EnergyBuffer.java:265-268 | sets the insertion rate and changes nothing else |
| BufferCore.WithMaxExtractRate | src/main/java/net/neoforged/neoforge/transfer/energy/templates/EnergyBuffer.java:273-276 | sets the extraction rate and changes nothing else |
| BufferCore.WithMaxTransferRate | src/main/java/net/neoforged/neoforge/transfer/energy/templates/EnergyBuffer.java:281-283 | sets both rates to the given rate and changes nothing else |
| BufferCore.WithEnergyAt | src/main/java/net/neoforged/neoforge/transfer/energy/templates/EnergyBuffer.java:289-293 | IndexOutOfBounds exactly for an index outside [0, size); otherwise only that seed changes, to the amount |
| BufferCore.WithEnergy | src/main/java/net/neoforged/neoforge/transfer/energy/templates/EnergyBuffer.java:299-304 | every seed becomes the amount; nothing else changes |
| EnergyBuffer.New | src/main/java/net/neoforged/neoforge/transfer/energy/templates/EnergyBuffer.java:91-115 | succeeds exactly when size > 0, the array has size elements and capacity and both rates are non-negative; each failing check gives its own IllegalArgument reason, the first in source order; a short array fails with IndexOutOfBounds; slot i is clamp(energy[i], 0, capacity) |
| EnergyBuffer.GetCapacity | src/main/java/net/neoforged/neoforge/transfer/energy/templates/EnergyBuffer.java:208-212 | Ok exactly for an in-range index, with the shared capacity, which bounds that slot |
| EnergyBuffer.Set | src/main/java/net/neoforged/neoforge/transfer/energy/templates/EnergyBuffer.java:226-230 | Ok exactly for an in-range index; the slot becomes clamp(amount, 0, capacity) whatever the rates; the other slots and the configuration are unchanged |
| EnergyBuffer.SetThenGetAmount | src/main/java/net/neoforged/neoforge/transfer/energy/templates/EnergyBuffer.java:203-230 | reading a slot back after `set` with an amount in [0, capacity] gives that amount |
| EnergyBuffer.OperationsKeepInvariant | src/main/java/net/neoforged/neoforge/transfer/energy/templates/EnergyBuffer.java:137-230 | every insert, extract and set keeps 0 <= slot <= capacity, at least one slot and non-negative rates |
| EnergyBuffer.Create | src/main/java/net/neoforged/neoforge/transfer/energy/templates/EnergyBuffer.java:250-252 | fails only for a negative size; otherwise a builder with size zero seeds, the capacity and the default rate in both directions |
| EnergyBuffer.Build | src/main/java/net/neoforged/neoforge/transfer/energy/templates/EnergyBuffer.java:318-320 | succeeds exactly when the builder's size is positive, it holds one seed per slot and capacity and both rates are non-negative; the buffer takes the builder's capacity and rates and each seed clamped into [0, capacity] |
| EnergyBuffer.BuildFailsOnlyOnArguments | src/main/java/net/neoforged/neoforge/transfer/energy/templates/EnergyBuffer.java:318-320 | a builder keeps one seed per slot, so build fails only on an argument check, never with IndexOutOfBounds |
| EnergyBuffer.CreateThenBuildStartsEmpty | src/main/java/net/neoforged/neoforge/transfer/energy/templates/EnergyBuffer.java:250-320 | create followed by build gives an empty buffer of the requested size with the default rate in both directions |
| EarlyEnergyBuffer.New | src/main/java/net/neoforged/neoforge/transfer/energy/EnergyBuffer.java:83-98 | succeeds exactly when the array has size elements and capacity >= 0; a too-long array or a negative capacity gives its own IllegalArgument; a short array gives IndexOutOfBounds; rates are kept unchecked; slot i is clamp(energy[i], 0, capacity) |
| EarlyEnergyBuffer.GetCapacity | src/main/java/net/neoforged/neoforge/transfer/energy/EnergyBuffer.java:180-183 | the shared capacity for every index, in range or not; it bounds every slot |
| EarlyEnergyBuffer.NewAcceptsWhatTemplatesRejects | src/main/java/net/neoforged/neoforge/transfer/energy/EnergyBuffer.java:83-98 | zero slots and negative rates are accepted |
| EarlyEnergyBuffer.EmptyBufferMovesNothing | src/main/java/net/neoforged/neoforge/transfer/energy/EnergyBuffer.java:105-161 | a buffer with no slots moves nothing in either direction and stores nothing |
| EarlyEnergyBuffer.NegativeRateMovesNothing | src/main/java/net/neoforged/neoforge/transfer/energy/EnergyBuffer.java:118-172 | with negative rates every insert and extract moves 0, changes nothing, and both hints are false |
| EarlyEnergyBuffer.Create | src/main/java/net/neoforged/neoforge/transfer/energy/EnergyBuffer.java:207-209 | fails only for a negative size; otherwise a builder with size zero seeds and capacity as both rates |
| EarlyEnergyBuffer.Build | src/main/java/net/neoforged/neoforge/transfer/energy/EnergyBuffer.java:258-260 | succeeds exactly when the builder holds one seed per slot and a non-negative capacity; the buffer takes the builder's capacity and rates unchecked and each seed clamped into [0, capacity] |
| EarlyEnergyBuffer.BuildFailsOnlyOnCapacity | src/main/java/net/neoforged/neoforge/transfer/energy/EnergyBuffer.java:258-260 | a consistent builder fails to build only for a negative capacity |
| EarlyEnergyBuffer.CreateSetsBothRatesToCapacity | src/main/java/net/neoforged/neoforge/transfer/energy/EnergyBuffer.java:207-228 | create then build is empty with both rates equal to the capacity; setting one rate afterwards changes only that rate |
| ComponentEnergyBuffer.New | src/main/java/net/neoforged/neoforge/transfer/energy/ComponentEnergyBuffer.java:41-47 | the three settings and the cell are stored as given |
| ComponentEnergyBuffer.NewWithTransfer | src/main/java/net/neoforged/neoforge/transfer/energy/ComponentEnergyBuffer.java:52-54 | one rate for both directions |
| ComponentEnergyBuffer.NewWithCapacity | src/main/java/net/neoforged/neoforge/transfer/energy/ComponentEnergyBuffer.java:59-61 | both rates equal the capacity |
| ComponentEnergyBuffer.GetAmount | src/main/java/net/neoforged/neoforge/transfer/energy/ComponentEnergyBuffer.java:107-110 | the cell clamped into [0, capacity]: 0 when absent or negative, capacity when above it, the cell otherwise |
| ComponentEnergyBuffer.GetCapacity | src/main/java/net/neoforged/neoforge/transfer/energy/ComponentEnergyBuffer.java:113-116 | the capacity, which bounds the amount |
| ComponentEnergyBuffer.AllowsInsertionAt | src/main/java/net/neoforged/neoforge/transfer/energy/ComponentEnergyBuffer.java:133-136 | true exactly when maxReceive > 0, for any index |
| ComponentEnergyBuffer.AllowsExtractionAt | src/main/java/net/neoforged/neoforge/transfer/energy/ComponentEnergyBuffer.java:128-131 | true exactly when maxExtract > 0, for any index |
| ComponentEnergyBuffer.AllowsInsertion | src/main/java/net/neoforged/neoforge/transfer/energy/ComponentEnergyBuffer.java:118-121 | true exactly when maxReceive > 0, the same answer as at every index |
| ComponentEnergyBuffer.AllowsExtraction | src/main/java/net/neoforged/neoforge/transfer/energy/ComponentEnergyBuffer.java:123-126 | true exactly when maxExtract > 0, the same answer as at every index |
| ComponentEnergyBuffer.Insert | src/main/java/net/neoforged/neoforge/transfer/energy/ComponentEnergyBuffer.java:82-85 | the index-0 insert: min(capacity - amount, min(maxReceive, amount)) when rate and request are positive, 0 otherwise; EXECUTE raises the amount by that, SIMULATE writes nothing |
| ComponentEnergyBuffer.Extract | src/main/java/net/neoforged/neoforge/transfer/energy/ComponentEnergyBuffer.java:101-104 | the index-0 extract: min(stored, min(maxExtract, amount)) when rate and request are positive, 0 otherwise; EXECUTE lowers the amount by that, SIMULATE writes nothing |
| ComponentEnergyBuffer.Set | src/main/java/net/neoforged/neoforge/transfer/energy/ComponentEnergyBuffer.java:143-146 | the cell becomes present and holds clamp(energy, 0, capacity) |
| ComponentEnergyBuffer.InsertAt | src/main/java/net/neoforged/neoforge/transfer/energy/ComponentEnergyBuffer.java:68-80 | moves between 0 and the capped request, never past capacity, and all of the request or up to capacity; EXECUTE raises the amount by exactly that; SIMULATE or a zero result writes nothing |
| ComponentEnergyBuffer.ExtractAt | src/main/java/net/neoforged/neoforge/transfer/energy/ComponentEnergyBuffer.java:87-99 | moves between 0 and the capped request, never more than stored; EXECUTE lowers the amount by exactly that; SIMULATE or a zero result writes nothing |
| ComponentEnergyBuffer.IndexIgnored | src/main/java/net/neoforged/neoforge/transfer/energy/ComponentEnergyBuffer.java:63-146 | every index behaves like index 0, and the unindexed calls are the index-0 calls |
| ComponentEnergyBuffer.TransferAmounts | src/main/java/net/neoforged/neoforge/transfer/energy/ComponentEnergyBuffer.java:69-99 | insert returns min(capacity - amount, min(maxReceive, amount)) and extract min(stored, min(maxExtract, amount)) when rate and request are positive, 0 otherwise |
| ComponentEnergyBuffer.SimulateMatchesExecute | src/main/java/net/neoforged/neoforge/transfer/energy/ComponentEnergyBuffer.java:76-97 | SIMULATE returns what EXECUTE would |
| ComponentEnergyBuffer.SetThenGetAmount | src/main/java/net/neoforged/neoforge/transfer/energy/ComponentEnergyBuffer.java:107-146 | after `set` with an in-range value, getAmount returns it |
| ComponentEnergyBuffer.InsertThenExtractRestoresAmount | src/main/java/net/neoforged/neoforge/transfer/energy/ComponentEnergyBuffer.java:69-99 | inserting then extracting an amount that rates and space allow returns it twice and restores the observed amount |
| ComponentEnergyBuffer.AbsentCellFirstWrite | src/main/java/net/neoforged/neoforge/transfer/energy/ComponentEnergyBuffer.java:108 | an absent cell reads 0; an executed insert creates it, a simulated one does not |
| EnergyStorage.OneSlotForEveryIndex | src/main/java/net/neoforged/neoforge/energy/IEnergyStorage.java:65-108 | every index reads the one legacy buffer and the hints are canReceive/canExtract; every indexed transfer is the unindexed one |
| EnergyStorage.ActionIsSimulateFlag | src/main/java/net/neoforged/neoforge/energy/IEnergyStorage.java:100-118 | insert and extract call receiveEnergy/extractEnergy with simulate true exactly for SIMULATE |
| EnergyStorage.HintOverridesAgreeWithDefault | src/main/java/net/neoforged/neoforge/energy/IEnergyStorage.java:80-98 | the overridden unindexed hints equal the interface's default loop over the single index |
| EnergyStorage.HonestStorageIsHonestHandler | src/main/java/net/neoforged/neoforge/energy/IEnergyStorage.java:23-61 | a legacy storage keeping the legacy promises (simulate leaves the stored energy; a false canReceive/canExtract forces 0) gives a handler that keeps the new ones |
| Handlers.Size | src/main/java/net/neoforged/neoforge/transfer/handlers/IEnergyHandler.java:46-47 | 1 for the component and void handlers, at least 1 for the templates buffer, 0 for the empty handlers |
| Handlers.GetAmount | src/main/java/net/neoforged/neoforge/transfer/handlers/IEnergyHandler.java:55-58 | non-negative; errors only with IndexOutOfBounds for an index outside [0, size), which both buffers reject; void and empty give 0 |
| Handlers.GetCapacity | src/main/java/net/neoforged/neoforge/transfer/handlers/IEnergyHandler.java:66-70 | non-negative and at least the amount at that index; only the templates buffer checks the index; void gives 2,000,000,000 and empty 0 |
| Handlers.AllowsInsertionAt | src/main/java/net/neoforged/neoforge/transfer/handlers/IEnergyHandler.java:113 | the buffers answer exactly for an in-range index; void allows, empty does not |
| Handlers.AllowsExtractionAt | src/main/java/net/neoforged/neoforge/transfer/handlers/IEnergyHandler.java:121 | the buffers answer exactly for an in-range index; void and empty do not allow |
| Handlers.AllowsInsertion | src/main/java/net/neoforged/neoforge/transfer/handlers/IEnergyHandler.java:77-83 | the default loop, or the component's override, answers from the configuration: a buffer with a slot and a positive insertion rate, a component with a positive receive rate, and the void handler; never the empty handler |
| Handlers.AllowsExtraction | src/main/java/net/neoforged/neoforge/transfer/handlers/IEnergyHandler.java:95-101 | the default loop, or the component's override, answers from the configuration: a buffer with a slot and a positive extraction rate, or a component with a positive extract rate; never void or empty |
| Handlers.InsertAt | src/main/java/net/neoforged/neoforge/transfer/handlers/IEnergyHandler.java:123-135 | fails only out of range; a non-negative request moves between 0 and the request; the size is kept; SIMULATE changes nothing |
| Handlers.ExtractAt | src/main/java/net/neoforged/neoforge/transfer/handlers/IEnergyHandler.java:153-165 | fails only out of range; a non-negative request moves between 0 and the request; the size is kept; SIMULATE changes nothing |
| Handlers.Insert | src/main/java/net/neoforged/neoforge/transfer/handlers/IEnergyHandler.java:137-151 | a non-negative request moves between 0 and the request; validity and size are kept; SIMULATE changes nothing |
| Handlers.Extract | src/main/java/net/neoforged/neoforge/transfer/handlers/IEnergyHandler.java:167-181 | a non-negative request moves between 0 and the request; validity and size are kept; SIMULATE changes nothing |
| Handlers.Set | src/main/java/net/neoforged/neoforge/transfer/handlers/IEnergyHandler.java:190-198 | fails only out of range; an amount within the capacity reads back; in the buffer no other index changes |
| Handlers.HintIsSomeIndex | src/main/java/net/neoforged/neoforge/transfer/handlers/IEnergyHandler.java:72-101 | allowsInsertion() and allowsExtraction() hold exactly when some index in [0, size) allows the direction, for every handler including the component's override; both are false at size 0 |
| Handlers.HintsAreSound | src/main/java/net/neoforged/neoforge/transfer/handlers/IEnergyHandler.java:85-113 | a handler whose unindexed hint says no moves nothing in that direction, indexed or not |
| Handlers.VoidAcceptsAndDestroys | src/main/java/net/neoforged/neoforge/transfer/energy/templates/VoidEnergyBuffer.java:17-72 | the void handler returns every offered amount from insert, 0 from extract, stores nothing, has capacity 2,000,000,000, allows insertion and not extraction |
| Handlers.SimulateMatchesExecute | src/main/java/net/neoforged/neoforge/transfer/handlers/IEnergyHandler.java:126-181 | SIMULATE fails exactly when EXECUTE fails and reports the amount EXECUTE moves, for every handler, indexed or not |
| Handlers.ExecuteMovesReportedAmount | src/main/java/net/neoforged/neoforge/transfer/handlers/IEnergyHandler.java:126-181 | for every handler that stores energy, an executed transfer changes the total across indices by exactly the returned amount |
| EnergyHandlerUtil.GetAmountAsWritten | src/main/java/net/neoforged/neoforge/transfer/energy/EnergyHandlerUtil.java:74-84 | non-negative; the exact total when it fits in an `int`, 2,000,000,000 when the addition wraps, so totals in (2,000,000,000, 2^31 - 1] come back unsaturated |
| EnergyHandlerUtil.GetCapacityAsWritten | src/main/java/net/neoforged/neoforge/transfer/energy/EnergyHandlerUtil.java:90-100 | the same rule over the capacities |
| EnergyHandlerUtil.AsWrittenExceedsDeclaredRange | src/main/java/net/neoforged/neoforge/transfer/energy/EnergyHandlerUtil.java:74-100 | concrete buffers whose amount and capacity totals come back as 2,100,000,000, above the declared bound |
| EnergyHandlerUtil.GetAmount | src/main/java/net/neoforged/neoforge/transfer/energy/EnergyHandlerUtil.java:70-74 | the documented result: within [0, MAX_VALUE], the exact total up to MAX_VALUE and MAX_VALUE above it |
| EnergyHandlerUtil.GetCapacity | src/main/java/net/neoforged/neoforge/transfer/energy/EnergyHandlerUtil.java:86-90 | the documented capacity total: within [0, MAX_VALUE], exact up to MAX_VALUE and MAX_VALUE above it |
| EnergyHandlerUtil.CorrectedAgreesWithinRange | src/main/java/net/neoforged/neoforge/transfer/energy/EnergyHandlerUtil.java:75-100 | the corrected totals equal the loop's wherever the loop stays in range, and the amount total never exceeds the capacity total |
| EnergyHandlerUtil.EmptyDoesNothing | src/main/java/net/neoforged/neoforge/transfer/energy/EnergyHandlerUtil.java:21-68 | EMPTY has size 0, amount and capacity 0, allows nothing and moves 0 in every overload |
| SaturatingSum.SumFromIsExactOrSentinel | src/main/java/net/neoforged/neoforge/transfer/energy/EnergyHandlerUtil.java:76-83 | from any point where the running sum is the exact prefix total, the loop ends with the exact total when every value is non-negative and the total fits in an `int`, and with the sentinel otherwise |
| SaturatingSum.SumIsExactOrSentinel | src/main/java/net/neoforged/neoforge/transfer/EnergyHandlerUtil.java:54-61 | the whole loop: exact total or sentinel as above; never negative for a non-negative sentinel; 0 for no slots |
| TransferEnergyHandlerUtil.GetAmount | src/main/java/net/neoforged/neoforge/transfer/EnergyHandlerUtil.java:53-62 | the stored total saturated at `Integer.MAX_VALUE` |
| TransferEnergyHandlerUtil.GetCapacity | src/main/java/net/neoforged/neoforge/transfer/EnergyHandlerUtil.java:68-77 | the capacity total saturated at `Integer.MAX_VALUE` |
| TransferEnergyHandlerUtil.TotalFollowsTransfers | src/main/java/net/neoforged/neoforge/transfer/EnergyHandlerUtil.java:49-62 | an executed unindexed transfer changes the reported total by exactly the amount moved while the total stays representable |
| Scenarios.SimpleBufferIsBuilt | tests/src/main/java/net/neoforged/neoforge/debug/handlers/EnergyHandlerTests.java:158 | the one-slot test buffer is full, holds 1000 and has insert rate 100 and extract rate 1000 |
| Scenarios.SimpleBufferTest | tests/src/main/java/net/neoforged/neoforge/debug/handlers/EnergyHandlerTests.java:107-112 | extracting 1100 returns 1000 and leaves 0; inserting 1000 returns 100; a simulated insert does not return 110 and leaves the total at 100 |
| Scenarios.ComplexBufferIsBuilt | tests/src/main/java/net/neoforged/neoforge/debug/handlers/EnergyHandlerTests.java:159 | the three-slot test buffer holds 0, 100, 0 with insert rate 100 and extract rate 0 |
| Scenarios.ComplexBufferTest | tests/src/main/java/net/neoforged/neoforge/debug/handlers/EnergyHandlerTests.java:114-129 | totals 100 then 200 after an indexed insert into slot 1; an unindexed insert returns 100; extract returns 0 and allowsExtraction() is false |
| Scenarios.DefaultAndVoidTest | tests/src/main/java/net/neoforged/neoforge/debug/handlers/EnergyHandlerTests.java:131-140 | the empty handler allows nothing and reports 0; the void handler allows insertion only, holds 0 and has capacity 2,000,000,000 |
| Scenarios.ItemEnergyTest | tests/src/main/java/net/neoforged/neoforge/debug/capabilities/ItemEnergyTests.java:67-82 | a full battery of 16384 gives up 16384, leaving its cell at 0, then takes 16384 back |

## Left out

- `CODEC`s of both buffer classes: serialisation through the game's codec framework. Decoding only calls the modelled constructor.
- The default rate in the `templates` `Builder.create`: it is `ceil(capacity * 0.01f)` in float arithmetic, so `EnergyBuffer.Create` takes it as the parameter `defaultRate`.
- `Mth.clamp` is host code, taken as `min(max(v, lo), hi)` with `lo <= hi`.
- The item stack and data component behind `ComponentEnergyBuffer`: modelled as one optional integer cell.
- Capability registration and the game-test harness: only the tests' asserted numbers are kept, as lemmas in `Scenarios`.
- The build script `CreateArgsFile`, `FurnaceFuelBurnTimeEvent` and `IAbstractBoatExtension`: outside the energy API.
- Atomicity between a SIMULATE and a later EXECUTE by different callers: the code promises none.
- ComponentEnergyBuffer.GetAmount: like every `ComponentEnergyBuffer` member, it requires `capacity >= 0`, because `Mth.clamp` with an upper bound below its lower bound is not defined here.
- Handlers.GetAmount: the `@Range` upper bound `MAX_VALUE` is not stated. No constructor enforces it, and a `templates` buffer can be built with a larger capacity.
- Handlers.GetCapacity: the `@Range` upper bound `MAX_VALUE` is not stated, for the same reason.
- Handlers.InsertAt: the annotated bound `MAX_VALUE` on the result follows only from "at most the request" when the request respects its own annotation; a negative request to the void handler comes back negative.
- Handlers.Insert: same as Handlers.InsertAt.
- BufferCore.InsertLoop: its own contract gives only the configuration, the bounds on the amount and the SIMULATE frame (the slot invariant of its result follows from BufferCore.InsertLoopIsGreedy); the exact amount and the final slots are stated over all inputs by BufferCore.InsertLoopIsGreedy, which needs the loop's own contract in its induction.
- BufferCore.ExtractLoop: likewise, with BufferCore.ExtractLoopIsGreedy.
- Handlers.Size: the annotated lower bound 1 is not stated for the older buffer and the empty handlers, which break it.
- EnergyStorage.InsertAt: the adapter's functions carry no contract of their own, because their behaviour is whatever the legacy storage does; the lemmas of module `EnergyStorage` state the adapter's promises.
- The older `Builder.create` leaves the seed array `null` until `size(n)` reallocates it. It is the empty sequence here, and `size(n)` always runs first.

## Findings

| source | as written | input that shows it | evidently intended | confidence | as-written member | corrected member |
|---|---|---|---|---|---|---|
| src/main/java/net/neoforged/neoforge/transfer/energy/EnergyHandlerUtil.java:74-84 | `getAmount` returns `MAX_VALUE` (2,000,000,000) only when the `int` addition wraps, so a total between 2,000,000,000 and 2^31 - 1 is returned unchanged | an older `EnergyBuffer` with slots 2,000,000,000 and 100,000,000 gives 2,100,000,000 | the result stays within its `@Range` [0, `MAX_VALUE`], saturating at `MAX_VALUE` (the `@Range`, not the Javadoc's `Integer.MAX_VALUE`, since the code's own sentinel is `MAX_VALUE`) | high; not executed | EnergyHandlerUtil.AsWrittenExceedsDeclaredRange | EnergyHandlerUtil.GetAmount |
| src/main/java/net/neoforged/neoforge/transfer/energy/EnergyHandlerUtil.java:90-100 | `getCapacity` has the same check, so capacity totals between 2,000,000,000 and 2^31 - 1 pass through | two slots of capacity 1,050,000,000 give 2,100,000,000 | the capacity total stays within its `@Range`, saturating at `MAX_VALUE` (the `@Range`, not the Javadoc's `Integer.MAX_VALUE`) | high; not executed | EnergyHandlerUtil.AsWrittenExceedsDeclaredRange | EnergyHandlerUtil.GetCapacity |
