/** The deprecated `IEnergyStorage`: the old single-buffer API
    (`receiveEnergy`, `extractEnergy`, `getEnergyStored`, `getMaxEnergyStored`,
    `canReceive`, `canExtract`) and the default methods that express
    `IEnergyHandler` through it. The legacy storage is any state `S` with the
    six old operations; the adapter is one slot that ignores its index and turns
    the action into the old `simulate` flag. */
module EnergyStorage {
  import opened Transfer
  import EnergyHandler

  /** An implementation of the six abstract legacy methods over state `S`. */
  datatype Storage<!S> = Storage(
    receiveEnergy: (S, Int32, bool) -> Moved<S>,
    extractEnergy: (S, Int32, bool) -> Moved<S>,
    energyStored: S -> Int32,
    maxEnergyStored: S -> Int32,
    canReceive: S -> bool,
    canExtract: S -> bool)

  /** What the legacy documentation promises: a simulated call reports what
      the executed call would move and leaves `getEnergyStored` unchanged, and
      a false `canReceive` / `canExtract` forces 0 from the matching call. */
  ghost predicate Honest<S(!new)>(st: Storage<S>) {
    && (forall s, amount :: st.receiveEnergy(s, amount, true).amount == st.receiveEnergy(s, amount, false).amount)
    && (forall s, amount :: st.extractEnergy(s, amount, true).amount == st.extractEnergy(s, amount, false).amount)
    && (forall s, amount :: st.energyStored(st.receiveEnergy(s, amount, true).state) == st.energyStored(s))
    && (forall s, amount :: st.energyStored(st.extractEnergy(s, amount, true).state) == st.energyStored(s))
    && (forall s, amount, simulate :: !st.canReceive(s) ==> st.receiveEnergy(s, amount, simulate).amount == 0)
    && (forall s, amount, simulate :: !st.canExtract(s) ==> st.extractEnergy(s, amount, simulate).amount == 0)
  }

  /** `size()`. */
  const Size: Int32 := 1

  /** `getAmount(index)`. */
  function GetAmount<S>(st: Storage<S>, s: S, index: Int32): Int32 {
    st.energyStored(s)
  }

  /** `getCapacity(index)`. */
  function GetCapacity<S>(st: Storage<S>, s: S, index: Int32): Int32 {
    st.maxEnergyStored(s)
  }

  /** `allowsInsertion(index)`. */
  function AllowsInsertionAt<S>(st: Storage<S>, s: S, index: Int32): bool {
    st.canReceive(s)
  }

  /** `allowsExtraction(index)`. */
  function AllowsExtractionAt<S>(st: Storage<S>, s: S, index: Int32): bool {
    st.canExtract(s)
  }

  /** `allowsInsertion()`: overridden to ask index 0. */
  function AllowsInsertion<S>(st: Storage<S>, s: S): bool {
    AllowsInsertionAt(st, s, 0)
  }

  /** `allowsExtraction()`: overridden to ask index 0. */
  function AllowsExtraction<S>(st: Storage<S>, s: S): bool {
    AllowsExtractionAt(st, s, 0)
  }

  /** `insert(index, amount, action)`: `receiveEnergy(amount, action.isSimulating())`. */
  function InsertAt<S>(st: Storage<S>, s: S, index: Int32, amount: Int32, action: Action): Moved<S> {
    st.receiveEnergy(s, amount, action.IsSimulating())
  }

  /** `extract(index, amount, action)`: `extractEnergy(amount, action.isSimulating())`. */
  function ExtractAt<S>(st: Storage<S>, s: S, index: Int32, amount: Int32, action: Action): Moved<S> {
    st.extractEnergy(s, amount, action.IsSimulating())
  }

  /** `insert(amount, action)`: the index-0 call. */
  function Insert<S>(st: Storage<S>, s: S, amount: Int32, action: Action): Moved<S> {
    InsertAt(st, s, 0, amount, action)
  }

  /** `extract(amount, action)`: the index-0 call. */
  function Extract<S>(st: Storage<S>, s: S, amount: Int32, action: Action): Moved<S> {
    ExtractAt(st, s, 0, amount, action)
  }

  /** Every index reads and moves the one legacy buffer, and the unindexed
      calls are the index-0 calls. */
  lemma OneSlotForEveryIndex<S>(st: Storage<S>, s: S, index: Int32, amount: Int32, action: Action)
    ensures GetAmount(st, s, index) == st.energyStored(s) && GetCapacity(st, s, index) == st.maxEnergyStored(s)
    ensures AllowsInsertionAt(st, s, index) == st.canReceive(s) && AllowsExtractionAt(st, s, index) == st.canExtract(s)
    ensures InsertAt(st, s, index, amount, action) == Insert(st, s, amount, action)
    ensures ExtractAt(st, s, index, amount, action) == Extract(st, s, amount, action)
  {
  }

  /** SIMULATE is the old `simulate == true` and EXECUTE is `simulate == false`. */
  lemma ActionIsSimulateFlag<S>(st: Storage<S>, s: S, amount: Int32)
    ensures Insert(st, s, amount, Simulate) == st.receiveEnergy(s, amount, true)
    ensures Insert(st, s, amount, Execute) == st.receiveEnergy(s, amount, false)
    ensures Extract(st, s, amount, Simulate) == st.extractEnergy(s, amount, true)
    ensures Extract(st, s, amount, Execute) == st.extractEnergy(s, amount, false)
  {
  }

  /** The overridden unindexed hints agree with the interface's default loop
      over the adapter's single index. */
  lemma HintOverridesAgreeWithDefault<S>(st: Storage<S>, s: S)
    ensures AllowsInsertion(st, s) == EnergyHandler.AnyIndexAllows(Size, (i: Int32) => AllowsInsertionAt(st, s, i))
    ensures AllowsExtraction(st, s) == EnergyHandler.AnyIndexAllows(Size, (i: Int32) => AllowsExtractionAt(st, s, i))
  {
    EnergyHandler.AnyIndexAllowsIffSomeIndex(Size, (i: Int32) => AllowsInsertionAt(st, s, i));
    EnergyHandler.AnyIndexAllowsIffSomeIndex(Size, (i: Int32) => AllowsExtractionAt(st, s, i));
  }

  /** A legacy storage that keeps the legacy promises yields a handler that
      keeps the new ones: a simulated insert or extract at any index reports
      what the executed one moves and leaves every index's amount unchanged,
      and a handler that does not allow a direction moves nothing in it. */
  lemma HonestStorageIsHonestHandler<S(!new)>(st: Storage<S>, s: S, index: Int32, other: Int32, amount: Int32, action: Action)
    requires Honest(st)
    ensures InsertAt(st, s, index, amount, Simulate).amount == InsertAt(st, s, index, amount, Execute).amount
    ensures ExtractAt(st, s, index, amount, Simulate).amount == ExtractAt(st, s, index, amount, Execute).amount
    ensures GetAmount(st, InsertAt(st, s, index, amount, Simulate).state, other) == GetAmount(st, s, other)
    ensures GetAmount(st, ExtractAt(st, s, index, amount, Simulate).state, other) == GetAmount(st, s, other)
    ensures !AllowsInsertion(st, s) ==> InsertAt(st, s, index, amount, action).amount == 0
    ensures !AllowsExtraction(st, s) ==> ExtractAt(st, s, index, amount, action).amount == 0
  {
  }
}
