/** `ComponentEnergyBuffer`: a single-slot handler whose energy lives in an
    external integer cell (an item's data component) that may be absent. Every
    read clamps the cell into [0, capacity], every write stores a clamped value,
    and no method looks at its index argument. */
module ComponentEnergyBuffer {
  import opened Transfer

  /** The three final fields. */
  datatype Config = Config(capacity: Int32, maxReceive: Int32, maxExtract: Int32)

  /** The capacity the clamps need: `Mth.clamp(v, 0, capacity)` is taken as
      `min(max(v, 0), capacity)`, which is only meaningful for capacity >= 0. */
  predicate Valid(c: Config) {
    0 <= c.capacity
  }

  /** A handler together with the current content of its cell. */
  datatype Battery = Battery(config: Config, cell: Option<Int32>)

  /** The five-argument constructor. */
  function New(capacity: Int32, maxReceive: Int32, maxExtract: Int32, cell: Option<Int32>): (r: Battery)
    ensures r.config.capacity == capacity && r.config.maxReceive == maxReceive && r.config.maxExtract == maxExtract
    ensures r.cell == cell
  {
    Battery(Config(capacity, maxReceive, maxExtract), cell)
  }

  /** The four-argument constructor: one rate for both directions. */
  function NewWithTransfer(capacity: Int32, maxTransfer: Int32, cell: Option<Int32>): (r: Battery)
    ensures r == New(capacity, maxTransfer, maxTransfer, cell)
    ensures r.config.maxReceive == r.config.maxExtract == maxTransfer
  {
    New(capacity, maxTransfer, maxTransfer, cell)
  }

  /** The three-argument constructor: both rates equal the capacity. */
  function NewWithCapacity(capacity: Int32, cell: Option<Int32>): (r: Battery)
    ensures r == NewWithTransfer(capacity, capacity, cell)
    ensures r.config.maxReceive == r.config.maxExtract == r.config.capacity == capacity
  {
    NewWithTransfer(capacity, capacity, cell)
  }

  /** `size()`. */
  const Size: Int32 := 1

  /** `getAmount(index)`: the cell, or 0 when absent, clamped into [0, capacity]. */
  function GetAmount(c: Battery, index: Int32): (r: Int32)
    requires Valid(c.config)
    ensures 0 <= r <= c.config.capacity
    ensures c.cell.None? ==> r == 0
    ensures c.cell.Some? && 0 <= c.cell.value <= c.config.capacity ==> r == c.cell.value
    ensures c.cell.Some? && c.cell.value < 0 ==> r == 0
    ensures c.cell.Some? && c.config.capacity < c.cell.value ==> r == c.config.capacity
  {
    Clamp(c.cell.GetOr(0), 0, c.config.capacity)
  }

  /** `getCapacity(index)`. */
  function GetCapacity(c: Battery, index: Int32): (r: Int32)
    requires Valid(c.config)
    ensures r == c.config.capacity && GetAmount(c, index) <= r
  {
    c.config.capacity
  }

  /** `allowsInsertion(index)`, for any index. */
  function AllowsInsertionAt(c: Battery, index: Int32): (r: bool)
    ensures r <==> c.config.maxReceive > 0
  {
    c.config.maxReceive > 0
  }

  /** `allowsExtraction(index)`, for any index. */
  function AllowsExtractionAt(c: Battery, index: Int32): (r: bool)
    ensures r <==> c.config.maxExtract > 0
  {
    c.config.maxExtract > 0
  }

  /** `allowsInsertion()`: overridden to ask index 0. */
  function AllowsInsertion(c: Battery): (r: bool)
    ensures r <==> c.config.maxReceive > 0
    ensures forall index: Int32 :: r == AllowsInsertionAt(c, index)
  {
    AllowsInsertionAt(c, 0)
  }

  /** `allowsExtraction()`: overridden to ask index 0. */
  function AllowsExtraction(c: Battery): (r: bool)
    ensures r <==> c.config.maxExtract > 0
    ensures forall index: Int32 :: r == AllowsExtractionAt(c, index)
  {
    AllowsExtractionAt(c, 0)
  }

  /** `set(index, energy)`: writes the clamped value to the cell. */
  function Set(c: Battery, index: Int32, energy: Int32): (r: Battery)
    requires Valid(c.config)
    ensures r.config == c.config && r.cell.Some?
    ensures 0 <= r.cell.value <= c.config.capacity
    ensures 0 <= energy <= c.config.capacity ==> r.cell.value == energy
    ensures energy < 0 ==> r.cell.value == 0
    ensures c.config.capacity < energy ==> r.cell.value == c.config.capacity
  {
    c.(cell := Some(Clamp(energy, 0, c.config.capacity)))
  }

  /** `insert(index, amount, action)`. */
  function InsertAt(c: Battery, index: Int32, amount: Int32, action: Action): (m: Moved<Battery>)
    requires Valid(c.config)
    ensures var request := Min(c.config.maxReceive, amount);
            && 0 <= m.amount <= Max(0, request)
            && GetAmount(c, index) + m.amount <= c.config.capacity
            && (0 < request ==> m.amount == request || GetAmount(c, index) + m.amount == c.config.capacity)
    ensures m.state.config == c.config
    ensures action.Execute? ==> GetAmount(m.state, index) == GetAmount(c, index) + m.amount
    ensures action.Simulate? || m.amount == 0 ==> m.state == c
    ensures m.state != c ==> m.state.cell.Some? && 0 <= m.state.cell.value <= c.config.capacity
  {
    if !AllowsInsertionAt(c, index) || amount <= 0 then Moved(0, c)
    else
      var energy := GetAmount(c, index);
      var received := Clamp(c.config.capacity - energy, 0, Min(c.config.maxReceive, amount));
      Moved(received, if action.IsExecuting() && received > 0 then Set(c, index, energy + received) else c)
  }

  /** `insert(amount, action)`: the index-0 call. */
  function Insert(c: Battery, amount: Int32, action: Action): (m: Moved<Battery>)
    requires Valid(c.config)
    ensures m == InsertAt(c, 0, amount, action)
    ensures m.amount == if c.config.maxReceive > 0 && amount > 0
                        then Min(c.config.capacity - GetAmount(c, 0), Min(c.config.maxReceive, amount)) else 0
    ensures action.Execute? ==> GetAmount(m.state, 0) == GetAmount(c, 0) + m.amount
    ensures action.Simulate? ==> m.state == c
  {
    InsertAt(c, 0, amount, action)
  }

  /** `extract(index, amount, action)`. The guard asks the unindexed hint. */
  function ExtractAt(c: Battery, index: Int32, amount: Int32, action: Action): (m: Moved<Battery>)
    requires Valid(c.config)
    ensures var request := Min(c.config.maxExtract, amount);
            && 0 <= m.amount <= Max(0, request)
            && m.amount <= GetAmount(c, index)
            && (0 < request ==> m.amount == request || m.amount == GetAmount(c, index))
    ensures m.state.config == c.config
    ensures action.Execute? ==> GetAmount(m.state, index) == GetAmount(c, index) - m.amount
    ensures action.Simulate? || m.amount == 0 ==> m.state == c
    ensures m.state != c ==> m.state.cell.Some? && 0 <= m.state.cell.value <= c.config.capacity
  {
    if !AllowsExtraction(c) || amount <= 0 then Moved(0, c)
    else
      var energy := GetAmount(c, index);
      var extracted := Min(energy, Min(c.config.maxExtract, amount));
      Moved(extracted, if action.IsExecuting() && extracted > 0 then Set(c, index, energy - extracted) else c)
  }

  /** `extract(amount, action)`: the index-0 call. */
  function Extract(c: Battery, amount: Int32, action: Action): (m: Moved<Battery>)
    requires Valid(c.config)
    ensures m == ExtractAt(c, 0, amount, action)
    ensures m.amount == if c.config.maxExtract > 0 && amount > 0
                        then Min(GetAmount(c, 0), Min(c.config.maxExtract, amount)) else 0
    ensures action.Execute? ==> GetAmount(m.state, 0) == GetAmount(c, 0) - m.amount
    ensures action.Simulate? ==> m.state == c
  {
    ExtractAt(c, 0, amount, action)
  }

  /** No method looks at its index: every index behaves like index 0. */
  lemma IndexIgnored(c: Battery, index: Int32, amount: Int32, action: Action)
    requires Valid(c.config)
    ensures GetAmount(c, index) == GetAmount(c, 0) && GetCapacity(c, index) == GetCapacity(c, 0)
    ensures InsertAt(c, index, amount, action) == Insert(c, amount, action)
    ensures ExtractAt(c, index, amount, action) == Extract(c, amount, action)
    ensures Set(c, index, amount) == Set(c, 0, amount)
  {
  }

  /** The exact amounts: what fits under the capped request, and what is
      stored under the capped request. */
  lemma TransferAmounts(c: Battery, amount: Int32, action: Action)
    requires Valid(c.config)
    ensures Insert(c, amount, action).amount
            == if c.config.maxReceive > 0 && amount > 0
               then Min(c.config.capacity - GetAmount(c, 0), Min(c.config.maxReceive, amount)) else 0
    ensures Extract(c, amount, action).amount
            == if c.config.maxExtract > 0 && amount > 0
               then Min(GetAmount(c, 0), Min(c.config.maxExtract, amount)) else 0
  {
  }

  /** SIMULATE reports what EXECUTE would move. */
  lemma SimulateMatchesExecute(c: Battery, amount: Int32)
    requires Valid(c.config)
    ensures Insert(c, amount, Simulate).amount == Insert(c, amount, Execute).amount
    ensures Extract(c, amount, Simulate).amount == Extract(c, amount, Execute).amount
  {
  }

  /** Reading back after `set` gives the stored value; a later read sees the
      clamped value even when the cell started absent or out of range. */
  lemma SetThenGetAmount(c: Battery, index: Int32, energy: Int32)
    requires Valid(c.config) && 0 <= energy <= c.config.capacity
    ensures GetAmount(Set(c, index, energy), index) == energy
  {
  }

  /** Inserting an amount neither the rate nor the free space limits, then
      extracting it, restores the observed amount; the cell itself may go from
      absent to present. */
  lemma InsertThenExtractRestoresAmount(c: Battery, amount: Int32)
    requires Valid(c.config)
    requires 0 < amount <= c.config.maxReceive && amount <= c.config.maxExtract
    requires GetAmount(c, 0) + amount <= c.config.capacity
    ensures var inserted := Insert(c, amount, Execute);
            && inserted.amount == amount
            && var extracted := Extract(inserted.state, amount, Execute);
            && extracted.amount == amount
            && GetAmount(extracted.state, 0) == GetAmount(c, 0)
  {
  }

  /** An absent cell reads as empty, and a write makes it present. */
  lemma AbsentCellFirstWrite(capacity: Int32, amount: Int32)
    requires 0 < amount <= capacity
    ensures var c := NewWithCapacity(capacity, None);
            && GetAmount(c, 0) == 0
            && Insert(c, amount, Execute) == Moved(amount, c.(cell := Some(amount)))
            && Insert(c, amount, Simulate) == Moved(amount, c)
  {
  }
}
