/** `transfer/energy/templates/EnergyBuffer`: the reference multi-slot buffer
    with a validating constructor, bounds-checked getters and `set`
    (`IEnergyHandler.Modifiable`). Its transfers are BufferCore's. */
module EnergyBuffer {
  import opened Transfer
  import opened BufferCore
  import Greedy

  /** What this class's constructor guarantees on top of the shared invariant:
      at least one slot and non-negative rates. */
  predicate Constructed(b: Slots) {
    && BufferCore.Valid(b)
    && 0 < |b.energy|
    && 0 <= b.maxInsert
    && 0 <= b.maxExtract
  }

  /** `new EnergyBuffer(size, capacity, maxInsertionRate, maxExtractionRate, energy...)`:
      the five argument checks in order, then one read of `energy[i]` per
      slot, each clamped into [0, capacity]. */
  function New(size: Int32, capacity: Int32, maxInsertionRate: Int32, maxExtractionRate: Int32, energy: seq<Int32>): (r: Result<Slots>)
    ensures r.Ok? <==> 0 < size && |energy| == size && 0 <= capacity && 0 <= maxInsertionRate && 0 <= maxExtractionRate
    ensures r == Err(IllegalArgument(SizeNotPositive)) <==> size <= 0
    ensures r == Err(IllegalArgument(EnergyArrayTooLong)) <==> 0 < size < |energy|
    ensures r == Err(IllegalArgument(NegativeCapacity)) <==> 0 < size && |energy| <= size && capacity < 0
    ensures r == Err(IllegalArgument(NegativeInsertionRate))
            <==> 0 < size && |energy| <= size && 0 <= capacity && maxInsertionRate < 0
    ensures r == Err(IllegalArgument(NegativeExtractionRate))
            <==> 0 < size && |energy| <= size && 0 <= capacity && 0 <= maxInsertionRate && maxExtractionRate < 0
    ensures (r.Err? && r.error.IllegalArgument?)
            <==> (size <= 0 || size < |energy| || capacity < 0 || maxInsertionRate < 0 || maxExtractionRate < 0)
    ensures r == Err(IndexOutOfBounds)
            <==> (0 < size && |energy| < size && 0 <= capacity && 0 <= maxInsertionRate && 0 <= maxExtractionRate)
    ensures r.Ok? ==> Constructed(r.value) && |r.value.energy| == size
    ensures r.Ok? ==> r.value.capacity == capacity && r.value.maxInsert == maxInsertionRate && r.value.maxExtract == maxExtractionRate
    ensures r.Ok? ==> forall i :: 0 <= i < size ==> r.value.energy[i] == Clamp(energy[i], 0, capacity)
  {
    if size <= 0 then Err(IllegalArgument(SizeNotPositive))
    else if size < |energy| then Err(IllegalArgument(EnergyArrayTooLong))
    else if capacity < 0 then Err(IllegalArgument(NegativeCapacity))
    else if maxInsertionRate < 0 then Err(IllegalArgument(NegativeInsertionRate))
    else if maxExtractionRate < 0 then Err(IllegalArgument(NegativeExtractionRate))
    else if |energy| < size then Err(IndexOutOfBounds)   // energy[i] read past the end of a short array
    else
      var slots := seq(size as int, i requires 0 <= i < |energy| => Max(0, Min(capacity, energy[i])));
      Ok(Slots(slots, capacity, maxInsertionRate, maxExtractionRate))
  }

  /** `getCapacity(index)`: the shared capacity, after the index check. */
  function GetCapacity(b: Slots, index: Int32): (r: Result<Int32>)
    requires BufferCore.Valid(b)
    ensures r.Ok? <==> InRange(index, |b.energy|)
    ensures r.Err? ==> r.error == IndexOutOfBounds
    ensures r.Ok? ==> 0 <= r.value && r.value == b.capacity && b.energy[index] <= r.value
  {
    if !InRange(index, |b.energy|) then Err(IndexOutOfBounds) else Ok(b.capacity)
  }

  /** `set(index, amount)`: a direct write, clamped to [0, capacity], that
      ignores both rates and takes effect at once. */
  function Set(b: Slots, index: Int32, amount: Int32): (r: Result<Slots>)
    requires BufferCore.Valid(b)
    ensures r.Ok? <==> InRange(index, |b.energy|)
    ensures r.Err? ==> r.error == IndexOutOfBounds
    ensures r.Ok? ==> BufferCore.Valid(r.value) && SameConfig(b, r.value)
    ensures r.Ok? && 0 <= amount <= b.capacity ==> r.value.energy[index] == amount
    ensures r.Ok? && amount < 0 ==> r.value.energy[index] == 0
    ensures r.Ok? && b.capacity < amount ==> r.value.energy[index] == b.capacity
    ensures r.Ok? ==> forall i :: 0 <= i < |b.energy| && i != index ==> r.value.energy[i] == b.energy[i]
  {
    if !InRange(index, |b.energy|) then Err(IndexOutOfBounds)
    else Ok(b.(energy := b.energy[index := Clamp(amount, 0, b.capacity)]))
  }

  /** Reading a slot back after `set` gives the stored value, whatever the rates are. */
  lemma SetThenGetAmount(b: Slots, index: Int32, amount: Int32)
    requires BufferCore.Valid(b) && InRange(index, |b.energy|) && 0 <= amount <= b.capacity
    ensures Set(b, index, amount).Ok?
    ensures GetAmount(Set(b, index, amount).value, index) == Ok(amount)
  {
  }

  /** Every operation keeps the constructor's guarantees: slots stay within
      [0, capacity] and the configuration never changes. */
  lemma OperationsKeepInvariant(b: Slots, index: Int32, amount: Int32, action: Action)
    requires Constructed(b)
    ensures var r := InsertAt(b, index, amount, action); r.Ok? ==> Constructed(r.value.state) && SameConfig(b, r.value.state)
    ensures var r := ExtractAt(b, index, amount, action); r.Ok? ==> Constructed(r.value.state) && SameConfig(b, r.value.state)
    ensures Constructed(Insert(b, amount, action).state) && Constructed(Extract(b, amount, action).state)
    ensures var r := Set(b, index, amount); r.Ok? ==> Constructed(r.value)
  {
  }

  /** `Builder.create(size, capacity)`. The source's default rate is
      `Mth.ceil(capacity * 0.01f)`; it is the parameter `defaultRate` here. */
  function Create(size: Int32, capacity: Int32, defaultRate: Int32): (r: Result<Builder>)
    ensures r.Ok? <==> 0 <= size
    ensures r.Err? ==> r.error == NegativeArraySize
    ensures r.Ok? ==> r.value == Builder(size, r.value.energy, capacity, defaultRate, defaultRate) && Consistent(r.value)
    ensures r.Ok? ==> forall i :: 0 <= i < size ==> r.value.energy[i] == 0
  {
    var initial := Builder(1, [0], 0, 0, 0);
    var sized :- WithSize(initial, size);
    Ok(WithMaxTransferRate(WithCapacity(sized, capacity), defaultRate))
  }

  /** `Builder.build()`. */
  function Build(bl: Builder): (r: Result<Slots>)
    ensures r.Ok? <==> 0 < bl.size && |bl.energy| == bl.size && 0 <= bl.capacity && 0 <= bl.maxInsertRate && 0 <= bl.maxExtractRate
    ensures r.Ok? ==> Constructed(r.value) && |r.value.energy| == bl.size
    ensures r.Ok? ==> r.value.capacity == bl.capacity && r.value.maxInsert == bl.maxInsertRate && r.value.maxExtract == bl.maxExtractRate
    ensures r.Ok? ==> forall i :: 0 <= i < bl.size ==> r.value.energy[i] == Clamp(bl.energy[i], 0, bl.capacity)
  {
    New(bl.size, bl.capacity, bl.maxInsertRate, bl.maxExtractRate, bl.energy)
  }

  /** A builder always carries one seed per slot, so building it fails only on
      an argument check, never on a short seed array; and a buffer built from
      `create` with legal arguments starts empty. */
  lemma BuildFailsOnlyOnArguments(bl: Builder)
    requires Consistent(bl)
    ensures Build(bl).Ok? <==> 0 < bl.size && 0 <= bl.capacity && 0 <= bl.maxInsertRate && 0 <= bl.maxExtractRate
    ensures Build(bl).Err? ==> Build(bl).error.IllegalArgument?
  {
  }

  lemma CreateThenBuildStartsEmpty(size: Int32, capacity: Int32, defaultRate: Int32)
    requires 0 < size && 0 <= capacity && 0 <= defaultRate
    ensures Create(size, capacity, defaultRate).Ok?
    ensures var r := Build(Create(size, capacity, defaultRate).value);
            && r.Ok? && |r.value.energy| == size as int && Total(r.value) == 0
            && r.value.maxInsert == defaultRate && r.value.maxExtract == defaultRate
  {
    var r := Build(Create(size, capacity, defaultRate).value);
    Greedy.ZerosSumToZero(r.value.energy, |r.value.energy|);
  }
}
