/** `transfer/energy/EnergyBuffer`: the older multi-slot buffer the game tests
    exercise. It checks only the seed array's length and the capacity, leaves
    the rates unchecked, accepts zero slots, and answers `getCapacity` for any
    index. Its transfers are BufferCore's. */
module EarlyEnergyBuffer {
  import opened Transfer
  import opened BufferCore
  import Greedy

  /** `new EnergyBuffer(size, capacity, maxInsert, maxExtract, energy...)`: two
      argument checks, then one read of `energy[i]` per slot, each clamped into
      [0, capacity]. A negative size always fails the first check, because no
      array is shorter than zero. */
  function New(size: Int32, capacity: Int32, maxInsert: Int32, maxExtract: Int32, energy: seq<Int32>): (r: Result<Slots>)
    ensures r.Ok? <==> |energy| == size && 0 <= capacity
    ensures r == Err(IllegalArgument(EnergyArrayTooLong)) <==> size < |energy|
    ensures r == Err(IllegalArgument(NegativeCapacity)) <==> |energy| <= size && capacity < 0
    ensures r == Err(IndexOutOfBounds) <==> |energy| < size && 0 <= capacity
    ensures r.Ok? ==> BufferCore.Valid(r.value) && |r.value.energy| == size
    ensures r.Ok? ==> r.value.capacity == capacity && r.value.maxInsert == maxInsert && r.value.maxExtract == maxExtract
    ensures r.Ok? ==> forall i :: 0 <= i < size ==> r.value.energy[i] == Clamp(energy[i], 0, capacity)
  {
    if size < |energy| then Err(IllegalArgument(EnergyArrayTooLong))
    else if capacity < 0 then Err(IllegalArgument(NegativeCapacity))
    else if |energy| < size then Err(IndexOutOfBounds)   // energy[i] read past the end of a short array
    else
      var slots := seq(size as int, i requires 0 <= i < |energy| => Max(0, Min(capacity, energy[i])));
      Ok(Slots(slots, capacity, maxInsert, maxExtract))
  }

  /** `getCapacity(index)`: the shared capacity, for every index, in range or not. */
  function GetCapacity(b: Slots, index: Int32): (r: Int32)
    requires BufferCore.Valid(b)
    ensures 0 <= r && r == b.capacity
    ensures InRange(index, |b.energy|) ==> GetAmount(b, index).value <= r
  {
    b.capacity
  }

  /** The checks this constructor leaves out: zero slots and negative rates are
      accepted, where the `templates` buffer rejects both. */
  lemma NewAcceptsWhatTemplatesRejects(maxInsert: Int32, maxExtract: Int32)
    requires maxInsert < 0 && maxExtract < 0
    ensures New(0, 0, 0, 0, []).Ok?
    ensures New(1, 0, maxInsert, maxExtract, [0]).Ok?
  {
  }

  /** A buffer with no slots moves nothing and allows nothing, whatever its rates. */
  lemma EmptyBufferMovesNothing(b: Slots, amount: Int32, action: Action)
    requires BufferCore.Valid(b) && |b.energy| == 0
    ensures Insert(b, amount, action) == Moved(0, b)
    ensures Extract(b, amount, action) == Moved(0, b)
    ensures Total(b) == 0
  {
    InsertIsGreedy(b, amount, action);
    ExtractIsGreedy(b, amount, action);
  }

  /** With a negative rate nothing moves, indexed or not: the capped request is never positive. */
  lemma NegativeRateMovesNothing(b: Slots, index: Int32, amount: Int32, action: Action)
    requires BufferCore.Valid(b) && InRange(index, |b.energy|) && b.maxInsert < 0 && b.maxExtract < 0
    ensures InsertAt(b, index, amount, action) == Ok(Moved(0, b))
    ensures ExtractAt(b, index, amount, action) == Ok(Moved(0, b))
    ensures Insert(b, amount, action) == Moved(0, b) && Extract(b, amount, action) == Moved(0, b)
    ensures AllowsInsertionAt(b, index) == Ok(false) && AllowsExtractionAt(b, index) == Ok(false)
  {
  }

  /** `Builder.create(size, capacity)`: a builder whose seed array is not
      allocated yet (the empty sequence stands for `null`), then `size`,
      `capacity` and `maxTransferRate(capacity)`. */
  function Create(size: Int32, capacity: Int32): (r: Result<Builder>)
    ensures r.Ok? <==> 0 <= size
    ensures r.Err? ==> r.error == NegativeArraySize
    ensures r.Ok? ==> r.value == Builder(size, r.value.energy, capacity, capacity, capacity) && Consistent(r.value)
    ensures r.Ok? ==> forall i :: 0 <= i < size ==> r.value.energy[i] == 0
  {
    var unsized := Builder(1, [], 0, 0, 0);
    var sized :- WithSize(unsized, size);
    Ok(WithMaxTransferRate(WithCapacity(sized, capacity), capacity))
  }

  /** `Builder.build()`. */
  function Build(bl: Builder): (r: Result<Slots>)
    ensures r.Ok? <==> |bl.energy| == bl.size && 0 <= bl.capacity
    ensures r.Ok? ==> BufferCore.Valid(r.value) && |r.value.energy| == bl.size
    ensures r.Ok? ==> r.value.capacity == bl.capacity && r.value.maxInsert == bl.maxInsertRate && r.value.maxExtract == bl.maxExtractRate
    ensures r.Ok? ==> forall i :: 0 <= i < bl.size ==> r.value.energy[i] == Clamp(bl.energy[i], 0, bl.capacity)
  {
    New(bl.size, bl.capacity, bl.maxInsertRate, bl.maxExtractRate, bl.energy)
  }

  /** A consistent builder fails to build only on a negative capacity. */
  lemma BuildFailsOnlyOnCapacity(bl: Builder)
    requires Consistent(bl)
    ensures Build(bl).Ok? <==> 0 <= bl.capacity
    ensures Build(bl).Err? ==> Build(bl).error == IllegalArgument(NegativeCapacity)
  {
  }

  /** `create(size, capacity)` then `build()` gives an empty buffer whose two
      rates both equal the capacity; re-setting either rate changes only that rate. */
  lemma CreateSetsBothRatesToCapacity(size: Int32, capacity: Int32, rate: Int32)
    requires 0 <= size && 0 <= capacity
    ensures Create(size, capacity).Ok?
    ensures var r := Build(Create(size, capacity).value);
            && r.Ok? && |r.value.energy| == size as int && Total(r.value) == 0
            && r.value.maxInsert == capacity && r.value.maxExtract == capacity
    ensures var r := Build(WithMaxInsertRate(Create(size, capacity).value, rate));
            r.Ok? && r.value.maxInsert == rate && r.value.maxExtract == capacity
    ensures var r := Build(WithMaxExtractRate(Create(size, capacity).value, rate));
            r.Ok? && r.value.maxInsert == capacity && r.value.maxExtract == rate
  {
    var r := Build(Create(size, capacity).value);
    Greedy.ZerosSumToZero(r.value.energy, |r.value.energy|);
  }
}
