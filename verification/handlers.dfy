/** `IEnergyHandler` over the handler classes of the energy transfer API, as
    one closed sum: each class's methods are the case of the matching
    constructor, and the interface's default `allowsInsertion()` /
    `allowsExtraction()` apply wherever a class does not override them.

    The interface-wide lemmas at the end state the interface's contract and
    prove that every class keeps it. */
module Handlers {
  import opened Transfer
  import opened Greedy
  import EnergyHandler
  import BufferCore
  import EnergyBuffer
  import EarlyEnergyBuffer
  import ComponentEnergyBuffer

  datatype Handler =
    | Buffer(slots: BufferCore.Slots)                        // templates/EnergyBuffer
    | EarlyBuffer(slots: BufferCore.Slots)                   // energy/EnergyBuffer
    | Component(battery: ComponentEnergyBuffer.Battery)      // ComponentEnergyBuffer
    | Void                                                   // both VoidEnergyBuffer classes
    | Empty                                                  // DefaultEnergyBuffer and both EnergyHandlerUtil.EMPTY

  /** What each class's constructor establishes; a Java array never has more
      than `INT32_MAX` elements. */
  predicate Valid(h: Handler) {
    match h
    case Buffer(b) => EnergyBuffer.Constructed(b) && |b.energy| <= INT32_MAX
    case EarlyBuffer(b) => BufferCore.Valid(b) && |b.energy| <= INT32_MAX
    case Component(c) => ComponentEnergyBuffer.Valid(c.config)
    case Void => true
    case Empty => true
  }

  /** `size()`. The interface annotates it as at least 1, which the size-0
      handlers do not keep. */
  function Size(h: Handler): (r: Int32)
    requires Valid(h)
    ensures h.Buffer? || h.Component? || h.Void? ==> 1 <= r
    ensures h.Component? || h.Void? ==> r == 1
    ensures h.Empty? ==> r == 0
  {
    match h
    case Buffer(b) => |b.energy|
    case EarlyBuffer(b) => |b.energy|
    case Component(_) => ComponentEnergyBuffer.Size
    case Void => 1
    case Empty => 0
  }

  /** `getAmount(index)`. */
  function GetAmount(h: Handler, index: Int32): (r: Result<Int32>)
    requires Valid(h)
    ensures r.Err? ==> r.error == IndexOutOfBounds && !InRange(index, Size(h))
    ensures h.Buffer? || h.EarlyBuffer? ==> (r.Ok? <==> InRange(index, Size(h)))
    ensures r.Ok? ==> 0 <= r.value
    ensures h.Void? || h.Empty? ==> r == Ok(0)
  {
    match h
    case Buffer(b) => BufferCore.GetAmount(b, index)
    case EarlyBuffer(b) => BufferCore.GetAmount(b, index)
    case Component(c) => Ok(ComponentEnergyBuffer.GetAmount(c, index))
    case Void => Ok(0)
    case Empty => Ok(0)
  }

  /** `getCapacity(index)`. */
  function GetCapacity(h: Handler, index: Int32): (r: Result<Int32>)
    requires Valid(h)
    ensures r.Err? ==> r.error == IndexOutOfBounds && !InRange(index, Size(h)) && h.Buffer?
    ensures r.Ok? ==> 0 <= r.value
    ensures r.Ok? && GetAmount(h, index).Ok? ==> GetAmount(h, index).value <= r.value
    ensures h.Void? ==> r == Ok(MAX_VALUE as Int32)
    ensures h.Empty? ==> r == Ok(0)
  {
    match h
    case Buffer(b) => EnergyBuffer.GetCapacity(b, index)
    case EarlyBuffer(b) => Ok(EarlyEnergyBuffer.GetCapacity(b, index))
    case Component(c) => Ok(ComponentEnergyBuffer.GetCapacity(c, index))
    case Void => Ok(MAX_VALUE as Int32)
    case Empty => Ok(0)
  }

  /** `allowsInsertion(index)`. */
  function AllowsInsertionAt(h: Handler, index: Int32): (r: Result<bool>)
    ensures h.Buffer? || h.EarlyBuffer? ==> (r.Ok? <==> InRange(index, |h.slots.energy|))
    ensures r.Err? ==> r.error == IndexOutOfBounds
    ensures h.Void? ==> r == Ok(true)
    ensures h.Empty? ==> r == Ok(false)
  {
    match h
    case Buffer(b) => BufferCore.AllowsInsertionAt(b, index)
    case EarlyBuffer(b) => BufferCore.AllowsInsertionAt(b, index)
    case Component(c) => Ok(ComponentEnergyBuffer.AllowsInsertionAt(c, index))
    case Void => Ok(true)
    case Empty => Ok(false)
  }

  /** `allowsExtraction(index)`. */
  function AllowsExtractionAt(h: Handler, index: Int32): (r: Result<bool>)
    ensures h.Buffer? || h.EarlyBuffer? ==> (r.Ok? <==> InRange(index, |h.slots.energy|))
    ensures r.Err? ==> r.error == IndexOutOfBounds
    ensures h.Void? || h.Empty? ==> r == Ok(false)
  {
    match h
    case Buffer(b) => BufferCore.AllowsExtractionAt(b, index)
    case EarlyBuffer(b) => BufferCore.AllowsExtractionAt(b, index)
    case Component(c) => Ok(ComponentEnergyBuffer.AllowsExtractionAt(c, index))
    case Void => Ok(false)
    case Empty => Ok(false)
  }

  /** `allowsInsertion()`: the interface's default loop over the indices, or
      the override of `ComponentEnergyBuffer`. Either way the answer is fixed
      by the configuration: a buffer with at least one slot and a positive
      insertion rate, a component with a positive receive rate, the void
      handler. */
  function AllowsInsertion(h: Handler): (r: bool)
    requires Valid(h)
    ensures h.Buffer? || h.EarlyBuffer? ==> (r <==> 0 < |h.slots.energy| && h.slots.maxInsert > 0)
    ensures h.Component? ==> (r <==> h.battery.config.maxReceive > 0)
    ensures h.Void? ==> r
    ensures h.Empty? ==> !r
  {
    match h
    case Component(c) => ComponentEnergyBuffer.AllowsInsertion(c)
    case _ =>
      var allows := (i: Int32) => AllowsInsertionAt(h, i) == Ok(true);
      EnergyHandler.AnyIndexAllowsIffSomeIndex(Size(h), allows);
      assert allows(0) <==> AllowsInsertionAt(h, 0) == Ok(true);
      EnergyHandler.AnyIndexAllows(Size(h), allows)
  }

  /** `allowsExtraction()`: the interface's default loop over the indices, or
      the override of `ComponentEnergyBuffer`. The answer is fixed by the
      configuration: a buffer with at least one slot and a positive
      extraction rate, or a component with a positive extract rate. */
  function AllowsExtraction(h: Handler): (r: bool)
    requires Valid(h)
    ensures h.Buffer? || h.EarlyBuffer? ==> (r <==> 0 < |h.slots.energy| && h.slots.maxExtract > 0)
    ensures h.Component? ==> (r <==> h.battery.config.maxExtract > 0)
    ensures h.Void? || h.Empty? ==> !r
  {
    match h
    case Component(c) => ComponentEnergyBuffer.AllowsExtraction(c)
    case _ =>
      var allows := (i: Int32) => AllowsExtractionAt(h, i) == Ok(true);
      EnergyHandler.AnyIndexAllowsIffSomeIndex(Size(h), allows);
      assert allows(0) <==> AllowsExtractionAt(h, 0) == Ok(true);
      EnergyHandler.AnyIndexAllows(Size(h), allows)
  }

  /** `insert(index, amount, action)`. */
  function InsertAt(h: Handler, index: Int32, amount: Int32, action: Action): (r: Result<Moved<Handler>>)
    requires Valid(h)
    ensures r.Err? ==> r.error == IndexOutOfBounds && !InRange(index, Size(h))
    ensures r.Ok? ==> Valid(r.value.state) && Size(r.value.state) == Size(h)
    ensures r.Ok? && 0 <= amount ==> 0 <= r.value.amount <= amount
    ensures r.Ok? && action.Simulate? ==> r.value.state == h
  {
    match h
    case Buffer(b) =>
      var m :- BufferCore.InsertAt(b, index, amount, action);
      Ok(Moved(m.amount, Buffer(m.state)))
    case EarlyBuffer(b) =>
      var m :- BufferCore.InsertAt(b, index, amount, action);
      Ok(Moved(m.amount, EarlyBuffer(m.state)))
    case Component(c) =>
      var m := ComponentEnergyBuffer.InsertAt(c, index, amount, action);
      Ok(Moved(m.amount, Component(m.state)))
    case Void => Ok(Moved(amount, Void))
    case Empty => Ok(Moved(0, Empty))
  }

  /** `extract(index, amount, action)`. */
  function ExtractAt(h: Handler, index: Int32, amount: Int32, action: Action): (r: Result<Moved<Handler>>)
    requires Valid(h)
    ensures r.Err? ==> r.error == IndexOutOfBounds && !InRange(index, Size(h))
    ensures r.Ok? ==> Valid(r.value.state) && Size(r.value.state) == Size(h)
    ensures r.Ok? && 0 <= amount ==> 0 <= r.value.amount <= amount
    ensures r.Ok? && action.Simulate? ==> r.value.state == h
  {
    match h
    case Buffer(b) =>
      var m :- BufferCore.ExtractAt(b, index, amount, action);
      Ok(Moved(m.amount, Buffer(m.state)))
    case EarlyBuffer(b) =>
      var m :- BufferCore.ExtractAt(b, index, amount, action);
      Ok(Moved(m.amount, EarlyBuffer(m.state)))
    case Component(c) =>
      var m := ComponentEnergyBuffer.ExtractAt(c, index, amount, action);
      Ok(Moved(m.amount, Component(m.state)))
    case Void => Ok(Moved(0, Void))
    case Empty => Ok(Moved(0, Empty))
  }

  /** `insert(amount, action)`. */
  function Insert(h: Handler, amount: Int32, action: Action): (m: Moved<Handler>)
    requires Valid(h)
    ensures Valid(m.state) && Size(m.state) == Size(h)
    ensures 0 <= amount ==> 0 <= m.amount <= amount
    ensures action.Simulate? ==> m.state == h
  {
    match h
    case Buffer(b) =>
      var m := BufferCore.Insert(b, amount, action);
      Moved(m.amount, Buffer(m.state))
    case EarlyBuffer(b) =>
      var m := BufferCore.Insert(b, amount, action);
      Moved(m.amount, EarlyBuffer(m.state))
    case Component(c) =>
      var m := ComponentEnergyBuffer.Insert(c, amount, action);
      Moved(m.amount, Component(m.state))
    case Void => Moved(amount, Void)
    case Empty => Moved(0, Empty)
  }

  /** `extract(amount, action)`. */
  function Extract(h: Handler, amount: Int32, action: Action): (m: Moved<Handler>)
    requires Valid(h)
    ensures Valid(m.state) && Size(m.state) == Size(h)
    ensures 0 <= amount ==> 0 <= m.amount <= amount
    ensures action.Simulate? ==> m.state == h
  {
    match h
    case Buffer(b) =>
      var m := BufferCore.Extract(b, amount, action);
      Moved(m.amount, Buffer(m.state))
    case EarlyBuffer(b) =>
      var m := BufferCore.Extract(b, amount, action);
      Moved(m.amount, EarlyBuffer(m.state))
    case Component(c) =>
      var m := ComponentEnergyBuffer.Extract(c, amount, action);
      Moved(m.amount, Component(m.state))
    case Void => Moved(0, Void)
    case Empty => Moved(0, Empty)
  }

  /** The handlers that implement `IEnergyHandler.Modifiable`. */
  predicate Modifiable(h: Handler) {
    h.Buffer? || h.Component?
  }

  /** `Modifiable.set(index, amount)`: the value is clamped into [0, capacity]
      and no other index changes. */
  function Set(h: Handler, index: Int32, amount: Int32): (r: Result<Handler>)
    requires Valid(h) && Modifiable(h)
    ensures r.Err? ==> r.error == IndexOutOfBounds && !InRange(index, Size(h))
    ensures h.Buffer? ==> (r.Ok? <==> InRange(index, Size(h)))
    ensures r.Ok? ==> Valid(r.value) && Size(r.value) == Size(h)
    ensures r.Ok? && GetCapacity(h, index).Ok? && 0 <= amount <= GetCapacity(h, index).value
            ==> GetAmount(r.value, index) == Ok(amount)
    ensures r.Ok? && h.Buffer? ==>
              forall i: Int32 :: 0 <= i < Size(h) && i != index ==> GetAmount(r.value, i) == GetAmount(h, i)
  {
    match h
    case Buffer(b) =>
      var b' :- EnergyBuffer.Set(b, index, amount);
      Ok(Buffer(b'))
    case Component(c) => Ok(Component(ComponentEnergyBuffer.Set(c, index, amount)))
  }

  // ---------------------------------------------------------------------------
  // Per-slot views

  /** What `getAmount(i)` answers for each index in [0, size()). */
  function Amounts(h: Handler): (r: seq<Int32>)
    requires Valid(h)
    ensures |r| == Size(h) as int && NonNegative(r)
    ensures forall i: Int32 :: 0 <= i < |r| ==> GetAmount(h, i) == Ok(r[i])
  {
    seq(Size(h) as int, i requires 0 <= i < Size(h) as int => GetAmount(h, i as Int32).value)
  }

  /** What `getCapacity(i)` answers for each index in [0, size()). */
  function Capacities(h: Handler): (r: seq<Int32>)
    requires Valid(h)
    ensures |r| == Size(h) as int && NonNegative(r)
    ensures forall i: Int32 :: 0 <= i < |r| ==> GetCapacity(h, i) == Ok(r[i])
  {
    seq(Size(h) as int, i requires 0 <= i < Size(h) as int => GetCapacity(h, i as Int32).value)
  }

  /** Energy held across all indices, as an unbounded integer. */
  function Stored(h: Handler): int
    requires Valid(h)
  {
    PrefixSum(Amounts(h), Size(h) as int)
  }

  lemma BufferAmountsAreSlots(h: Handler)
    requires Valid(h) && (h.Buffer? || h.EarlyBuffer?)
    ensures Amounts(h) == h.slots.energy
    ensures Stored(h) == BufferCore.Total(h.slots)
  {
    assert Amounts(h) == h.slots.energy;
  }

  lemma ComponentStoresCell(h: Handler)
    requires Valid(h) && h.Component?
    ensures Stored(h) == ComponentEnergyBuffer.GetAmount(h.battery, 0)
  {
    var xs := Amounts(h);
    assert xs[0] == ComponentEnergyBuffer.GetAmount(h.battery, 0);
    assert PrefixSum(xs, 1) == PrefixSum(xs, 0) + xs[0];
  }

  // ---------------------------------------------------------------------------
  // The interface's contract, for every handler

  /** `allowsInsertion()` is true exactly when some index in [0, size()) allows
      insertion, and `allowsExtraction()` likewise; both are false for a
      handler of size 0. */
  lemma HintIsSomeIndex(h: Handler)
    requires Valid(h)
    ensures AllowsInsertion(h) <==> exists i: Int32 :: 0 <= i < Size(h) && AllowsInsertionAt(h, i) == Ok(true)
    ensures AllowsExtraction(h) <==> exists i: Int32 :: 0 <= i < Size(h) && AllowsExtractionAt(h, i) == Ok(true)
    ensures Size(h) == 0 ==> !AllowsInsertion(h) && !AllowsExtraction(h)
  {
    if h.Component? {
      assert AllowsInsertion(h) <==> AllowsInsertionAt(h, 0) == Ok(true);
      assert AllowsExtraction(h) <==> AllowsExtractionAt(h, 0) == Ok(true);
    } else {
      EnergyHandler.AnyIndexAllowsIffSomeIndex(Size(h), (i: Int32) => AllowsInsertionAt(h, i) == Ok(true));
      EnergyHandler.AnyIndexAllowsIffSomeIndex(Size(h), (i: Int32) => AllowsExtractionAt(h, i) == Ok(true));
    }
  }

  /** The unindexed hints are sound: a handler that reports no insertion
      (extraction) moves nothing in that direction, at any index. */
  lemma HintsAreSound(h: Handler, index: Int32, amount: Int32, action: Action)
    requires Valid(h)
    ensures !AllowsInsertion(h) ==> Insert(h, amount, action).amount == 0
    ensures !AllowsInsertion(h) && InsertAt(h, index, amount, action).Ok? ==> InsertAt(h, index, amount, action).value.amount == 0
    ensures !AllowsExtraction(h) ==> Extract(h, amount, action).amount == 0
    ensures !AllowsExtraction(h) && ExtractAt(h, index, amount, action).Ok? ==> ExtractAt(h, index, amount, action).value.amount == 0
  {
    HintIsSomeIndex(h);
    if h.Buffer? || h.EarlyBuffer? {
      if |h.slots.energy| == 0 {
        EarlyEnergyBuffer.EmptyBufferMovesNothing(h.slots, amount, action);
      } else {
        assert AllowsInsertionAt(h, 0) == Ok(h.slots.maxInsert > 0);
        assert AllowsExtractionAt(h, 0) == Ok(h.slots.maxExtract > 0);
      }
    }
  }

  /** The void handler takes every amount offered, keeps none of it and gives
      none back; a negative offer is reported back unchanged. */
  lemma VoidAcceptsAndDestroys(index: Int32, amount: Int32, action: Action)
    ensures InsertAt(Void, index, amount, action) == Ok(Moved(amount, Void))
    ensures Insert(Void, amount, action) == Moved(amount, Void)
    ensures ExtractAt(Void, index, amount, action) == Ok(Moved(0, Void))
    ensures Extract(Void, amount, action) == Moved(0, Void)
    ensures Stored(Void) == 0 && Capacities(Void) == [MAX_VALUE as Int32]
    ensures AllowsInsertion(Void) && !AllowsExtraction(Void)
  {
    HintIsSomeIndex(Void);
    assert AllowsInsertionAt(Void, 0) == Ok(true);
    assert PrefixSum(Amounts(Void), 1) == PrefixSum(Amounts(Void), 0) + Amounts(Void)[0];
  }

  /** SIMULATE reports what EXECUTE would do: the same outcome, the same amount. */
  lemma SimulateMatchesExecute(h: Handler, index: Int32, amount: Int32)
    requires Valid(h)
    ensures InsertAt(h, index, amount, Simulate).Ok? == InsertAt(h, index, amount, Execute).Ok?
    ensures InsertAt(h, index, amount, Simulate).Ok? ==>
              InsertAt(h, index, amount, Simulate).value.amount == InsertAt(h, index, amount, Execute).value.amount
    ensures ExtractAt(h, index, amount, Simulate).Ok? == ExtractAt(h, index, amount, Execute).Ok?
    ensures ExtractAt(h, index, amount, Simulate).Ok? ==>
              ExtractAt(h, index, amount, Simulate).value.amount == ExtractAt(h, index, amount, Execute).value.amount
    ensures Insert(h, amount, Simulate).amount == Insert(h, amount, Execute).amount
    ensures Extract(h, amount, Simulate).amount == Extract(h, amount, Execute).amount
  {
    if h.Buffer? || h.EarlyBuffer? {
      BufferSimulateMatchesExecute(h, amount);
    }
  }

  lemma BufferSimulateMatchesExecute(h: Handler, amount: Int32)
    requires Valid(h) && (h.Buffer? || h.EarlyBuffer?)
    ensures Insert(h, amount, Simulate).amount == Insert(h, amount, Execute).amount
    ensures Extract(h, amount, Simulate).amount == Extract(h, amount, Execute).amount
  {
    BufferCore.InsertIsGreedy(h.slots, amount, Simulate);
    BufferCore.InsertIsGreedy(h.slots, amount, Execute);
    BufferCore.ExtractIsGreedy(h.slots, amount, Simulate);
    BufferCore.ExtractIsGreedy(h.slots, amount, Execute);
  }

  /** An executed transfer changes the stored energy by exactly the amount it
      reports, on every handler that stores energy. */
  lemma ExecuteMovesReportedAmount(h: Handler, index: Int32, amount: Int32)
    requires Valid(h) && !h.Void?
    ensures var r := InsertAt(h, index, amount, Execute);
            r.Ok? ==> Stored(r.value.state) == Stored(h) + r.value.amount
    ensures var r := ExtractAt(h, index, amount, Execute);
            r.Ok? ==> Stored(r.value.state) == Stored(h) - r.value.amount
    ensures var m := Insert(h, amount, Execute); Stored(m.state) == Stored(h) + m.amount
    ensures var m := Extract(h, amount, Execute); Stored(m.state) == Stored(h) - m.amount
  {
    match h
    case Buffer(b) =>
      BufferInsertAtMovesReportedAmount(h, index, amount);
      BufferExtractAtMovesReportedAmount(h, index, amount);
      BufferUnindexedMovesReportedAmount(h, amount);
    case EarlyBuffer(b) =>
      BufferInsertAtMovesReportedAmount(h, index, amount);
      BufferExtractAtMovesReportedAmount(h, index, amount);
      BufferUnindexedMovesReportedAmount(h, amount);
    case Component(c) =>
      ComponentEnergyBuffer.IndexIgnored(c, index, amount, Execute);
      ComponentStoresCell(h);
      ComponentStoresCell(InsertAt(h, index, amount, Execute).value.state);
      ComponentStoresCell(ExtractAt(h, index, amount, Execute).value.state);
    case Empty =>
  }

  lemma BufferInsertAtMovesReportedAmount(h: Handler, index: Int32, amount: Int32)
    requires Valid(h) && (h.Buffer? || h.EarlyBuffer?)
    ensures var r := InsertAt(h, index, amount, Execute);
            r.Ok? ==> Stored(r.value.state) == Stored(h) + r.value.amount
  {
    var r := InsertAt(h, index, amount, Execute);
    if r.Ok? {
      var b := h.slots;
      var m := BufferCore.InsertAt(b, index, amount, Execute).value;
      assert m.state.energy == b.energy[index := b.energy[index] + m.amount];
      BufferAmountsAreSlots(h);
      BufferAmountsAreSlots(r.value.state);
      PrefixSumUpdate(b.energy, index as nat, m.amount, |b.energy|);
    }
  }

  lemma BufferExtractAtMovesReportedAmount(h: Handler, index: Int32, amount: Int32)
    requires Valid(h) && (h.Buffer? || h.EarlyBuffer?)
    ensures var r := ExtractAt(h, index, amount, Execute);
            r.Ok? ==> Stored(r.value.state) == Stored(h) - r.value.amount
  {
    var r := ExtractAt(h, index, amount, Execute);
    if r.Ok? {
      var b := h.slots;
      var m := BufferCore.ExtractAt(b, index, amount, Execute).value;
      assert m.state.energy == b.energy[index := b.energy[index] + -m.amount];
      BufferAmountsAreSlots(h);
      BufferAmountsAreSlots(r.value.state);
      PrefixSumUpdate(b.energy, index as nat, -m.amount, |b.energy|);
    }
  }

  lemma BufferUnindexedMovesReportedAmount(h: Handler, amount: Int32)
    requires Valid(h) && (h.Buffer? || h.EarlyBuffer?)
    ensures var m := Insert(h, amount, Execute); Stored(m.state) == Stored(h) + m.amount
    ensures var m := Extract(h, amount, Execute); Stored(m.state) == Stored(h) - m.amount
  {
    BufferAmountsAreSlots(h);
    BufferAmountsAreSlots(Insert(h, amount, Execute).state);
    BufferCore.InsertAddsReportedAmount(h.slots, amount);
    BufferAmountsAreSlots(Extract(h, amount, Execute).state);
    BufferCore.ExtractTakesReportedAmount(h.slots, amount);
  }
}
