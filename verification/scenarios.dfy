/** The game tests' scenarios, replayed on the model: each lemma builds the
    handler the test builds and states the values the test asserts. */
module Scenarios {
  import opened Transfer
  import BufferCore
  import Greedy
  import EarlyEnergyBuffer
  import ComponentEnergyBuffer
  import opened Handlers
  import Util = TransferEnergyHandlerUtil

  const MAX_CAPACITY: Int32 := 1000
  const MAX_INSERTION: Int32 := 100
  const SUB_BUFFER_COUNT: Int32 := 3
  const ITEM_CAPACITY: Int32 := 16384

  /** `create(1, MAX_CAPACITY).energy(MAX_CAPACITY).maxInsertRate(MAX_INSERTION).build()`. */
  lemma SimpleBufferIsBuilt()
    ensures EarlyEnergyBuffer.Create(1, MAX_CAPACITY).Ok?
    ensures EarlyEnergyBuffer.Build(BufferCore.WithMaxInsertRate(BufferCore.WithEnergy(EarlyEnergyBuffer.Create(1, MAX_CAPACITY).value, MAX_CAPACITY), MAX_INSERTION))
            == Ok(BufferCore.Slots([1000], 1000, 100, 1000))
  {
    var bl := BufferCore.WithMaxInsertRate(BufferCore.WithEnergy(EarlyEnergyBuffer.Create(1, MAX_CAPACITY).value, MAX_CAPACITY), MAX_INSERTION);
    assert bl.energy == [1000];
    var r := EarlyEnergyBuffer.Build(bl);
    assert r.Ok? && r.value.energy[0] == 1000;
    assert r.value.energy == [1000];
  }

  /** Over-extraction drains the full buffer and no more, the capped insert
      takes `MAX_INSERTION`, and a simulated insert neither over-reports nor
      commits. */
  lemma SimpleBufferTest()
    ensures var h := EarlyBuffer(BufferCore.Slots([1000], 1000, 100, 1000));
            && Valid(h) && Size(h) == 1
            && var e := Extract(h, MAX_CAPACITY + 100, Execute);
            && e.amount == MAX_CAPACITY
            && Util.GetAmount(e.state) == 0
            && var i := Insert(e.state, MAX_CAPACITY, Execute);
            && i.amount == MAX_INSERTION
            && var s := Insert(i.state, MAX_INSERTION, Simulate);
            && s.amount != MAX_INSERTION + 10
            && Util.GetAmount(s.state) == MAX_INSERTION
  {
    var b := BufferCore.Slots([1000], 1000, 100, 1000);
    var h := EarlyBuffer(b);
    BufferCore.ExtractIsGreedy(b, MAX_CAPACITY + 100, Execute);
    var e := BufferCore.Extract(b, MAX_CAPACITY + 100, Execute);
    assert e.state.energy == [0] by {
      assert BufferCore.Drained(b, 1000, 1)[0] == 0;
    }
    BufferAmountsAreSlots(EarlyBuffer(e.state));
    BufferCore.InsertIsGreedy(e.state, MAX_CAPACITY, Execute);
    var i := BufferCore.Insert(e.state, MAX_CAPACITY, Execute);
    assert i.state.energy == [100] by {
      assert BufferCore.Filled(e.state, 100, 1)[0] == 100;
    }
    BufferCore.InsertIsGreedy(i.state, MAX_INSERTION, Simulate);
    BufferAmountsAreSlots(EarlyBuffer(i.state));
  }

  /** `create(3, MAX_CAPACITY).maxInsertRate(MAX_INSERTION).maxExtractRate(0).energy(1, 100).build()`. */
  lemma ComplexBufferIsBuilt()
    ensures var created := EarlyEnergyBuffer.Create(SUB_BUFFER_COUNT, MAX_CAPACITY);
            && created.Ok?
            && var seeded := BufferCore.WithEnergyAt(BufferCore.WithMaxExtractRate(BufferCore.WithMaxInsertRate(created.value, MAX_INSERTION), 0), 1, 100);
            && seeded.Ok?
            && EarlyEnergyBuffer.Build(seeded.value) == Ok(BufferCore.Slots([0, 100, 0], 1000, 100, 0))
  {
    var created := EarlyEnergyBuffer.Create(SUB_BUFFER_COUNT, MAX_CAPACITY);
    var seeded := BufferCore.WithEnergyAt(BufferCore.WithMaxExtractRate(BufferCore.WithMaxInsertRate(created.value, MAX_INSERTION), 0), 1, 100);
    assert seeded.value.energy == [0, 100, 0];
    var r := EarlyEnergyBuffer.Build(seeded.value);
    assert r.Ok? && r.value.energy[0] == 0 && r.value.energy[1] == 100 && r.value.energy[2] == 0;
    assert r.value.energy == [0, 100, 0];
  }

  /** Sub-buffer usage: 0 + 100 + 0 = 100; an indexed insert lands in its own
      slot; the unindexed insert is capped by the rate; a zero extraction rate
      moves nothing and turns the extraction hint off. */
  lemma ComplexBufferTest()
    ensures var h := EarlyBuffer(BufferCore.Slots([0, 100, 0], 1000, 100, 0));
            && Valid(h) && Size(h) == SUB_BUFFER_COUNT
            && Util.GetAmount(h) == 100
            && GetAmount(h, 0) == Ok(0) && GetAmount(h, 1) == Ok(100) && GetAmount(h, 2) == Ok(0)
            && GetAmount(h, 5).Err?
            && var r := InsertAt(h, 1, 100, Execute);
            && r.Ok?
            && Util.GetAmount(r.value.state) == 200
            && GetAmount(r.value.state, 0) == Ok(0) && GetAmount(r.value.state, 1) == Ok(200)
            && GetAmount(r.value.state, 2) == Ok(0)
            && var i := Insert(r.value.state, MAX_CAPACITY, Execute);
            && i.amount == MAX_INSERTION
            && Extract(i.state, MAX_CAPACITY, Execute).amount == 0
            && !AllowsExtraction(Extract(i.state, MAX_CAPACITY, Execute).state)
  {
    var b := BufferCore.Slots([0, 100, 0], 1000, 100, 0);
    var h := EarlyBuffer(b);
    BufferAmountsAreSlots(h);
    var r := InsertAt(h, 1, 100, Execute);
    assert r.value.state.slots.energy == [0, 200, 0];
    BufferAmountsAreSlots(r.value.state);
    var b2 := r.value.state.slots;
    BufferCore.InsertIsGreedy(b2, MAX_CAPACITY, Execute);
    assert Greedy.PrefixSum(BufferCore.Room(b2), 3) == 2800 by {
      assert BufferCore.Room(b2) == [1000, 800, 1000];
    }
    var x := Extract(Insert(r.value.state, MAX_CAPACITY, Execute).state, MAX_CAPACITY, Execute);
    HintIsSomeIndex(x.state);
  }

  /** The no-op handler allows nothing and reports nothing; the void handler
      allows insertion only, holds nothing and reports a capacity of 2E9. */
  lemma DefaultAndVoidTest()
    ensures !AllowsInsertion(Empty) && !AllowsExtraction(Empty)
    ensures GetAmount(Empty, 0) == Ok(0) && GetCapacity(Empty, 0) == Ok(0)
    ensures AllowsInsertion(Void) && !AllowsExtraction(Void)
    ensures GetAmount(Void, 0) == Ok(0) && GetCapacity(Void, 0) == Ok(2_000_000_000)
  {
    HintIsSomeIndex(Empty);
    VoidAcceptsAndDestroys(0, 0, Execute);
  }

  /** An item battery whose component starts at its capacity: extracting the
      capacity empties it and writes 0 to the component, and inserting the
      capacity fills it again. */
  lemma ItemEnergyTest()
    ensures var h := Component(ComponentEnergyBuffer.NewWithCapacity(ITEM_CAPACITY, Some(ITEM_CAPACITY)));
            && Valid(h)
            && Util.GetAmount(h) == ITEM_CAPACITY
            && var e := Extract(h, ITEM_CAPACITY, Execute);
            && e.amount == ITEM_CAPACITY
            && Util.GetAmount(e.state) == 0
            && e.state.battery.cell == Some(0)
            && var i := Insert(e.state, ITEM_CAPACITY, Execute);
            && i.amount == ITEM_CAPACITY
            && Util.GetAmount(i.state) == ITEM_CAPACITY
  {
    var h := Component(ComponentEnergyBuffer.NewWithCapacity(ITEM_CAPACITY, Some(ITEM_CAPACITY)));
    ComponentStoresCell(h);
    var e := Extract(h, ITEM_CAPACITY, Execute);
    ComponentStoresCell(e.state);
    ComponentStoresCell(Insert(e.state, ITEM_CAPACITY, Execute).state);
  }
}
