/** The behaviour `IEnergyHandler` defines itself: the default whole-handler
    hints `allowsInsertion()` and `allowsExtraction()`, which ask every index
    in turn and answer true at the first index that allows the transfer. */
module EnergyHandler {
  import opened Transfer

  /** The default hint's loop, from `index` on. */
  function AnyFrom(index: nat, size: Int32, allows: Int32 -> bool): bool
    decreases size - index
  {
    if index >= size then false
    else if allows(index as Int32) then true
    else AnyFrom(index + 1, size, allows)
  }

  /** Default `allowsInsertion()` / `allowsExtraction()` of a handler with
      `size` indices whose per-index hint is `allows`. */
  function AnyIndexAllows(size: Int32, allows: Int32 -> bool): bool {
    AnyFrom(0, size, allows)
  }

  lemma {:induction false} AnyFromIffSomeIndex(index: nat, size: Int32, allows: Int32 -> bool)
    ensures AnyFrom(index, size, allows) <==> exists i: Int32 :: index <= i < size && allows(i)
    decreases size - index
  {
    if index < size {
      AnyFromIffSomeIndex(index + 1, size, allows);
    }
  }

  /** The default hint is true exactly when some index in [0, size) allows the
      transfer; in particular it is false for a handler of size 0. */
  lemma AnyIndexAllowsIffSomeIndex(size: Int32, allows: Int32 -> bool)
    ensures AnyIndexAllows(size, allows) <==> exists i: Int32 :: 0 <= i < size && allows(i)
    ensures size <= 0 ==> !AnyIndexAllows(size, allows)
  {
    AnyFromIffSomeIndex(0, size, allows);
  }
}
