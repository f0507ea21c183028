// The page-wide brand variant: one pick from a pool of four, memoised in a
// global slot of the browser window so that every caller on the page sees the
// same value.
module BrandVariant {
  import opened Wrappers

  datatype Variant = Blue | Ink | Banana | White

  /** The string each variant is written as. */
  function Name(v: Variant): string {
    match v
    case Blue => "blue"
    case Ink => "ink"
    case Banana => "banana"
    case White => "white"
  }

  /** The pool, in the order the random index selects from. */
  const Pool: seq<Variant> := [Blue, Ink, Banana, White]

  /**
   * `Math.floor(r * pool.length)` for a draw `r` of `Math.random`, which lies
   * in [0, 1): always a valid index into the pool.
   */
  function PoolIndex(r: real): (k: int)
    requires 0.0 <= r < 1.0
    ensures 0 <= k < |Pool|
    ensures k as real <= r * 4.0 < k as real + 1.0
  {
    (r * 4.0).Floor
  }

  lemma NamesDistinct(v: Variant, w: Variant)
    ensures Name(v) == Name(w) <==> v == w
  {
  }

  /** Every variant of the pool is drawn by some value of the random source. */
  lemma EveryVariantReachable(v: Variant)
    ensures exists r: real :: 0.0 <= r < 1.0 && Pool[PoolIndex(r)] == v
  {
    var k := if v == Blue then 0 else if v == Ink then 1 else if v == Banana then 2 else 3;
    var r := k as real / 4.0;
    assert r * 4.0 == k as real;
    assert PoolIndex(r) == k;
  }

  /**
   * The browser side of the memo: whether a window exists at all (it does
   * not during server rendering), the global slot and the `data-brand-variant`
   * attribute of the document element.
   */
  class Page {
    const hasWindow: bool
    var slot: Option<Variant>
    var dataset: Option<string>

    /** The slot is only ever filled in a browser, and the attribute mirrors it. */
    ghost predicate Valid()
      reads this
    {
      && (!hasWindow ==> slot == None)
      && dataset == (if slot.Some? then Some(Name(slot.value)) else None)
    }

    constructor(hasWindow: bool)
      ensures Valid() && this.hasWindow == hasWindow
      ensures slot == None && dataset == None
    {
      this.hasWindow := hasWindow;
      slot := None;
      dataset := None;
    }

    /**
     * `pickBrandVariant`, with `r` the value `Math.random` would return.
     * Without a window it answers blue and writes nothing; once the slot is
     * filled it answers the stored value and writes nothing; otherwise it
     * draws from the pool and writes the draw to the slot and the attribute.
     */
    method PickBrandVariant(r: real) returns (v: Variant)
      requires Valid() && 0.0 <= r < 1.0
      modifies this`slot, this`dataset
      ensures Valid() && v in Pool
      ensures !hasWindow ==> v == Blue && unchanged(this)
      ensures hasWindow && old(slot).Some? ==> v == old(slot).value && unchanged(this)
      ensures hasWindow && old(slot).None? ==>
        v == Pool[PoolIndex(r)] && slot == Some(v) && dataset == Some(Name(v))
      ensures hasWindow ==> slot == Some(v)
    {
      if !hasWindow {
        return Blue;
      }
      if slot.Some? {
        return slot.value;
      }
      var picked := Pool[PoolIndex(r)];
      slot := Some(picked);
      dataset := Some(Name(picked));
      v := picked;
    }
  }

  /**
   * Two calls on the same page agree whatever the two draws are: the memo is
   * idempotent, and without a window both answers are blue.
   */
  method PickTwice(hasWindow: bool, r1: real, r2: real) returns (v1: Variant, v2: Variant, attribute: Option<string>)
    requires 0.0 <= r1 < 1.0 && 0.0 <= r2 < 1.0
    ensures v1 == v2
    ensures hasWindow ==> v1 == Pool[PoolIndex(r1)] && attribute == Some(Name(v1))
    ensures !hasWindow ==> v1 == Blue && attribute == None
  {
    var page := new Page(hasWindow);
    v1 := page.PickBrandVariant(r1);
    v2 := page.PickBrandVariant(r2);
    attribute := page.dataset;
  }
}
