/**
 The three-boundary address map of the native read path (scripts/firmware_execution/read_value.py): 32-bit
 wrapping arithmetic that turns a linear sector number into a physical one, and a piecewise inverse that is
 not truncated. Each layer has a window of addresses; on well-formed boundaries the windows are apart, and
 only the last layer can pass the 32-bit range.
 */
module AddressMap {
  import opened Images

  const TOP := 0xffff_ffff

  /** The last physical address of each of the first three layers. */
  datatype Ends = Ends(e0: word, e1: word, e2: word) {
    // The first physical address of layers one to three, the mirror image of the end before.
    function Base1(): int { 0x03ff_ffff - e0 }
    function Base2(): int { 0x07ff_ffff - e1 }
    function Base3(): int { 0x0bff_ffff - e2 }
    function Size1(): int { e1 - Base1() + 1 }
    function Size2(): int { e2 - Base2() + 1 }
    /** The number of values that fall into the first three layers. */
    function Total(): int { e0 + 1 + Size1() + Size2() }

    /** No base is past its end or below zero, so no address computation below the last layer wraps. */
    predicate Ordered() {
      0 <= Base1() <= e1 && 0 <= Base2() <= e2 && 0 <= Base3()
    }

    /** Ordered, and each layer stays inside its own window of the physical space. */
    predicate WellFormed() {
      Ordered() && e0 <= 0x01ff_ffff && e1 <= 0x03ff_ffff && e2 <= 0x05ff_ffff
    }
  }

  /** The map as the native code computes it, each operation truncated to 32 bits. */
  function Normalize(value: word, e: Ends): word {
    if value <= e.e0 then value
    else
      var value, base := Wrap(value - e.e0 - 1), Wrap(0x03ff_ffff - e.e0);
      var size := Wrap(e.e1 - base + 1);
      if value < size then Wrap(value + base)
      else
        var value, base := Wrap(value - size), Wrap(0x07ff_ffff - e.e1);
        var size := Wrap(e.e2 - base + 1);
        if value < size then Wrap(value + base)
        else Wrap(Wrap(value - size) + Wrap(0x0bff_ffff - e.e2))
  }

  /** The same map over unbounded integers. */
  function Unwrapped(value: int, e: Ends): int {
    if value <= e.e0 then value
    else if value - e.e0 - 1 < e.Size1() then value - e.e0 - 1 + e.Base1()
    else if value - e.e0 - 1 - e.Size1() < e.Size2() then value - e.e0 - 1 - e.Size1() + e.Base2()
    else value - e.Total() + e.Base3()
  }

  lemma Small(x: int)
    requires 0 <= x <= TOP
    ensures Wrap(x) == x
  {
  }

  /** Past the first boundary, on ordered boundaries: each truncated quantity is the quantity itself. */
  lemma WrappedSteps(value: word, e: Ends)
    requires e.Ordered() && value > e.e0
    ensures Wrap(value - e.e0 - 1) == value - e.e0 - 1
    ensures Wrap(0x03ff_ffff - e.e0) == e.Base1() && Wrap(e.e1 - e.Base1() + 1) == e.Size1()
    ensures Wrap(0x07ff_ffff - e.e1) == e.Base2() && Wrap(e.e2 - e.Base2() + 1) == e.Size2()
    ensures Wrap(0x0bff_ffff - e.e2) == e.Base3()
  {
  }

  lemma SecondIsWrapped(value: word, e: Ends)
    requires e.Ordered() && value > e.e0 && value - e.e0 - 1 < e.Size1()
    ensures Normalize(value, e) == Wrap(value - e.e0 - 1 + e.Base1())
  {
    WrappedSteps(value, e);
  }

  lemma ThirdIsWrapped(value: word, e: Ends)
    requires e.Ordered() && value > e.e0 && 0 <= value - e.e0 - 1 - e.Size1() < e.Size2()
    ensures Normalize(value, e) == Wrap(value - e.e0 - 1 - e.Size1() + e.Base2())
  {
    WrappedSteps(value, e);
    Small(value - e.e0 - 1 - e.Size1());
  }

  lemma LastIsWrapped(value: word, e: Ends)
    requires e.Ordered() && value >= e.Total()
    ensures Normalize(value, e) == Wrap(value - e.Total() + e.Base3())
  {
    WrappedSteps(value, e);
    Small(value - e.e0 - 1 - e.Size1());
    Small(value - e.Total());
  }

  lemma NormalizeIsWrapped(value: word, e: Ends)
    requires e.Ordered()
    ensures Normalize(value, e) == Wrap(Unwrapped(value, e))
  {
    if value <= e.e0 {
      Small(value);
    } else if value - e.e0 - 1 < e.Size1() {
      SecondIsWrapped(value, e);
    } else if value < e.Total() {
      ThirdIsWrapped(value, e);
    } else {
      LastIsWrapped(value, e);
    }
  }

  /**
   On ordered boundaries truncation matters for results past the 32-bit range only, and those
   are in the last layer.
   */
  lemma WrappingIsHarmless(value: word, e: Ends)
    requires e.Ordered()
    ensures Normalize(value, e) == Wrap(Unwrapped(value, e))
    ensures 0 <= Unwrapped(value, e)
    ensures value < e.Total() ==> Unwrapped(value, e) <= TOP
    ensures Normalize(value, e) == Unwrapped(value, e) <==> Unwrapped(value, e) <= TOP
  {
    NormalizeIsWrapped(value, e);
  }

  /** Whether a value's image needs no truncation. */
  predicate Fits(value: int, e: Ends) {
    Unwrapped(value, e) <= TOP
  }

  lemma NormalizeIncreases(v: word, w: word, e: Ends)
    requires e.WellFormed() && v < w && Fits(w, e)
    ensures Normalize(v, e) < Normalize(w, e)
  {
    WrappingIsHarmless(v, e);
    WrappingIsHarmless(w, e);
  }

  /** Over the whole 32-bit range the map is increasing exactly when the three layers fill their windows. */
  lemma IncreasingEverywhereIff(e: Ends)
    requires e.WellFormed()
    ensures (forall v: word, w: word :: v < w ==> Normalize(v, e) < Normalize(w, e)) <==>
      e.Total() == e.Base3()
    ensures e.Total() == e.Base3() <==> e == Ends(0x01ff_ffff, 0x03ff_ffff, 0x05ff_ffff)
  {
    if e.Total() == e.Base3() {
      forall v: word, w: word | v < w ensures Normalize(v, e) < Normalize(w, e) {
        NormalizeIncreases(v, w, e);
      }
    } else {
      var v := LastLayerWraps(e);
      assert !(Normalize(v, e) < Normalize(v + 1, e));
    }
  }

  /** Unless the layers fill their windows, some value wraps to zero right after one that maps to the top. */
  lemma LastLayerWraps(e: Ends) returns (v: word)
    requires e.WellFormed() && e.Total() != e.Base3()
    ensures v < TOP && Normalize(v, e) == TOP && Normalize(v + 1, e) == 0
  {
    v := TOP - (e.Base3() - e.Total());
    WrappingIsHarmless(v, e);
    WrappingIsHarmless(v + 1, e);
    assert Unwrapped(v, e) == TOP && Unwrapped(v + 1, e) == TOP + 1;
  }

  // ---------------------------------------------------------------- windows and inverse

  /** The layer a physical address belongs to; None between layers. */
  function LayerOf(p: int, e: Ends): Option<nat> {
    if 0 <= p <= e.e0 then Some(0)
    else if e.Base1() <= p <= e.e1 then Some(1)
    else if e.Base2() <= p <= e.e2 then Some(2)
    else if e.Base3() <= p <= TOP then Some(3)
    else None
  }

  function LayerOfValue(v: int, e: Ends): nat {
    if v <= e.e0 then 0
    else if v - e.e0 - 1 < e.Size1() then 1
    else if v < e.Total() then 2
    else 3
  }

  /** The piecewise inverse. */
  function Linear(p: int, e: Ends): int
    requires LayerOf(p, e).Some?
  {
    match LayerOf(p, e).value
    case 0 => p
    case 1 => p - e.Base1() + e.e0 + 1
    case 2 => p - e.Base2() + e.e0 + 1 + e.Size1()
    case _ => p - e.Base3() + e.Total()
  }

  /** Values of a layer land in that layer's window, and the inverse takes them back. */
  lemma LinearUndoesNormalize(v: word, e: Ends)
    requires e.WellFormed() && Fits(v, e)
    ensures LayerOf(Normalize(v, e), e) == Some(LayerOfValue(v, e))
    ensures Linear(Normalize(v, e), e) == v
  {
    WrappingIsHarmless(v, e);
  }

  lemma NormalizeUndoesLinear(p: word, e: Ends)
    requires e.WellFormed() && LayerOf(p, e).Some?
    ensures 0 <= Linear(p, e) <= TOP && Fits(Linear(p, e), e)
    ensures Normalize(Linear(p, e), e) == p
  {
    WrappingIsHarmless(Linear(p, e), e);
  }

  /** First and last address of a layer, counting no address whose computation wraps. */
  function First(layer: nat, e: Ends): int {
    match layer case 0 => 0 case 1 => e.Base1() case 2 => e.Base2() case _ => e.Base3()
  }

  function Last(layer: nat, e: Ends): int {
    match layer case 0 => e.e0 case 1 => e.e1 case 2 => e.e2 case _ => Min(TOP, TOP - e.Total() + e.Base3())
  }

  predicate Overlap(i: nat, j: nat, e: Ends) {
    Max(First(i, e), First(j, e)) <= Min(Last(i, e), Last(j, e))
  }

  /** Two of the first `n` layers share an address. */
  ghost predicate WindowsOverlap(e: Ends, n: nat) {
    exists i: nat, j: nat :: i < j < n && Overlap(i, j, e)
  }

  /** Two values of the first `n` layers share an image that needs no truncation. */
  ghost predicate Collides(e: Ends, n: nat, v: word, w: word) {
    v < w && LayerOfValue(w, e) < n && Fits(v, e) && Fits(w, e) && Normalize(v, e) == Normalize(w, e)
  }

  /** The value of a layer whose image is `p`, for a window that contains `p`. */
  function ValueIn(layer: nat, p: int, e: Ends): int {
    p - First(layer, e) +
    match layer case 0 => 0 case 1 => e.e0 + 1 case 2 => e.e0 + 1 + e.Size1() case _ => e.Total()
  }

  lemma ValueInHasImage(layer: nat, p: int, e: Ends)
    requires e.Ordered() && layer < 4 && First(layer, e) <= p <= Last(layer, e)
    ensures 0 <= ValueIn(layer, p, e) <= TOP && LayerOfValue(ValueIn(layer, p, e), e) == layer
    ensures Fits(ValueIn(layer, p, e), e) && Normalize(ValueIn(layer, p, e), e) == p
  {
    WrappingIsHarmless(ValueIn(layer, p, e), e);
  }

  lemma ImageIsInWindow(v: word, e: Ends)
    requires e.Ordered() && Fits(v, e)
    ensures First(LayerOfValue(v, e), e) <= Normalize(v, e) <= Last(LayerOfValue(v, e), e)
    ensures ValueIn(LayerOfValue(v, e), Normalize(v, e), e) == v
  {
    WrappingIsHarmless(v, e);
  }

  lemma LayersAreInOrder(v: int, w: int, e: Ends)
    requires e.Ordered() && LayerOfValue(v, e) < LayerOfValue(w, e)
    ensures v < w
  {
  }

  /**
   Values of the first `n` layers collide exactly when two of their windows overlap; with three layers
   these are the values below the last layer, with four all values whose image fits.
   */
  lemma CollidesIffWindowsOverlap(e: Ends, n: nat)
    requires e.Ordered() && n <= 4
    ensures (exists v: word, w: word :: Collides(e, n, v, w)) <==> WindowsOverlap(e, n)
  {
    if i: nat, j: nat :| i < j < n && Overlap(i, j, e) {
      var p := Max(First(i, e), First(j, e));
      ValueInHasImage(i, p, e);
      ValueInHasImage(j, p, e);
      LayersAreInOrder(ValueIn(i, p, e), ValueIn(j, p, e), e);
      assert Collides(e, n, ValueIn(i, p, e), ValueIn(j, p, e));
    }
    forall v: word, w: word | Collides(e, n, v, w) ensures WindowsOverlap(e, n) {
      var i, j := LayerOfValue(v, e), LayerOfValue(w, e);
      ImageIsInWindow(v, e);
      ImageIsInWindow(w, e);
      if j < i {
        LayersAreInOrder(w, v, e);
      }
      assert i < j && Overlap(i, j, e);
    }
  }

  /**
   Over all 32-bit values two share an address exactly when two of the four windows overlap or the last
   layer wraps around to zero.
   */
  lemma SharedAddressIff(e: Ends)
    requires e.Ordered()
    ensures (exists v: word, w: word :: v < w && Normalize(v, e) == Normalize(w, e)) <==>
            WindowsOverlap(e, 4) || e.Total() < e.Base3()
  {
    CollidesIffWindowsOverlap(e, 4);
    if v: word, w: word :| Collides(e, 4, v, w) {
      assert v < w && Normalize(v, e) == Normalize(w, e);
    }
    if e.Total() < e.Base3() {
      var w := TOP - (e.Base3() - e.Total()) + 1;
      WrappingIsHarmless(w, e);
      assert 0 < w && Normalize(0, e) == Normalize(w, e);
    } else {
      forall v: word, w: word | v < w && Normalize(v, e) == Normalize(w, e) ensures Collides(e, 4, v, w) {
      }
    }
  }

  /** The sample boundaries of the worker test lie outside the domain: two of its values share an address. */
  lemma SampleBoundariesCollide()
    ensures var e := Ends(0x0100_0000, 0x0400_0000, 0x0800_0000);
      e.Ordered() && !e.WellFormed() && Collides(e, 3, 0x0200_0001, 0x0200_0003)
  {
    var e := Ends(0x0100_0000, 0x0400_0000, 0x0800_0000);
    WrappingIsHarmless(0x0200_0001, e);
    WrappingIsHarmless(0x0200_0003, e);
  }
}
