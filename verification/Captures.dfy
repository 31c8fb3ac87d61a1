/**
 The pixel scan of the window gate (crates/freemkv-flash-gui/src/gui_gate.rs): whether a region of a capture
 shows anything, also when the capture is shorter than its size and the scan may meet a missing pixel. The
 order of the colour bytes does not matter.
 */
module Captures {
  import opened Images

  datatype Region = Region(x: int, y: int, w: int, h: int)

  /** Four bytes a pixel, rows tightly packed; `px` may be shorter than the size says. */
  datatype Picture = Picture(width: int, height: int, px: seq<byte>, bottomUp: bool)

  function RowOf(p: Picture, y: int): int {
    if p.bottomUp then p.height - 1 - y else y
  }

  function Offset(p: Picture, x: int, y: int): int {
    (RowOf(p, y) * p.width + x) * 4
  }

  /** The part of a region inside the picture. */
  predicate InRegion(p: Picture, r: Region, x: int, y: int) {
    && Max(r.x, 0) <= x < Min(r.x + r.w, p.width)
    && Max(r.y, 0) <= y < Min(r.y + r.h, p.height)
  }

  lemma OffsetIsNatural(p: Picture, r: Region, x: int, y: int)
    requires InRegion(p, r, x, y)
    ensures 0 <= Offset(p, x, y)
  {
    assert 0 <= RowOf(p, y) * p.width;
  }

  /** The three colour bytes of a pixel are there. */
  predicate Present(p: Picture, x: int, y: int) {
    0 <= Offset(p, x, y) && Offset(p, x, y) + 3 <= |p.px|
  }

  function Colour(p: Picture, x: int, y: int): seq<byte>
    requires Present(p, x, y)
  {
    p.px[Offset(p, x, y)..Offset(p, x, y) + 3]
  }

  /** Row by row, left to right: the first pixel is looked at no later than the second. */
  predicate NoLater(x: int, y: int, x': int, y': int) {
    y < y' || (y == y' && x <= x')
  }

  ghost predicate PresentUpTo(p: Picture, r: Region, x: int, y: int) {
    forall x', y' :: InRegion(p, r, x', y') && NoLater(x', y', x, y) ==> Present(p, x', y')
  }

  /** A pixel of another colour than the first, with no missing pixel before it. */
  ghost predicate Inked(p: Picture, r: Region) {
    exists x, y :: InRegion(p, r, x, y) && PresentUpTo(p, r, x, y) && Differs(p, r, x, y)
  }

  ghost predicate Differs(p: Picture, r: Region, x: int, y: int) {
    && Present(p, x, y) && Present(p, Max(r.x, 0), Max(r.y, 0))
    && Colour(p, x, y) != Colour(p, Max(r.x, 0), Max(r.y, 0))
  }

  /** Every pixel looked at before this one is there and has the colour of the first. */
  ghost predicate PlainBefore(p: Picture, r: Region, x: int, y: int) {
    forall x', y' :: InRegion(p, r, x', y') && NoLater(x', y', x, y) && !(x' == x && y' == y) ==>
      Present(p, x', y') && !Differs(p, r, x', y')
  }

  lemma MissingEndsScan(p: Picture, r: Region, x: int, y: int)
    requires InRegion(p, r, x, y) && PlainBefore(p, r, x, y) && !Present(p, x, y)
    ensures !Inked(p, r)
  {
    forall x', y' | InRegion(p, r, x', y') && PresentUpTo(p, r, x', y') ensures !Differs(p, r, x', y') {
      assert NoLater(x, y, x', y') ==> Present(p, x, y);
      assert NoLater(x, y, x', y') || NoLater(x', y', x, y);
    }
  }

  lemma PlainOneMore(p: Picture, r: Region, x: int, y: int)
    requires PlainBefore(p, r, x, y) && (InRegion(p, r, x, y) ==> Present(p, x, y) && !Differs(p, r, x, y))
    ensures PlainBefore(p, r, x + 1, y)
  {
  }

  lemma PlainNextRow(p: Picture, r: Region, y: int)
    requires PlainBefore(p, r, Max(Max(r.x, 0), Min(r.x + r.w, p.width)), y)
    ensures PlainBefore(p, r, Max(r.x, 0), y + 1)
  {
  }

  method HasInk(p: Picture, r: Region) returns (ink: bool)
    ensures ink <==> Inked(p, r)
  {
    var x0, y0, x1, y1 := Max(r.x, 0), Max(r.y, 0), Min(r.x + r.w, p.width), Min(r.y + r.h, p.height);
    var first: Option<seq<byte>> := None;
    for y := y0 to Max(y0, y1)
      invariant PlainBefore(p, r, x0, y)
      invariant first.None? ==> y == y0 || x1 <= x0
      invariant first.Some? ==> Present(p, x0, y0) && first.value == Colour(p, x0, y0)
    {
      for x := x0 to Max(x0, x1)
        invariant PlainBefore(p, r, x, y)
        invariant first.None? ==> (y == y0 || x1 <= x0) && x == x0
        invariant first.Some? ==> Present(p, x0, y0) && first.value == Colour(p, x0, y0)
      {
        OffsetIsNatural(p, r, x, y);
        var i := Offset(p, x, y);
        if |p.px| < i + 3 {
          MissingEndsScan(p, r, x, y);
          return false;
        }
        var colour := p.px[i..i + 3];
        if first.None? {
          first := Some(colour);
        } else if first.value != colour {
          assert PresentUpTo(p, r, x, y) && Differs(p, r, x, y);
          return true;
        }
        PlainOneMore(p, r, x, y);
      }
      PlainNextRow(p, r, y);
    }
    ink := false;
  }

  // ---------------------------------------------------------------- whole pictures

  /** All pixels that the size promises are there. */
  predicate Whole(p: Picture) {
    p.width >= 0 && p.height >= 0 && p.width * p.height * 4 <= |p.px|
  }

  lemma RowsBelow(width: int, height: int, row: int)
    requires 0 <= width && 0 <= row < height
    ensures 0 <= row * width && row * width + width <= width * height
  {
    assert (row + 1) * width <= height * width;
  }

  lemma WholeIsPresent(p: Picture, r: Region, x: int, y: int)
    requires Whole(p) && InRegion(p, r, x, y)
    ensures Present(p, x, y) && Offset(p, x, y) + 4 <= p.width * p.height * 4
  {
    RowsBelow(p.width, p.height, RowOf(p, y));
  }

  /** A whole picture has ink exactly when two pixels of the region differ in colour. */
  lemma WholeInkIff(p: Picture, r: Region)
    requires Whole(p)
    ensures Inked(p, r) <==>
            exists x, y, x', y' :: InRegion(p, r, x, y) && InRegion(p, r, x', y') && OtherColour(p, x, y, x', y')
  {
    var x0, y0 := Max(r.x, 0), Max(r.y, 0);
    if Inked(p, r) {
      var x, y :| InRegion(p, r, x, y) && PresentUpTo(p, r, x, y) && Differs(p, r, x, y);
      assert InRegion(p, r, x0, y0) && OtherColour(p, x, y, x0, y0);
    }
    if x, y, x', y' :| InRegion(p, r, x, y) && InRegion(p, r, x', y') && OtherColour(p, x, y, x', y') {
      assert InRegion(p, r, x0, y0);
      forall a, b | InRegion(p, r, a, b) ensures Present(p, a, b) {
        WholeIsPresent(p, r, a, b);
      }
      assert Differs(p, r, x, y) || Differs(p, r, x', y');
      assert PresentUpTo(p, r, x, y) && PresentUpTo(p, r, x', y');
    }
  }

  predicate OtherColour(p: Picture, x: int, y: int, x': int, y': int) {
    Present(p, x, y) && Present(p, x', y') && Colour(p, x, y) != Colour(p, x', y')
  }

  // ---------------------------------------------------------------- pictures of any length

  lemma EarlierRow(width: int, row: int, other: int)
    requires 0 <= width && row < other
    ensures row * width + width <= other * width
  {
    assert 0 <= (other - row - 1) * width;
  }

  lemma RowIsInside(width: int, height: int, k: int)
    requires 0 < width && 0 <= k < width * height
    ensures k == k / width * width + k % width && 0 <= k / width < height
  {
    if height <= k / width {
      EarlierRow(width, height - 1, k / width);
      assert false;
    }
  }

  /**
   Of two pixels of a region the one in the earlier stored row, or further left in the same row, is present if the
   other is.
   */
  lemma PresentBefore(p: Picture, r: Region, x: int, y: int, x': int, y': int)
    requires InRegion(p, r, x, y) && InRegion(p, r, x', y') && Present(p, x, y)
    requires RowOf(p, y') < RowOf(p, y) || (y' == y && x' <= x)
    ensures Present(p, x', y')
  {
    OffsetIsNatural(p, r, x', y');
    if y' != y {
      EarlierRow(p.width, RowOf(p, y'), RowOf(p, y));
    }
  }

  /** The row of the region that is looked at first is stored whole. */
  predicate FirstRowStored(p: Picture, r: Region) {
    Present(p, Min(r.x + r.w, p.width) - 1, Max(r.y, 0))
  }

  /**
   A pixel the scan gets to unless it ends early: on a bottom-up picture it only leaves a first
   row that is stored whole.
   */
  predicate WithinReach(p: Picture, r: Region, x: int, y: int) {
    InRegion(p, r, x, y) && (p.bottomUp && Max(r.y, 0) < y ==> FirstRowStored(p, r))
  }

  lemma ReachIsPresent(p: Picture, r: Region, x: int, y: int)
    requires WithinReach(p, r, x, y) && Present(p, x, y)
    ensures PresentUpTo(p, r, x, y)
  {
    forall x', y' | InRegion(p, r, x', y') && NoLater(x', y', x, y) ensures Present(p, x', y') {
      if y' == y || !p.bottomUp {
        PresentBefore(p, r, x, y, x', y');
      } else {
        PresentBefore(p, r, Min(r.x + r.w, p.width) - 1, Max(r.y, 0), x', y');
      }
    }
  }

  /** Any picture, of whatever length, has ink exactly when a stored pixel within reach differs from the first one. */
  lemma InkIff(p: Picture, r: Region)
    ensures Inked(p, r) <==> exists x, y :: WithinReach(p, r, x, y) && Differs(p, r, x, y)
  {
    var x0, y0 := Max(r.x, 0), Max(r.y, 0);
    if x, y :| InRegion(p, r, x, y) && PresentUpTo(p, r, x, y) && Differs(p, r, x, y) {
      if y0 < y {
        var x1 := Min(r.x + r.w, p.width) - 1;
        assert InRegion(p, r, x1, y0) && NoLater(x1, y0, x, y);
      }
      assert WithinReach(p, r, x, y);
    }
    if x, y :| WithinReach(p, r, x, y) && Differs(p, r, x, y) {
      ReachIsPresent(p, r, x, y);
      assert InRegion(p, r, x, y) && PresentUpTo(p, r, x, y) && Differs(p, r, x, y);
    }
  }

  // ---------------------------------------------------------------- the full region, by stored pixels

  function Full(p: Picture): Region {
    Region(0, 0, p.width, p.height)
  }

  /** The `k`th stored pixel belongs to the picture, and its colour bytes are there. */
  predicate IsStored(p: Picture, k: int) {
    0 <= k < p.width * p.height && 4 * k + 3 <= |p.px|
  }

  /** The two stored pixels are of different colours. */
  predicate Unlike(p: Picture, k: int, l: int) {
    IsStored(p, k) && IsStored(p, l) && p.px[4 * k..4 * k + 3] != p.px[4 * l..4 * l + 3]
  }

  /** The `k`th stored pixel is at column `k % width` of stored row `k / width`. */
  lemma PixelOf(p: Picture, k: int) returns (x: int, y: int)
    requires 0 < p.width && 0 <= k < p.width * p.height
    ensures InRegion(p, Full(p), x, y) && Offset(p, x, y) == 4 * k
    ensures RowOf(p, y) == k / p.width && x == k % p.width
  {
    RowIsInside(p.width, p.height, k);
    var row := k / p.width;
    x, y := k % p.width, if p.bottomUp then p.height - 1 - row else row;
  }

  /** And the pixel at a place is the one stored under its row and column. */
  lemma StoredAs(p: Picture, x: int, y: int)
    requires InRegion(p, Full(p), x, y)
    ensures var k := RowOf(p, y) * p.width + x;
            0 <= k < p.width * p.height && Offset(p, x, y) == 4 * k && (Present(p, x, y) <==> IsStored(p, k))
  {
    RowsBelow(p.width, p.height, RowOf(p, y));
  }

  lemma DiffersAsUnlike(p: Picture, x: int, y: int)
    requires InRegion(p, Full(p), x, y)
    ensures Differs(p, Full(p), x, y) <==> Unlike(p, RowOf(p, y) * p.width + x, RowOf(p, 0) * p.width)
  {
    StoredAs(p, x, y);
    StoredAs(p, 0, 0);
  }

  /** A whole top-down picture, or the start of one, has ink exactly when some stored pixel differs from the first. */
  lemma TopDownInkIff(p: Picture)
    requires 0 <= p.width && 0 <= p.height && !p.bottomUp
    ensures Inked(p, Full(p)) <==> exists k :: Unlike(p, k, 0)
  {
    var r := Full(p);
    InkIff(p, r);
    if x, y :| WithinReach(p, r, x, y) && Differs(p, r, x, y) {
      StoredAs(p, x, y);
      StoredAs(p, 0, 0);
      assert Unlike(p, y * p.width + x, 0);
    }
    if k :| Unlike(p, k, 0) {
      assert p.width != 0;
      var x, y := PixelOf(p, k);
      StoredAs(p, 0, 0);
      assert WithinReach(p, r, x, y) && Differs(p, r, x, y);
    }
  }

  /** The first pixel of the stored row that is shown on top of a bottom-up picture. */
  function TopRow(p: Picture): int {
    (p.height - 1) * p.width
  }

  predicate CountsFromBelow(p: Picture, k: int) {
    Unlike(p, k, TopRow(p)) && (TopRow(p) <= k || IsStored(p, p.width * p.height - 1))
  }

  /**
   A bottom-up picture has ink exactly when some stored pixel differs from the first of the top row;
   but when the top row is not stored whole, only pixels of that row count.
   */
  lemma BottomUpInkIff(p: Picture)
    requires 0 <= p.width && 0 <= p.height && p.bottomUp
    ensures Inked(p, Full(p)) <==> exists k :: CountsFromBelow(p, k)
  {
    InkIff(p, Full(p));
    if x, y :| WithinReach(p, Full(p), x, y) && Differs(p, Full(p), x, y) {
      SeenFromBelow(p, x, y);
      assert CountsFromBelow(p, RowOf(p, y) * p.width + x);
    }
    if k :| CountsFromBelow(p, k) {
      assert p.width != 0;
      var x, y := PixelOf(p, k);
      SeenFromBelow(p, x, y);
    }
  }

  /** The pixels of the top row are stored last. */
  lemma TopRowIsLast(p: Picture, x: int, y: int)
    requires InRegion(p, Full(p), x, y) && p.bottomUp
    ensures TopRow(p) <= RowOf(p, y) * p.width + x <==> y == 0
  {
    if 0 < y {
      EarlierRow(p.width, RowOf(p, y), p.height - 1);
    }
  }

  /** It is stored whole if the last pixel of the picture is there. */
  lemma TopRowIsStored(p: Picture)
    requires InRegion(p, Full(p), 0, 0) && p.bottomUp
    ensures FirstRowStored(p, Full(p)) <==> IsStored(p, p.width * p.height - 1)
  {
    StoredAs(p, p.width - 1, 0);
  }

  lemma SeenFromBelow(p: Picture, x: int, y: int)
    requires InRegion(p, Full(p), x, y) && p.bottomUp
    ensures WithinReach(p, Full(p), x, y) && Differs(p, Full(p), x, y) <==>
            CountsFromBelow(p, RowOf(p, y) * p.width + x)
  {
    TopRowIsLast(p, x, y);
    DiffersAsUnlike(p, x, y);
    TopRowIsStored(p);
  }

  /**
   A picture shorter than its size with ink: the scan ends at the second pixel, before it
   reaches the missing ones.
   */
  lemma ShortPictureWithInk() returns (p: Picture)
    ensures !Whole(p) && Inked(p, Full(p))
  {
    p := Picture(2, 2, [0, 0, 0, 0xff, 1, 0, 0, 0xff], false);
    assert p.px[4..7][0] != p.px[0..3][0];
    assert Unlike(p, 1, 0);
    TopDownInkIff(p);
  }
}
