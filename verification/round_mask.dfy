/** The rounded mask generator, `get_round_mask`: an all-zero "L" image of the
    picture's size, two Opaque bands and four Opaque corner pie slices. The
    radius is neither checked nor clamped. */
module RoundMask {
  import opened Imaging
  import opened Drawing

  /** The six fills of `get_round_mask` in drawing order: a band across the
      full width leaving r rows at top and bottom, a band down the full
      height leaving r columns left and right, then pie slices whose bounds
      are 2r-wide squares in the top-left, bottom-left, bottom-right and
      top-right corners. The bottom-right slice sweeps 180 degrees (0 to 180),
      the others 90. */
  function RoundMaskShapes(w: int, h: int, r: int): (shapes: seq<Shape>)
    ensures |shapes| == 6 && shapes[0].Rectangle? && shapes[1].Rectangle?
    ensures var b := shapes[0].bounds; b.x0 == 0 && b.x1 == w - 1 && b.y0 == r && (h - 1) - b.y1 == r
    ensures var b := shapes[1].bounds; b.y0 == 0 && b.y1 == h - 1 && b.x0 == r && (w - 1) - b.x1 == r
    ensures forall i :: 2 <= i < 6 ==>
              shapes[i].PieSlice? && shapes[i].bounds.x1 - shapes[i].bounds.x0 == 2 * r == shapes[i].bounds.y1 - shapes[i].bounds.y0
    ensures shapes[2].bounds.x0 == 0 && shapes[2].bounds.y0 == 0
    ensures shapes[3].bounds.x0 == 0 && shapes[3].bounds.y1 == h - 1
    ensures shapes[4].bounds.x1 == w - 1 && shapes[4].bounds.y1 == h - 1
    ensures shapes[5].bounds.x1 == w - 1 && shapes[5].bounds.y0 == 0
    ensures shapes[2].end - shapes[2].start == shapes[3].end - shapes[3].start == shapes[5].end - shapes[5].start == 90
    ensures shapes[4].end - shapes[4].start == 180
  {
    [ Rectangle(Bounds(0, r, w - 1, h - 1 - r)),
      Rectangle(Bounds(r, 0, w - 1 - r, h - 1)),
      PieSlice(Bounds(0, 0, r * 2, r * 2), 180, 270),
      PieSlice(Bounds(0, h - 1 - r * 2, r * 2, h - 1), 90, 180),
      PieSlice(Bounds(w - 1 - r * 2, h - 1 - r * 2, w - 1, h - 1), 0, 180),
      PieSlice(Bounds(w - 1 - r * 2, 0, w - 1, r * 2), 270, 360) ]
  }

  /** The specified mask for a w x h picture and radius r: the zero grid
      with the six shapes filled in order, a shape with inverted bounds
      filling nothing. When the radius fits, this is the mask
      `get_round_mask` returns. */
  function RoundMaskOf(w: nat, h: nat, r: int, raster: Raster): (m: seq<seq<byte>>)
    ensures IsGrid(m, w, h)
  {
    Filled(RoundMaskShapes(w, h, r), w, h, raster)
  }

  /** Whether Pillow accepts all six fills: the radius is not negative and
      twice the radius is less than both sides. */
  predicate RadiusFits(w: int, h: int, r: int) {
    0 <= r && 2 * r < w && 2 * r < h
  }

  /** The six fills all have upright bounds exactly when the radius fits;
      so a negative radius, or one of at least half a side (rate 2 on an
      even side among them), makes one of the fills refuse. */
  lemma UprightExactlyWhenRadiusFits(w: int, h: int, r: int)
    ensures (forall i :: 0 <= i < 6 ==> !Inverted(RoundMaskShapes(w, h, r)[i].bounds)) <==> RadiusFits(w, h, r)
  {
    var shapes := RoundMaskShapes(w, h, r);
    if !RadiusFits(w, h, r) {
      if r < 0 {
        assert Inverted(shapes[2].bounds);
      } else if 2 * r >= h {
        assert Inverted(shapes[0].bounds);
      } else {
        assert Inverted(shapes[1].bounds);
      }
    }
  }

  /** `get_round_mask(img, r)`: allocates the zero mask of the image's size and
      fills the six shapes in the order the source draws them. The first fill
      with inverted bounds raises a ValueError, which happens exactly when the
      radius does not fit; otherwise the mask holds exactly the six shapes. */
  method GetRoundMask(img: Image, r: int, raster: Raster) returns (result: Result<Mask>)
    ensures result.Err? <==> !RadiusFits(img.width, img.height, r)
    ensures result.Err? ==> result.error == InvertedDrawBounds
    ensures result.Ok? ==> var mask := result.value;
              fresh(mask.buf) && mask.Valid() && mask.raster == raster &&
              mask.width == img.width && mask.height == img.height &&
              mask.drawn == RoundMaskShapes(img.width, img.height, r) &&
              mask.Pixels() == RoundMaskOf(img.width, img.height, r, raster)
  {
    var mask := new Mask(img.width, img.height, raster);
    var w, h := mask.width, mask.height;
    var ok := mask.Draw(Rectangle(Bounds(0, r, w - 1, h - 1 - r)));
    if !ok { return Err(InvertedDrawBounds); }
    ok := mask.Draw(Rectangle(Bounds(r, 0, w - 1 - r, h - 1)));
    if !ok { return Err(InvertedDrawBounds); }
    ok := mask.Draw(PieSlice(Bounds(0, 0, r * 2, r * 2), 180, 270));
    if !ok { return Err(InvertedDrawBounds); }
    ok := mask.Draw(PieSlice(Bounds(0, h - 1 - r * 2, r * 2, h - 1), 90, 180));
    if !ok { return Err(InvertedDrawBounds); }
    ok := mask.Draw(PieSlice(Bounds(w - 1 - r * 2, h - 1 - r * 2, w - 1, h - 1), 0, 180));
    if !ok { return Err(InvertedDrawBounds); }
    ok := mask.Draw(PieSlice(Bounds(w - 1 - r * 2, 0, w - 1, r * 2), 270, 360));
    if !ok { return Err(InvertedDrawBounds); }
    return Ok(mask);
  }

  /** The generator as the help text of `--round-rate` intends it: a fill
      with inverted bounds has no pixels and is skipped instead of raising.
      It never fails, and its mask is the specified mask for every radius. */
  method GetRoundMaskSkippingEmpty(img: Image, r: int, raster: Raster) returns (mask: Mask)
    ensures fresh(mask.buf) && mask.Valid() && mask.raster == raster
    ensures mask.width == img.width && mask.height == img.height
    ensures mask.Pixels() == RoundMaskOf(img.width, img.height, r, raster)
  {
    mask := new Mask(img.width, img.height, raster);
    var shapes := RoundMaskShapes(img.width, img.height, r);
    var k := 0;
    while k < |shapes|
      modifies mask`drawn, mask.buf
      invariant 0 <= k <= |shapes|
      invariant fresh(mask.buf) && mask.Valid()
      invariant Filled(mask.drawn, mask.width, mask.height, raster) == Filled(shapes[..k], mask.width, mask.height, raster)
    {
      ghost var before := mask.drawn;
      var drew := mask.Draw(shapes[k]);
      assert shapes[..k + 1] == shapes[..k] + [shapes[k]];
      FilledAppend(before, shapes[k], mask.width, mask.height, raster);
      FilledAppend(shapes[..k], shapes[k], mask.width, mask.height, raster);
      if !drew {
        FilledSkipsInverted(shapes[..k], shapes[k], mask.width, mask.height, raster);
      }
      k := k + 1;
    }
    assert shapes[..k] == shapes;
  }

  /** A mask pixel is Opaque exactly when it lies in one of the two bands or
      the rasteriser lights it inside one of the four corner slices, and 0
      otherwise. */
  lemma MaskIsUnionOfShapes(w: nat, h: nat, r: int, raster: Raster, x: int, y: int)
    requires 0 <= x < w && 0 <= y < h
    ensures var shapes := RoundMaskShapes(w, h, r);
            RoundMaskOf(w, h, r, raster)[y][x] ==
              if (r <= y <= h - 1 - r) || (r <= x <= w - 1 - r) ||
                 (exists i :: 2 <= i < 6 && Inside(shapes[i].bounds, x, y) && raster(shapes[i], x, y))
              then Opaque else 0
  {
    var shapes := RoundMaskShapes(w, h, r);
    ValueAfterIsUnion(shapes, raster, x, y, 0);
    if r <= y <= h - 1 - r {
      assert Covers(shapes[0], raster, x, y);
    } else if r <= x <= w - 1 - r {
      assert Covers(shapes[1], raster, x, y);
    } else if exists i :: 2 <= i < 6 && Inside(shapes[i].bounds, x, y) && raster(shapes[i], x, y) {
      var i :| 2 <= i < 6 && Inside(shapes[i].bounds, x, y) && raster(shapes[i], x, y);
      assert Covers(shapes[i], raster, x, y);
    } else {
      forall i | 0 <= i < 6 ensures !Covers(shapes[i], raster, x, y) {
      }
    }
  }

  /** Before any smoothing the mask holds only 0 and 255. */
  lemma MaskIsBinary(w: nat, h: nat, r: int, raster: Raster)
    ensures forall y, x :: 0 <= y < h && 0 <= x < w ==>
              RoundMaskOf(w, h, r, raster)[y][x] == 0 || RoundMaskOf(w, h, r, raster)[y][x] == Opaque
  {
    forall y, x | 0 <= y < h && 0 <= x < w
      ensures RoundMaskOf(w, h, r, raster)[y][x] == 0 || RoundMaskOf(w, h, r, raster)[y][x] == Opaque
    {
      ValueAfterIsUnion(RoundMaskShapes(w, h, r), raster, x, y, 0);
    }
  }

  /** Every pixel in the horizontal band (at least r rows from the top and
      bottom) or the vertical band (at least r columns from the left and
      right) is Opaque, whatever the slices do. */
  lemma BandsAreOpaque(w: nat, h: nat, r: int, raster: Raster, x: int, y: int)
    requires 0 <= x < w && 0 <= y < h
    requires (r <= y <= h - 1 - r) || (r <= x <= w - 1 - r)
    ensures RoundMaskOf(w, h, r, raster)[y][x] == Opaque
  {
    MaskIsUnionOfShapes(w, h, r, raster, x, y);
  }

  /** With radius 0 the first band is the whole picture, so the mask is
      Opaque everywhere. */
  lemma ZeroRadiusIsOpaque(w: nat, h: nat, raster: Raster)
    ensures RoundMaskShapes(w, h, 0)[0] == Rectangle(Bounds(0, 0, w - 1, h - 1))
    ensures forall y, x :: 0 <= y < h && 0 <= x < w ==> RoundMaskOf(w, h, 0, raster)[y][x] == Opaque
  {
    forall y, x | 0 <= y < h && 0 <= x < w ensures RoundMaskOf(w, h, 0, raster)[y][x] == Opaque {
      BandsAreOpaque(w, h, 0, raster, x, y);
    }
  }

  /** The mask intended for rate 2: with radius side/2 on an even side both
      bands are empty, so in the mask of `GetRoundMaskSkippingEmpty` a pixel
      is Opaque exactly when the rasteriser lights it inside one of the four
      corner slices. */
  lemma HalfSideRadiusLeavesOnlySlices(side: nat, raster: Raster, x: int, y: int)
    requires side % 2 == 0 && 0 <= x < side && 0 <= y < side
    ensures var shapes := RoundMaskShapes(side, side, side / 2);
            RoundMaskOf(side, side, side / 2, raster)[y][x] == Opaque <==>
              exists i :: 2 <= i < 6 && Inside(shapes[i].bounds, x, y) && raster(shapes[i], x, y)
  {
    MaskIsUnionOfShapes(side, side, side / 2, raster, x, y);
  }
}
