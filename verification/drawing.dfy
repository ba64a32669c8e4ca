/** A single-channel ("L") Pillow image and the two ImageDraw fills the mask
    generator uses, `rectangle` and `pieslice`, each painting with one value. */
module Drawing {
  import opened Imaging

  /** Inclusive pixel bounds `[x0, y0, x1, y1]`: both corners are drawn. */
  datatype Bounds = Bounds(x0: int, y0: int, x1: int, y1: int)

  /** A recorded draw command; angles are in degrees, clockwise from the
      positive x axis, as Pillow takes them. */
  datatype Shape =
    | Rectangle(bounds: Bounds)
    | PieSlice(bounds: Bounds, start: int, end: int)

  /** Pillow's rasteriser for pie slices, which is foreign code: whether it
      lights pixel (x, y) for the given slice. Only its answers inside the
      slice's bounds are ever used. */
  type Raster = (Shape, int, int) -> bool

  /** `"#ffffff"` in an "L" image. */
  const Opaque: byte := 255

  predicate Inside(b: Bounds, x: int, y: int) {
    b.x0 <= x <= b.x1 && b.y0 <= y <= b.y1
  }

  /** Bounds whose second corner lies left of or above the first. Pillow's
      `rectangle` and `pieslice` refuse them with a ValueError. */
  predicate Inverted(b: Bounds) {
    b.x1 < b.x0 || b.y1 < b.y0
  }

  /** Whether drawing `s` fills pixel (x, y): every pixel of a rectangle's
      bounds, and the pixels of a slice's bounds that the rasteriser lights.
      Inverted bounds hold no pixel. */
  predicate Covers(s: Shape, raster: Raster, x: int, y: int) {
    Inside(s.bounds, x, y) && (s.Rectangle? || raster(s, x, y))
  }

  /** The value of a pixel holding `v` after `s` is filled with Opaque. */
  function Paint(s: Shape, raster: Raster, x: int, y: int, v: byte): byte {
    if Covers(s, raster, x, y) then Opaque else v
  }

  /** The value of pixel (x, y), first `base`, after `shapes` are filled in
      order. */
  function ValueAfter(shapes: seq<Shape>, raster: Raster, x: int, y: int, base: byte): byte
    decreases |shapes|
  {
    if shapes == [] then base
    else Paint(shapes[|shapes| - 1], raster, x, y, ValueAfter(shapes[..|shapes| - 1], raster, x, y, base))
  }

  /** Filling is a union: a pixel ends Opaque exactly when some shape covers
      it, and keeps its first value otherwise, whatever the order. */
  lemma {:induction false} ValueAfterIsUnion(shapes: seq<Shape>, raster: Raster, x: int, y: int, base: byte)
    ensures ValueAfter(shapes, raster, x, y, base) ==
            if exists i :: 0 <= i < |shapes| && Covers(shapes[i], raster, x, y) then Opaque else base
  {
    if shapes != [] {
      var n := |shapes|;
      var init := shapes[..n - 1];
      ValueAfterIsUnion(init, raster, x, y, base);
      if Covers(shapes[n - 1], raster, x, y) {
        assert 0 <= n - 1 < n && Covers(shapes[n - 1], raster, x, y);
      } else {
        if exists i :: 0 <= i < n && Covers(shapes[i], raster, x, y) {
          var i :| 0 <= i < n && Covers(shapes[i], raster, x, y);
          assert i < n - 1 && init[i] == shapes[i];
        }
        if exists i :: 0 <= i < n - 1 && Covers(init[i], raster, x, y) {
          var i :| 0 <= i < n - 1 && Covers(init[i], raster, x, y);
          assert shapes[i] == init[i];
        }
      }
    }
  }

  /** No fill ever lowers a pixel: drawing more shapes after a prefix leaves
      every pixel at least as high as the prefix left it, and every pixel
      at least as high as it started. */
  lemma {:induction false} DrawingNeverLowers(shapes: seq<Shape>, k: nat, raster: Raster, x: int, y: int, base: byte)
    requires k <= |shapes|
    ensures base <= ValueAfter(shapes[..k], raster, x, y, base) <= ValueAfter(shapes, raster, x, y, base)
  {
    if k < |shapes| {
      var n := |shapes|;
      assert shapes[..n - 1][..k] == shapes[..k];
      DrawingNeverLowers(shapes[..n - 1], k, raster, x, y, base);
    } else {
      assert shapes[..k] == shapes;
      if shapes != [] {
        var n := |shapes|;
        assert shapes[..n - 1][..n - 1] == shapes[..n - 1];
        DrawingNeverLowers(shapes[..n - 1], n - 1, raster, x, y, base);
      }
    }
  }

  /** The w x h grid `g` after `s` is filled with Opaque. */
  function PaintGrid(g: seq<seq<byte>>, w: nat, h: nat, s: Shape, raster: Raster): (r: seq<seq<byte>>)
    requires IsGrid(g, w, h)
    ensures IsGrid(r, w, h)
  {
    seq(h, y requires 0 <= y < h => seq(w, x requires 0 <= x < w => Paint(s, raster, x, y, g[y][x])))
  }

  /** The w x h grid, first all 0, after `shapes` are filled in order. */
  function Filled(shapes: seq<Shape>, w: nat, h: nat, raster: Raster): (g: seq<seq<byte>>)
    ensures IsGrid(g, w, h)
  {
    seq(h, y => seq(w, x => ValueAfter(shapes, raster, x, y, 0)))
  }

  /** Filling one more shape onto the grid gives the grid of the longer
      list of shapes. */
  lemma FilledAppend(drawn: seq<Shape>, s: Shape, w: nat, h: nat, raster: Raster)
    ensures PaintGrid(Filled(drawn, w, h, raster), w, h, s, raster) == Filled(drawn + [s], w, h, raster)
  {
    var longer := drawn + [s];
    assert longer[..|longer| - 1] == drawn;
    var lhs := PaintGrid(Filled(drawn, w, h, raster), w, h, s, raster);
    var rhs := Filled(longer, w, h, raster);
    forall y | 0 <= y < h ensures lhs[y] == rhs[y] {
      assert forall x :: 0 <= x < w ==> lhs[y][x] == rhs[y][x];
    }
  }

  /** A shape with inverted bounds covers no pixel, so leaving it out of a
      list of fills changes no pixel of the grid. */
  lemma FilledSkipsInverted(drawn: seq<Shape>, s: Shape, w: nat, h: nat, raster: Raster)
    requires Inverted(s.bounds)
    ensures Filled(drawn + [s], w, h, raster) == Filled(drawn, w, h, raster)
  {
    var longer := drawn + [s];
    assert longer[..|longer| - 1] == drawn;
    var lhs, rhs := Filled(longer, w, h, raster), Filled(drawn, w, h, raster);
    forall y | 0 <= y < h ensures lhs[y] == rhs[y] {
      assert forall x :: 0 <= x < w ==> lhs[y][x] == rhs[y][x];
    }
  }

  /** An "L" image together with the ImageDraw that fills it in place.
      `buf[y, x]` is the pixel in column x of row y; `drawn` lists the shapes
      filled so far, and the pixels are always the zero image with `drawn`
      filled in order. */
  class Mask {
    const width: nat
    const height: nat
    const buf: array2<byte>
    const raster: Raster
    ghost var drawn: seq<Shape>

    ghost predicate Shaped() {
      buf.Length0 == height && buf.Length1 == width
    }

    ghost predicate Valid()
      reads this, buf
    {
      Shaped() && Pixels() == Filled(drawn, width, height, raster)
    }

    /** `Image.new("L", (width, height), 0)` and `ImageDraw.Draw` on it: every
        pixel 0, nothing drawn yet. */
    constructor (width: nat, height: nat, raster: Raster)
      ensures Valid() && fresh(buf) && drawn == []
      ensures this.width == width && this.height == height && this.raster == raster
      ensures forall y, x :: 0 <= y < height && 0 <= x < width ==> buf[y, x] == 0
    {
      this.width := width;
      this.height := height;
      this.raster := raster;
      buf := new byte[height, width]((y, x) => 0);
      drawn := [];
      new;
      var p, z := Pixels(), Filled([], width, height, raster);
      forall y | 0 <= y < height ensures p[y] == z[y] {
        assert forall x :: 0 <= x < width ==> p[y][x] == z[y][x];
      }
    }

    /** The pixels as rows. */
    function Pixels(): (g: seq<seq<byte>>)
      requires Shaped()
      reads buf
      ensures IsGrid(g, width, height)
    {
      seq(height, y reads buf requires 0 <= y < height =>
        seq(width, x reads buf requires 0 <= x < width => buf[y, x]))
    }

    /** `draw.rectangle` or `draw.pieslice` with the fill Opaque. Inverted
        bounds raise a ValueError before any pixel is touched: `ok` is false
        and nothing changes. Otherwise the pixels the shape covers become
        Opaque, no pixel is lowered, every other pixel keeps its value and
        the shape is appended to the list of drawn shapes. */
    method Draw(s: Shape) returns (ok: bool)
      requires Valid()
      modifies this`drawn, buf
      ensures ok <==> !Inverted(s.bounds)
      ensures Valid() && drawn == if ok then old(drawn) + [s] else old(drawn)
      ensures forall y, x :: 0 <= y < height && 0 <= x < width ==>
                buf[y, x] == (if ok then Paint(s, raster, x, y, old(buf[y, x])) else old(buf[y, x])) &&
                old(buf[y, x]) <= buf[y, x]
    {
      if Inverted(s.bounds) {
        return false;
      }
      ok := true;
      ghost var before := Pixels();
      var y := 0;
      while y < height
        modifies buf
        invariant 0 <= y <= height
        invariant forall j, i :: 0 <= j < y && 0 <= i < width ==> buf[j, i] == Paint(s, raster, i, j, old(buf[j, i]))
        invariant forall j, i :: y <= j < height && 0 <= i < width ==> buf[j, i] == old(buf[j, i])
      {
        var x := 0;
        while x < width
          modifies buf
          invariant 0 <= x <= width
          invariant forall j, i :: 0 <= j < y && 0 <= i < width ==> buf[j, i] == Paint(s, raster, i, j, old(buf[j, i]))
          invariant forall i :: 0 <= i < x ==> buf[y, i] == Paint(s, raster, i, y, old(buf[y, i]))
          invariant forall i :: x <= i < width ==> buf[y, i] == old(buf[y, i])
          invariant forall j, i :: y < j < height && 0 <= i < width ==> buf[j, i] == old(buf[j, i])
        {
          if Covers(s, raster, x, y) {
            buf[y, x] := Opaque;
          }
          x := x + 1;
        }
        y := y + 1;
      }
      drawn := drawn + [s];
      var now, painted := Pixels(), PaintGrid(before, width, height, s, raster);
      forall j | 0 <= j < height ensures now[j] == painted[j] {
        assert forall i :: 0 <= i < width ==> now[j][i] == painted[j][i];
      }
      FilledAppend(old(drawn), s, width, height, raster);
    }
  }
}
