/** The mask applicator, `get_image_trimmed_round_rectangle`: the rounded mask,
    optionally smoothed, becomes the alpha channel of a copy of the picture.
    The picture's own alpha is replaced, never blended. */
module Trimming {
  import opened Imaging
  import opened Drawing
  import opened RoundMask

  /** Pillow's `ImageFilter.SMOOTH`, which is foreign code: the smoothed value
      at (x, y) of a whole mask. Filtering keeps the mask's size. */
  type Smoothing = (seq<seq<byte>>, int, int) -> byte

  /** `mask.filter(ImageFilter.SMOOTH)` on a w x h mask. */
  function Smooth(mask: seq<seq<byte>>, w: nat, h: nat, smoothing: Smoothing): (r: seq<seq<byte>>)
    requires IsGrid(mask, w, h)
    ensures IsGrid(r, w, h)
  {
    seq(h, y => seq(w, x => smoothing(mask, x, y)))
  }

  /** `putalpha(mask)` on a copy of `img`: same size, every colour channel as
      in `img`, every alpha value taken from the mask. */
  function PutAlpha(img: Image, alpha: seq<seq<byte>>): (r: Image)
    requires WellFormed(img) && IsGrid(alpha, img.width, img.height)
    ensures WellFormed(r) && r.width == img.width && r.height == img.height
    ensures forall y, x :: 0 <= y < img.height && 0 <= x < img.width ==>
              r.pixels[y][x].color == img.pixels[y][x].color && r.pixels[y][x].alpha == alpha[y][x]
  {
    Image(img.width, img.height,
          seq(img.height, y requires 0 <= y < img.height =>
            seq(img.width, x requires 0 <= x < img.width => Pixel(img.pixels[y][x].color, alpha[y][x]))))
  }

  /** The alpha replacement is destructive: two pictures with the same size
      and colours come out identical, whatever alpha they had before. */
  lemma PutAlphaDiscardsOldAlpha(a: Image, b: Image, alpha: seq<seq<byte>>)
    requires WellFormed(a) && WellFormed(b) && a.width == b.width && a.height == b.height
    requires IsGrid(alpha, a.width, a.height)
    requires forall y, x :: 0 <= y < a.height && 0 <= x < a.width ==> a.pixels[y][x].color == b.pixels[y][x].color
    ensures PutAlpha(a, alpha) == PutAlpha(b, alpha)
  {
    var ra, rb := PutAlpha(a, alpha).pixels, PutAlpha(b, alpha).pixels;
    forall y | 0 <= y < a.height ensures ra[y] == rb[y] {
      assert forall x :: 0 <= x < a.width ==> ra[y][x] == rb[y][x];
    }
  }

  /** The alpha channel the trim installs on a w x h picture: the rounded
      mask, smoothed when `useFilter` is set. */
  function TrimAlpha(w: nat, h: nat, radius: int, useFilter: bool, raster: Raster, smoothing: Smoothing): (a: seq<seq<byte>>)
    ensures IsGrid(a, w, h)
    ensures !useFilter ==> a == RoundMaskOf(w, h, radius, raster)
  {
    var mask := RoundMaskOf(w, h, radius, raster);
    if useFilter then Smooth(mask, w, h, smoothing) else mask
  }

  /** `get_image_trimmed_round_rectangle(img, radius, use_filter)`: fails
      with the mask generator's ValueError exactly when the radius does not
      fit the picture; otherwise a new picture of the same size whose colours
      are the input's and whose alpha is the (possibly smoothed) rounded
      mask; unsmoothed, that alpha is 0 or 255 everywhere and 255 throughout
      the two bands. */
  method TrimmedRoundRectangle(img: Image, radius: int, useFilter: bool, raster: Raster, smoothing: Smoothing)
    returns (result: Result<Image>)
    requires WellFormed(img)
    ensures result.Err? <==> !RadiusFits(img.width, img.height, radius)
    ensures result.Err? ==> result.error == InvertedDrawBounds
    ensures result.Ok? ==> result.value == PutAlpha(img, TrimAlpha(img.width, img.height, radius, useFilter, raster, smoothing))
    ensures result.Ok? ==> WellFormed(result.value) && result.value.width == img.width && result.value.height == img.height
    ensures result.Ok? ==> forall y, x :: 0 <= y < img.height && 0 <= x < img.width ==>
              result.value.pixels[y][x].color == img.pixels[y][x].color
    ensures result.Ok? && !useFilter ==> forall y, x :: 0 <= y < img.height && 0 <= x < img.width ==>
              (result.value.pixels[y][x].alpha == 0 || result.value.pixels[y][x].alpha == Opaque) &&
              ((radius <= y <= img.height - 1 - radius) || (radius <= x <= img.width - 1 - radius) ==>
                 result.value.pixels[y][x].alpha == Opaque)
  {
    var mask := GetRoundMask(img, radius, raster);
    if mask.Err? {
      return Err(mask.error);
    }
    var alpha := mask.value.Pixels();
    if useFilter {
      alpha := Smooth(alpha, img.width, img.height, smoothing);
    }
    var trimmed := PutAlpha(img, alpha);
    if !useFilter {
      MaskIsBinary(img.width, img.height, radius, raster);
      forall y, x | 0 <= y < img.height && 0 <= x < img.width &&
                    ((radius <= y <= img.height - 1 - radius) || (radius <= x <= img.width - 1 - radius))
        ensures trimmed.pixels[y][x].alpha == Opaque
      {
        BandsAreOpaque(img.width, img.height, radius, raster, x, y);
      }
    }
    return Ok(trimmed);
  }
}
