/** Pillow's image values as the converter sees them: a grid of pixels with a
    size, and the one Pillow primitive the cropper relies on, `Image.crop`. */
module Imaging {

  /** One 8-bit channel value. */
  newtype byte = x: int | 0 <= x < 256

  datatype Color = Color(red: byte, green: byte, blue: byte)

  /** A pixel: its colour channels and its alpha channel (255 for an image
      that has no alpha channel of its own). */
  datatype Pixel = Pixel(color: Color, alpha: byte)

  /** What Pillow puts where a crop box reaches outside the image. */
  const Blank := Pixel(Color(0, 0, 0), 0)

  /** An image of `width` columns and `height` rows; `pixels[y][x]` is the
      pixel in column x of row y. */
  datatype Image = Image(width: nat, height: nat, pixels: seq<seq<Pixel>>)

  predicate WellFormed(img: Image) {
    IsGrid(img.pixels, img.width, img.height)
  }

  /** `g` has `height` rows of `width` entries each. */
  predicate IsGrid<T>(g: seq<seq<T>>, width: nat, height: nat) {
    |g| == height && forall y :: 0 <= y < height ==> |g[y]| == width
  }

  /** The pixel at (x, y), or Blank outside the image. */
  function At(img: Image, x: int, y: int): Pixel {
    if 0 <= y < |img.pixels| && 0 <= x < |img.pixels[y]| then img.pixels[y][x] else Blank
  }

  function Min(a: int, b: int): int {
    if a <= b then a else b
  }

  /** Pillow's crop box: `left` and `upper` are included, `right` and `lower`
      are not. */
  datatype CropBox = CropBox(left: int, upper: int, right: int, lower: int)

  /** The exceptions the modelled code can raise. */
  datatype Error =
    | InvertedCropBox     // ValueError from Image.crop
    | InvertedDrawBounds  // ValueError from ImageDraw.rectangle or pieslice
    | ZeroDivision        // ZeroDivisionError from `//`

  datatype Result<T> = Ok(value: T) | Err(error: Error)

  /** `Image.crop(box)`: refuses a box whose right edge is left of its left
      edge or whose lower edge is above its upper edge; otherwise the result
      has the box's size and shows the image through the box, Blank where the
      box reaches outside the image. */
  function Crop(img: Image, box: CropBox): (r: Result<Image>)
    ensures r.Ok? <==> box.left <= box.right && box.upper <= box.lower
    ensures r.Ok? ==> WellFormed(r.value)
    ensures r.Ok? ==> r.value.width == box.right - box.left && r.value.height == box.lower - box.upper
    ensures r.Ok? ==> forall y, x :: 0 <= y < r.value.height && 0 <= x < r.value.width ==>
              r.value.pixels[y][x] == At(img, box.left + x, box.upper + y)
  {
    if box.right < box.left || box.lower < box.upper then
      Err(InvertedCropBox)
    else
      var w, h := box.right - box.left, box.lower - box.upper;
      Ok(Image(w, h, seq(h, y => seq(w, x => At(img, box.left + x, box.upper + y)))))
  }
}
