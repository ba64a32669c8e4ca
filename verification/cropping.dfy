/** The square cropper: `crop_center` and `crop_max_square`. Python's `// 2`
    floors, and so does Dafny's `/` by a positive divisor, for negative
    dividends too. */
module Cropping {
  import opened Imaging

  /** The box `crop_center` hands to `Image.crop`: exactly `cropWidth` wide
      and `cropHeight` high, with the margins split as evenly as possible
      (an odd remainder leaves the extra column on the right and the extra
      row at the bottom), and inside the image whenever the crop fits. */
  function CenteredBox(width: int, height: int, cropWidth: int, cropHeight: int): (box: CropBox)
    ensures box.right - box.left == cropWidth && box.lower - box.upper == cropHeight
    ensures 0 <= (width - box.right) - box.left <= 1
    ensures 0 <= (height - box.lower) - box.upper <= 1
    ensures 0 <= cropWidth <= width ==> 0 <= box.left <= box.right <= width
    ensures 0 <= cropHeight <= height ==> 0 <= box.upper <= box.lower <= height
  {
    CropBox((width - cropWidth) / 2, (height - cropHeight) / 2,
            (width + cropWidth) / 2, (height + cropHeight) / 2)
  }

  /** `crop_center`: fails exactly when a requested size is negative (the box
      is then inverted); otherwise the result has the requested size and shows
      the image through the centred box. */
  function CropCenter(img: Image, cropWidth: int, cropHeight: int): (r: Result<Image>)
    ensures r.Ok? <==> 0 <= cropWidth && 0 <= cropHeight
    ensures r.Ok? ==> WellFormed(r.value) && r.value.width == cropWidth && r.value.height == cropHeight
    ensures r.Ok? ==>
              var box := CenteredBox(img.width, img.height, cropWidth, cropHeight);
              forall y, x :: 0 <= y < cropHeight && 0 <= x < cropWidth ==>
                r.value.pixels[y][x] == At(img, box.left + x, box.upper + y)
  {
    Crop(img, CenteredBox(img.width, img.height, cropWidth, cropHeight))
  }

  /** `crop_max_square`: a square of side min(width, height), cut from the
      centre of the image with no padding, and the image itself when it is
      already square. */
  function CropMaxSquare(img: Image): (r: Image)
    requires WellFormed(img)
    ensures WellFormed(r) && r.width == r.height == Min(img.width, img.height)
    ensures img.width == img.height ==> r == img
    ensures forall y, x :: 0 <= y < r.height && 0 <= x < r.width ==>
              r.pixels[y][x] == img.pixels[(img.height - r.height) / 2 + y][(img.width - r.width) / 2 + x]
  {
    if img.width == img.height then
      img
    else
      var side := Min(img.width, img.height);
      CropCenter(img, side, side).value
  }

  /** Cropping an already cropped image changes nothing more. */
  lemma CropMaxSquareIdempotent(img: Image)
    requires WellFormed(img)
    ensures CropMaxSquare(CropMaxSquare(img)) == CropMaxSquare(img)
  {
  }

  /** A 400x300 image is cut to the box (50, 0, 350, 300). */
  lemma LandscapeExample(img: Image)
    requires WellFormed(img) && img.width == 400 && img.height == 300
    ensures CenteredBox(400, 300, 300, 300) == CropBox(50, 0, 350, 300)
    ensures CropMaxSquare(img).width == 300
    ensures forall y, x :: 0 <= y < 300 && 0 <= x < 300 ==>
              CropMaxSquare(img).pixels[y][x] == img.pixels[y][50 + x]
  {
  }
}
