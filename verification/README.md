# img2ico in Dafny

A model of `img2ico.py`, a command-line tool. It turns a picture into a square
icon. It cuts the largest centred square out of the picture. With `--round`,
it also trims the corners with a rounded-rectangle alpha mask. The radius is
`side // round_rate`.

The model follows the script function by function:

- `Imaging` (imaging.dfy) holds the picture values: a grid of pixels, each a
  colour and an alpha value. It also holds the one Pillow primitive the
  cropper relies on, `Image.crop`. That primitive refuses an inverted box and
  pads with zero pixels outside the picture.
- `Cropping` (cropping.dfy) models `crop_center` and `crop_max_square`.
  Python's `// 2` rounds toward negative infinity. Dafny's `/` by a positive
  divisor does the same, so the box arithmetic is written as in the source.
- `Drawing` (drawing.dfy) models the single-channel ("L") mask. `Mask` is a
  class over a two-dimensional byte array. `Mask.Draw` fills a recorded
  rectangle or pie-slice command in place with nested loops, or refuses it
  when its bounds are inverted, as Pillow does. A ghost list of
  the commands drawn so far ties the array to a pure specification,
  `Filled`.
- `RoundMask` (round_mask.dfy) models `get_round_mask`. It holds the six fill
  commands with their boxes and angles exactly as written, including the
  0–180 sweep of the bottom-right slice. It also holds the method that draws
  them in source order, stopping at the first refused fill. It also holds a
  corrected generator that skips such fills, and the lemmas about the mask.
- `Trimming` (trimming.dfy) models `get_image_trimmed_round_rectangle`. The
  optional smoothing is applied first. Then the mask replaces the alpha
  channel of a copy of the picture.
- `Img2Ico` (img2ico.dfy) models the radius and flag logic of `preprocess`,
  and the output-name defaulting of `main`.

Two pieces of Pillow are foreign code and become parameters:

- `Raster` says which pixels Pillow's rasteriser lights for a pie slice. The
  model uses its answer only inside the slice's box. So the only assumption
  about a slice is that it sets some pixels inside its box to 255.
- `Smoothing` gives the value of `ImageFilter.SMOOTH` at each pixel of a mask.
  It is applied pixel by pixel over the mask's own size, so filtering keeps
  the size.

At its edges the script behaves as follows, and the model follows it:

- Negative crop sizes are not checked by the script. They fail only because
  `Image.crop` refuses the inverted box.
- A `round_rate` of 0 raises a division by zero.
- A negative `round_rate` is accepted by the command line and gives a radius
  of 0 or less.
- The radius is never clamped. A fill whose bounds come out inverted makes
  Pillow's `ImageDraw` raise a ValueError. That happens exactly when the
  radius is negative or twice the radius reaches a side. For a square of
  side `s` > 0 it means every rate of 1 or less, and rate 2 when `s` is even.
- The bottom-right slice sweeps 180 degrees, not 90.

## Model

| member | source | states |
|---|---|---|
| Imaging.Crop | img2ico.py:27-32 | the crop primitive fails exactly when the box is inverted; otherwise the result has the box's size and shows the picture through the box, Blank outside it |
| Cropping.CenteredBox | img2ico.py:26-32 | the box is exactly `crop_width` wide and `crop_height` high for every parity; the margins differ by at most one, with the extra column on the right and the extra row at the bottom; the box lies inside the picture whenever the crop fits |
| Cropping.CropCenter | img2ico.py:12-32 | succeeds exactly when both requested sizes are non-negative; the result has the requested size, and each pixel is the source pixel seen through the centred box |
| Cropping.CropMaxSquare | img2ico.py:35-50 | the result is a square of side min(W, H); a square input comes back unchanged; each pixel is the source pixel at the centred offset, with no padding |
| Cropping.CropMaxSquareIdempotent | img2ico.py:47-50 | cropping an already cropped picture changes nothing |
| Cropping.LandscapeExample | img2ico.py:27-32 | a 400x300 picture gets the box (50, 0, 350, 300), and its square is columns 50 to 349 |
| Drawing.ValueAfterIsUnion | img2ico.py:66-80 | after a list of fills, a pixel is 255 exactly when some fill covers it, and keeps its first value otherwise, whatever the order |
| Drawing.DrawingNeverLowers | img2ico.py:70-80 | no fill lowers a pixel: every prefix of the fills leaves each pixel at or above its first value and at or below its final value |
| Drawing.FilledAppend | img2ico.py:71-80 | filling one more shape onto the grid of a list of fills gives the grid of the longer list |
| Drawing.Mask.constructor | img2ico.py:66-67 | the new mask has the given size, every pixel is 0, and nothing has been drawn yet |
| Drawing.FilledSkipsInverted | img2ico.py:71-80 | a fill with inverted bounds covers no pixel, so leaving it out changes no pixel of the grid |
| Drawing.Mask.Draw | img2ico.py:71-80 | fails, changing nothing, exactly when the bounds are inverted; otherwise covered pixels become 255, no pixel is lowered, all other pixels keep their value, and the command is appended to the list of drawn commands |
| RoundMask.RoundMaskShapes | img2ico.py:68-80 | six fills in drawing order: a full-width band leaving r rows top and bottom; a full-height band leaving r columns left and right; four pie slices whose boxes are 2r squares touching the top-left, bottom-left, bottom-right and top-right corners; sweeps of 90, 90, 180 and 90 degrees |
| RoundMask.RoundMaskOf | img2ico.py:66 | the mask has the picture's size |
| RoundMask.UprightExactlyWhenRadiusFits | img2ico.py:71-80 | all six fills have upright bounds exactly when the radius is at least 0 and twice the radius is less than both sides |
| RoundMask.GetRoundMask | img2ico.py:53-81 | fails with the drawing ValueError exactly when the radius does not fit; otherwise a fresh mask of the picture's size, built by drawing exactly the six commands in source order, whose pixels are the specified mask |
| RoundMask.GetRoundMaskSkippingEmpty | img2ico.py:53-81 | the corrected generator, which skips a fill with inverted bounds: it never fails, and its pixels are the specified mask for every radius |
| RoundMask.MaskIsUnionOfShapes | img2ico.py:71-80 | a mask pixel is 255 exactly when it lies in one of the two bands or is lit inside one of the four corner slices, and 0 otherwise |
| RoundMask.MaskIsBinary | img2ico.py:66-80 | before smoothing, the mask holds only the values 0 and 255 |
| RoundMask.BandsAreOpaque | img2ico.py:71-74 | every pixel at least r rows from the top and bottom, or at least r columns from the left and right, is 255 |
| RoundMask.ZeroRadiusIsOpaque | img2ico.py:71-72 | with r = 0 the first band is the whole picture, and the mask is 255 everywhere |
| RoundMask.HalfSideRadiusLeavesOnlySlices | img2ico.py:71-80 | in the corrected generator's mask, with radius side/2 on an even side, both bands are empty; a pixel is 255 exactly when a corner slice lights it |
| Trimming.Smooth | img2ico.py:96-97 | smoothing keeps the mask's size |
| Trimming.PutAlpha | img2ico.py:98-99 | the result has the input's size and colours, and every alpha value comes from the mask |
| Trimming.PutAlphaDiscardsOldAlpha | img2ico.py:98-99 | the alpha is replaced, not blended: two pictures with the same size and colours give the same result, whatever their old alpha |
| Trimming.TrimAlpha | img2ico.py:95-97 | the alpha that the trim installs has the picture's size, and without the filter it is the rounded mask itself |
| Trimming.TrimmedRoundRectangle | img2ico.py:84-101 | fails with the drawing ValueError exactly when the radius does not fit the picture; otherwise a new picture of the same size with the input's colours and the (possibly smoothed) mask as alpha; unsmoothed, the alpha is 0 or 255 everywhere and 255 throughout both bands |
| Img2Ico.FloorDiv | img2ico.py:109 | Python's `//`: the quotient is rounded toward negative infinity, for either sign of the divisor |
| Img2Ico.Radius | img2ico.py:109 | fails with a division by zero exactly when the rate is 0; for a positive rate the radius is between 0 and the side; from rate 2 on it is at most half the side; for a negative rate it is at most 0 |
| Img2Ico.RoundingFailsExactly | img2ico.py:108-110 | rounding fails exactly on an empty picture, for every rate of 1 or less, and for rate 2 on an even side |
| Img2Ico.Preprocessed | img2ico.py:104-112 | fails exactly for `--round` when rounding fails on the square's side, with a division by zero at rate 0 and the drawing ValueError otherwise; without `--round` the result is exactly the square crop; otherwise it is a square of side min(W, H) with the crop's colours and the smoothed rounded mask, radius `side // round_rate`, as alpha |
| Img2Ico.RateTwoFailsOnEvenSides | img2ico.py:108-110 | with `--round-rate 2`, every picture whose shorter side is even makes preprocessing fail with the drawing ValueError |
| Img2Ico.Preprocess | img2ico.py:104-112 | the crop and the optional trim, applied step by step, produce the specified result |
| Img2Ico.OutputName | img2ico.py:117-118 | a non-empty `--output` is used verbatim; otherwise the name is the input's stem followed by ".ico" |
| Img2Ico.Convert | img2ico.py:115-121 | fails exactly when preprocessing fails, that is for `--round` when rounding fails on the shorter side; otherwise it saves the preprocessed picture under the resolved output name |

## Left out

- Reading and decoding the input (`Image.open`) is not modelled. The decoded picture is a parameter.
- Encoding and writing the icon (`img.save(..., format="ICO")`) is not modelled. `Img2Ico.Convert` returns the path and the picture it would save.
- Command-line parsing with `argparse` is not modelled. `Arguments` holds the parsed values, and `DefaultRoundRate` records the default of 5.
- `pathlib.Path.stem` is not modelled. The stem is an input to `Img2Ico.Convert`.
- The kernel and edge handling of `ImageFilter.SMOOTH` belong to Pillow. Smoothing is the `Smoothing` parameter.
- The pixel-exact rasterisation of `pieslice` belongs to Pillow. Slices are recorded commands, and `Raster` says which pixels inside the box are lit. So the model cannot prove that the extreme corner pixels are transparent, or that rate 2 gives a full disc.
- Drawing.Mask.Draw: follows recent Pillow, which raises a ValueError for a rectangle or slice whose bounds are inverted (x1 < x0 or y1 < y0). Older Pillow releases drew such bounds instead, swapping the corners; that behaviour is not modelled.
- Colour modes are not modelled. A pixel is an RGB colour plus an alpha value. The mode conversion that `putalpha` performs ("RGB" to "RGBA", "L" to "LA") is not modelled.
- Imaging.Crop: pixels outside the picture are modelled as transparent black (`Blank`) whatever the mode, whereas Pillow pads an RGB picture with opaque black and no alpha. `crop_max_square` never pads, so only `crop_center` with sizes larger than the picture sees the difference.
- Trimming.TrimmedRoundRectangle: the copy and the in-place `putalpha` are modelled as building a new value. That the input is left unchanged follows from value semantics. Aliasing of Pillow image objects is not modelled.
- The default arguments `r=100`, `radius=100` and `use_filter=True` are not modelled separately. The script's only call passes the radius and keeps the filter on, and the model passes the same values.

## Findings

| source | as written | input that shows it | evidently intended | confidence | as-written member | corrected member |
|---|---|---|---|---|---|---|
| img2ico.py:71-72, 109, 133 | with `--round-rate 2` the radius is exactly half an even side, so the first band's bounds are inverted and `draw.rectangle` raises a ValueError | any 256 x 256 picture with `--round --round-rate 2`: r = 128 and the first rectangle is (0, 128, 255, 127) | the help text says rate 2 gives an exact circle: empty bands should draw nothing, leaving the four corner slices | not executed; depends on the Pillow release raising on inverted bounds | Img2Ico.RateTwoFailsOnEvenSides | RoundMask.GetRoundMaskSkippingEmpty |

The corrected generator never fails, and its mask is the specified mask
`RoundMaskOf` for every radius. `RoundMask.HalfSideRadiusLeavesOnlySlices`
proves the intended outcome for rate 2 about that mask. `Img2Ico.Preprocess`
keeps the generator as written, because that is what the script runs.
