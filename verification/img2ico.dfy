/** The converter's orchestration: `preprocess` (square crop, then the rounded
    trim when asked) and `main` (output name, then preprocess). Opening the
    input and writing the icon are I/O: the decoded picture and its file stem
    come in as parameters, and the result is what would be saved where. */
module Img2Ico {
  import opened Imaging
  import opened Drawing
  import opened RoundMask
  import opened Cropping
  import opened Trimming

  /** The parsed command line: `-o/--output` (empty when not given),
      `--round` and `--round-rate`. */
  datatype Arguments = Arguments(output: string, round: bool, roundRate: int)

  /** `--round-rate` when it is not given. */
  const DefaultRoundRate := 5

  /** Python's `a // b`, which rounds toward negative infinity for either
      sign of `b`. */
  function FloorDiv(a: int, b: int): (q: int)
    requires b != 0
    ensures b > 0 ==> b * q <= a < b * q + b
    ensures b < 0 ==> b * q + b < a <= b * q
  {
    if b > 0 then a / b else (-a) / (-b)
  }

  /** The corner radius `side // round_rate`: a division by zero when the
      rate is 0; between 0 and the side for a positive rate, at most half the
      side from rate 2 on, and never positive for a negative rate. */
  function Radius(side: nat, roundRate: int): (r: Result<int>)
    ensures r.Err? <==> roundRate == 0
    ensures r.Err? ==> r.error == ZeroDivision
    ensures r.Ok? ==> r.value == FloorDiv(side, roundRate)
    ensures roundRate > 0 ==> r.Ok? && 0 <= r.value <= side
    ensures roundRate >= 2 ==> r.Ok? && 2 * r.value <= side
    ensures roundRate < 0 ==> r.Ok? && r.value <= 0
  {
    if roundRate == 0 then Err(ZeroDivision)
    else
      RadiusBounds(side, roundRate);
      Ok(FloorDiv(side, roundRate))
  }

  /** The bounds `Radius` promises, from the floor-division identities. */
  lemma RadiusBounds(side: nat, roundRate: int)
    requires roundRate != 0
    ensures roundRate > 0 ==> 0 <= FloorDiv(side, roundRate) <= side
    ensures roundRate >= 2 ==> 2 * FloorDiv(side, roundRate) <= side
    ensures roundRate < 0 ==> FloorDiv(side, roundRate) <= 0
  {
    var q := FloorDiv(side, roundRate);
    if roundRate > 0 {
      assert roundRate * q + roundRate > 0;
      if q < 0 {
        NonNegativeProduct(roundRate, -q - 1);
        assert false;
      }
      NonNegativeProduct(roundRate - 1, q);
      assert (roundRate - 1) * q == roundRate * q - q;
      if roundRate >= 2 {
        NonNegativeProduct(roundRate - 2, q);
        assert (roundRate - 2) * q == roundRate * q - 2 * q;
      }
    } else {
      if q > 0 {
        NonNegativeProduct(-roundRate, q);
        assert false;
      }
    }
  }

  lemma NonNegativeProduct(a: int, b: int)
    requires 0 <= a && 0 <= b
    ensures 0 <= a * b
  {
  }

  /** Whether `preprocess` with `--round` fails on a square of side `side`:
      a division by zero at rate 0, or the mask generator's ValueError when
      the radius `side // round_rate` does not fit. */
  predicate RoundingFails(side: nat, roundRate: int) {
    roundRate == 0 || !RadiusFits(side, side, FloorDiv(side, roundRate))
  }

  /** Rounding fails on an empty picture, for every rate of 1 or less, and for
      rate 2 on an even side; it succeeds from rate 3 on, and for rate 2 on an
      odd side. */
  lemma RoundingFailsExactly(side: nat, roundRate: int)
    ensures RoundingFails(side, roundRate) <==>
              side == 0 || roundRate <= 1 || (roundRate == 2 && side % 2 == 0)
  {
    if roundRate != 0 {
      var q := FloorDiv(side, roundRate);
      RadiusBounds(side, roundRate);
      if roundRate < 0 && side > 0 {
        assert q <= 0;
        if q == 0 {
          assert false;
        }
      } else if roundRate == 1 {
        assert q == side;
      } else if roundRate == 2 {
        assert q == side / 2;
      } else if roundRate >= 3 && side > 0 {
        if q > 0 {
          NonNegativeProduct(roundRate - 3, q);
          assert (roundRate - 3) * q == roundRate * q - 3 * q;
        }
      }
    }
  }

  /** What `preprocess` returns: the centred square crop, and with `--round`
      that crop trimmed with radius `side // round_rate` and the smoothing
      filter on. Fails exactly when rounding fails on the square's side: with
      a division by zero at rate 0, otherwise with the mask generator's
      ValueError. */
  function Preprocessed(src: Image, args: Arguments, raster: Raster, smoothing: Smoothing): (r: Result<Image>)
    requires WellFormed(src)
    ensures r.Err? <==> args.round && RoundingFails(Min(src.width, src.height), args.roundRate)
    ensures r.Err? ==> r.error == if args.roundRate == 0 then ZeroDivision else InvertedDrawBounds
    ensures !args.round ==> r == Ok(CropMaxSquare(src))
    ensures r.Ok? ==> WellFormed(r.value) && r.value.width == r.value.height == Min(src.width, src.height)
    ensures r.Ok? ==> forall y, x :: 0 <= y < r.value.height && 0 <= x < r.value.width ==>
              r.value.pixels[y][x].color == CropMaxSquare(src).pixels[y][x].color
    ensures r.Ok? && args.round ==>
              var side := r.value.width;
              forall y, x :: 0 <= y < side && 0 <= x < side ==>
                r.value.pixels[y][x].alpha ==
                  TrimAlpha(side, side, FloorDiv(side, args.roundRate), true, raster, smoothing)[y][x]
  {
    var img := CropMaxSquare(src);
    if !args.round then Ok(img)
    else
      match Radius(img.width, args.roundRate)
      case Err(e) => Err(e)
      case Ok(radius) =>
        if !RadiusFits(img.width, img.height, radius) then Err(InvertedDrawBounds)
        else Ok(PutAlpha(img, TrimAlpha(img.width, img.height, radius, true, raster, smoothing)))
  }

  /** With `--round-rate 2` on a picture whose shorter side is even, the
      script stops with the mask generator's ValueError, although the help
      text promises an exact circle: e.g. any 256 x 256 picture. */
  lemma RateTwoFailsOnEvenSides(src: Image, output: string, raster: Raster, smoothing: Smoothing)
    requires WellFormed(src) && Min(src.width, src.height) % 2 == 0
    ensures Preprocessed(src, Arguments(output, true, 2), raster, smoothing) == Err(InvertedDrawBounds)
  {
    RoundingFailsExactly(Min(src.width, src.height), 2);
  }

  /** `preprocess(image_input, args)` on the decoded input picture. */
  method Preprocess(src: Image, args: Arguments, raster: Raster, smoothing: Smoothing) returns (out: Result<Image>)
    requires WellFormed(src)
    ensures out == Preprocessed(src, args, raster, smoothing)
  {
    var img := CropMaxSquare(src);
    if args.round {
      var radius := Radius(img.width, args.roundRate);
      if radius.Err? {
        return Err(radius.error);
      }
      var trimmed := TrimmedRoundRectangle(img, radius.value, true, raster, smoothing);
      if trimmed.Err? {
        return Err(trimmed.error);
      }
      img := trimmed.value;
    }
    return Ok(img);
  }

  /** `args.output or stem + '.ico'`: the given name verbatim, or the input's
      stem followed by ".ico" when none was given. */
  function OutputName(output: string, stem: string): (name: string)
    ensures output != "" ==> name == output
    ensures output == "" ==> |name| == |stem| + 4 && name[..|stem|] == stem && name[|stem|..] == ".ico"
  {
    if output != "" then output else stem + ".ico"
  }

  /** The file `main` writes and the picture it writes there. */
  datatype SaveRequest = SaveRequest(path: string, image: Image)

  /** `main(args)`: resolves the output name, preprocesses the input and
      yields the save it would perform; fails when preprocessing fails. */
  method Convert(src: Image, stem: string, args: Arguments, raster: Raster, smoothing: Smoothing)
    returns (out: Result<SaveRequest>)
    requires WellFormed(src)
    ensures out.Err? <==> args.round && RoundingFails(Min(src.width, src.height), args.roundRate)
    ensures out.Ok? ==> out.value.path == OutputName(args.output, stem)
    ensures out.Ok? ==> Ok(out.value.image) == Preprocessed(src, args, raster, smoothing)
  {
    var output := OutputName(args.output, stem);
    var img := Preprocess(src, args, raster, smoothing);
    if img.Err? {
      return Err(img.error);
    }
    return Ok(SaveRequest(output, img.value));
  }
}
