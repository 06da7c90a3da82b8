/** Where the compositor's untransformed and transformed paths overlap (`src/render.rs`):
    an untransformed source could be pasted through either, and the colours never differ. */
module PathsAgree {
  import opened Numerics
  import opened Layout
  import opened MediaContract
  import opened SourceTransforms
  import opened Frames
  import opened Sampling
  import opened Shading
  import Paste
  import opened PasteTransformed
  import opened Compositing

  predicate Canonical(input: Frame) {
    IsCanonicalBgra(input.contract, input.width, input.height)
  }

  lemma CanonicalCoordinate(input: Frame, x: U32, y: U32)
    requires input.Valid() && Canonical(input) && x < input.width && y < input.height
    ensures SourceCoordinate(input.contract, x, y) == (x, y)
  {
    hide SourceCoordinate;
    SquareSourceCoordinate(input.contract, input.width, input.height, x, y);
  }

  lemma CanonicalSample(input: Frame, x: U32, y: U32, c: nat)
    requires input.Valid() && Canonical(input) && x < input.width && y < input.height && c < 3
    ensures SamplePremultiplied(input, input.contract, x, y, c) == Share(input.Channel(x, y, c))
  {
    hide SourceCoordinate, SamplePremultiplied, Frame.Channel, Share;
    CanonicalCoordinate(input, x, y);
    FastSample(input, input.contract, x, y, c);
  }

  /** Fully opaque blending at full opacity just rounds the share. */
  lemma WholeBlend(share: real, under: Byte)
    ensures BlendOverOpaque(Faded(share, 1.0), Faded(1.0, 1.0), under) == ToByte(share)
  {
    assert Faded(share, 1.0) == share && Faded(1.0, 1.0) == 1.0;
    assert share + Share(under) * (1.0 - 1.0) == share;
  }

  lemma ShareRoundTrip(b: Byte)
    ensures ToByte(Share(b)) == b
  {
  }

  /** The placement an untransformed source gets, through either path. */
  lemma SamePlace(fit: FitRounding, input: Frame, cell: Cell)
    requires input.Valid() && Canonical(input) && Placeable(cell)
    ensures var p := TransformedPlacement(fit, input.contract, cell, DEFAULT_TRANSFORM);
            && DestinationCell(p) == UntransformedCell(fit, input, cell)
            && WindowInside(input.contract, p)
            && p.sourceX == 0 && p.sourceY == 0 && p.sourceWidth == input.width && p.sourceHeight == input.height
  {
    hide FittedSize, DisplayDimensions, PositionedOffset;
    IdentityKeepsContract(input);
    FittedSizeInside(fit, input.width, input.height, cell);
    var (w, h) := FittedSize(fit, input.width, input.height, cell);
    PositionedOffsetEnds(cell.width - w, 0);
    PositionedOffsetEnds(cell.height - h, 0);
    PlacementIsSafe(fit, input.contract, cell, DEFAULT_TRANSFORM);
  }

  /** Blue, green and red agree for every source, cell, filter and pixel. */
  lemma ColoursAgree(
    fit: FitRounding, filter: ScalingFilter, input: Frame, cell: Cell, x: U32, y: U32, c: nat, under: Byte)
    requires input.Valid() && Canonical(input) && Placeable(cell) && c < 3
    ensures var p := TransformedPlacement(fit, input.contract, cell, DEFAULT_TRANSFORM);
            && WindowInside(input.contract, p)
            && Composited(filter, input, input.contract, TRANSFORM_SCALE, p, x, y, c, under) ==
               Resampled(filter, input, p.destWidth, p.destHeight, x, y, c)
  {
    hide TransformedPlacement, UntransformedCell, WindowInside, SamplePremultiplied, LinearSampleAt, NearestSourceCoordinate,
         Mix, Share, Faded, BlendOverOpaque, Frame.Channel, ToByte, Weight;
    SamePlace(fit, input, cell);
    var p := TransformedPlacement(fit, input.contract, cell, DEFAULT_TRANSFORM);
    OpaqueSamplesAreWhole(filter, input, input.contract, p, x, y);
    WholeBlend(Sample(filter, input, input.contract, p, x, y, c), under);
    match filter {
      case Nearest =>
        NearestInside(x, input.width, p.destWidth);
        NearestInside(y, input.height, p.destHeight);
        var (u, v) := (NearestSourceCoordinate(x, input.width, p.destWidth), NearestSourceCoordinate(y, input.height, p.destHeight));
        CanonicalSample(input, u, v, c);
        ShareRoundTrip(input.Channel(u, v, c));
      case Bilinear =>
        var (xs, ys) := (LinearSampleAt(x, input.width, p.destWidth), LinearSampleAt(y, input.height, p.destHeight));
        CanonicalSample(input, xs.low, ys.low, c);
        CanonicalSample(input, xs.high, ys.low, c);
        CanonicalSample(input, xs.low, ys.high, c);
        CanonicalSample(input, xs.high, ys.high, c);
    }
  }

  predicate OpaqueBytes(input: Frame)
    requires input.Valid()
  {
    forall x: U32, y: U32 | x < input.width && y < input.height :: input.Channel(x, y, 3) == 255
  }

  /** The fourth byte of a composited pixel is always 255, that of an untransformed one is
      the source's own alpha byte, resampled. They agree at every destination size exactly
      when the source's alpha bytes are all 255 already. */
  lemma AlphaAgreesOnlyWhenOpaque(filter: ScalingFilter, input: Frame)
    requires input.Valid()
    ensures (forall width: U32, height: U32, x: U32, y: U32 | x < width && y < height ::
               Resampled(filter, input, width, height, x, y, 3) == 255)
       <==> OpaqueBytes(input)
  {
    hide Resampled, Frame.Channel;
    if OpaqueBytes(input) {
      forall width: U32, height: U32, x: U32, y: U32 | x < width && y < height
        ensures Resampled(filter, input, width, height, x, y, 3) == 255
      {
        OpaqueResamples(filter, input, width, height, x, y);
      }
    }
    if forall width: U32, height: U32, x: U32, y: U32 | x < width && y < height ::
         Resampled(filter, input, width, height, x, y, 3) == 255
    {
      forall x: U32, y: U32 | x < input.width && y < input.height ensures input.Channel(x, y, 3) == 255 {
        assert Resampled(filter, input, input.width, input.height, x, y, 3) == 255;
        Paste.UnscaledIsEitherFilter(filter, input, x, y, 3);
      }
    }
  }

  lemma OpaqueResamples(filter: ScalingFilter, input: Frame, width: U32, height: U32, x: U32, y: U32)
    requires input.Valid() && OpaqueBytes(input)
    ensures Resampled(filter, input, width, height, x, y, 3) == 255
  {
    hide LinearSampleAt, NearestSourceCoordinate, Mix, Frame.Channel;
    match filter
    case Nearest =>
      NearestInside(x, input.width, width);
      NearestInside(y, input.height, height);
    case Bilinear =>
      var (xs, ys) := (LinearSampleAt(x, input.width, width), LinearSampleAt(y, input.height, height));
      assert Share(255) == 1.0;
      MixOfOnes(Weight(xs.highWeight), Weight(ys.highWeight));
  }

  /** One pixel, fully transparent by its bytes, in a description that calls it opaque. */
  const CLEAR_PIXEL := Frame(1, 1, CanonicalBgra(1, 1), [10, 20, 30, 0])

  lemma ClearPixelKeepsItsAlpha(filter: ScalingFilter)
    ensures CLEAR_PIXEL.Valid() && Canonical(CLEAR_PIXEL)
    ensures Resampled(filter, CLEAR_PIXEL, 1, 1, 0, 0, 3) == 0
  {
    hide Resampled;
    assert FrameBytes(1, 1) == 4 && Offset(1, 0, 0) == 0;
    Paste.UnscaledIsEitherFilter(filter, CLEAR_PIXEL, 0, 0, 3);
  }
}
