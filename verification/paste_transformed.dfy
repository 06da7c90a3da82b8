/** The transformed paste (`src/render.rs`): an integer path for opaque full-range square
    sources and a generic path for the rest. Both are proved to paint the same reference,
    whatever the crop, turn, mirrors, placement, opacity and filter. */
module PasteTransformed {
  import opened Numerics
  import opened Layout
  import opened MediaContract
  import opened SourceTransforms
  import opened Frames
  import opened Sampling
  import opened Shading
  import opened FixedPoint
  import opened SamplingMaps
  import opened Canvas
  import opened Paste

  function DestinationCell(p: Placement): Cell {
    Cell(p.destX, p.destY, p.destWidth, p.destHeight)
  }

  /** When the compositor takes the integer path. */
  predicate FastContract(contract: FrameContract) {
    contract.colorimetry == BT709_FULL_OPAQUE && contract.pixelAspectRatio == SQUARE
  }

  ghost predicate Pasteable(input: Frame, contract: FrameContract, p: Placement, output: FrameBuffer) {
    && input.Valid() && Validate(contract, input.width, input.height).Ok?
    && WindowInside(contract, p)
    && output.Valid() && DestinationCell(p).Within(output.width, output.height)
  }

  function TransformedSourceOffset(contract: FrameContract, inputWidth: nat, x: nat, y: nat): nat {
    var aperture := contract.cleanAperture;
    var (sourceX, sourceY) := match contract.transform.rotation
      case Degrees0 => (x, y)
      case Degrees90 => (y, SaturatingSub(SaturatingSub(aperture.height, 1), x))
      case Degrees180 =>
        (SaturatingSub(SaturatingSub(aperture.width, 1), x), SaturatingSub(SaturatingSub(aperture.height, 1), y))
      case Degrees270 => (SaturatingSub(SaturatingSub(aperture.width, 1), y), x);
    Offset(inputWidth, aperture.x + sourceX, aperture.y + sourceY)
  }

  /** A mirrored pair of map entries addresses the pixel that `SourceCoordinate` names:
      separating the axes and turning afterwards loses nothing. */
  lemma SeparableOffset(contract: FrameContract, width: U32, height: U32, displayX: U32, displayY: U32)
    requires SquareContract(contract, width, height)
    requires displayX < DisplayDimensions(contract).0 && displayY < DisplayDimensions(contract).1
    ensures var x := MirroredCoordinate(displayX, DisplayDimensions(contract).0, contract.transform.mirrorHorizontal);
            var y := MirroredCoordinate(displayY, DisplayDimensions(contract).1, contract.transform.mirrorVertical);
            var (sourceX, sourceY) := SourceCoordinate(contract, displayX, displayY);
            && sourceX < width && sourceY < height
            && TransformedSourceOffset(contract, width, x, y) == Offset(width, sourceX, sourceY)
  {
    hide SourceCoordinate, DisplayDimensions, Offset;
    SquareDisplay(contract, width, height);
    SquareSourceCoordinate(contract, width, height, displayX, displayY);
  }

  /** On the integer path a premultiplied colour channel is the source byte's share. */
  lemma FastSample(input: Frame, contract: FrameContract, displayX: U32, displayY: U32, c: nat)
    requires input.Valid() && Validate(contract, input.width, input.height).Ok? && FastContract(contract) && c < 3
    ensures var (x, y) := SourceCoordinate(contract, displayX, displayY);
            && x < input.width && y < input.height
            && SamplePremultiplied(input, contract, displayX, displayY, c) == Share(input.Channel(x, y, c))
  {
    hide SourceCoordinate, Frame.Channel;
    SourceCoordinateInside(contract, input.width, input.height, displayX, displayY);
  }

  /** The byte at a mirrored map position is the reference's sample of that display pixel. */
  lemma FastByte(input: Frame, contract: FrameContract, displayX: U32, displayY: U32, c: nat)
    requires input.Valid() && Validate(contract, input.width, input.height).Ok? && FastContract(contract) && c < 3
    requires displayX < DisplayDimensions(contract).0 && displayY < DisplayDimensions(contract).1
    ensures var x := MirroredCoordinate(displayX, DisplayDimensions(contract).0, contract.transform.mirrorHorizontal);
            var y := MirroredCoordinate(displayY, DisplayDimensions(contract).1, contract.transform.mirrorVertical);
            var at := TransformedSourceOffset(contract, input.width, x, y);
            && at + BYTES_PER_PIXEL <= |input.data|
            && Share(input.data[at + c]) == SamplePremultiplied(input, contract, displayX, displayY, c)
  {
    hide SourceCoordinate, DisplayDimensions, Offset, FrameBytes, SamplePremultiplied, TransformedSourceOffset;
    SeparableOffset(contract, input.width, input.height, displayX, displayY);
    FastSample(input, contract, displayX, displayY, c);
    var (sourceX, sourceY) := SourceCoordinate(contract, displayX, displayY);
    OffsetInside(input.width, input.height, sourceX, sourceY);
  }

  // ---- Integer blends, checked against the reference -----------------------------------------------

  /** A faded channel of an opaque source, from its 16.16 weighted sum. */
  function FadedChannel(weighted: nat, under: Byte, opacity: nat): Byte
    requires weighted <= 255 * BILINEAR_SCALE && opacity <= OPACITY_SCALE
  {
    hide BlendOverOpaque, BlendWeightedChannel;
    WeightedBlendIsReference(weighted, weighted as real / 65536.0 / 255.0, under, opacity, opacity as real / 1000.0);
    BlendWeightedChannel(weighted, under, opacity)
  }

  lemma FadedIsReference(weighted: nat, share: real, under: Byte, opacity: U16)
    requires weighted <= 255 * BILINEAR_SCALE
    requires weighted as real / 65536.0 == share * 255.0
    ensures FadedChannel(weighted, under, Min(opacity, TRANSFORM_SCALE)) ==
            BlendOverOpaque(Faded(share, OpacityShare(opacity)), OpacityShare(opacity), under)
  {
    hide BlendOverOpaque, BlendWeightedChannel, Faded;
    WeightedBlendIsReference(weighted, share, under, Min(opacity, TRANSFORM_SCALE), OpacityShare(opacity));
  }

  /** At full opacity the shift gives the same channel. */
  lemma OpaqueChannel(weighted: nat, under: Byte)
    requires weighted <= 255 * BILINEAR_SCALE
    ensures BlendOpaqueChannel(weighted) == FadedChannel(weighted, under, TRANSFORM_SCALE)
  {
    ShiftIsDivision(weighted, under);
  }

  /** A whole byte weighs 65536 times itself; opaque, it is copied. */
  lemma CopiedChannel(source: Byte, under: Byte)
    ensures source == FadedChannel(source * BILINEAR_SCALE, under, TRANSFORM_SCALE)
  {
    hide FadedChannel;
    OpaqueChannel(source * BILINEAR_SCALE, under);
  }

  /** The pixel about to be painted still holds its original bytes. */
  lemma PixelUntouched(before: seq<Byte>, now: seq<Byte>, width: nat, draw: Draw, y: nat, x: nat, offset: nat)
    requires Progress(before, now, width, draw, y, x)
    requires draw.cell.x + x < width && offset == Offset(width, draw.cell.x + x, draw.cell.y + y)
    requires offset + BYTES_PER_PIXEL <= |before|
    ensures forall k :: offset <= k < offset + BYTES_PER_PIXEL ==> now[k] == before[k]
  {
    hide Offset, RowOf, ColumnOf;
    forall k | offset <= k < offset + BYTES_PER_PIXEL ensures now[k] == before[k] {
      assert ByteProgress(before, now, k, width, draw, y, x);
      PixelBytes(width, draw.cell.x + x, draw.cell.y + y, k);
    }
  }

  function KeyFor(contract: FrameContract, p: Placement, filter: ScalingFilter): TransformedSamplingKey {
    TransformedSamplingKey(
      contract, p.sourceX, p.sourceY, p.sourceWidth, p.sourceHeight, p.destWidth, p.destHeight, filter)
  }

  lemma OpaqueAlpha(filter: ScalingFilter, input: Frame, contract: FrameContract, opacity: U16, p: Placement, x: U32, y: U32, c: nat, under: Byte)
    requires input.Valid() && Validate(contract, input.width, input.height).Ok? && WindowInside(contract, p)
    requires FastContract(contract) && c < 4
    ensures Composited(filter, input, contract, opacity, p, x, y, c, under) ==
      if c == 3 then 255
      else BlendOverOpaque(Faded(Sample(filter, input, contract, p, x, y, c), OpacityShare(opacity)),
                           OpacityShare(opacity), under)
  {
    hide Sample, BlendOverOpaque, OpacityShare;
    OpaqueSamplesAreWhole(filter, input, contract, p, x, y);
    assert Faded(1.0, OpacityShare(opacity)) == OpacityShare(opacity);
  }

  // ---- Nearest -------------------------------------------------------------------------------------

  /** Channels of one destination pixel from one source pixel. */
  method NearestPixel(target: array<Byte>, at: nat, input: seq<Byte>, sourceOffset: nat, opacity: U16)
    requires at + BYTES_PER_PIXEL <= target.Length && sourceOffset + BYTES_PER_PIXEL <= |input|
    modifies target
    ensures forall k :: at <= k < at + 3 ==>
      target[k] == FadedChannel(input[sourceOffset + (k - at)] * BILINEAR_SCALE, old(target[k]), Min(opacity, TRANSFORM_SCALE))
    ensures target[at + 3] == 255
    ensures forall k :: 0 <= k < target.Length && !(at <= k < at + BYTES_PER_PIXEL) ==> target[k] == old(target[k])
  {
    hide FadedChannel;
    if opacity == TRANSFORM_SCALE {
      CopyFromSlice(target, at, input[sourceOffset..sourceOffset + 3]);
      forall k | at <= k < at + 3
        ensures target[k] == FadedChannel(input[sourceOffset + (k - at)] * BILINEAR_SCALE, old(target[k]), TRANSFORM_SCALE)
      {
        CopiedChannel(input[sourceOffset + (k - at)], old(target[k]));
      }
    } else {
      for c := 0 to 3
        invariant forall k :: at <= k < at + c ==>
          target[k] == FadedChannel(input[sourceOffset + (k - at)] * BILINEAR_SCALE, old(target[k]), Min(opacity, TRANSFORM_SCALE))
        invariant forall k :: 0 <= k < target.Length && !(at <= k < at + c) ==> target[k] == old(target[k])
      {
        target[at + c] :=
          FadedChannel(input[sourceOffset + c] * BILINEAR_SCALE, target[at + c], Min(opacity, TRANSFORM_SCALE));
      }
    }
    target[at + 3] := 255;
  }

  lemma NearestCoordinatesInside(contract: FrameContract, p: Placement, x: U32, y: U32)
    requires Measurable(contract) && WindowInside(contract, p)
    ensures p.sourceX + NearestSourceCoordinate(x, p.sourceWidth, p.destWidth) < DisplayDimensions(contract).0
    ensures p.sourceY + NearestSourceCoordinate(y, p.sourceHeight, p.destHeight) < DisplayDimensions(contract).1
  {
    hide NearestSourceCoordinate, DisplayDimensions;
    NearestInside(x, p.sourceWidth, p.destWidth);
    NearestInside(y, p.sourceHeight, p.destHeight);
  }

  /** One nearest pixel, from map entries to the reference. */
  lemma NearestIsReference(
    input: Frame, contract: FrameContract, opacity: U16, p: Placement, x: U32, y: U32,
    xs: seq<nat>, ys: seq<nat>, c: nat, under: Byte)
    requires input.Valid() && Validate(contract, input.width, input.height).Ok? && FastContract(contract)
    requires WindowInside(contract, p) && x < p.destWidth && y < p.destHeight && c < 4
    requires KeyFor(contract, p, Nearest).Valid()
    requires TransformedMapFor(KeyFor(contract, p, Nearest)) == NearestCoordinates(xs, ys)
    ensures var at := TransformedSourceOffset(contract, input.width, xs[x], ys[y]);
            && at + BYTES_PER_PIXEL <= |input.data|
            && Composited(Nearest, input, contract, opacity, p, x, y, c, under) ==
               if c == 3 then 255
               else FadedChannel(input.data[at + c] * BILINEAR_SCALE, under, Min(opacity, TRANSFORM_SCALE))
  {
    hide Offset, FrameBytes, DisplayDimensions, SamplePremultiplied, Composited, NearestSourceCoordinate,
         TransformedSourceOffset, BlendOverOpaque, MirroredCoordinate, FadedChannel, Faded;
    var displayX := p.sourceX + NearestSourceCoordinate(x, p.sourceWidth, p.destWidth);
    var displayY := p.sourceY + NearestSourceCoordinate(y, p.sourceHeight, p.destHeight);
    NearestCoordinatesInside(contract, p, x, y);
    var channel := if c == 3 then 0 else c;
    FastByte(input, contract, displayX, displayY, channel);
    OpaqueAlpha(Nearest, input, contract, opacity, p, x, y, c, under);
    var at := TransformedSourceOffset(contract, input.width, xs[x], ys[y]);
    var byte := input.data[at + channel];
    FadedIsReference(byte * BILINEAR_SCALE, SamplePremultiplied(input, contract, displayX, displayY, channel), under, opacity);
  }

  method PasteTransformedNearest(
    output: FrameBuffer, input: Frame, contract: FrameContract, opacity: U16, p: Placement,
    xCoordinates: seq<nat>, yCoordinates: seq<nat>)
    requires Pasteable(input, contract, p, output) && FastContract(contract)
    requires KeyFor(contract, p, Nearest).Valid()
    requires TransformedMapFor(KeyFor(contract, p, Nearest)) == NearestCoordinates(xCoordinates, yCoordinates)
    modifies output.data
    ensures output.data[..] == Painted(old(output.data[..]), output.width,
      Draw(DestinationCell(p), Blended(Nearest, input, contract, opacity, p)))
  {
    hide Offset, FrameBytes, Painted, Progress, Composited, WindowInside, TransformedSamplingKey.Valid,
         TransformedSourceOffset, FadedChannel, NearestSourceCoordinate, MirroredCoordinate, DisplayDimensions;
    ghost var before := output.data[..];
    ghost var draw := Draw(DestinationCell(p), Blended(Nearest, input, contract, opacity, p));
    ProgressStarts(before, output.width, draw);
    for y := 0 to |yCoordinates|
      invariant Progress(before, output.data[..], output.width, draw, y, 0)
    {
      for x := 0 to |xCoordinates|
        invariant Progress(before, output.data[..], output.width, draw, y, x)
      {
        ghost var mid := output.data[..];
        var sourceOffset := TransformedSourceOffset(contract, input.width, xCoordinates[x], yCoordinates[y]);
        var destinationOffset := Offset(output.width, p.destX + x, p.destY + y);
        CellInside(output.width, output.height, DestinationCell(p), x, y);
        NearestIsReference(input, contract, opacity, p, x, y, xCoordinates, yCoordinates, 3, 0);
        NearestPixel(output.data, destinationOffset, input.data, sourceOffset, opacity);
        PixelUntouched(before, mid, output.width, draw, y, x, destinationOffset);
        forall k | destinationOffset <= k < destinationOffset + BYTES_PER_PIXEL
          ensures output.data[k] == draw.shader.Shade(x, y, k - destinationOffset, before[k])
        {
          NearestIsReference(
            input, contract, opacity, p, x, y, xCoordinates, yCoordinates, k - destinationOffset, before[k]);
        }
        ProgressPixel(before, mid, output.data[..], output.width, draw, y, x, destinationOffset);
      }
      ProgressNextRow(before, output.data[..], output.width, draw, y);
    }
    ProgressEnds(before, output.data[..], output.width, draw);
  }

  // ---- Bilinear ------------------------------------------------------------------------------------

  /** Channels of one destination pixel from four source pixels. `whole` is the source's
      compile-time flag: the caller has seen that the opacity is full. */
  method BilinearTransformedPixel(
    whole: bool, target: array<Byte>, at: nat, input: seq<Byte>,
    lowLow: nat, highLow: nat, lowHigh: nat, highHigh: nat, xWeight: nat, yWeight: nat, opacity: U16)
    requires whole <==> opacity == TRANSFORM_SCALE
    requires at + BYTES_PER_PIXEL <= target.Length
    requires lowLow + 4 <= |input| && highLow + 4 <= |input| && lowHigh + 4 <= |input| && highHigh + 4 <= |input|
    requires xWeight <= WEIGHT_SCALE && yWeight <= WEIGHT_SCALE
    modifies target
    ensures forall k :: at <= k < at + 3 ==>
      var c := k - at;
      target[k] == FadedSum(input[lowLow + c], input[highLow + c], input[lowHigh + c], input[highHigh + c],
                            xWeight, yWeight, old(target[k]), opacity)
    ensures target[at + 3] == 255
    ensures forall k :: 0 <= k < target.Length && !(at <= k < at + BYTES_PER_PIXEL) ==> target[k] == old(target[k])
  {
    hide FadedChannel, WeightedSum, BlendOpaqueChannel;
    for c := 0 to 3
      invariant forall k :: at <= k < at + c ==>
        var c := k - at;
        target[k] == FadedSum(input[lowLow + c], input[highLow + c], input[lowHigh + c], input[highHigh + c],
                              xWeight, yWeight, old(target[k]), opacity)
      invariant forall k :: 0 <= k < target.Length && !(at <= k < at + c) ==> target[k] == old(target[k])
    {
      var (a, b) := (input[lowLow + c], input[highLow + c]);
      var (a', b') := (input[lowHigh + c], input[highHigh + c]);
      WeightedSumBounded(a, b, a', b', xWeight, yWeight);
      var weighted := WeightedSum(a, b, a', b', xWeight, yWeight);
      if whole {
        OpaqueChannel(weighted, target[at + c]);
        target[at + c] := BlendOpaqueChannel(weighted);
      } else {
        target[at + c] := FadedChannel(weighted, target[at + c], Min(opacity, TRANSFORM_SCALE));
      }
    }
    target[at + 3] := 255;
  }

  ghost function FadedSum(a: Byte, b: Byte, c: Byte, d: Byte, xWeight: nat, yWeight: nat, under: Byte, opacity: U16): Byte
    requires xWeight <= WEIGHT_SCALE && yWeight <= WEIGHT_SCALE
  {
    hide FadedChannel, WeightedSum;
    WeightedSumBounded(a, b, c, d, xWeight, yWeight);
    FadedChannel(WeightedSum(a, b, c, d, xWeight, yWeight), under, Min(opacity, TRANSFORM_SCALE))
  }

  lemma FadedSumIsReference(a: Byte, b: Byte, c: Byte, d: Byte, xWeight: nat, yWeight: nat, under: Byte, opacity: U16)
    requires xWeight <= WEIGHT_SCALE && yWeight <= WEIGHT_SCALE
    ensures FadedSum(a, b, c, d, xWeight, yWeight, under, opacity) ==
      BlendOverOpaque(
        Faded(Mix(Share(a), Share(b), Share(c), Share(d), Weight(xWeight), Weight(yWeight)), OpacityShare(opacity)),
        OpacityShare(opacity), under)
  {
    hide FadedChannel, WeightedSum, BlendOverOpaque, Mix, Faded, Share, Weight, OpacityShare;
    WeightedSumBounded(a, b, c, d, xWeight, yWeight);
    WeightedSumIsMix(a, b, c, d, xWeight, yWeight);
    FadedIsReference(WeightedSum(a, b, c, d, xWeight, yWeight),
      Mix(Share(a), Share(b), Share(c), Share(d), Weight(xWeight), Weight(yWeight)), under, opacity);
  }

  lemma TapsInside(contract: FrameContract, p: Placement, x: U32, y: U32)
    requires Measurable(contract) && WindowInside(contract, p)
    ensures ShiftedLinearSample(x, p.sourceWidth, p.destWidth, p.sourceX).Inside(DisplayDimensions(contract).0)
    ensures ShiftedLinearSample(y, p.sourceHeight, p.destHeight, p.sourceY).Inside(DisplayDimensions(contract).1)
  {
    hide LinearSampleAt, DisplayDimensions;
  }

  lemma MirroredTap(tap: LinearSample, size: U32, mirror: bool)
    requires tap.Inside(size)
    ensures MirroredLinearSample(tap, size, mirror) ==
      LinearSample(MirroredCoordinate(tap.low, size, mirror), MirroredCoordinate(tap.high, size, mirror), tap.highWeight)
  {
  }

  /** One bilinear pixel, from mirrored taps to the reference. */
  lemma BilinearIsReference(
    input: Frame, contract: FrameContract, opacity: U16, p: Placement, x: U32, y: U32,
    xTap: LinearSample, yTap: LinearSample, c: nat, under: Byte)
    requires input.Valid() && Validate(contract, input.width, input.height).Ok? && FastContract(contract)
    requires WindowInside(contract, p) && c < 4
    requires xTap == MirroredLinearSample(
      ShiftedLinearSample(x, p.sourceWidth, p.destWidth, p.sourceX),
      DisplayDimensions(contract).0, contract.transform.mirrorHorizontal)
    requires yTap == MirroredLinearSample(
      ShiftedLinearSample(y, p.sourceHeight, p.destHeight, p.sourceY),
      DisplayDimensions(contract).1, contract.transform.mirrorVertical)
    ensures xTap.highWeight <= WEIGHT_SCALE && yTap.highWeight <= WEIGHT_SCALE
    ensures var lowLow := TransformedSourceOffset(contract, input.width, xTap.low, yTap.low);
            var highLow := TransformedSourceOffset(contract, input.width, xTap.high, yTap.low);
            var lowHigh := TransformedSourceOffset(contract, input.width, xTap.low, yTap.high);
            var highHigh := TransformedSourceOffset(contract, input.width, xTap.high, yTap.high);
            && lowLow + 4 <= |input.data| && highLow + 4 <= |input.data|
            && lowHigh + 4 <= |input.data| && highHigh + 4 <= |input.data|
            && Composited(Bilinear, input, contract, opacity, p, x, y, c, under) ==
               if c == 3 then 255
               else FadedSum(input.data[lowLow + c], input.data[highLow + c],
                             input.data[lowHigh + c], input.data[highHigh + c],
                             xTap.highWeight, yTap.highWeight, under, opacity)
  {
    hide Offset, FrameBytes, DisplayDimensions, SamplePremultiplied, Composited, LinearSampleAt, ShiftedLinearSample,
         TransformedSourceOffset, BlendOverOpaque, MirroredCoordinate, MirroredLinearSample, FadedChannel, FadedSum,
         Faded, Mix, Share, Weight, OpacityShare;
    var (xs, ys) := (ShiftedLinearSample(x, p.sourceWidth, p.destWidth, p.sourceX),
                     ShiftedLinearSample(y, p.sourceHeight, p.destHeight, p.sourceY));
    TapsInside(contract, p, x, y);
    MirroredTap(xs, DisplayDimensions(contract).0, contract.transform.mirrorHorizontal);
    MirroredTap(ys, DisplayDimensions(contract).1, contract.transform.mirrorVertical);
    var channel := if c == 3 then 0 else c;
    FastByte(input, contract, xs.low, ys.low, channel);
    FastByte(input, contract, xs.high, ys.low, channel);
    FastByte(input, contract, xs.low, ys.high, channel);
    FastByte(input, contract, xs.high, ys.high, channel);
    OpaqueAlpha(Bilinear, input, contract, opacity, p, x, y, c, under);
    if c != 3 {
      FadedSumIsReference(
        input.data[TransformedSourceOffset(contract, input.width, xTap.low, yTap.low) + c],
        input.data[TransformedSourceOffset(contract, input.width, xTap.high, yTap.low) + c],
        input.data[TransformedSourceOffset(contract, input.width, xTap.low, yTap.high) + c],
        input.data[TransformedSourceOffset(contract, input.width, xTap.high, yTap.high) + c],
        xTap.highWeight, yTap.highWeight, under, opacity);
    }
  }

  method PasteTransformedBilinear(
    whole: bool, output: FrameBuffer, input: Frame, contract: FrameContract, opacity: U16, p: Placement,
    xTaps: seq<LinearSample>, yTaps: seq<LinearSample>)
    requires whole <==> opacity == TRANSFORM_SCALE
    requires Pasteable(input, contract, p, output) && FastContract(contract)
    requires KeyFor(contract, p, Bilinear).Valid()
    requires TransformedMapFor(KeyFor(contract, p, Bilinear)) == BilinearSamples(xTaps, yTaps)
    modifies output.data
    ensures output.data[..] == Painted(old(output.data[..]), output.width,
      Draw(DestinationCell(p), Blended(Bilinear, input, contract, opacity, p)))
  {
    hide Offset, FrameBytes, Painted, Progress, Composited, WindowInside, TransformedSamplingKey.Valid,
         TransformedSourceOffset, FadedSum, ShiftedLinearSample, MirroredLinearSample, DisplayDimensions;
    ghost var before := output.data[..];
    ghost var draw := Draw(DestinationCell(p), Blended(Bilinear, input, contract, opacity, p));
    ProgressStarts(before, output.width, draw);
    for y := 0 to |yTaps|
      invariant Progress(before, output.data[..], output.width, draw, y, 0)
    {
      for x := 0 to |xTaps|
        invariant Progress(before, output.data[..], output.width, draw, y, x)
      {
        ghost var mid := output.data[..];
        var (xTap, yTap) := (xTaps[x], yTaps[y]);
        var destinationOffset := Offset(output.width, p.destX + x, p.destY + y);
        CellInside(output.width, output.height, DestinationCell(p), x, y);
        BilinearIsReference(input, contract, opacity, p, x, y, xTap, yTap, 3, 0);
        BilinearTransformedPixel(whole, output.data, destinationOffset, input.data,
          TransformedSourceOffset(contract, input.width, xTap.low, yTap.low),
          TransformedSourceOffset(contract, input.width, xTap.high, yTap.low),
          TransformedSourceOffset(contract, input.width, xTap.low, yTap.high),
          TransformedSourceOffset(contract, input.width, xTap.high, yTap.high),
          xTap.highWeight, yTap.highWeight, opacity);
        PixelUntouched(before, mid, output.width, draw, y, x, destinationOffset);
        forall k | destinationOffset <= k < destinationOffset + BYTES_PER_PIXEL
          ensures output.data[k] == draw.shader.Shade(x, y, k - destinationOffset, before[k])
        {
          BilinearIsReference(input, contract, opacity, p, x, y, xTap, yTap, k - destinationOffset, before[k]);
        }
        ProgressPixel(before, mid, output.data[..], output.width, draw, y, x, destinationOffset);
      }
      ProgressNextRow(before, output.data[..], output.width, draw, y);
    }
    ProgressEnds(before, output.data[..], output.width, draw);
  }

  // ---- The generic path ------------------------------------------------------------------------------

  /** `blend_over_opaque` on one pixel, channel by channel. */
  method BlendPixel(target: array<Byte>, at: nat, blue: real, green: real, red: real, alpha: real)
    requires at + BYTES_PER_PIXEL <= target.Length
    modifies target
    ensures target[at] == BlendOverOpaque(blue, alpha, old(target[at]))
    ensures target[at + 1] == BlendOverOpaque(green, alpha, old(target[at + 1]))
    ensures target[at + 2] == BlendOverOpaque(red, alpha, old(target[at + 2]))
    ensures target[at + 3] == 255
    ensures forall k :: 0 <= k < target.Length && !(at <= k < at + BYTES_PER_PIXEL) ==> target[k] == old(target[k])
  {
    hide BlendOverOpaque;
    target[at] := BlendOverOpaque(blue, alpha, target[at]);
    target[at + 1] := BlendOverOpaque(green, alpha, target[at + 1]);
    target[at + 2] := BlendOverOpaque(red, alpha, target[at + 2]);
    target[at + 3] := 255;
  }

  /** `paste_contract_transformed_generic`, pixel by pixel. */
  method PasteGeneric(
    output: FrameBuffer, input: Frame, filter: ScalingFilter, contract: FrameContract, opacity: U16, p: Placement)
    requires Pasteable(input, contract, p, output)
    modifies output.data
    ensures output.data[..] == Painted(old(output.data[..]), output.width,
      Draw(DestinationCell(p), Blended(filter, input, contract, opacity, p)))
  {
    hide Offset, FrameBytes, Painted, Progress, WindowInside, Validate, Sample, BlendOverOpaque, Faded, OpacityShare;
    ghost var before := output.data[..];
    ghost var draw := Draw(DestinationCell(p), Blended(filter, input, contract, opacity, p));
    ProgressStarts(before, output.width, draw);
    for y := 0 to p.destHeight
      invariant Progress(before, output.data[..], output.width, draw, y, 0)
    {
      for x := 0 to p.destWidth
        invariant Progress(before, output.data[..], output.width, draw, y, x)
      {
        ghost var mid := output.data[..];
        var offset := Offset(output.width, p.destX + x, p.destY + y);
        CellInside(output.width, output.height, DestinationCell(p), x, y);
        PixelUntouched(before, mid, output.width, draw, y, x, offset);
        var fade := OpacityShare(opacity);
        BlendPixel(output.data, offset,
          Faded(Sample(filter, input, contract, p, x, y, 0), fade),
          Faded(Sample(filter, input, contract, p, x, y, 1), fade),
          Faded(Sample(filter, input, contract, p, x, y, 2), fade),
          Faded(Sample(filter, input, contract, p, x, y, 3), fade));
        ProgressPixel(before, mid, output.data[..], output.width, draw, y, x, offset);
      }
      ProgressNextRow(before, output.data[..], output.width, draw, y);
    }
    ProgressEnds(before, output.data[..], output.width, draw);
  }

  /** `paste_contract_transformed`: whichever path is taken, the picture is the reference. */
  method PasteContractTransformed(
    output: FrameBuffer, input: Frame, filter: ScalingFilter, cache: SamplingCache,
    contract: FrameContract, opacity: U16, p: Placement)
    requires Pasteable(input, contract, p, output) && cache.Valid()
    modifies output.data, cache
    ensures cache.Valid()
    ensures output.data[..] == Painted(old(output.data[..]), output.width,
      Draw(DestinationCell(p), Blended(filter, input, contract, opacity, p)))
  {
    hide Painted, TransformedMapFor;
    if FastContract(contract) {
      var m := cache.GetTransformed(KeyFor(contract, p, filter));
      MapKind(KeyFor(contract, p, filter));
      match m {
        case NearestCoordinates(xs, ys) =>
          PasteTransformedNearest(output, input, contract, opacity, p, xs, ys);
        case BilinearSamples(xs, ys) =>
          PasteTransformedBilinear(opacity == TRANSFORM_SCALE, output, input, contract, opacity, p, xs, ys);
      }
    } else {
      PasteGeneric(output, input, filter, contract, opacity, p);
    }
  }

  lemma MapKind(key: TransformedSamplingKey)
    requires key.Valid()
    ensures TransformedMapFor(key).NearestCoordinates? <==> key.filter == Nearest
  {
  }
}
