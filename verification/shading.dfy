/** What one painted byte should be (`src/render.rs`): the pointwise reference, one
    display coordinate at a time and in exact rational arithmetic. */
module Shading {
  import opened Numerics
  import opened MediaContract
  import opened Frames
  import opened Sampling
  import opened SourceTransforms

  datatype Bgra = Bgra(blue: Byte, green: Byte, red: Byte, alpha: Byte) {
    function At(c: nat): Byte
      requires c < 4
    {
      if c == 0 then blue else if c == 1 then green else if c == 2 then red else alpha
    }
  }

  /** The destination rectangle of one source and the part of its display it shows. */
  datatype Placement = Placement(
    destWidth: U32, destHeight: U32, destX: U32, destY: U32,
    sourceX: U32, sourceY: U32, sourceWidth: U32, sourceHeight: U32)

  predicate WindowInside(contract: FrameContract, p: Placement)
    requires Measurable(contract)
  {
    && 0 < p.sourceWidth && p.sourceX + p.sourceWidth <= DisplayDimensions(contract).0
    && 0 < p.sourceHeight && p.sourceY + p.sourceHeight <= DisplayDimensions(contract).1
  }

  // ---- Sampling one display pixel -----------------------------------------------------------

  function Share(channel: Byte): real {
    channel as real / 255.0
  }

  /** A channel's share of full scale; limited range keeps 16 for black and 235 for white. */
  function Normalized(range: ColorRange, channel: Byte): real {
    match range
    case Full => Share(channel)
    case Limited => ClampReal((channel as real - 16.0) / 219.0, 0.0, 1.0)
  }

  /** Premultiplied channel `c` of a display pixel; channel 3 is its alpha. */
  function SamplePremultiplied(input: Frame, contract: FrameContract, displayX: U32, displayY: U32, c: nat): real
    requires input.Valid() && Validate(contract, input.width, input.height).Ok? && c < 4
  {
    hide SourceCoordinate;
    SourceCoordinateInside(contract, input.width, input.height, displayX, displayY);
    var (x, y) := SourceCoordinate(contract, displayX, displayY);
    var alpha :=
      if contract.colorimetry.alpha == Opaque then 1.0 else Share(input.Channel(x, y, 3));
    if c == 3 then alpha else
    var normalized := Normalized(contract.colorimetry.range, input.Channel(x, y, c));
    if contract.colorimetry.alpha == Straight then normalized * alpha else normalized
  }

  /** Four samples weighted by their nearness along both axes. */
  function Mix(lowLow: real, highLow: real, lowHigh: real, highHigh: real, xWeight: real, yWeight: real): real {
    lowLow * ((1.0 - xWeight) * (1.0 - yWeight)) + highLow * (xWeight * (1.0 - yWeight))
    + lowHigh * ((1.0 - xWeight) * yWeight) + highHigh * (xWeight * yWeight)
  }

  function Weight(w: nat): real {
    w as real / 256.0
  }

  function SampleNearest(input: Frame, contract: FrameContract, p: Placement, x: U32, y: U32, c: nat): real
    requires input.Valid() && Validate(contract, input.width, input.height).Ok? && WindowInside(contract, p) && c < 4
  {
    hide NearestSourceCoordinate, SamplePremultiplied, DisplayDimensions;
    NearestInside(x, p.sourceWidth, p.destWidth);
    NearestInside(y, p.sourceHeight, p.destHeight);
    SamplePremultiplied(input, contract,
      p.sourceX + NearestSourceCoordinate(x, p.sourceWidth, p.destWidth),
      p.sourceY + NearestSourceCoordinate(y, p.sourceHeight, p.destHeight), c)
  }

  function SampleBilinear(input: Frame, contract: FrameContract, p: Placement, x: U32, y: U32, c: nat): real
    requires input.Valid() && Validate(contract, input.width, input.height).Ok? && WindowInside(contract, p) && c < 4
  {
    hide LinearSampleAt, SamplePremultiplied, DisplayDimensions, Mix;
    var xs := ShiftedLinearSample(x, p.sourceWidth, p.destWidth, p.sourceX);
    var ys := ShiftedLinearSample(y, p.sourceHeight, p.destHeight, p.sourceY);
    Mix(SamplePremultiplied(input, contract, xs.low, ys.low, c),
        SamplePremultiplied(input, contract, xs.high, ys.low, c),
        SamplePremultiplied(input, contract, xs.low, ys.high, c),
        SamplePremultiplied(input, contract, xs.high, ys.high, c),
        Weight(xs.highWeight), Weight(ys.highWeight))
  }

  function Sample(filter: ScalingFilter, input: Frame, contract: FrameContract, p: Placement, x: U32, y: U32, c: nat): real
    requires input.Valid() && Validate(contract, input.width, input.height).Ok? && WindowInside(contract, p) && c < 4
  {
    match filter
    case Nearest => SampleNearest(input, contract, p, x, y, c)
    case Bilinear => SampleBilinear(input, contract, p, x, y, c)
  }

  // ---- Blending ---------------------------------------------------------------------------------

  /** The rounded byte of a share of full scale. */
  function ToByte(share: real): (b: Byte) {
    RoundHalfUp(ClampReal(share, 0.0, 1.0) * 255.0)
  }

  function BlendOverOpaque(channel: real, alpha: real, background: Byte): Byte {
    ToByte(channel + Share(background) * (1.0 - alpha))
  }

  function OpacityShare(opacity: U16): real {
    Min(opacity, TRANSFORM_SCALE) as real / 1000.0
  }

  function Faded(share: real, opacity: real): real {
    share * opacity
  }

  /** The reference value of a composited byte: sample, fade, blend over what was there. */
  function Composited(
    filter: ScalingFilter, input: Frame, contract: FrameContract, opacity: U16, p: Placement,
    x: U32, y: U32, c: nat, under: Byte): Byte
    requires input.Valid() && Validate(contract, input.width, input.height).Ok? && WindowInside(contract, p) && c < 4
  {
    hide WindowInside, Validate, Sample;
    if c == 3 then 255 else
    BlendOverOpaque(
      Faded(Sample(filter, input, contract, p, x, y, c), OpacityShare(opacity)),
      Faded(Sample(filter, input, contract, p, x, y, 3), OpacityShare(opacity)), under)
  }

  /** The reference value of a byte of an untransformed source scaled to `width` x `height`:
      all four channels, alpha included, are resampled and copied. */
  function Resampled(filter: ScalingFilter, input: Frame, width: U32, height: U32, x: U32, y: U32, c: nat): Byte
    requires input.Valid() && c < 4
  {
    match filter
    case Nearest =>
      NearestInside(x, input.width, width);
      NearestInside(y, input.height, height);
      input.Channel(NearestSourceCoordinate(x, input.width, width), NearestSourceCoordinate(y, input.height, height), c)
    case Bilinear =>
      hide LinearSampleAt, Mix;
      var xs := LinearSampleAt(x, input.width, width);
      var ys := LinearSampleAt(y, input.height, height);
      ToByte(Mix(
        Share(input.Channel(xs.low, ys.low, c)), Share(input.Channel(xs.high, ys.low, c)),
        Share(input.Channel(xs.low, ys.high, c)), Share(input.Channel(xs.high, ys.high, c)),
        Weight(xs.highWeight), Weight(ys.highWeight)))
  }

  // ---- One drawing operation ----------------------------------------------------------------------

  datatype Shader =
    | Solid(color: Bgra)
    | Scaled(filter: ScalingFilter, input: Frame, width: U32, height: U32)
    | Blended(filter: ScalingFilter, input: Frame, contract: FrameContract, opacity: U16, placement: Placement)
  {
    ghost predicate Valid() {
      match this
      case Solid(_) => true
      case Scaled(_, input, _, _) => input.Valid()
      case Blended(_, input, contract, _, placement) =>
        input.Valid() && Validate(contract, input.width, input.height).Ok? && WindowInside(contract, placement)
    }

    /** Byte `c` of pixel (x, y) of the painted rectangle, given the byte it replaces. */
    ghost function Shade(x: U32, y: U32, c: nat, under: Byte): Byte
      requires Valid() && c < 4
    {
      hide Resampled, Composited;
      match this
      case Solid(color) => color.At(c)
      case Scaled(filter, input, width, height) => Resampled(filter, input, width, height, x, y, c)
      case Blended(filter, input, contract, opacity, placement) =>
        Composited(filter, input, contract, opacity, placement, x, y, c, under)
    }

    predicate OpaqueAndWhole() {
      Blended? ==> contract.colorimetry.alpha == Opaque && opacity == TRANSFORM_SCALE
    }
  }

  lemma MixOfOnes(xWeight: real, yWeight: real)
    ensures Mix(1.0, 1.0, 1.0, 1.0, xWeight, yWeight) == 1.0
  {
  }

  lemma OpaqueSamplesAreWhole(filter: ScalingFilter, input: Frame, contract: FrameContract, p: Placement, x: U32, y: U32)
    requires input.Valid() && Validate(contract, input.width, input.height).Ok? && WindowInside(contract, p)
    requires contract.colorimetry.alpha == Opaque
    ensures Sample(filter, input, contract, p, x, y, 3) == 1.0
  {
    hide Mix, LinearSampleAt, NearestSourceCoordinate, DisplayDimensions, SourceCoordinate;
    if filter == Bilinear {
      var xs := ShiftedLinearSample(x, p.sourceWidth, p.destWidth, p.sourceX);
      var ys := ShiftedLinearSample(y, p.sourceHeight, p.destHeight, p.sourceY);
      MixOfOnes(Weight(xs.highWeight), Weight(ys.highWeight));
    }
  }

  /** An opaque source at full opacity hides what was there: the condition under which
      the compositor may leave a recycled cell unfilled. */
  lemma OpaqueShadeIgnoresOld(shader: Shader, x: U32, y: U32, c: nat, under: Byte, under': Byte)
    requires shader.Valid() && shader.OpaqueAndWhole() && c < 4
    ensures shader.Shade(x, y, c, under) == shader.Shade(x, y, c, under')
  {
    hide Sample, Resampled;
    match shader
    case Solid(_) =>
    case Scaled(_, _, _, _) =>
    case Blended(filter, input, contract, opacity, placement) =>
      OpaqueSamplesAreWhole(filter, input, contract, placement, x, y);
      assert OpacityShare(opacity) == 1.0;
  }
}
