/** What a composited byte is, in whole numbers of the source's bytes, for every kind of alpha
    and both colour ranges (`src/render.rs`): the reference says it in shares of full scale. */
module CompositedBytes {
  import opened Numerics
  import opened MediaContract
  import opened Frames
  import opened Sampling
  import opened Shading

  /** The nearest byte to `n` / `d`, the larger of two, and 255 at most. */
  function Rounded(n: nat, d: nat): int
    requires 0 < d
  {
    DivNonNegative(2 * n + d, 2 * d);
    Min((2 * n + d) / (2 * d), 255)
  }

  /** A colour byte counted from black, and the count that is white. */
  function Level(range: ColorRange, channel: Byte): nat {
    match range
    case Full => channel
    case Limited => Clamp(channel - 16, 0, 219)
  }

  function WhiteLevel(range: ColorRange): nat {
    match range case Full => 255 case Limited => 219
  }

  /** How much of the background the pixel hides, of 255. */
  function Coverage(mode: AlphaMode, alpha: Byte): nat {
    if mode == Opaque then 255 else alpha
  }

  /** How much of its colour the pixel gives, of 255: a premultiplied colour is given whole. */
  function Given(mode: AlphaMode, alpha: Byte): nat {
    if mode == Straight then alpha else 255
  }

  function Full(white: nat): nat {
    white * 255000
  }

  /** Colour and background of a composited byte, of `Full(white)` parts for each of the 255
      steps of the byte underneath. */
  function Parts(level: nat, white: nat, given: nat, coverage: nat, opacity: nat, under: Byte): nat
    requires coverage <= 255 && opacity <= 1000
  {
    MulMonotone(coverage, 255, opacity);
    MulMonotone(0, under * white, 255000 - coverage * opacity);
    MulMonotone(0, level * given, opacity);
    MulMonotone(0, under, white);
    MulMonotone(0, level, given);
    255 * (level * given * opacity) + under * white * (255000 - coverage * opacity)
  }

  function Ratio(n: real, d: real): real
    requires d != 0.0
  {
    n / d
  }

  /** Colour and what it leaves of the background, before rounding. */
  function Over(channel: real, alpha: real, background: real): real {
    channel + background * (1.0 - alpha)
  }

  lemma BlendIsOver(channel: real, alpha: real, background: Byte)
    ensures BlendOverOpaque(channel, alpha, background) == ToByte(Over(channel, alpha, Share(background)))
  {
    hide ToByte;
  }

  lemma RoundedIsToByte(n: nat, d: nat)
    requires 0 < d
    ensures ToByte(Ratio(n as real, d as real) / 255.0) == Rounded(n, d)
  {
    var value := Ratio(n as real, d as real);
    var q := (2 * n + d) / (2 * d);
    DivBounds(2 * n + d, 2 * d);
    DivNonNegative(2 * n + d, 2 * d);
    FloorOfRatio(n, d, q);
    hide Ratio;
    ByteOfValue(value);
    hide ToByte;
    FloorWithin(value);
  }

  lemma FloorWithin(value: real)
    requires 0.0 <= value
    ensures value <= 255.0 ==> 0 <= (value + 0.5).Floor <= 255
    ensures value > 255.0 ==> (value + 0.5).Floor >= 255
  {
  }

  lemma ByteOfValue(value: real)
    requires 0.0 <= value
    ensures ToByte(value / 255.0) == if value > 255.0 then 255 else (value + 0.5).Floor
  {
    var share := value / 255.0;
    assert share * 255.0 == value;
    if value > 255.0 {
      assert ClampReal(share, 0.0, 1.0) == 1.0;
    } else {
      assert ClampReal(share, 0.0, 1.0) == share;
    }
  }

  lemma FloorOfRatio(n: nat, d: nat, q: nat)
    requires 0 < d && q * (2 * d) <= 2 * n + d < (q + 1) * (2 * d)
    ensures 0.0 <= Ratio(n as real, d as real)
    ensures (Ratio(n as real, d as real) + 0.5).Floor == q
  {
    var (nr, dr) := (n as real, d as real);
    var value := Ratio(nr, dr);
    assert value * dr == nr;
    hide Ratio;
    HalfAdded(value, dr);
    Below(0.0, value, dr);
    Scaled(q, 2 * d);
    Scaled(q + 1, 2 * d);
    FloorBetween(value + 0.5, q, 2.0 * dr, 2.0 * nr + dr);
  }

  lemma Scaled(a: int, b: int)
    ensures (a * b) as real == a as real * b as real
  {
  }

  lemma HalfAdded(value: real, unit: real)
    ensures (value + 0.5) * (2.0 * unit) == 2.0 * (value * unit) + unit
  {
  }

  lemma FloorBetween(value: real, q: int, unit: real, top: real)
    requires 0.0 < unit && value * unit == top && q as real * unit <= top < (q + 1) as real * unit
    ensures value.Floor == q
  {
    var (low, high) := (q as real, (q + 1) as real);
    assert high == low + 1.0;
    Below(low, value, unit);
    Below(value, high, unit);
    assert low <= value < low + 1.0;
  }

  lemma Below(a: real, b: real, d: real)
    requires 0.0 < d
    ensures a * d <= b * d ==> a <= b
    ensures a * d < b * d ==> a < b
  {
  }

  lemma NormalizedIsLevel(range: ColorRange, channel: Byte)
    ensures Normalized(range, channel) == Level(range, channel) as real / WhiteLevel(range) as real
  {
  }

  /** The channel of a sampled pixel, as a share of full scale. */
  function ColourShare(level: real, white: real, given: real): real
    requires white != 0.0
  {
    level / white * (given / 255.0)
  }

  lemma SampleIsLevel(input: Frame, contract: FrameContract, displayX: U32, displayY: U32, c: nat)
    requires input.Valid() && Validate(contract, input.width, input.height).Ok? && c < 3
    ensures var (x, y) := SourceCoordinate(contract, displayX, displayY);
            var mode := contract.colorimetry.alpha; var range := contract.colorimetry.range;
            && x < input.width && y < input.height
            && var alpha := input.Channel(x, y, 3);
            && SamplePremultiplied(input, contract, displayX, displayY, 3) == Coverage(mode, alpha) as real / 255.0
            && SamplePremultiplied(input, contract, displayX, displayY, c) ==
               ColourShare(Level(range, input.Channel(x, y, c)) as real, WhiteLevel(range) as real, Given(mode, alpha) as real)
  {
    SourceCoordinateInside(contract, input.width, input.height, displayX, displayY);
    var (x, y) := SourceCoordinate(contract, displayX, displayY);
    hide SourceCoordinate, Normalized, Frame.Channel, Level, WhiteLevel, Validate, ColourShare, Given, Coverage, Share;
    WhiteIsPositive(contract.colorimetry.range);
    PremultipliedShare(contract.colorimetry.range, contract.colorimetry.alpha,
                       input.Channel(x, y, c), input.Channel(x, y, 3));
  }

  lemma PremultipliedShare(range: ColorRange, mode: AlphaMode, colour: Byte, alpha: Byte)
    ensures WhiteLevel(range) as real != 0.0
    ensures var whole := if mode == Opaque then 1.0 else Share(alpha);
            && whole == Coverage(mode, alpha) as real / 255.0
            && (if mode == Straight then Normalized(range, colour) * whole else Normalized(range, colour)) ==
               ColourShare(Level(range, colour) as real, WhiteLevel(range) as real, Given(mode, alpha) as real)
  {
    NormalizedIsLevel(range, colour);
    WhiteIsPositive(range);
    ShareGiven(Level(range, colour) as real, WhiteLevel(range) as real);
    hide ColourShare, Normalized, Level, WhiteLevel;
  }

  lemma WhiteIsPositive(range: ColorRange)
    ensures 0 < WhiteLevel(range)
  {
  }

  lemma ShareGiven(level: real, white: real)
    requires white != 0.0
    ensures ColourShare(level, white, 255.0) == level / white
    ensures forall given: real :: ColourShare(level, white, given) == level / white * (given / 255.0)
  {
  }

  lemma PartsAsReal(level: nat, white: nat, given: nat, coverage: nat, opacity: nat, under: Byte)
    requires coverage <= 255 && opacity <= 1000
    ensures Parts(level, white, given, coverage, opacity, under) as real ==
            RealParts(level as real, white as real, given as real, coverage as real, opacity as real, under as real)
  {
    var (l, w, g, v, o, u) :=
      (level as real, white as real, given as real, coverage as real, opacity as real, under as real);
    var (lg, vo, uw) := (level * given, coverage * opacity, under * white);
    assert lg as real == l * g && vo as real == v * o && uw as real == u * w;
    assert (lg * opacity) as real == l * g * o;
    var rest := 255000 - vo;
    assert (uw * rest) as real == u * w * (255000.0 - v * o);
  }

  function RealParts(l: real, w: real, g: real, v: real, o: real, u: real): real {
    255.0 * (l * g * o) + u * w * (255000.0 - v * o)
  }

  lemma BlendIsParts(level: nat, white: nat, given: nat, coverage: nat, opacity: nat, under: Byte)
    requires 0 < white && coverage <= 255 && opacity <= 1000
    ensures 0 < Full(white)
    ensures BlendOverOpaque(
              Faded(ColourShare(level as real, white as real, given as real), opacity as real / 1000.0),
              Faded(coverage as real / 255.0, opacity as real / 1000.0), under) ==
            Rounded(Parts(level, white, given, coverage, opacity, under), Full(white))
  {
    hide Parts, RealParts, ColourShare, Faded, ToByte, Rounded, Over, Ratio, BlendOverOpaque;
    PartsAsReal(level, white, given, coverage, opacity, under);
    ShareOfParts(level as real, white as real, given as real, coverage as real, opacity as real, under as real);
    RoundedIsToByte(Parts(level, white, given, coverage, opacity, under), Full(white));
    BlendIsOver(
      Faded(ColourShare(level as real, white as real, given as real), opacity as real / 1000.0),
      Faded(coverage as real / 255.0, opacity as real / 1000.0), under);
  }

  lemma ShareOfParts(l: real, w: real, g: real, v: real, o: real, u: real)
    requires 0.0 < w
    ensures Ratio(RealParts(l, w, g, v, o, u), w * 255000.0) / 255.0 ==
            Over(Faded(ColourShare(l, w, g), o / 1000.0), Faded(v / 255.0, o / 1000.0), u / 255.0)
  {
    var share := l / w;
    assert share * w == l;
    var whole := share * (g * o) / 1000.0 + u * (255000.0 - v * o) / 255000.0;
    assert whole * (w * 255000.0) == RealParts(l, w, g, v, o, u);
  }

  // ---- Nearest samples --------------------------------------------------------------------------------

  /** The source pixel that a place of the painted rectangle shows. */
  function Shown(contract: FrameContract, p: Placement, x: U32, y: U32): (U32, U32)
    requires Measurable(contract) && WindowInside(contract, p) && x < p.destWidth && y < p.destHeight
  {
    hide MulDiv, DisplayDimensions, SourceCoordinate;
    MulDivBelow(x, p.sourceWidth, p.destWidth);
    MulDivBelow(y, p.sourceHeight, p.destHeight);
    SourceCoordinate(contract,
      p.sourceX + MulDiv(x, p.sourceWidth, p.destWidth), p.sourceY + MulDiv(y, p.sourceHeight, p.destHeight))
  }

  lemma ShownInside(input: Frame, contract: FrameContract, p: Placement, x: U32, y: U32)
    requires input.Valid() && Validate(contract, input.width, input.height).Ok? && WindowInside(contract, p)
    requires x < p.destWidth && y < p.destHeight
    ensures Shown(contract, p, x, y).0 < input.width && Shown(contract, p, x, y).1 < input.height
  {
    hide MulDiv, DisplayDimensions, SourceCoordinate;
    MulDivBelow(x, p.sourceWidth, p.destWidth);
    MulDivBelow(y, p.sourceHeight, p.destHeight);
    SourceCoordinateInside(contract, input.width, input.height,
      p.sourceX + MulDiv(x, p.sourceWidth, p.destWidth), p.sourceY + MulDiv(y, p.sourceHeight, p.destHeight));
  }

  /** For every alpha mode, range, opacity, crop, turn and mirror: a colour byte painted with
      the nearest filter, from the two source bytes it depends on and the byte underneath. */
  lemma NearestByteIs(
    input: Frame, contract: FrameContract, opacity: U16, p: Placement, x: U32, y: U32, c: nat, under: Byte)
    requires input.Valid() && Validate(contract, input.width, input.height).Ok? && WindowInside(contract, p)
    requires x < p.destWidth && y < p.destHeight && c < 3
    ensures Shown(contract, p, x, y).0 < input.width && Shown(contract, p, x, y).1 < input.height
    ensures var at := Shown(contract, p, x, y);
            var (colour, alpha) := (input.Channel(at.0, at.1, c), input.Channel(at.0, at.1, 3));
            var (mode, white) := (contract.colorimetry.alpha, WhiteLevel(contract.colorimetry.range));
            Composited(Nearest, input, contract, opacity, p, x, y, c, under) ==
            Rounded(Parts(Level(contract.colorimetry.range, colour), white, Given(mode, alpha), Coverage(mode, alpha),
                          Min(opacity, 1000), under), Full(white))
  {
    ShownInside(input, contract, p, x, y);
    NearestExact(x, x, p.sourceWidth, p.destWidth);
    NearestExact(y, y, p.sourceHeight, p.destHeight);
    MulDivBelow(x, p.sourceWidth, p.destWidth);
    MulDivBelow(y, p.sourceHeight, p.destHeight);
    hide MulDiv, DisplayDimensions, SourceCoordinate, Frame.Channel, Parts, Rounded, ColourShare, Faded, BlendOverOpaque;
    hide SamplePremultiplied, NearestSourceCoordinate, Level, Given, Coverage;
    var (dx, dy) :=
      (p.sourceX + MulDiv(x, p.sourceWidth, p.destWidth), p.sourceY + MulDiv(y, p.sourceHeight, p.destHeight));
    SampleIsLevel(input, contract, dx, dy, c);
    var at := Shown(contract, p, x, y);
    CoverageBound(contract.colorimetry.alpha, input.Channel(at.0, at.1, 3));
    BlendIsParts(
      Level(contract.colorimetry.range, input.Channel(at.0, at.1, c)), WhiteLevel(contract.colorimetry.range),
      Given(contract.colorimetry.alpha, input.Channel(at.0, at.1, 3)),
      Coverage(contract.colorimetry.alpha, input.Channel(at.0, at.1, 3)), Min(opacity, 1000), under);
  }

  lemma CoverageBound(mode: AlphaMode, alpha: Byte)
    ensures Coverage(mode, alpha) <= 255
  {
  }

  /** With the bilinear filter every part of the pixel, its alpha too, is the mean of four
      sampled pixels, weighted in 65536ths by their nearness. */
  lemma BilinearSampleIs(input: Frame, contract: FrameContract, p: Placement, x: U32, y: U32, c: nat)
    requires input.Valid() && Validate(contract, input.width, input.height).Ok? && WindowInside(contract, p) && c < 4
    ensures var xs := ShiftedLinearSample(x, p.sourceWidth, p.destWidth, p.sourceX);
            var ys := ShiftedLinearSample(y, p.sourceHeight, p.destHeight, p.sourceY);
            && xs.low < U32_LIMIT && xs.high < U32_LIMIT && ys.low < U32_LIMIT && ys.high < U32_LIMIT
            && Sample(Bilinear, input, contract, p, x, y, c) * 65536.0 ==
               Weighted(SamplePremultiplied(input, contract, xs.low, ys.low, c),
                        SamplePremultiplied(input, contract, xs.high, ys.low, c),
                        SamplePremultiplied(input, contract, xs.low, ys.high, c),
                        SamplePremultiplied(input, contract, xs.high, ys.high, c),
                        xs.highWeight as real, ys.highWeight as real)
  {
    hide LinearSampleAt, SamplePremultiplied, DisplayDimensions, Mix, Weighted;
    var xs := ShiftedLinearSample(x, p.sourceWidth, p.destWidth, p.sourceX);
    var ys := ShiftedLinearSample(y, p.sourceHeight, p.destHeight, p.sourceY);
    MixIsWeighted(
      SamplePremultiplied(input, contract, xs.low, ys.low, c), SamplePremultiplied(input, contract, xs.high, ys.low, c),
      SamplePremultiplied(input, contract, xs.low, ys.high, c), SamplePremultiplied(input, contract, xs.high, ys.high, c),
      xs.highWeight as real, ys.highWeight as real);
  }

  function Weighted(lowLow: real, highLow: real, lowHigh: real, highHigh: real, xWeight: real, yWeight: real): real {
    (lowLow * (256.0 - xWeight) + highLow * xWeight) * (256.0 - yWeight)
    + (lowHigh * (256.0 - xWeight) + highHigh * xWeight) * yWeight
  }

  lemma MixIsWeighted(a: real, b: real, c: real, d: real, x: real, y: real)
    ensures Mix(a, b, c, d, x / 256.0, y / 256.0) * 65536.0 == Weighted(a, b, c, d, x, y)
  {
  }

  // ---- The three kinds, at full opacity ---------------------------------------------------------------

  lemma CancelParts(n: nat, d: nat, factor: nat)
    requires 0 < d && 0 < factor
    ensures 0 < d * factor && 0 <= n * factor && Rounded(n * factor, d * factor) == Rounded(n, d)
  {
    var q := (2 * n + d) / (2 * d);
    DivBounds(2 * n + d, 2 * d);
    MulMonotone(1, factor, d);
    MulMonotone(0, n, factor);
    var (top, bottom) := (2 * (n * factor) + d * factor, 2 * (d * factor));
    assert top == (2 * n + d) * factor;
    assert q * bottom == q * (2 * d) * factor;
    assert (q + 1) * bottom == (q + 1) * (2 * d) * factor;
    MulMonotone(q * (2 * d), 2 * n + d, factor);
    MulMonotone(2 * n + d + 1, (q + 1) * (2 * d), factor);
    DivUnique(top, bottom, q);
  }

  /** Straight: colour and background in the ratio of the alpha byte. */
  lemma StraightByte(colour: Byte, alpha: Byte, under: Byte)
    ensures 0 <= colour * alpha + under * (255 - alpha)
    ensures Rounded(Parts(colour, 255, alpha, alpha, 1000, under), Full(255)) ==
            Rounded(colour * alpha + under * (255 - alpha), 255)
  {
    MulMonotone(0, colour, alpha);
    MulMonotone(0, under, 255 - alpha);
    var n := colour * alpha + under * (255 - alpha);
    assert Parts(colour, 255, alpha, alpha, 1000, under) == n * 255000;
    CancelParts(n, 255, 255000);
  }

  /** Premultiplied: the colour as it is, and of the background what the alpha byte leaves. */
  lemma PremultipliedByte(colour: Byte, alpha: Byte, under: Byte)
    ensures 0 <= 255 * colour + under * (255 - alpha)
    ensures Rounded(Parts(colour, 255, 255, alpha, 1000, under), Full(255)) ==
            Rounded(255 * colour + under * (255 - alpha), 255)
  {
    MulMonotone(0, under, 255 - alpha);
    var n := 255 * colour + under * (255 - alpha);
    assert Parts(colour, 255, 255, alpha, 1000, under) == n * 255000;
    CancelParts(n, 255, 255000);
  }

  /** Limited and opaque: 16 and below is black, 235 and above white, in proportion between. */
  lemma LimitedByte(colour: Byte, under: Byte)
    ensures var byte := Rounded(Parts(Level(Limited, colour), 219, 255, 255, 1000, under), Full(219));
            && (colour <= 16 ==> byte == 0) && (colour >= 235 ==> byte == 255)
            && (16 <= colour <= 235 ==> byte == Rounded(255 * (colour - 16), 219))
  {
    var n := 255 * Level(Limited, colour);
    assert Parts(Level(Limited, colour), 219, 255, 255, 1000, under) == n * 255000;
    CancelParts(n, 219, 255000);
  }

  /** A straight pixel over the empty cell's grey, and a premultiplied one that is brighter
      than its alpha allows. */
  lemma TwoPixels()
    ensures Rounded(Parts(200, 255, 128, 128, 1000, 32), Full(255)) == 116
    ensures Rounded(Parts(200, 255, 255, 128, 1000, 32), Full(255)) == 216
    ensures Rounded(Parts(250, 255, 255, 128, 1000, 32), Full(255)) == 255
  {
  }
}
