/** Interpretation of a frame's pixels (`src/media_contract.rs`): colour wire codes,
    display dimensions, and the map from display coordinates to source pixels. */
module MediaContract {
  import opened Numerics
  import opened Wrappers

  datatype ColorPrimaries = PrimariesBt709
  datatype TransferFunction = TransferBt709
  datatype MatrixCoefficients = MatrixBt709
  datatype ColorRange = Full | Limited
  datatype AlphaMode = Opaque | Straight | Premultiplied

  const COLOR_CONTRACT_SCHEMA_VERSION: Byte := 1

  datatype Colorimetry = Colorimetry(
    schemaVersion: Byte,
    bitDepth: Byte,
    primaries: ColorPrimaries,
    transfer: TransferFunction,
    matrix: MatrixCoefficients,
    range: ColorRange,
    alpha: AlphaMode)

  const BT709_FULL_OPAQUE := Colorimetry(
    COLOR_CONTRACT_SCHEMA_VERSION, 8, PrimariesBt709, TransferBt709, MatrixBt709, Full, Opaque)

  datatype PixelAspectRatio = PixelAspectRatio(horizontal: U32, vertical: U32)

  const SQUARE := PixelAspectRatio(1, 1)

  datatype CleanAperture = CleanAperture(x: U32, y: U32, width: U32, height: U32)

  datatype Rotation = Degrees0 | Degrees90 | Degrees180 | Degrees270 {
    predicate SwapsAxes() {
      Degrees90? || Degrees270?
    }
  }

  datatype TransformMetadata = TransformMetadata(rotation: Rotation, mirrorHorizontal: bool, mirrorVertical: bool)

  const IDENTITY := TransformMetadata(Degrees0, false, false)

  datatype FrameContract = FrameContract(
    colorimetry: Colorimetry,
    pixelAspectRatio: PixelAspectRatio,
    cleanAperture: CleanAperture,
    transform: TransformMetadata)

  datatype MediaError =
    | UnsupportedSchema
    | UnsupportedBitDepth
    | ZeroAspectTerm
    | EmptyAperture
    | ApertureOutsideFrame
    | EmptyCrop
    | OpacityOrPositionOutOfRange

  function CanonicalBgra(width: U32, height: U32): FrameContract {
    FrameContract(BT709_FULL_OPAQUE, SQUARE, CleanAperture(0, 0, width, height), IDENTITY)
  }

  predicate IsCanonicalBgra(contract: FrameContract, width: U32, height: U32) {
    contract == CanonicalBgra(width, height)
  }

  function ValidateAperture(aperture: CleanAperture, width: U32, height: U32): Result<(), MediaError> {
    if aperture.width == 0 || aperture.height == 0 then Err(EmptyAperture)
    else if
      || aperture.x + aperture.width >= U32_LIMIT || aperture.x + aperture.width > width
      || aperture.y + aperture.height >= U32_LIMIT || aperture.y + aperture.height > height
    then Err(ApertureOutsideFrame)
    else Ok(())
  }

  function Validate(contract: FrameContract, width: U32, height: U32): Result<(), MediaError> {
    if contract.colorimetry.schemaVersion != COLOR_CONTRACT_SCHEMA_VERSION then Err(UnsupportedSchema)
    else if contract.colorimetry.bitDepth != 8 then Err(UnsupportedBitDepth)
    else if contract.pixelAspectRatio.horizontal == 0 || contract.pixelAspectRatio.vertical == 0 then
      Err(ZeroAspectTerm)
    else ValidateAperture(contract.cleanAperture, width, height)
  }

  /** A contract is valid exactly with schema 1, eight bits, two positive aspect terms, and an
      aperture that has pixels and lies in the frame. */
  lemma ValidContractsAre(contract: FrameContract, width: U32, height: U32)
    ensures Validate(contract, width, height).Ok? <==>
              && contract.colorimetry.schemaVersion == 1 && contract.colorimetry.bitDepth == 8
              && 0 < contract.pixelAspectRatio.horizontal && 0 < contract.pixelAspectRatio.vertical
              && 0 < contract.cleanAperture.width && 0 < contract.cleanAperture.height
              && contract.cleanAperture.x + contract.cleanAperture.width <= width
              && contract.cleanAperture.y + contract.cleanAperture.height <= height
  {
  }

  // ---- Colour wire codes -------------------------------------------------------------

  function RangeCode(range: ColorRange): int {
    match range case Full => 1 case Limited => 2
  }

  function AlphaCode(alpha: AlphaMode): int {
    match alpha case Opaque => 1 case Straight => 2 case Premultiplied => 3
  }

  /** The packed code. The fields occupy disjoint bits, so or-ing shifted fields is a sum. */
  function WireCode(c: Colorimetry): U32 {
    c.schemaVersion + c.bitDepth * 0x100 + 1 * 0x1_0000 + 1 * 0x8_0000 + 1 * 0x40_0000
    + RangeCode(c.range) * 0x200_0000 + AlphaCode(c.alpha) * 0x800_0000
  }

  function FromWireCode(code: U32): Option<Colorimetry> {
    var schemaVersion: Byte := code % 0x100;
    var bitDepth: Byte := code / 0x100 % 0x100;
    var range := code / 0x200_0000 % 4;
    var alpha := code / 0x800_0000 % 8;
    if code / 0x4000_0000 != 0 then None
    else if code / 0x1_0000 % 8 != 1 || code / 0x8_0000 % 8 != 1 || code / 0x40_0000 % 8 != 1 then None
    else if range != 1 && range != 2 then None
    else if alpha != 1 && alpha != 2 && alpha != 3 then None
    else if schemaVersion != COLOR_CONTRACT_SCHEMA_VERSION || bitDepth != 8 then None
    else Some(Colorimetry(
      schemaVersion, bitDepth, PrimariesBt709, TransferBt709, MatrixBt709,
      if range == 1 then Full else Limited,
      if alpha == 1 then Opaque else if alpha == 2 then Straight else Premultiplied))
  }

  /** Peeling the fields off one at a time puts the code back together. */
  lemma WireFields(code: U32)
    ensures code == code % 0x100 + code / 0x100 % 0x100 * 0x100
      + code / 0x1_0000 % 8 * 0x1_0000 + code / 0x8_0000 % 8 * 0x8_0000 + code / 0x40_0000 % 8 * 0x40_0000
      + code / 0x200_0000 % 4 * 0x200_0000 + code / 0x800_0000 % 8 * 0x800_0000
      + code / 0x4000_0000 * 0x4000_0000
  {
    assert code / 0x1_0000 == code / 0x100 / 0x100;
    assert code / 0x8_0000 == code / 0x1_0000 / 8;
    assert code / 0x40_0000 == code / 0x8_0000 / 8;
    assert code / 0x200_0000 == code / 0x40_0000 / 8;
    assert code / 0x800_0000 == code / 0x200_0000 / 4;
    assert code / 0x4000_0000 == code / 0x800_0000 / 8;
  }

  /** Decoding accepts exactly the codes of the supported colorimetries, and is the
      inverse of encoding on both sides. */
  lemma WireCodeInverse(code: U32, c: Colorimetry)
    ensures FromWireCode(code) == Some(c)
       <==> code == WireCode(c) && c.schemaVersion == COLOR_CONTRACT_SCHEMA_VERSION && c.bitDepth == 8
  {
    if FromWireCode(code) == Some(c) {
      WireFields(code);
    }
    if code == WireCode(c) && c.schemaVersion == COLOR_CONTRACT_SCHEMA_VERSION && c.bitDepth == 8 {
      assert c.primaries == PrimariesBt709 && c.transfer == TransferBt709 && c.matrix == MatrixBt709;
      var (range, alpha) := (RangeCode(c.range), AlphaCode(c.alpha));
      assert code == 0x0049_0801 + range * 0x200_0000 + alpha * 0x800_0000;
      assert code / 0x100 == 0x4908 + range * 0x2_0000 + alpha * 0x8_0000;
      assert code / 0x1_0000 == 0x49 + range * 0x200 + alpha * 0x800;
      assert code / 0x200_0000 == range + alpha * 4;
    }
  }

  /** Bytes of a code, from the low one: schema, bit depth, then primaries, transfer and matrix
      packed as 1 + 8 * 1 + 64 * 1, then range at bit 25 and alpha at bit 27. */
  lemma WireCodesOfTheEnums()
    ensures WireCode(BT709_FULL_OPAQUE) == 0x0A49_0801
    ensures WireCode(BT709_FULL_OPAQUE.(range := Limited)) == 0x0C49_0801
    ensures WireCode(BT709_FULL_OPAQUE.(alpha := Straight)) == 0x1249_0801
    ensures WireCode(BT709_FULL_OPAQUE.(alpha := Premultiplied)) == 0x1A49_0801
  {
  }

  // ---- Display space -----------------------------------------------------------------

  /** What the display-space arithmetic needs: it divides by the vertical aspect term
      and subtracts one from the aperture's sides. `Validate` establishes it. */
  predicate Measurable(contract: FrameContract) {
    && contract.pixelAspectRatio.vertical != 0
    && contract.cleanAperture.width != 0
    && contract.cleanAperture.height != 0
  }

  function RoundedQuotient(n: nat, d: nat): int
    requires 0 < d
  {
    (n + d / 2) / d
  }

  function DisplayDimensions(contract: FrameContract): (U32, U32)
    requires Measurable(contract)
  {
    var aperture := contract.cleanAperture;
    var ratio := contract.pixelAspectRatio;
    var adjustedWidth: U32 :=
      Min(Max(RoundedQuotient(aperture.width * ratio.horizontal, ratio.vertical), 1), U32_LIMIT - 1);
    if contract.transform.rotation.SwapsAxes() then (aperture.height, adjustedWidth)
    else (adjustedWidth, aperture.height)
  }

  /** The pixel of a `width` x `height` image that a turn of `rotation` shows at (x, y)
      of the turned image. */
  function Unrotate(rotation: Rotation, width: U32, height: U32, x: U32, y: U32): (U32, U32)
    requires 0 < width && 0 < height
  {
    match rotation
    case Degrees0 => (x, y)
    case Degrees90 => (y, SaturatingSub(height - 1, x))
    case Degrees180 => (SaturatingSub(width - 1, x), SaturatingSub(height - 1, y))
    case Degrees270 => (SaturatingSub(width - 1, y), x)
  }

  /** A display coordinate brought back to the unscaled image. */
  function Unscaled(display: U32, size: U32, displaySize: U32): U32 {
    AsU32(MulDiv(display, size, Max(displaySize, 1)))
  }

  lemma UnscaledSameSize(display: U32, size: U32)
    requires 0 < size
    ensures Unscaled(display, size, size) == display
  {
    MulDivWhole(display, size);
  }

  function SourceCoordinate(contract: FrameContract, displayX: U32, displayY: U32): (U32, U32)
    requires Measurable(contract)
  {
    var aperture := contract.cleanAperture;
    var (rotatedWidth, rotatedHeight) :=
      if contract.transform.rotation.SwapsAxes() then (aperture.height, aperture.width)
      else (aperture.width, aperture.height);
    var (displayWidth, displayHeight) := DisplayDimensions(contract);
    var rawX := Unscaled(displayX, rotatedWidth, displayWidth);
    var rawY := Unscaled(displayY, rotatedHeight, displayHeight);
    var x: U32 :=
      if contract.transform.mirrorHorizontal then SaturatingSub(rotatedWidth - 1, rawX) else rawX;
    var y: U32 :=
      if contract.transform.mirrorVertical then SaturatingSub(rotatedHeight - 1, rawY) else rawY;
    var (sourceX, sourceY) := Unrotate(contract.transform.rotation, aperture.width, aperture.height, x, y);
    (Min(aperture.x + Min(sourceX, aperture.width - 1), U32_LIMIT - 1),
     Min(aperture.y + Min(sourceY, aperture.height - 1), U32_LIMIT - 1))
  }

  predicate InAperture(aperture: CleanAperture, x: int, y: int) {
    && aperture.x <= x < aperture.x + aperture.width
    && aperture.y <= y < aperture.y + aperture.height
  }

  /** Whatever the aspect ratio and even for coordinates outside the display, the
      sampled pixel lies in the clean aperture, hence inside the frame. */
  lemma SourceCoordinateInside(contract: FrameContract, width: U32, height: U32, displayX: U32, displayY: U32)
    requires Validate(contract, width, height).Ok?
    ensures var (x, y) := SourceCoordinate(contract, displayX, displayY);
            InAperture(contract.cleanAperture, x, y) && x < width && y < height
  {
  }

  /** The displayed width is the aperture's, stretched by the pixel aspect ratio and rounded
      with halves up, but at least one pixel and at most what 32 bits hold; the height is the
      aperture's; a quarter turn trades the two. */
  lemma DisplayIsStretched(contract: FrameContract)
    requires Measurable(contract)
    ensures var aperture := contract.cleanAperture; var ratio := contract.pixelAspectRatio;
            var (w, h) := DisplayDimensions(contract);
            var (shown, rows) := if contract.transform.rotation.SwapsAxes() then (h, w) else (w, h);
            && rows == aperture.height
            && StretchedTo(shown, aperture.width, ratio.horizontal, ratio.vertical)
  {
    var aperture := contract.cleanAperture;
    var ratio := contract.pixelAspectRatio;
    MulMonotone(0, aperture.width, ratio.horizontal);
    StretchRounds(aperture.width * ratio.horizontal, ratio.vertical);
    hide RoundedQuotient;
  }

  predicate StretchedTo(shown: int, width: int, horizontal: int, vertical: int) {
    var twiceOff := 2 * (shown * vertical - width * horizontal);
    if shown == 1 then twiceOff > -vertical
    else if shown == 0xFFFF_FFFF then twiceOff <= vertical
    else -vertical < twiceOff <= vertical && 1 < shown < 0xFFFF_FFFF
  }

  lemma StretchRounds(stretched: int, vertical: int)
    requires 0 <= stretched && 0 < vertical
    ensures var exact := RoundedQuotient(stretched, vertical);
            && 0 <= exact
            && -vertical < 2 * (exact * vertical - stretched) <= vertical
            && (exact <= 1 ==> -vertical < 2 * (1 * vertical - stretched))
            && (exact >= 0xFFFF_FFFF ==> 2 * (0xFFFF_FFFF * vertical - stretched) <= vertical)
  {
    var exact := RoundedQuotient(stretched, vertical);
    DivBounds(stretched + vertical / 2, vertical);
    DivNonNegative(stretched + vertical / 2, vertical);
    assert (exact + 1) * vertical == exact * vertical + vertical;
    MulMonotone(exact, 1, vertical);
    MulMonotone(0xFFFF_FFFF, exact, vertical);
  }

  // ---- Square pixels: a bijection ------------------------------------------------------

  predicate SquareContract(contract: FrameContract, width: U32, height: U32) {
    Validate(contract, width, height).Ok? && contract.pixelAspectRatio == SQUARE
  }

  function RotatedSize(contract: FrameContract): (U32, U32) {
    var aperture := contract.cleanAperture;
    if contract.transform.rotation.SwapsAxes() then (aperture.height, aperture.width)
    else (aperture.width, aperture.height)
  }

  lemma SquareDisplay(contract: FrameContract, width: U32, height: U32)
    requires SquareContract(contract, width, height)
    ensures DisplayDimensions(contract) == RotatedSize(contract)
  {
    assert contract.cleanAperture.width * 1 == contract.cleanAperture.width;
  }

  function Mirrored(coordinate: int, size: int, mirror: bool): int {
    if mirror then size - 1 - coordinate else coordinate
  }

  function Sides(rotation: Rotation, width: int, height: int): (int, int) {
    if rotation.SwapsAxes() then (height, width) else (width, height)
  }

  function Reflected(sides: (int, int), horizontal: bool, vertical: bool, p: (int, int)): (int, int) {
    (Mirrored(p.0, sides.0, horizontal), Mirrored(p.1, sides.1, vertical))
  }

  /** `Unrotate` as plain integer geometry, without saturation. */
  function Turned(rotation: Rotation, width: int, height: int, p: (int, int)): (int, int) {
    match rotation
    case Degrees0 => p
    case Degrees90 => (p.1, height - 1 - p.0)
    case Degrees180 => (width - 1 - p.0, height - 1 - p.1)
    case Degrees270 => (width - 1 - p.1, p.0)
  }

  /** The pixel of a `width` x `height` picture that its turned and mirrored view shows
      at p: un-mirror in the view, then un-rotate. */
  function Viewed(view: TransformMetadata, width: int, height: int, p: (int, int)): (int, int) {
    Turned(view.rotation, width, height,
      Reflected(Sides(view.rotation, width, height), view.mirrorHorizontal, view.mirrorVertical, p))
  }

  /** With square pixels the map is that geometry moved to the aperture's origin: no
      scaling, saturation or clamping takes part. */
  lemma SquareSourceCoordinate(contract: FrameContract, width: U32, height: U32, displayX: U32, displayY: U32)
    requires SquareContract(contract, width, height)
    requires displayX < RotatedSize(contract).0 && displayY < RotatedSize(contract).1
    ensures var aperture := contract.cleanAperture;
            var (u, v) := Viewed(contract.transform, aperture.width, aperture.height, (displayX, displayY));
            && 0 <= u < aperture.width && 0 <= v < aperture.height
            && SourceCoordinate(contract, displayX, displayY) == (aperture.x + u, aperture.y + v)
  {
    hide Unscaled, DisplayDimensions;
    SquareDisplay(contract, width, height);
    var (rotatedWidth, rotatedHeight) := RotatedSize(contract);
    UnscaledSameSize(displayX, rotatedWidth);
    UnscaledSameSize(displayY, rotatedHeight);
    match contract.transform.rotation case Degrees0 => case Degrees90 => case Degrees180 => case Degrees270 =>
  }

  /** Where the display shows a source pixel: rotate forward, then mirror. */
  function DisplayCoordinate(contract: FrameContract, sourceX: U32, sourceY: U32): (U32, U32)
    requires InAperture(contract.cleanAperture, sourceX, sourceY)
  {
    var aperture := contract.cleanAperture;
    var (u, v) := (sourceX - aperture.x, sourceY - aperture.y);
    var (x, y) := match contract.transform.rotation
      case Degrees0 => (u, v)
      case Degrees90 => (aperture.height - 1 - v, u)
      case Degrees180 => (aperture.width - 1 - u, aperture.height - 1 - v)
      case Degrees270 => (v, aperture.width - 1 - u);
    var (rotatedWidth, rotatedHeight) := RotatedSize(contract);
    (Mirrored(x, rotatedWidth, contract.transform.mirrorHorizontal),
     Mirrored(y, rotatedHeight, contract.transform.mirrorVertical))
  }

  /** Every display pixel shows a pixel of the aperture, and showing it leads back. */
  lemma DisplayToSourceAndBack(contract: FrameContract, width: U32, height: U32, displayX: U32, displayY: U32)
    requires SquareContract(contract, width, height)
    requires displayX < DisplayDimensions(contract).0 && displayY < DisplayDimensions(contract).1
    ensures var (x, y) := SourceCoordinate(contract, displayX, displayY);
            && InAperture(contract.cleanAperture, x, y)
            && DisplayCoordinate(contract, x, y) == (displayX, displayY)
  {
    hide SourceCoordinate, DisplayDimensions;
    SquareDisplay(contract, width, height);
    SquareSourceCoordinate(contract, width, height, displayX, displayY);
  }

  /** Every pixel of the aperture is shown somewhere on the display, and sampling that
      place leads back: with the lemma above, the map is a bijection. */
  lemma SourceToDisplayAndBack(contract: FrameContract, width: U32, height: U32, sourceX: U32, sourceY: U32)
    requires SquareContract(contract, width, height)
    requires InAperture(contract.cleanAperture, sourceX, sourceY)
    ensures var (x, y) := DisplayCoordinate(contract, sourceX, sourceY);
            && x < DisplayDimensions(contract).0 && y < DisplayDimensions(contract).1
            && SourceCoordinate(contract, x, y) == (sourceX, sourceY)
  {
    hide SourceCoordinate, DisplayDimensions;
    SquareDisplay(contract, width, height);
    var (x, y) := DisplayCoordinate(contract, sourceX, sourceY);
    SquareSourceCoordinate(contract, width, height, x, y);
  }
}
