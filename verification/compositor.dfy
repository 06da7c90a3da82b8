/** Placing sources in cells and composing them into a recycled buffer (`src/render.rs`). */
module Compositing {
  import opened Numerics
  import opened Wrappers
  import opened Layout
  import opened MediaContract
  import opened SourceTransforms
  import opened Frames
  import opened Sampling
  import opened Shading
  import opened SamplingMaps
  import opened Canvas
  import opened Paste
  import opened PasteTransformed

  /** The rounded size that aspect-fit scaling gives a picture in a cell. The source
      computes it in `f32`; nothing below depends on its value, because it is clamped. */
  type FitRounding = (U32, U32, U32, U32) -> (U32, U32)

  predicate Placeable(cell: Cell) {
    !cell.Empty() && cell.x + cell.width < U32_LIMIT && cell.y + cell.height < U32_LIMIT
  }

  function FittedSize(fit: FitRounding, width: U32, height: U32, cell: Cell): (U32, U32)
    requires !cell.Empty()
  {
    var rounded := fit(width, height, cell.width, cell.height);
    (Min(Max(rounded.0, 1), cell.width), Min(Max(rounded.1, 1), cell.height))
  }

  /** The rounded size, axis by axis, kept between one pixel and the cell. */
  lemma FittedSizeIsTheRounding(fit: FitRounding, width: U32, height: U32, cell: Cell)
    requires !cell.Empty()
    ensures var rounded := fit(width, height, cell.width, cell.height); var fitted := FittedSize(fit, width, height, cell);
            && (1 <= rounded.0 <= cell.width ==> fitted.0 == rounded.0)
            && (1 <= rounded.1 <= cell.height ==> fitted.1 == rounded.1)
            && (rounded.0 == 0 ==> fitted.0 == 1) && (rounded.1 == 0 ==> fitted.1 == 1)
            && (rounded.0 > cell.width ==> fitted.0 == cell.width) && (rounded.1 > cell.height ==> fitted.1 == cell.height)
  {
  }

  /** The display window a Fill shows: one axis whole, the other cut to the cell's shape. */
  function FillWindow(displayWidth: U32, displayHeight: U32, cell: Cell): (U32, U32)
    requires !cell.Empty()
  {
    hide MulDiv;
    if displayWidth * cell.height > displayHeight * cell.width then
      (Min(Max(MulDiv(displayHeight, cell.width, cell.height), 1), displayWidth), displayHeight)
    else
      (displayWidth, Min(Max(MulDiv(displayWidth, cell.height, cell.width), 1), displayHeight))
  }

  function TransformedPlacement(fit: FitRounding, contract: FrameContract, cell: Cell, t: SourceTransform): Placement
    requires Measurable(contract) && Placeable(cell)
  {
    hide PositionedOffset, DisplayDimensions, FittedSize, FillWindow;
    var (displayWidth, displayHeight) := DisplayDimensions(contract);
    match t.fit
    case Fit =>
      FittedSizeInside(fit, displayWidth, displayHeight, cell);
      var (destWidth, destHeight) := FittedSize(fit, displayWidth, displayHeight, cell);
      PositionedOffsetInside(cell.width - destWidth, t.positionX);
      PositionedOffsetInside(cell.height - destHeight, t.positionY);
      Placement(
        destWidth, destHeight,
        cell.x + PositionedOffset(cell.width - destWidth, t.positionX),
        cell.y + PositionedOffset(cell.height - destHeight, t.positionY),
        0, 0, displayWidth, displayHeight)
    case Fill =>
      FillWindowInside(displayWidth, displayHeight, cell);
      var (sourceWidth, sourceHeight) := FillWindow(displayWidth, displayHeight, cell);
      Placement(
        cell.width, cell.height, cell.x, cell.y,
        PositionedOffset(displayWidth - sourceWidth, t.positionX),
        PositionedOffset(displayHeight - sourceHeight, t.positionY),
        sourceWidth, sourceHeight)
  }

  lemma PositionedOffsetInside(space: U32, position: I16)
    ensures PositionedOffset(space, position) <= space
  {
    PositionedOffsetEnds(space, position);
  }

  lemma FittedSizeInside(fit: FitRounding, width: U32, height: U32, cell: Cell)
    requires !cell.Empty()
    ensures 0 < FittedSize(fit, width, height, cell).0 <= cell.width
    ensures 0 < FittedSize(fit, width, height, cell).1 <= cell.height
  {
  }

  lemma FillWindowInside(displayWidth: U32, displayHeight: U32, cell: Cell)
    requires !cell.Empty()
    ensures FillWindow(displayWidth, displayHeight, cell).0 <= displayWidth
    ensures FillWindow(displayWidth, displayHeight, cell).1 <= displayHeight
    ensures 0 < displayWidth ==> 0 < FillWindow(displayWidth, displayHeight, cell).0
    ensures 0 < displayHeight ==> 0 < FillWindow(displayWidth, displayHeight, cell).1
  {
    hide MulDiv;
  }

  lemma DisplayNotEmpty(contract: FrameContract)
    requires Measurable(contract)
    ensures 0 < DisplayDimensions(contract).0 && 0 < DisplayDimensions(contract).1
  {
    hide RoundedQuotient;
  }

  /** Every placement samples inside the display and paints inside the cell, for Fit and
      Fill and whatever the fit rounding; Fill paints the whole cell. */
  lemma PlacementIsSafe(fit: FitRounding, contract: FrameContract, cell: Cell, t: SourceTransform)
    requires Measurable(contract) && Placeable(cell)
    ensures var p := TransformedPlacement(fit, contract, cell, t);
            && WindowInside(contract, p)
            && DestinationCell(p).Inside(cell) && !DestinationCell(p).Empty()
            && (t.fit == Fill ==> DestinationCell(p) == cell)
  {
    hide PositionedOffset, DisplayDimensions, FittedSize, FillWindow;
    var (displayWidth, displayHeight) := DisplayDimensions(contract);
    DisplayNotEmpty(contract);
    FittedSizeInside(fit, displayWidth, displayHeight, cell);
    FillWindowInside(displayWidth, displayHeight, cell);
    var (destWidth, destHeight) := FittedSize(fit, displayWidth, displayHeight, cell);
    PositionedOffsetInside(cell.width - destWidth, t.positionX);
    PositionedOffsetInside(cell.height - destHeight, t.positionY);
    var (sourceWidth, sourceHeight) := FillWindow(displayWidth, displayHeight, cell);
    PositionedOffsetInside(displayWidth - sourceWidth, t.positionX);
    PositionedOffsetInside(displayHeight - sourceHeight, t.positionY);
  }

  /** A Fill window keeps one axis of the display whole and is the largest such window of
      the cell's shape: one more row or column of the other axis would be too much. */
  lemma FillWindowIsTheLargest(displayWidth: U32, displayHeight: U32, cell: Cell)
    requires !cell.Empty() && 0 < displayWidth && 0 < displayHeight
    ensures var (width, height) := FillWindow(displayWidth, displayHeight, cell);
            if displayWidth * cell.height > displayHeight * cell.width then
              && height == displayHeight
              && (width == 1 || width * cell.height <= displayHeight * cell.width)
              && (width == displayWidth || displayHeight * cell.width < (width + 1) * cell.height)
            else
              && width == displayWidth
              && (height == 1 || height * cell.width <= displayWidth * cell.height)
              && (height == displayHeight || displayWidth * cell.height < (height + 1) * cell.width)
  {
    if displayWidth * cell.height > displayHeight * cell.width {
      LargestShare(displayHeight, cell.width, cell.height, displayWidth);
    } else {
      LargestShare(displayWidth, cell.height, cell.width, displayHeight);
    }
    hide MulDiv;
  }

  lemma LargestShare(a: nat, b: nat, d: nat, limit: nat)
    requires 0 < d && 0 < limit
    ensures var share := Min(Max(MulDiv(a, b, d), 1), limit);
            && (share == 1 || share * d <= a * b)
            && (share == limit || a * b < (share + 1) * d)
  {
    var share := Min(Max(MulDiv(a, b, d), 1), limit);
    DivBounds(a * b, d);
    MulMonotone(share, MulDiv(a, b, d), d);
    MulMonotone(MulDiv(a, b, d) + 1, share + 1, d);
  }

  /** The extreme positions reach the cell's borders when the picture fits in, and the
      display's when it is cut, each axis by its own position. */
  lemma PositionReachesBothEnds(fit: FitRounding, contract: FrameContract, cell: Cell, t: SourceTransform)
    requires Measurable(contract) && Placeable(cell)
    ensures var p := TransformedPlacement(fit, contract, cell, t); var display := DisplayDimensions(contract);
            && (t.positionX <= -1000 ==> p.destX == cell.x && p.sourceX == 0)
            && (t.positionY <= -1000 ==> p.destY == cell.y && p.sourceY == 0)
            && (t.positionX >= 1000 ==>
                  p.destX + p.destWidth == cell.x + cell.width && p.sourceX + p.sourceWidth == display.0)
            && (t.positionY >= 1000 ==>
                  p.destY + p.destHeight == cell.y + cell.height && p.sourceY + p.sourceHeight == display.1)
  {
    hide DisplayDimensions, FittedSize, FillWindow, MulDiv, PositionedOffset;
    forall space: U32, position: I16
      ensures position <= -1000 ==> PositionedOffset(space, position) == 0
      ensures position >= 1000 ==> PositionedOffset(space, position) == space
    {
      OffsetPastTheEnds(space, position);
    }
    var (displayWidth, displayHeight) := DisplayDimensions(contract);
    FittedSizeInside(fit, displayWidth, displayHeight, cell);
    FillWindowInside(displayWidth, displayHeight, cell);
  }

  /** `offset` is the share that `position`, from -1000 to 1000, names of `space`, rounded down. */
  predicate ShareOf(offset: int, position: int, space: int) {
    offset * 2000 <= (position + 1000) * space < (offset + 1) * 2000
  }

  /** Between the extremes the free space of the cell, or the cut part of the display, is shared
      out in proportion, each axis by its own position. */
  lemma PlacementIsProportional(fit: FitRounding, contract: FrameContract, cell: Cell, t: SourceTransform)
    requires Measurable(contract) && Placeable(cell)
    requires -1000 <= t.positionX <= 1000 && -1000 <= t.positionY <= 1000
    ensures var p := TransformedPlacement(fit, contract, cell, t); var display := DisplayDimensions(contract);
            if t.fit == Fit then
              && (p.destWidth, p.destHeight) == FittedSize(fit, display.0, display.1, cell)
              && (p.sourceX, p.sourceY, p.sourceWidth, p.sourceHeight) == (0, 0, display.0, display.1)
              && ShareOf(p.destX - cell.x, t.positionX, cell.width - p.destWidth)
              && ShareOf(p.destY - cell.y, t.positionY, cell.height - p.destHeight)
            else
              && (p.sourceWidth, p.sourceHeight) == FillWindow(display.0, display.1, cell)
              && ShareOf(p.sourceX, t.positionX, display.0 - p.sourceWidth)
              && ShareOf(p.sourceY, t.positionY, display.1 - p.sourceHeight)
  {
    hide DisplayDimensions, FittedSize, FillWindow, MulDiv, PositionedOffset, ShareOf;
    var (displayWidth, displayHeight) := DisplayDimensions(contract);
    FittedSizeInside(fit, displayWidth, displayHeight, cell);
    FillWindowInside(displayWidth, displayHeight, cell);
    var (destWidth, destHeight) := FittedSize(fit, displayWidth, displayHeight, cell);
    var (sourceWidth, sourceHeight) := FillWindow(displayWidth, displayHeight, cell);
    OffsetIsShare(cell.width - destWidth, t.positionX);
    OffsetIsShare(cell.height - destHeight, t.positionY);
    OffsetIsShare(displayWidth - sourceWidth, t.positionX);
    OffsetIsShare(displayHeight - sourceHeight, t.positionY);
  }

  lemma OffsetIsShare(space: U32, position: I16)
    requires -1000 <= position <= 1000
    ensures ShareOf(PositionedOffset(space, position), position, space)
  {
    PositionedOffsetIsProportional(space, position);
  }

  lemma OffsetPastTheEnds(space: U32, position: I16)
    ensures position <= -1000 ==> PositionedOffset(space, position) == 0
    ensures position >= 1000 ==> PositionedOffset(space, position) == space
  {
    PositionedOffsetEnds(space, position);
  }

  // ---- One source in one cell -------------------------------------------------------------------

  function UntransformedCell(fit: FitRounding, input: Frame, cell: Cell): Cell
    requires Placeable(cell)
  {
    hide FittedSize;
    FittedSizeInside(fit, input.width, input.height, cell);
    var (destWidth, destHeight) := FittedSize(fit, input.width, input.height, cell);
    Cell(cell.x + (cell.width - destWidth) / 2, cell.y + (cell.height - destHeight) / 2, destWidth, destHeight)
  }

  predicate Untransformed(input: Frame, t: SourceTransform) {
    IsIdentity(t) && IsCanonicalBgra(input.contract, input.width, input.height)
  }

  function AppliedContract(input: Frame, t: SourceTransform): (contract: FrameContract)
    requires input.Valid() && ValidateTransform(t).Ok?
    ensures Validate(contract, input.width, input.height).Ok?
    ensures contract.colorimetry == input.contract.colorimetry
  {
    hide ApplyToContract;
    ApplyNeverFails(t, input.contract, input.width, input.height);
    ApplyToContract(t, input.contract, input.width, input.height).value
  }

  /** What pasting a source into a cell means: one drawing operation inside the cell. */
  ghost function SourceDraw(fit: FitRounding, filter: ScalingFilter, input: Frame, cell: Cell, t: SourceTransform): (draw: Draw)
    requires input.Valid() && ValidateTransform(t).Ok? && Placeable(cell)
    ensures draw.Valid() && draw.cell.Inside(cell)
  {
    hide TransformedPlacement, FittedSize, WindowInside, AppliedContract;
    if Untransformed(input, t) then
      FittedSizeInside(fit, input.width, input.height, cell);
      var place := UntransformedCell(fit, input, cell);
      Draw(place, Scaled(filter, input, place.width, place.height))
    else
      var contract := AppliedContract(input, t);
      PlacementIsSafe(fit, contract, cell, t);
      var p := TransformedPlacement(fit, contract, cell, t);
      Draw(DestinationCell(p), Blended(filter, input, contract, t.opacity, p))
  }

  function FrameFullyOverwritesCell(fit: FitRounding, input: Frame, cell: Cell, t: SourceTransform): Result<bool, MediaError>
    requires input.Valid() && cell.x + cell.width < U32_LIMIT && cell.y + cell.height < U32_LIMIT
  {
    hide TransformedPlacement, ValidateTransform, AppliedContract;
    if cell.Empty() then Ok(true) else
    var valid := ValidateTransform(t);
    if valid.Err? then Err(valid.error)
    else if input.contract.colorimetry.alpha != Opaque || t.opacity != TRANSFORM_SCALE then Ok(false)
    else Ok(DestinationCell(TransformedPlacement(fit, AppliedContract(input, t), cell, t)) == cell)
  }

  lemma IdentityKeepsContract(input: Frame)
    requires input.Valid() && IsCanonicalBgra(input.contract, input.width, input.height)
    ensures ValidateTransform(DEFAULT_TRANSFORM).Ok?
    ensures AppliedContract(input, DEFAULT_TRANSFORM) == input.contract
    ensures DisplayDimensions(input.contract) == (input.width, input.height)
  {
    SquareDisplay(input.contract, input.width, input.height);
    UncroppedContract(input.contract, DEFAULT_TRANSFORM, input.width, input.height);
  }

  /** When the test says so, the drawing operation covers the whole cell and no byte it
      writes depends on the byte it replaces. */
  lemma OverwriteTestIsSound(fit: FitRounding, filter: ScalingFilter, input: Frame, cell: Cell, t: SourceTransform)
    requires input.Valid() && ValidateTransform(t).Ok? && Placeable(cell)
    requires FrameFullyOverwritesCell(fit, input, cell, t) == Ok(true)
    ensures var draw := SourceDraw(fit, filter, input, cell, t);
            draw.cell == cell && draw.shader.OpaqueAndWhole()
  {
    hide FittedSize, ValidateTransform, WindowInside, DisplayDimensions, PositionedOffset, AppliedContract;
    if Untransformed(input, t) {
      IdentityKeepsContract(input);
      FittedSizeInside(fit, input.width, input.height, cell);
    }
  }

  method PasteAspectFit(
    output: FrameBuffer, input: Frame, cell: Cell, filter: ScalingFilter, cache: SamplingCache,
    t: SourceTransform, fit: FitRounding)
    returns (r: Result<(), MediaError>)
    requires output.Valid() && input.Valid() && cache.Valid() && cell.Within(output.width, output.height)
    modifies output.data, cache
    ensures cache.Valid()
    ensures r == if cell.Empty() then Ok(()) else ValidateTransform(t)
    ensures output.data[..] ==
      if cell.Empty() || r.Err? then old(output.data[..])
      else Painted(old(output.data[..]), output.width, SourceDraw(fit, filter, input, cell, t))
  {
    hide Painted, ValidateTransform, TransformedPlacement, FittedSize, MapFor, WindowInside, FrameBytes, AppliedContract;
    if cell.width == 0 || cell.height == 0 {
      return Ok(());
    }
    r := ValidateTransform(t);
    if r.Err? {
      return;
    }
    if !Untransformed(input, t) {
      var contract := AppliedContract(input, t);
      PlacementIsSafe(fit, contract, cell, t);
      PasteContractTransformed(output, input, filter, cache, contract, t.opacity, TransformedPlacement(fit, contract, cell, t));
      return;
    }
    FittedSizeInside(fit, input.width, input.height, cell);
    var place := UntransformedCell(fit, input, cell);
    if place.width == input.width && place.height == input.height {
      PasteUnscaled(output, input, place, filter);
      return;
    }
    var key := SamplingKey(input.width, input.height, place.width, place.height, filter);
    var m := cache.Get(key);
    UntransformedMapKind(key);
    match m {
      case NearestMap(xOffsets, yRows) => PasteNearest(output, input, place, xOffsets, yRows);
      case BilinearMap(xSamples, ySamples) => PasteBilinear(output, input, place, xSamples, ySamples);
    }
  }

  lemma UntransformedMapKind(key: SamplingKey)
    ensures MapFor(key).NearestMap? <==> key.filter == Nearest
  {
  }
}
