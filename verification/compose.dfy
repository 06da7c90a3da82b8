/** `Compositor::compose_with` (`src/render.rs`): composing into a recycled buffer equals
    composing onto a freshly cleared one, although clearing is skipped where it can be. */
module Compose {
  import opened Numerics
  import opened Wrappers
  import opened Layout
  import opened MediaContract
  import opened SourceTransforms
  import opened Frames
  import opened Sampling
  import opened Shading
  import opened SamplingMaps
  import opened Canvas
  import opened Paste
  import opened Compositing

  const BACKGROUND := Bgra(0, 0, 0, 255)
  const EMPTY_CELL := Bgra(32, 32, 32, 255)

  datatype Source = Source(frame: Frame, transform: SourceTransform)

  datatype ComposeError = EmptyInput | InvalidDimensions(width: U32, height: U32) | InvalidContract(reason: MediaError)

  ghost predicate ValidSources(sources: seq<Option<Source>>) {
    forall i :: 0 <= i < |sources| && sources[i].Some? ==> sources[i].value.frame.Valid()
  }

  // ---- Which calls fail ---------------------------------------------------------------------------

  function SourceOutcome(cell: Cell, source: Option<Source>): Result<(), MediaError> {
    if source.None? || cell.Empty() then Ok(()) else ValidateTransform(source.value.transform)
  }

  /** The first source, from `from` on, that is drawn with an invalid transform. */
  function FirstFailure(cells: seq<Cell>, sources: seq<Option<Source>>, from: nat): Result<(), MediaError>
    requires from <= |cells| <= |sources|
    decreases |cells| - from
  {
    if from == |cells| then Ok(()) else
    var outcome := SourceOutcome(cells[from], sources[from]);
    if outcome.Err? then outcome else FirstFailure(cells, sources, from + 1)
  }

  function Outcome(
    width: U32, height: U32, sources: seq<Option<Source>>, layout: CompositionLayout, outputWidth: U32, outputHeight: U32)
    : Result<(), ComposeError>
    requires layout != PictureInPicture ==> |sources| < U32_LIMIT
  {
    if |sources| == 0 then Err(EmptyInput)
    else if outputWidth != width || outputHeight != height then Err(ComposeError.InvalidDimensions(outputWidth, outputHeight))
    else
      var failure := FirstFailure(CellList(width, height, |sources|, layout), sources, 0);
      if failure.Err? then Err(ComposeError.InvalidContract(failure.error)) else Ok(())
  }

  /** Composition succeeds exactly when there is a source, the buffer has the format's
      size, and every source that is drawn carries a valid transform. */
  lemma OutcomeIsOk(
    width: U32, height: U32, sources: seq<Option<Source>>, layout: CompositionLayout, outputWidth: U32, outputHeight: U32)
    requires layout != PictureInPicture ==> |sources| < U32_LIMIT
    ensures Outcome(width, height, sources, layout, outputWidth, outputHeight).Ok? <==>
      && 0 < |sources| && outputWidth == width && outputHeight == height
      && var cells := CellList(width, height, |sources|, layout);
         forall i :: 0 <= i < |cells| ==> SourceOutcome(cells[i], sources[i]).Ok?
  {
    if 0 < |sources| {
      NoFailure(CellList(width, height, |sources|, layout), sources, 0);
    }
  }

  lemma {:induction false} NoFailure(cells: seq<Cell>, sources: seq<Option<Source>>, from: nat)
    requires from <= |cells| <= |sources|
    ensures FirstFailure(cells, sources, from).Ok? <==>
      forall i :: from <= i < |cells| ==> SourceOutcome(cells[i], sources[i]).Ok?
    decreases |cells| - from
  {
    if from < |cells| {
      NoFailure(cells, sources, from + 1);
    }
  }

  // ---- The reference composition --------------------------------------------------------------------

  /** A freshly cleared buffer. */
  ghost function Cleared(width: nat, height: nat): (bytes: seq<Byte>)
    ensures |bytes| == FrameBytes(width, height)
  {
    seq(FrameBytes(width, height), k requires 0 <= k < FrameBytes(width, height) => BACKGROUND.At(k % BYTES_PER_PIXEL))
  }

  ghost predicate Drawable(cell: Cell, source: Option<Source>) {
    && cell.x + cell.width < U32_LIMIT && cell.y + cell.height < U32_LIMIT
    && (source.Some? ==> source.value.frame.Valid())
    && SourceOutcome(cell, source).Ok?
  }

  /** A source's drawing operation over its filled cell, if there is anything to draw. */
  ghost function SourcePainted(
    fit: FitRounding, filter: ScalingFilter, before: seq<Byte>, width: nat, cell: Cell, source: Option<Source>)
    : (after: seq<Byte>)
    requires 0 < width && Drawable(cell, source)
    ensures |after| == |before|
  {
    hide SourceDraw, ValidateTransform;
    if source.None? || cell.Empty() then before
    else Painted(before, width, SourceDraw(fit, filter, source.value.frame, cell, source.value.transform))
  }

  /** Every cell filled with the empty-cell colour and its source drawn over it, in order,
      onto a cleared buffer: no fill is ever skipped here. */
  ghost function Reference(
    fit: FitRounding, filter: ScalingFilter, width: nat, height: nat, cells: seq<Cell>, sources: seq<Option<Source>>, count: nat)
    : (bytes: seq<Byte>)
    requires 0 < width && count <= |cells| <= |sources|
    requires forall i :: 0 <= i < count ==> Drawable(cells[i], sources[i])
    ensures |bytes| == FrameBytes(width, height)
  {
    if count == 0 then Cleared(width, height)
    else
      var before := Reference(fit, filter, width, height, cells, sources, count - 1);
      var filled := Painted(before, width, Draw(cells[count - 1], Solid(EMPTY_CELL)));
      SourcePainted(fit, filter, filled, width, cells[count - 1], sources[count - 1])
  }

  // ---- Agreement with the reference -------------------------------------------------------------------

  /** Bytes that no longer depend on what the buffer held: all of them once cleared,
      otherwise those of the cells composed so far. */
  ghost predicate Settled(cleared: bool, cells: seq<Cell>, count: nat, width: nat, k: nat)
    requires 0 < width && count <= |cells|
  {
    cleared || CoveredBy(cells[..count], ColumnOf(width, k), RowOf(width, k))
  }

  ghost predicate AgreeAt(actual: seq<Byte>, expected: seq<Byte>, cleared: bool, cells: seq<Cell>, count: nat, width: nat, k: nat)
    requires 0 < width && count <= |cells| && k < |actual| == |expected|
  {
    Settled(cleared, cells, count, width, k) ==> actual[k] == expected[k]
  }

  ghost predicate Agree(actual: seq<Byte>, expected: seq<Byte>, cleared: bool, cells: seq<Cell>, count: nat, width: nat) {
    && 0 < width && count <= |cells| && |actual| == |expected|
    && forall k :: 0 <= k < |actual| ==> AgreeAt(actual, expected, cleared, cells, count, width, k)
  }

  lemma SettledGrows(cleared: bool, cells: seq<Cell>, count: nat, width: nat, k: nat)
    requires 0 < width && count < |cells|
    ensures Settled(cleared, cells, count + 1, width, k) <==>
      Settled(cleared, cells, count, width, k) || cells[count].Contains(ColumnOf(width, k), RowOf(width, k))
  {
    hide ColumnOf, RowOf;
    var (x, y) := (ColumnOf(width, k), RowOf(width, k));
    if CoveredBy(cells[..count], x, y) {
      var i :| 0 <= i < count && cells[..count][i].Contains(x, y);
      assert cells[..count + 1][i].Contains(x, y);
    }
    if cells[count].Contains(x, y) {
      assert cells[..count + 1][count].Contains(x, y);
    }
  }

  /** Filling a cell settles it, whatever the two buffers held there. */
  lemma FillAgrees(actual: seq<Byte>, expected: seq<Byte>, cleared: bool, cells: seq<Cell>, count: nat, width: nat)
    requires Agree(actual, expected, cleared, cells, count, width) && count < |cells|
    ensures var fill := Draw(cells[count], Solid(EMPTY_CELL));
            Agree(Painted(actual, width, fill), Painted(expected, width, fill), cleared, cells, count + 1, width)
  {
    hide ColumnOf, RowOf, Settled;
    var fill := Draw(cells[count], Solid(EMPTY_CELL));
    var (actual', expected') := (Painted(actual, width, fill), Painted(expected, width, fill));
    var next := count + 1;
    forall k | 0 <= k < |actual| ensures AgreeAt(actual', expected', cleared, cells, next, width, k) {
      assert AgreeAt(actual, expected, cleared, cells, count, width, k);
      SettledGrows(cleared, cells, count, width, k);
    }
  }

  /** Drawing the same thing inside a settled cell keeps the buffers in agreement. */
  lemma DrawAgrees(actual: seq<Byte>, expected: seq<Byte>, cleared: bool, cells: seq<Cell>, count: nat, width: nat, draw: Draw)
    requires Agree(actual, expected, cleared, cells, count + 1, width) && count < |cells|
    requires draw.Valid() && draw.cell.Inside(cells[count])
    ensures Agree(Painted(actual, width, draw), Painted(expected, width, draw), cleared, cells, count + 1, width)
  {
    hide ColumnOf, RowOf, Settled, Shader.Shade;
    var (actual', expected') := (Painted(actual, width, draw), Painted(expected, width, draw));
    var next := count + 1;
    forall k | 0 <= k < |actual| ensures AgreeAt(actual', expected', cleared, cells, next, width, k) {
      assert AgreeAt(actual, expected, cleared, cells, next, width, k);
      SettledGrows(cleared, cells, count, width, k);
    }
  }

  /** Skipping the fill under an opaque source that covers the cell is invisible. */
  lemma OverwriteAgrees(actual: seq<Byte>, expected: seq<Byte>, cleared: bool, cells: seq<Cell>, count: nat, width: nat, draw: Draw)
    requires Agree(actual, expected, cleared, cells, count, width) && count < |cells|
    requires draw.Valid() && draw.cell == cells[count] && draw.shader.OpaqueAndWhole()
    ensures Agree(
      Painted(actual, width, draw),
      Painted(Painted(expected, width, Draw(cells[count], Solid(EMPTY_CELL))), width, draw),
      cleared, cells, count + 1, width)
  {
    hide ColumnOf, RowOf, Settled, Shader.Shade;
    var filled := Painted(expected, width, Draw(cells[count], Solid(EMPTY_CELL)));
    var (actual', expected') := (Painted(actual, width, draw), Painted(filled, width, draw));
    var next := count + 1;
    forall k | 0 <= k < |actual| ensures AgreeAt(actual', expected', cleared, cells, next, width, k) {
      assert AgreeAt(actual, expected, cleared, cells, count, width, k);
      SettledGrows(cleared, cells, count, width, k);
      var (x, y) := (ColumnOf(width, k), RowOf(width, k));
      if cells[count].Contains(x, y) {
        OpaqueShadeIgnoresOld(draw.shader, x - draw.cell.x, y - draw.cell.y, k % BYTES_PER_PIXEL, actual[k], filled[k]);
      }
    }
  }

  lemma EmptyCellAgrees(actual: seq<Byte>, expected: seq<Byte>, cleared: bool, cells: seq<Cell>, count: nat, width: nat)
    requires Agree(actual, expected, cleared, cells, count, width) && count < |cells| && cells[count].Empty()
    ensures Agree(actual, Painted(expected, width, Draw(cells[count], Solid(EMPTY_CELL))), cleared, cells, count + 1, width)
  {
    hide ColumnOf, RowOf, Settled;
    var expected' := Painted(expected, width, Draw(cells[count], Solid(EMPTY_CELL)));
    EmptyCellPaintsNothing(expected, width, Draw(cells[count], Solid(EMPTY_CELL)));
    var next := count + 1;
    forall k | 0 <= k < |actual| ensures AgreeAt(actual, expected', cleared, cells, next, width, k) {
      assert AgreeAt(actual, expected, cleared, cells, count, width, k);
      SettledGrows(cleared, cells, count, width, k);
    }
  }

  lemma ClearingSettles(before: seq<Byte>, width: U32, height: U32, cells: seq<Cell>)
    requires 0 < width && 0 < height && |before| == FrameBytes(width, height)
    ensures Agree(Painted(before, width, Draw(Cell(0, 0, width, height), Solid(BACKGROUND))),
                  Cleared(width, height), true, cells, 0, width)
  {
    hide ColumnOf, RowOf, FrameBytes, Settled;
    var painted := Painted(before, width, Draw(Cell(0, 0, width, height), Solid(BACKGROUND)));
    forall k | 0 <= k < |painted| ensures AgreeAt(painted, Cleared(width, height), true, cells, 0, width, k) {
      EveryByteHasAPixel(width, height, k);
    }
  }

  lemma NothingSettledYet(before: seq<Byte>, width: U32, height: U32, cells: seq<Cell>)
    requires 0 < width && |before| == FrameBytes(width, height)
    ensures Agree(before, Cleared(width, height), false, cells, 0, width)
  {
    hide FrameBytes, ColumnOf, RowOf;
    assert cells[..0] == [];
  }

  lemma EverythingSettled(actual: seq<Byte>, expected: seq<Byte>, cleared: bool, cells: seq<Cell>, width: U32, height: U32)
    requires Agree(actual, expected, cleared, cells, |cells|, width)
    requires |actual| == FrameBytes(width, height)
    requires cleared || EveryPixelCovered(cells, width, height)
    ensures actual == expected
  {
    hide ColumnOf, RowOf, FrameBytes;
    assert cells[..|cells|] == cells;
    forall k | 0 <= k < |actual| ensures actual[k] == expected[k] {
      assert AgreeAt(actual, expected, cleared, cells, |cells|, width, k);
      EveryByteHasAPixel(width, height, k);
    }
  }

  // ---- The compositor ----------------------------------------------------------------------------------

  /** The buffer after one iteration of the compositor's loop. */
  ghost function Stepped(
    fit: FitRounding, filter: ScalingFilter, before: seq<Byte>, width: nat, cell: Cell, source: Option<Source>)
    : (after: seq<Byte>)
    requires 0 < width && Drawable(cell, source)
  {
    hide SourceDraw, ValidateTransform, FrameFullyOverwritesCell;
    var filled := Painted(before, width, Draw(cell, Solid(EMPTY_CELL)));
    if source.None? then filled
    else if cell.Empty() then before
    else
      var draw := SourceDraw(fit, filter, source.value.frame, cell, source.value.transform);
      if FrameFullyOverwritesCell(fit, source.value.frame, cell, source.value.transform) == Ok(true)
      then Painted(before, width, draw) else Painted(filled, width, draw)
  }

  /** One iteration keeps the recycled buffer in agreement with the reference. */
  lemma StepAgrees(
    fit: FitRounding, filter: ScalingFilter, actual: seq<Byte>, width: nat, height: nat, cleared: bool,
    cells: seq<Cell>, sources: seq<Option<Source>>, count: nat)
    requires 0 < width && count < |cells| <= |sources|
    requires forall i :: 0 <= i <= count ==> Drawable(cells[i], sources[i])
    requires Agree(actual, Reference(fit, filter, width, height, cells, sources, count), cleared, cells, count, width)
    ensures Agree(Stepped(fit, filter, actual, width, cells[count], sources[count]),
                  Reference(fit, filter, width, height, cells, sources, count + 1), cleared, cells, count + 1, width)
  {
    hide SourceDraw, ValidateTransform, FrameFullyOverwritesCell, Agree, Painted;
    var (cell, source) := (cells[count], sources[count]);
    var expected := Reference(fit, filter, width, height, cells, sources, count);
    var fill := Draw(cell, Solid(EMPTY_CELL));
    if source.None? {
      FillAgrees(actual, expected, cleared, cells, count, width);
    } else if cell.Empty() {
      EmptyCellAgrees(actual, expected, cleared, cells, count, width);
    } else {
      var draw := SourceDraw(fit, filter, source.value.frame, cell, source.value.transform);
      if FrameFullyOverwritesCell(fit, source.value.frame, cell, source.value.transform) == Ok(true) {
        OverwriteTestIsSound(fit, filter, source.value.frame, cell, source.value.transform);
        OverwriteAgrees(actual, expected, cleared, cells, count, width, draw);
      } else {
        FillAgrees(actual, expected, cleared, cells, count, width);
        DrawAgrees(Painted(actual, width, fill), Painted(expected, width, fill), cleared, cells, count, width, draw);
      }
    }
  }

  lemma OverwriteOutcome(fit: FitRounding, input: Frame, cell: Cell, t: SourceTransform)
    requires input.Valid() && cell.x + cell.width < U32_LIMIT && cell.y + cell.height < U32_LIMIT
    ensures FrameFullyOverwritesCell(fit, input, cell, t).Ok? <==> cell.Empty() || ValidateTransform(t).Ok?
    ensures FrameFullyOverwritesCell(fit, input, cell, t).Err? ==>
      FrameFullyOverwritesCell(fit, input, cell, t).error == ValidateTransform(t).error
    ensures cell.Empty() ==> FrameFullyOverwritesCell(fit, input, cell, t) == Ok(true)
  {
    hide TransformedPlacement, ValidateTransform;
  }

  class Compositor {
    const width: U32
    const height: U32
    const fit: FitRounding
    var filter: ScalingFilter
    const cache: SamplingCache

    ghost predicate Valid()
      reads cache
    {
      cache.Valid()
    }

    constructor (width: U32, height: U32, fit: FitRounding)
      ensures Valid() && fresh(cache)
      ensures this.width == width && this.height == height && this.fit == fit && filter == Nearest
    {
      this.width := width;
      this.height := height;
      this.fit := fit;
      this.filter := Nearest;
      this.cache := new SamplingCache();
    }

    method SetScalingFilter(filter: ScalingFilter)
      modifies `filter
      ensures this.filter == filter
    {
      this.filter := filter;
    }

    /** One source into its cell: skip the fill if the source hides it, then paste. */
    method ComposeSource(output: FrameBuffer, cell: Cell, source: Option<Source>)
      returns (r: Result<(), MediaError>)
      requires Valid() && output.Valid() && cell.Within(output.width, output.height)
      requires source.Some? ==> source.value.frame.Valid()
      modifies output.data, cache
      ensures Valid()
      ensures r == SourceOutcome(cell, source)
      ensures r.Ok? ==> output.data[..] == Stepped(fit, filter, old(output.data[..]), output.width, cell, source)
    {
      hide Painted, ValidateTransform, SourceDraw, FrameFullyOverwritesCell, FrameBytes;
      if source.None? {
        FillCell(output, cell, EMPTY_CELL);
        return Ok(());
      }
      var Source(frame, transform) := source.value;
      OverwriteOutcome(fit, frame, cell, transform);
      var overwritten := FrameFullyOverwritesCell(fit, frame, cell, transform);
      if overwritten.Err? {
        return Err(overwritten.error);
      }
      if !overwritten.value {
        FillCell(output, cell, EMPTY_CELL);
      }
      r := PasteAspectFit(output, frame, cell, filter, cache, transform, fit);
    }

    /** Clear the whole buffer unless the cells will cover it. */
    method ClearUncovered(output: FrameBuffer, cells: seq<Cell>, count: nat, layout: CompositionLayout)
      returns (ghost cleared: bool)
      requires Valid() && output.Valid() && output.width == width && output.height == height
      requires layout != PictureInPicture ==> count < U32_LIMIT
      requires cells == CellList(width, height, count, layout)
      modifies output.data
      ensures cleared || EveryPixelCovered(cells, width, height)
      ensures Agree(output.data[..], Cleared(width, height), cleared, cells, 0, width)
    {
      hide Painted, Agree, CellList, FrameBytes, CellsCoverOutput, EveryPixelCovered;
      ghost var before := output.data[..];
      cleared := !CellsCoverOutput(cells, width, height);
      CoverTestIsExact(width, height, count, layout);
      if !CellsCoverOutput(cells, width, height) {
        FillCell(output, Cell(0, 0, width, height), BACKGROUND);
        ClearingSettles(before, width, height, cells);
      } else {
        NothingSettledYet(before, width, height, cells);
      }
    }

    /** Every source into its cell, in order, up to the first failure. */
    method ComposeCells(output: FrameBuffer, cells: seq<Cell>, sources: seq<Option<Source>>, ghost cleared: bool)
      returns (r: Result<(), MediaError>)
      requires Valid() && output.Valid() && ValidSources(sources) && |cells| <= |sources|
      requires forall i :: 0 <= i < |cells| ==> cells[i].Within(output.width, output.height)
      requires Agree(output.data[..], Reference(fit, filter, output.width, output.height, cells, sources, 0),
                     cleared, cells, 0, output.width)
      modifies output.data, cache
      ensures Valid()
      ensures r == FirstFailure(cells, sources, 0)
      ensures r.Ok? ==>
        && (forall i :: 0 <= i < |cells| ==> Drawable(cells[i], sources[i]))
        && Agree(output.data[..], Reference(fit, filter, output.width, output.height, cells, sources, |cells|),
                 cleared, cells, |cells|, output.width)
    {
      hide Painted, Agree, Reference, Stepped, SourceOutcome, FrameBytes;
      for index := 0 to |cells|
        invariant Valid()
        invariant FirstFailure(cells, sources, 0) == FirstFailure(cells, sources, index)
        invariant forall i :: 0 <= i < index ==> Drawable(cells[i], sources[i])
        invariant Agree(output.data[..], Reference(fit, filter, output.width, output.height, cells, sources, index),
                        cleared, cells, index, output.width)
      {
        ghost var mid := output.data[..];
        var outcome := ComposeSource(output, cells[index], sources[index]);
        if outcome.Err? {
          return outcome;
        }
        StepAgrees(fit, filter, mid, output.width, output.height, cleared, cells, sources, index);
      }
      r := Ok(());
    }

    /** The composed picture is the reference composition of the sources, for any bytes
        the recycled buffer held; and the outcome is the documented one. */
    method ComposeWith(sources: seq<Option<Source>>, layout: CompositionLayout, output: FrameBuffer)
      returns (r: Result<(), ComposeError>)
      requires Valid() && output.Valid() && ValidSources(sources)
      requires layout != PictureInPicture ==> |sources| < U32_LIMIT
      modifies output.data, cache
      ensures Valid()
      ensures r == Outcome(width, height, sources, layout, output.width, output.height)
      ensures r.Ok? ==>
        var cells := CellList(width, height, |sources|, layout);
        && |cells| <= |sources|
        && (forall i :: 0 <= i < |cells| ==> Drawable(cells[i], sources[i]))
        && output.data[..] == Reference(fit, filter, width, height, cells, sources, |cells|)
    {
      hide Painted, Agree, Reference, CellList, FrameBytes, SourceOutcome, EveryPixelCovered, PairwiseDisjoint;
      hide FirstFailure, Drawable;
      if |sources| == 0 {
        return Err(EmptyInput);
      }
      if output.width != width || output.height != height {
        return Err(ComposeError.InvalidDimensions(output.width, output.height));
      }
      var cells := Cells(width, height, |sources|, layout);
      CellCount(width, height, |sources|, layout);
      ghost var cleared := ClearUncovered(output, cells, |sources|, layout);
      StartsCleared(fit, filter, width, height, cells, sources);
      var outcome := ComposeCells(output, cells, sources, cleared);
      if outcome.Err? {
        return Err(ComposeError.InvalidContract(outcome.error));
      }
      EverythingSettled(output.data[..], Reference(fit, filter, width, height, cells, sources, |cells|),
                        cleared, cells, width, height);
      r := Ok(());
    }
  }

  lemma CellCount(width: U32, height: U32, count: nat, layout: CompositionLayout)
    requires 0 < count && (layout != PictureInPicture ==> count < U32_LIMIT)
    ensures |CellList(width, height, count, layout)| <= count
  {
  }

  lemma StartsCleared(fit: FitRounding, filter: ScalingFilter, width: nat, height: nat, cells: seq<Cell>, sources: seq<Option<Source>>)
    requires 0 < width && |cells| <= |sources|
    ensures Reference(fit, filter, width, height, cells, sources, 0) == Cleared(width, height)
  {
  }
}
