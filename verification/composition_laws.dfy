/** What each byte of a composed picture is (`Compositor::compose_with` in `src/render.rs`): the
    topmost cell decides alone, over the empty cell's grey; where there is no cell it is black. */
module CompositionLaws {
  import opened Numerics
  import opened Wrappers
  import opened Layout
  import opened SourceTransforms
  import opened Frames
  import opened Sampling
  import opened Shading
  import opened Canvas
  import opened Compositing
  import opened Compose
  import PathsAgree

  ghost predicate AllDrawable(cells: seq<Cell>, sources: seq<Option<Source>>, count: nat)
    requires count <= |cells| <= |sources|
  {
    forall i :: 0 <= i < count ==> Drawable(cells[i], sources[i])
  }

  /** Opaque black, and opaque grey at 32. */
  function Black(c: nat): Byte {
    if c == 3 then 255 else 0
  }

  function Grey(c: nat): Byte {
    if c == 3 then 255 else 32
  }

  ghost predicate InCell(cell: Cell, width: nat, k: nat)
    requires 0 < width
  {
    cell.Contains(ColumnOf(width, k), RowOf(width, k))
  }

  /** A later cell leaves the bytes outside it alone. */
  lemma StepLeavesOthers(
    fit: FitRounding, filter: ScalingFilter, width: nat, height: nat, cells: seq<Cell>, sources: seq<Option<Source>>,
    count: nat, k: nat)
    requires 0 < width && 0 < count <= |cells| <= |sources| && AllDrawable(cells, sources, count)
    requires k < FrameBytes(width, height) && !InCell(cells[count - 1], width, k)
    ensures Reference(fit, filter, width, height, cells, sources, count)[k] ==
            Reference(fit, filter, width, height, cells, sources, count - 1)[k]
  {
    hide ColumnOf, RowOf, SourceDraw, FrameBytes, Shader.Shade, Painted;
  }

  lemma {:induction false} LaterCellsLeave(
    fit: FitRounding, filter: ScalingFilter, width: nat, height: nat, cells: seq<Cell>, sources: seq<Option<Source>>,
    first: nat, count: nat, k: nat)
    requires 0 < width && first <= count <= |cells| <= |sources| && AllDrawable(cells, sources, count)
    requires k < FrameBytes(width, height) && forall i :: first <= i < count ==> !InCell(cells[i], width, k)
    ensures Reference(fit, filter, width, height, cells, sources, count)[k] ==
            Reference(fit, filter, width, height, cells, sources, first)[k]
    decreases count
  {
    hide InCell, Reference, FrameBytes, Drawable;
    if first < count {
      StepLeavesOthers(fit, filter, width, height, cells, sources, count, k);
      LaterCellsLeave(fit, filter, width, height, cells, sources, first, count - 1, k);
    }
  }

  /** Where no cell is, the picture is opaque black. */
  lemma UncoveredIsBlack(
    fit: FitRounding, filter: ScalingFilter, width: nat, height: nat, cells: seq<Cell>, sources: seq<Option<Source>>,
    k: nat)
    requires 0 < width && |cells| <= |sources| && AllDrawable(cells, sources, |cells|)
    requires k < FrameBytes(width, height) && forall i :: 0 <= i < |cells| ==> !InCell(cells[i], width, k)
    ensures Reference(fit, filter, width, height, cells, sources, |cells|)[k] == Black(k % 4)
  {
    LaterCellsLeave(fit, filter, width, height, cells, sources, 0, |cells|, k);
    hide InCell, FrameBytes, Drawable;
  }

  /** What the topmost cell over byte `k` makes of it: grey where its source is missing or does
      not reach, and elsewhere the source's pixel over grey. */
  ghost function Decided(
    fit: FitRounding, filter: ScalingFilter, width: nat, cell: Cell, source: Option<Source>, k: nat): Byte
    requires 0 < width && Drawable(cell, source)
  {
    hide SourceDraw, ValidateTransform;
    if source.None? || cell.Empty() then Grey(k % 4) else
    var draw := SourceDraw(fit, filter, source.value.frame, cell, source.value.transform);
    if !InCell(draw.cell, width, k) then Grey(k % 4)
    else draw.shader.Shade(
           ColumnOf(width, k) - draw.cell.x, RowOf(width, k) - draw.cell.y, k % 4, Grey(k % 4))
  }

  lemma CellDecides(
    fit: FitRounding, filter: ScalingFilter, width: nat, height: nat, cells: seq<Cell>, sources: seq<Option<Source>>,
    count: nat, k: nat)
    requires 0 < width && 0 < count <= |cells| <= |sources| && AllDrawable(cells, sources, count)
    requires k < FrameBytes(width, height) && InCell(cells[count - 1], width, k)
    ensures Reference(fit, filter, width, height, cells, sources, count)[k] ==
            Decided(fit, filter, width, cells[count - 1], sources[count - 1], k)
  {
    hide ColumnOf, RowOf, SourceDraw, FrameBytes, ValidateTransform, Resampled, Composited, Painted;
  }

  /** Every byte of the picture that some cell covers is decided by the last such cell, its
      source and nothing else: with `UncoveredIsBlack`, the whole picture byte by byte. */
  lemma TopmostCellDecides(
    fit: FitRounding, filter: ScalingFilter, width: nat, height: nat, cells: seq<Cell>, sources: seq<Option<Source>>,
    top: nat, k: nat)
    requires 0 < width && top < |cells| <= |sources| && AllDrawable(cells, sources, |cells|)
    requires k < FrameBytes(width, height) && InCell(cells[top], width, k)
    requires forall i :: top < i < |cells| ==> !InCell(cells[i], width, k)
    ensures Reference(fit, filter, width, height, cells, sources, |cells|)[k] ==
            Decided(fit, filter, width, cells[top], sources[top], k)
  {
    hide InCell, Reference, FrameBytes, Decided, Drawable;
    LaterCellsLeave(fit, filter, width, height, cells, sources, top + 1, |cells|, k);
    CellDecides(fit, filter, width, height, cells, sources, top + 1, k);
  }

  // ---- The overwrite test --------------------------------------------------------------------------

  /** The test that skips a cell's fill answers yes exactly when the source's drawing covers the
      cell and hides what is under it. */
  lemma OverwriteTestIsExact(fit: FitRounding, filter: ScalingFilter, input: Frame, cell: Cell, t: SourceTransform)
    requires input.Valid() && ValidateTransform(t).Ok? && Placeable(cell)
    ensures FrameFullyOverwritesCell(fit, input, cell, t) ==
            Ok(var draw := SourceDraw(fit, filter, input, cell, t); draw.cell == cell && draw.shader.OpaqueAndWhole())
  {
    hide TransformedPlacement, ApplyToContract, FittedSize;
    if Untransformed(input, t) {
      assert t == DEFAULT_TRANSFORM;
      IdentityKeepsContract(input);
      PathsAgree.SamePlace(fit, input, cell);
    }
    hide UntransformedCell, WindowInside;
  }
}
