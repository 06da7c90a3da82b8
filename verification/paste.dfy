/** The compositor's painting loops (`src/render.rs`), each proved to paint what the
    pointwise reference describes: separable maps, fixed-point weights, row copies and
    the shift are only ways of computing it. */
module Paste {
  import opened Numerics
  import opened Layout
  import opened Frames
  import opened Sampling
  import opened Shading
  import opened FixedPoint
  import opened SamplingMaps
  import opened Canvas

  lemma CellInside(width: nat, height: nat, cell: Cell, x: nat, y: nat)
    requires x < cell.width && y < cell.height && cell.Within(width, height)
    ensures Offset(width, cell.x + x, cell.y + y) + BYTES_PER_PIXEL <= FrameBytes(width, height)
  {
    OffsetInside(width, height, cell.x + x, cell.y + y);
  }

  lemma CellRowInside(width: nat, height: nat, cell: Cell, y: nat)
    requires y < cell.height && cell.Within(width, height)
    ensures Offset(width, cell.x, cell.y + y) + cell.width * BYTES_PER_PIXEL <= FrameBytes(width, height)
  {
    if 0 < cell.width {
      OffsetInside(width, height, cell.x + cell.width - 1, cell.y + y);
    } else {
      MulMonotone(cell.y + y + 1, height, width);
    }
  }

  lemma EmptyCellPaintsNothing(before: seq<Byte>, width: nat, draw: Draw)
    requires 0 < width && draw.Valid() && draw.cell.Empty()
    ensures Painted(before, width, draw) == before
  {
    hide RowOf, ColumnOf;
  }

  lemma SolidRow(before: seq<Byte>, now: seq<Byte>, width: nat, cell: Cell, color: Bgra, y: nat, start: nat)
    requires Progress(before, now, width, Draw(cell, Solid(color)), y, 0)
    requires 0 < y <= cell.height && cell.x + cell.width <= width
    requires start == Offset(width, cell.x, cell.y)
    requires start + cell.width * BYTES_PER_PIXEL <= |now|
    ensures forall k :: start <= k < start + cell.width * BYTES_PER_PIXEL ==> now[k] == color.At((k - start) % 4)
  {
    hide RowOf, ColumnOf, Offset;
    forall k | start <= k < start + cell.width * BYTES_PER_PIXEL ensures now[k] == color.At((k - start) % 4) {
      assert ByteProgress(before, now, k, width, Draw(cell, Solid(color)), y, 0);
      RunBytes(width, cell.x, cell.y, cell.width, k);
    }
  }

  /** `fill_cell`: the first row pixel by pixel, the other rows copied from it. */
  method FillCell(output: FrameBuffer, cell: Cell, color: Bgra)
    requires output.Valid() && cell.Within(output.width, output.height)
    modifies output.data
    ensures output.data[..] == Painted(old(output.data[..]), output.width, Draw(cell, Solid(color)))
  {
    hide Offset, FrameBytes, Painted, Progress;
    ghost var before := output.data[..];
    ghost var draw := Draw(cell, Solid(color));
    if cell.width == 0 || cell.height == 0 {
      EmptyCellPaintsNothing(before, output.width, draw);
      return;
    }
    var first := Offset(output.width, cell.x, cell.y);
    CellRowInside(output.width, output.height, cell, 0);
    ProgressStarts(before, output.width, draw);
    FillFirstRow(output, cell, color, before);
    for y := 1 to cell.height
      invariant Progress(before, output.data[..], output.width, draw, y, 0)
    {
      ghost var mid := output.data[..];
      var rowStart := Offset(output.width, cell.x, cell.y + y);
      CellRowInside(output.width, output.height, cell, y);
      SolidRow(before, mid, output.width, cell, color, y, first);
      CopyWithin(output.data, first, cell.width * BYTES_PER_PIXEL, rowStart);
      ProgressRow(before, mid, output.data[..], output.width, draw, y, rowStart);
    }
    ProgressEnds(before, output.data[..], output.width, draw);
  }

  method FillFirstRow(output: FrameBuffer, cell: Cell, color: Bgra, ghost before: seq<Byte>)
    requires output.Valid() && cell.Within(output.width, output.height) && !cell.Empty()
    requires |before| == output.data.Length
    requires Progress(before, output.data[..], output.width, Draw(cell, Solid(color)), 0, 0)
    modifies output.data
    ensures Progress(before, output.data[..], output.width, Draw(cell, Solid(color)), 1, 0)
  {
    hide Offset, FrameBytes, Progress;
    ghost var draw := Draw(cell, Solid(color));
    for x := 0 to cell.width
      invariant Progress(before, output.data[..], output.width, draw, 0, x)
    {
      ghost var mid := output.data[..];
      var offset := Offset(output.width, cell.x + x, cell.y);
      CellInside(output.width, output.height, cell, x, 0);
      CopyFromSlice(output.data, offset, [color.blue, color.green, color.red, color.alpha]);
      ProgressPixel(before, mid, output.data[..], output.width, draw, 0, x, offset);
    }
    ProgressNextRow(before, output.data[..], output.width, draw, 0);
  }

  // ---- Untransformed sources --------------------------------------------------------------------

  /** At the source's own size both filters reduce to the pixel itself. */
  lemma UnscaledIsEitherFilter(filter: ScalingFilter, input: Frame, x: U32, y: U32, c: nat)
    requires input.Valid() && x < input.width && y < input.height && c < 4
    ensures Resampled(filter, input, input.width, input.height, x, y, c) == input.Channel(x, y, c)
  {
    match filter
    case Nearest =>
      hide NearestSourceCoordinate;
      NearestSameSize(x, input.width);
      NearestSameSize(y, input.height);
    case Bilinear =>
      hide LinearSampleAt, FixedPoint.WeightedSum, Mix;
      LinearSameSize(x, input.width);
      LinearSameSize(y, input.height);
      var xs := LinearSampleAt(x, input.width, input.width);
      var ys := LinearSampleAt(y, input.height, input.height);
      WholeByte(input.Channel(x, y, c), input.Channel(xs.high, y, c), input.Channel(x, ys.high, c), input.Channel(xs.high, ys.high, c));
  }

  lemma WholeByte(a: Byte, b: Byte, c: Byte, d: Byte)
    ensures ToByte(Mix(Share(a), Share(b), Share(c), Share(d), Weight(0), Weight(0))) == a
  {
    BilinearChannelIsReference(a, b, c, d, 0, 0);
    assert WeightedSum(a, b, c, d, 0, 0) == a * 65536;
  }

  /** `paste_unscaled`: row copies paint the resampled source, whichever filter is set. */
  method PasteUnscaled(output: FrameBuffer, input: Frame, cell: Cell, ghost filter: ScalingFilter)
    requires output.Valid() && input.Valid() && cell.Within(output.width, output.height)
    requires cell.width == input.width && cell.height == input.height
    modifies output.data
    ensures output.data[..] ==
      Painted(old(output.data[..]), output.width, Draw(cell, Scaled(filter, input, cell.width, cell.height)))
  {
    hide Offset, FrameBytes, Painted, Progress;
    ghost var before := output.data[..];
    ghost var draw := Draw(cell, Scaled(filter, input, cell.width, cell.height));
    var rowBytes := cell.width * BYTES_PER_PIXEL;
    ProgressStarts(before, output.width, draw);
    for y := 0 to cell.height
      invariant Progress(before, output.data[..], output.width, draw, y, 0)
    {
      ghost var mid := output.data[..];
      var sourceStart := Offset(input.width, 0, y);
      var destinationStart := Offset(output.width, cell.x, cell.y + y);
      CellRowInside(output.width, output.height, cell, y);
      CellRowInside(input.width, input.height, Cell(0, 0, input.width, input.height), y);
      CopyFromSlice(output.data, destinationStart, input.data[sourceStart..sourceStart + rowBytes]);
      UnscaledRow(filter, input, y, sourceStart);
      ProgressRow(before, mid, output.data[..], output.width, draw, y, destinationStart);
    }
    ProgressEnds(before, output.data[..], output.width, draw);
  }

  lemma UnscaledRow(filter: ScalingFilter, input: Frame, y: U32, start: nat)
    requires input.Valid() && y < input.height && start == Offset(input.width, 0, y)
    requires start + input.width * BYTES_PER_PIXEL <= |input.data|
    ensures forall i :: 0 <= i < input.width * BYTES_PER_PIXEL ==>
      input.data[start + i] == Resampled(filter, input, input.width, input.height, i / BYTES_PER_PIXEL, y, i % BYTES_PER_PIXEL)
  {
    hide Resampled, FrameBytes;
    forall i | 0 <= i < input.width * BYTES_PER_PIXEL
      ensures input.data[start + i] == Resampled(filter, input, input.width, input.height, i / BYTES_PER_PIXEL, y, i % BYTES_PER_PIXEL)
    {
      UnscaledIsEitherFilter(filter, input, i / BYTES_PER_PIXEL, y, i % BYTES_PER_PIXEL);
      assert Offset(input.width, i / BYTES_PER_PIXEL, y) + i % BYTES_PER_PIXEL == start + i;
    }
  }

  /** A nearest map entry addresses the reference's source pixel. */
  lemma NearestBytes(input: Frame, width: U32, height: U32, x: U32, y: U32)
    requires input.Valid()
    ensures var at := NearestSourceCoordinate(y, input.height, height) * input.width * BYTES_PER_PIXEL
                    + NearestSourceCoordinate(x, input.width, width) * BYTES_PER_PIXEL;
            && at + BYTES_PER_PIXEL <= |input.data|
            && forall c :: 0 <= c < BYTES_PER_PIXEL ==>
                 input.data[at + c] == Resampled(Nearest, input, width, height, x, y, c)
  {
    hide NearestSourceCoordinate, FrameBytes;
    NearestInside(x, input.width, width);
    NearestInside(y, input.height, height);
    OffsetInside(input.width, input.height,
      NearestSourceCoordinate(x, input.width, width), NearestSourceCoordinate(y, input.height, height));
  }

  /** `paste_nearest`: the cached offsets paint the nearest-neighbour reference. */
  method PasteNearest(output: FrameBuffer, input: Frame, cell: Cell, xOffsets: seq<nat>, yRows: seq<nat>)
    requires output.Valid() && input.Valid() && cell.Within(output.width, output.height)
    requires MapFor(SamplingKey(input.width, input.height, cell.width, cell.height, Nearest))
          == NearestMap(xOffsets, yRows)
    modifies output.data
    ensures output.data[..] ==
      Painted(old(output.data[..]), output.width, Draw(cell, Scaled(Nearest, input, cell.width, cell.height)))
  {
    hide Offset, FrameBytes, Painted, Progress, NearestSourceCoordinate;
    ghost var before := output.data[..];
    ghost var draw := Draw(cell, Scaled(Nearest, input, cell.width, cell.height));
    ProgressStarts(before, output.width, draw);
    for y := 0 to cell.height
      invariant Progress(before, output.data[..], output.width, draw, y, 0)
    {
      PasteNearestRow(output, input, cell, y, yRows[y], xOffsets, before);
    }
    ProgressEnds(before, output.data[..], output.width, draw);
  }

  method PasteNearestRow(
    output: FrameBuffer, input: Frame, cell: Cell, y: U32, sourceRow: nat, xOffsets: seq<nat>, ghost before: seq<Byte>)
    requires output.Valid() && input.Valid() && cell.Within(output.width, output.height) && y < cell.height
    requires |xOffsets| == cell.width && |before| == output.data.Length
    requires forall x :: 0 <= x < cell.width ==>
      xOffsets[x] == NearestSourceCoordinate(x, input.width, cell.width) * BYTES_PER_PIXEL
    requires sourceRow == NearestSourceCoordinate(y, input.height, cell.height) * input.width * BYTES_PER_PIXEL
    requires Progress(before, output.data[..], output.width,
                      Draw(cell, Scaled(Nearest, input, cell.width, cell.height)), y, 0)
    modifies output.data
    ensures Progress(before, output.data[..], output.width,
                     Draw(cell, Scaled(Nearest, input, cell.width, cell.height)), y + 1, 0)
  {
    hide Offset, FrameBytes, Progress, NearestSourceCoordinate, Resampled;
    ghost var draw := Draw(cell, Scaled(Nearest, input, cell.width, cell.height));
    for x := 0 to cell.width
      invariant Progress(before, output.data[..], output.width, draw, y, x)
    {
      ghost var mid := output.data[..];
      var sourceOffset := sourceRow + xOffsets[x];
      var destinationOffset := Offset(output.width, cell.x + x, cell.y + y);
      CellInside(output.width, output.height, cell, x, y);
      NearestBytes(input, cell.width, cell.height, x, y);
      CopyFromSlice(output.data, destinationOffset, input.data[sourceOffset..sourceOffset + BYTES_PER_PIXEL]);
      ProgressPixel(before, mid, output.data[..], output.width, draw, y, x, destinationOffset);
    }
    ProgressNextRow(before, output.data[..], output.width, draw, y);
  }

  /** Byte position of a channel of an input pixel, from its row and column. */
  lemma ChannelAt(input: Frame, x: nat, y: nat, c: nat)
    requires input.Valid() && x < input.width && y < input.height && c < BYTES_PER_PIXEL
    ensures y * input.width * BYTES_PER_PIXEL + x * BYTES_PER_PIXEL + c < |input.data|
    ensures input.data[y * input.width * BYTES_PER_PIXEL + x * BYTES_PER_PIXEL + c] == input.Channel(x, y, c)
    ensures 0 <= y * input.width * BYTES_PER_PIXEL
  {
    OffsetInside(input.width, input.height, x, y);
    assert Offset(input.width, x, y) + c == y * input.width * BYTES_PER_PIXEL + x * BYTES_PER_PIXEL + c;
    assert 0 <= y * input.width;
  }

  /** One pixel of `paste_bilinear_row`: four channels, integer weights. */
  method BilinearPixel(target: array<Byte>, at: nat, input: Frame, xs: LinearSample, ys: LinearSample)
    requires input.Valid() && at + BYTES_PER_PIXEL <= target.Length
    requires xs.Inside(input.width) && ys.Inside(input.height)
    modifies target
    ensures forall k :: at <= k < at + BYTES_PER_PIXEL ==> target[k] == MixedByte(input, xs, ys, k - at)
    ensures forall k :: 0 <= k < target.Length && !(at <= k < at + BYTES_PER_PIXEL) ==> target[k] == old(target[k])
  {
    hide FrameBytes, MixedByte;
    var lowRow := ys.low * input.width * BYTES_PER_PIXEL;
    var highRow := ys.high * input.width * BYTES_PER_PIXEL;
    for c := 0 to 4
      invariant forall k :: at <= k < at + c ==> target[k] == MixedByte(input, xs, ys, k - at)
      invariant forall k :: 0 <= k < target.Length && !(at <= k < at + c) ==> target[k] == old(target[k])
    {
      ChannelAt(input, xs.low, ys.low, c);
      ChannelAt(input, xs.high, ys.low, c);
      ChannelAt(input, xs.low, ys.high, c);
      ChannelAt(input, xs.high, ys.high, c);
      target[at + c] := MixChannel(
        input.data[lowRow + xs.low * 4 + c], input.data[lowRow + xs.high * 4 + c],
        input.data[highRow + xs.low * 4 + c], input.data[highRow + xs.high * 4 + c],
        xs.highWeight, ys.highWeight);
      assert target[at + c] == MixedByte(input, xs, ys, c) by { MixedByteIs(input, xs, ys, c); }
    }
  }

  /** The rounded integer mix of four samples: a byte, by the bound on the weighted sum. */
  function MixChannel(a: Byte, b: Byte, c: Byte, d: Byte, xWeight: nat, yWeight: nat): (mixed: Byte)
    requires xWeight <= WEIGHT_SCALE && yWeight <= WEIGHT_SCALE
    ensures mixed == ToByte(Mix(Share(a), Share(b), Share(c), Share(d),
                                Weight(xWeight), Weight(yWeight)))
  {
    hide WeightedSum, Mix, ToByte, Weight;
    BilinearChannelIsReference(a, b, c, d, xWeight, yWeight);
    BlendOpaqueChannel(WeightedSum(a, b, c, d, xWeight, yWeight))
  }

  ghost function MixedByte(input: Frame, xs: LinearSample, ys: LinearSample, c: nat): Byte
    requires input.Valid() && xs.Inside(input.width) && ys.Inside(input.height) && c < 4
  {
    ToByte(Mix(
      Share(input.Channel(xs.low, ys.low, c)), Share(input.Channel(xs.high, ys.low, c)),
      Share(input.Channel(xs.low, ys.high, c)), Share(input.Channel(xs.high, ys.high, c)),
      Weight(xs.highWeight), Weight(ys.highWeight)))
  }

  lemma MixedByteIs(input: Frame, xs: LinearSample, ys: LinearSample, c: nat)
    requires input.Valid() && xs.Inside(input.width) && ys.Inside(input.height) && c < 4
    ensures MixedByte(input, xs, ys, c) == MixChannel(
      input.Channel(xs.low, ys.low, c), input.Channel(xs.high, ys.low, c),
      input.Channel(xs.low, ys.high, c), input.Channel(xs.high, ys.high, c), xs.highWeight, ys.highWeight)
  {
    hide Mix, ToByte, Weight, MixChannel, Frame.Channel;
  }

  /** `paste_bilinear`: the cached taps paint the rounded bilinear reference. */
  method PasteBilinear(output: FrameBuffer, input: Frame, cell: Cell, xSamples: seq<LinearSample>, ySamples: seq<LinearSample>)
    requires output.Valid() && input.Valid() && cell.Within(output.width, output.height)
    requires MapFor(SamplingKey(input.width, input.height, cell.width, cell.height, Bilinear))
          == BilinearMap(xSamples, ySamples)
    modifies output.data
    ensures output.data[..] ==
      Painted(old(output.data[..]), output.width, Draw(cell, Scaled(Bilinear, input, cell.width, cell.height)))
  {
    hide Offset, FrameBytes, Painted, Progress, LinearSampleAt;
    ghost var before := output.data[..];
    ghost var draw := Draw(cell, Scaled(Bilinear, input, cell.width, cell.height));
    ProgressStarts(before, output.width, draw);
    for y := 0 to cell.height
      invariant Progress(before, output.data[..], output.width, draw, y, 0)
    {
      PasteBilinearRow(output, input, cell, y, xSamples, ySamples[y], before);
    }
    ProgressEnds(before, output.data[..], output.width, draw);
  }

  method PasteBilinearRow(
    output: FrameBuffer, input: Frame, cell: Cell, y: U32, xSamples: seq<LinearSample>, ySample: LinearSample,
    ghost before: seq<Byte>)
    requires output.Valid() && input.Valid() && cell.Within(output.width, output.height) && y < cell.height
    requires |xSamples| == cell.width && |before| == output.data.Length
    requires forall x :: 0 <= x < cell.width ==> xSamples[x] == LinearSampleAt(x, input.width, cell.width)
    requires ySample == LinearSampleAt(y, input.height, cell.height)
    requires Progress(before, output.data[..], output.width,
                      Draw(cell, Scaled(Bilinear, input, cell.width, cell.height)), y, 0)
    modifies output.data
    ensures Progress(before, output.data[..], output.width,
                     Draw(cell, Scaled(Bilinear, input, cell.width, cell.height)), y + 1, 0)
  {
    hide Offset, FrameBytes, Progress, LinearSampleAt, Mix, ToByte, Weight, Frame.Channel;
    ghost var draw := Draw(cell, Scaled(Bilinear, input, cell.width, cell.height));
    for x := 0 to cell.width
      invariant Progress(before, output.data[..], output.width, draw, y, x)
    {
      ghost var mid := output.data[..];
      var destinationOffset := Offset(output.width, cell.x + x, cell.y + y);
      CellInside(output.width, output.height, cell, x, y);
      BilinearPixel(output.data, destinationOffset, input, xSamples[x], ySample);
      ProgressPixel(before, mid, output.data[..], output.width, draw, y, x, destinationOffset);
    }
    ProgressNextRow(before, output.data[..], output.width, draw, y);
  }
}
