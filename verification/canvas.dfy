/** The recycled output buffer and the meaning of painting a rectangle of it: bytes of
    the rectangle take the shader's value, every other byte keeps its own. */
module Canvas {
  import opened Numerics
  import opened Layout
  import opened Frames
  import opened Shading

  datatype Draw = Draw(cell: Cell, shader: Shader) {
    ghost predicate Valid() {
      shader.Valid()
    }
  }

  // ---- Which pixel does a byte belong to? ----------------------------------------------------

  function RowOf(width: nat, k: nat): nat
    requires 0 < width
  {
    DivNonNegative(k, width * BYTES_PER_PIXEL);
    k / (width * BYTES_PER_PIXEL)
  }

  function ColumnOf(width: nat, k: nat): nat
    requires 0 < width
  {
    k % (width * BYTES_PER_PIXEL) / BYTES_PER_PIXEL
  }

  lemma Locate(width: nat, x: nat, y: nat, c: nat)
    requires x < width && c < BYTES_PER_PIXEL
    ensures RowOf(width, Offset(width, x, y) + c) == y
    ensures ColumnOf(width, Offset(width, x, y) + c) == x
    ensures (Offset(width, x, y) + c) % BYTES_PER_PIXEL == c
  {
    var stride := width * BYTES_PER_PIXEL;
    var k := Offset(width, x, y) + c;
    var inRow := x * BYTES_PER_PIXEL + c;
    assert k == y * stride + inRow;
    assert inRow < stride;
    DivUnique(k, stride, y) by { assert (y + 1) * stride == y * stride + stride; }
    assert k % stride == inRow;
  }

  lemma BytePlace(width: nat, k: nat)
    requires 0 < width
    ensures ColumnOf(width, k) < width
    ensures Offset(width, ColumnOf(width, k), RowOf(width, k)) <= k
    ensures k < Offset(width, ColumnOf(width, k), RowOf(width, k)) + BYTES_PER_PIXEL
  {
    var stride := width * BYTES_PER_PIXEL;
    var (row, inRow) := (RowOf(width, k), k % stride);
    assert k == row * stride + inRow && 0 <= inRow < stride;
    RowOffset(width, inRow / BYTES_PER_PIXEL, row);
  }

  lemma RowInside(width: nat, height: nat, k: nat)
    requires 0 < width && k < FrameBytes(width, height)
    ensures RowOf(width, k) < height
  {
    assert FrameBytes(width, height) == height * (width * BYTES_PER_PIXEL);
    DivBelow(k, width * BYTES_PER_PIXEL, height);
  }

  /** Every byte of the buffer is a channel of exactly one pixel. */
  lemma EveryByteHasAPixel(width: nat, height: nat, k: nat)
    requires 0 < width && k < FrameBytes(width, height)
    ensures ColumnOf(width, k) < width && RowOf(width, k) < height
    ensures k == Offset(width, ColumnOf(width, k), RowOf(width, k)) + k % BYTES_PER_PIXEL
  {
    hide ColumnOf, RowOf, FrameBytes;
    BytePlace(width, k);
    RowInside(width, height, k);
    var pixel := RowOf(width, k) * width + ColumnOf(width, k);
    assert Offset(width, ColumnOf(width, k), RowOf(width, k)) == 4 * pixel;
  }

  /** The four bytes of a pixel, and no others, are located at it. */
  lemma PixelBytes(width: nat, x: nat, y: nat, k: nat)
    requires x < width
    ensures RowOf(width, k) == y && ColumnOf(width, k) == x
       <==> Offset(width, x, y) <= k < Offset(width, x, y) + BYTES_PER_PIXEL
  {
    hide ColumnOf, RowOf, Offset;
    BytePlace(width, k);
    if Offset(width, x, y) <= k < Offset(width, x, y) + BYTES_PER_PIXEL {
      Locate(width, x, y, k - Offset(width, x, y));
    }
  }

  // ---- Painting --------------------------------------------------------------------------------

  ghost function PaintedByte(under: Byte, k: nat, width: nat, draw: Draw): Byte
    requires 0 < width && draw.Valid()
  {
    var (x, y) := (ColumnOf(width, k), RowOf(width, k));
    if draw.cell.Contains(x, y) then
      draw.shader.Shade(x - draw.cell.x, y - draw.cell.y, k % BYTES_PER_PIXEL, under)
    else under
  }

  ghost function Painted(before: seq<Byte>, width: nat, draw: Draw): (after: seq<Byte>)
    requires 0 < width && draw.Valid()
    ensures |after| == |before|
    ensures forall k :: 0 <= k < |before| ==> after[k] == PaintedByte(before[k], k, width, draw)
  {
    seq(|before|, k requires 0 <= k < |before| => PaintedByte(before[k], k, width, draw))
  }

  /** Painting in progress: the rows above `y`, and the pixels left of `x` in row `y`
      (both counted inside the rectangle), are done; the rest of the buffer is untouched. */
  predicate Reached(width: nat, cell: Cell, k: nat, y: nat, x: nat)
    requires 0 < width
  {
    || RowOf(width, k) < cell.y + y
    || (RowOf(width, k) == cell.y + y && ColumnOf(width, k) < cell.x + x)
  }

  ghost predicate ByteProgress(before: seq<Byte>, now: seq<Byte>, k: nat, width: nat, draw: Draw, y: nat, x: nat)
    requires 0 < width && draw.Valid() && k < |before| == |now|
  {
    now[k] == if Reached(width, draw.cell, k, y, x) then PaintedByte(before[k], k, width, draw) else before[k]
  }

  ghost predicate Progress(before: seq<Byte>, now: seq<Byte>, width: nat, draw: Draw, y: nat, x: nat) {
    && 0 < width && draw.Valid()
    && |now| == |before|
    && forall k :: 0 <= k < |before| ==> ByteProgress(before, now, k, width, draw, y, x)
  }

  lemma ProgressStarts(before: seq<Byte>, width: nat, draw: Draw)
    requires 0 < width && draw.Valid()
    ensures Progress(before, before, width, draw, 0, 0)
  {
    hide RowOf, ColumnOf;
  }

  lemma ProgressEnds(before: seq<Byte>, now: seq<Byte>, width: nat, draw: Draw)
    requires Progress(before, now, width, draw, draw.cell.height, 0)
    ensures now == Painted(before, width, draw)
  {
    hide RowOf, ColumnOf;
    forall k | 0 <= k < |before| ensures now[k] == PaintedByte(before[k], k, width, draw) {
      assert ByteProgress(before, now, k, width, draw, draw.cell.height, 0);
    }
  }

  lemma ProgressNextRow(before: seq<Byte>, now: seq<Byte>, width: nat, draw: Draw, y: nat)
    requires Progress(before, now, width, draw, y, draw.cell.width)
    ensures Progress(before, now, width, draw, y + 1, 0)
  {
    hide RowOf, ColumnOf;
    var next := y + 1;
    forall k | 0 <= k < |before| ensures ByteProgress(before, now, k, width, draw, next, 0) {
      assert ByteProgress(before, now, k, width, draw, y, draw.cell.width);
    }
  }

  /** One pixel written: its four bytes took the shader's values over the original bytes. */
  lemma ProgressPixel(
    before: seq<Byte>, mid: seq<Byte>, now: seq<Byte>, width: nat, draw: Draw, y: nat, x: nat, offset: nat)
    requires Progress(before, mid, width, draw, y, x)
    requires x < draw.cell.width && y < draw.cell.height && draw.cell.x + x < width
    requires offset == Offset(width, draw.cell.x + x, draw.cell.y + y)
    requires offset + BYTES_PER_PIXEL <= |before| == |now|
    requires forall k :: offset <= k < offset + BYTES_PER_PIXEL ==>
      now[k] == draw.shader.Shade(x, y, k - offset, before[k])
    requires forall k :: 0 <= k < |before| && !(offset <= k < offset + BYTES_PER_PIXEL) ==> now[k] == mid[k]
    ensures Progress(before, now, width, draw, y, x + 1)
  {
    hide RowOf, ColumnOf, Offset;
    var next := x + 1;
    forall k | 0 <= k < |before| ensures ByteProgress(before, now, k, width, draw, y, next) {
      assert ByteProgress(before, mid, k, width, draw, y, x);
      PixelBytes(width, draw.cell.x + x, draw.cell.y + y, k);
      if offset <= k < offset + BYTES_PER_PIXEL {
        Locate(width, draw.cell.x + x, draw.cell.y + y, k - offset);
      }
    }
  }

  /** The bytes of a run of `count` pixels in one row, and no others, are located there. */
  lemma RunBytes(width: nat, x: nat, y: nat, count: nat, k: nat)
    requires 0 < width && x + count <= width
    ensures RowOf(width, k) == y && x <= ColumnOf(width, k) < x + count
       <==> Offset(width, x, y) <= k < Offset(width, x, y) + count * BYTES_PER_PIXEL
    ensures var i := k - Offset(width, x, y);
            0 <= i < count * BYTES_PER_PIXEL ==>
              ColumnOf(width, k) == x + i / BYTES_PER_PIXEL && k % BYTES_PER_PIXEL == i % BYTES_PER_PIXEL
  {
    hide ColumnOf, RowOf;
    var start := Offset(width, x, y);
    BytePlace(width, k);
    if start <= k < start + count * BYTES_PER_PIXEL {
      var i := k - start;
      assert k == Offset(width, x + i / BYTES_PER_PIXEL, y) + i % BYTES_PER_PIXEL;
      Locate(width, x + i / BYTES_PER_PIXEL, y, i % BYTES_PER_PIXEL);
    }
  }

  /** A whole row of the rectangle written at once. */
  lemma ProgressRow(
    before: seq<Byte>, mid: seq<Byte>, now: seq<Byte>, width: nat, draw: Draw, y: nat, start: nat)
    requires Progress(before, mid, width, draw, y, 0)
    requires y < draw.cell.height && draw.cell.x + draw.cell.width <= width
    requires start == Offset(width, draw.cell.x, draw.cell.y + y)
    requires start + draw.cell.width * BYTES_PER_PIXEL <= |before| == |now|
    requires forall k :: start <= k < start + draw.cell.width * BYTES_PER_PIXEL ==>
      now[k] == draw.shader.Shade((k - start) / BYTES_PER_PIXEL, y, (k - start) % BYTES_PER_PIXEL, before[k])
    requires forall k :: 0 <= k < |before| && !(start <= k < start + draw.cell.width * BYTES_PER_PIXEL) ==>
      now[k] == mid[k]
    ensures Progress(before, now, width, draw, y + 1, 0)
  {
    hide RowOf, ColumnOf, Offset;
    var next := y + 1;
    forall k | 0 <= k < |before| ensures ByteProgress(before, now, k, width, draw, next, 0) {
      assert ByteProgress(before, mid, k, width, draw, y, 0);
      RunBytes(width, draw.cell.x, draw.cell.y + y, draw.cell.width, k);
    }
  }

  // ---- The buffer --------------------------------------------------------------------------------

  /** A mutable output frame; its size never changes. */
  class FrameBuffer {
    const width: U32
    const height: U32
    const data: array<Byte>

    ghost predicate Valid() {
      0 < width && 0 < height && data.Length == FrameBytes(width, height)
    }

    constructor (width: U32, height: U32)
      requires 0 < width && 0 < height
      ensures Valid() && this.width == width && this.height == height && fresh(data)
    {
      this.width := width;
      this.height := height;
      this.data := new Byte[FrameBytes(width, height)];
    }
  }

  /** `slice[at..at + len].copy_from_slice(source)`. */
  method CopyFromSlice(target: array<Byte>, at: nat, source: seq<Byte>)
    requires at + |source| <= target.Length
    modifies target
    ensures forall k :: at <= k < at + |source| ==> target[k] == source[k - at]
    ensures forall k :: 0 <= k < target.Length && !(at <= k < at + |source|) ==> target[k] == old(target[k])
  {
    forall i | 0 <= i < |source| {
      target[at + i] := source[i];
    }
  }

  /** `slice.copy_within(from..from + count, to)`. */
  method CopyWithin(target: array<Byte>, from: nat, count: nat, to: nat)
    requires from + count <= target.Length && to + count <= target.Length
    modifies target
    ensures forall k :: to <= k < to + count ==> target[k] == old(target[from + (k - to)])
    ensures forall k :: 0 <= k < target.Length && !(to <= k < to + count) ==> target[k] == old(target[k])
  {
    forall i | 0 <= i < count {
      target[to + i] := target[from + i];
    }
  }
}
