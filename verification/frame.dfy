/** Validated frames and padded frame views (`src/frame.rs`). Copy-on-write sharing is
    invisible to a reader, so an immutable frame is a value. */
module Frames {
  import opened Numerics
  import opened Wrappers
  import opened MediaContract

  const BYTES_PER_PIXEL: int := 4

  datatype FrameError =
    | InvalidDimensions
    | BufferTooLarge
    | FrameLimitExceeded(bytes: nat, limit: nat)
    | InvalidBufferLength(expected: nat, actual: nat)
    | InvalidRowStride(minimum: nat, actual: nat)
    | InvalidContract(reason: MediaError)

  /** Byte position of a pixel in a buffer whose rows are `width` pixels apart. */
  function Offset(width: nat, x: nat, y: nat): nat {
    (y * width + x) * BYTES_PER_PIXEL
  }

  function FrameBytes(width: nat, height: nat): nat {
    width * height * BYTES_PER_PIXEL
  }

  lemma OffsetInside(width: nat, height: nat, x: nat, y: nat)
    requires x < width && y < height
    ensures Offset(width, x, y) + BYTES_PER_PIXEL <= FrameBytes(width, height)
  {
    MulMonotone(y + 1, height, width);
    assert (y + 1) * width == y * width + width;
  }

  datatype Frame = Frame(width: U32, height: U32, contract: FrameContract, data: seq<Byte>) {

    /** What every constructor establishes and `SetContract` keeps. */
    ghost predicate Valid() {
      && 0 < width && 0 < height
      && |data| == FrameBytes(width, height)
      && Validate(contract, width, height).Ok?
    }

    /** Channel `c` of pixel (x, y), in blue, green, red, alpha order. */
    function Channel(x: nat, y: nat, c: nat): Byte
      requires Valid() && x < width && y < height && c < 4
    {
      hide Offset, FrameBytes;
      OffsetInside(width, height, x, y);
      data[Offset(width, x, y) + c]
    }
  }

  function ByteLength(width: U32, height: U32, limit: U64): Result<nat, FrameError> {
    if width == 0 || height == 0 then Err(InvalidDimensions) else
    var bytes := FrameBytes(width, height);
    if bytes >= U64_LIMIT then Err(BufferTooLarge)
    else if bytes > limit then Err(FrameLimitExceeded(bytes, limit))
    else Ok(bytes)
  }

  function NewChecked(width: U32, height: U32, data: seq<Byte>, limit: U64): Result<Frame, FrameError> {
    var length := ByteLength(width, height, limit);
    if length.Err? then Err(length.error)
    else if |data| != length.value then Err(InvalidBufferLength(length.value, |data|))
    else Ok(Frame(width, height, CanonicalBgra(width, height), data))
  }

  function NewCheckedWithContract(
    width: U32, height: U32, contract: FrameContract, data: seq<Byte>, limit: U64): Result<Frame, FrameError>
  {
    var valid := Validate(contract, width, height);
    var frame := NewChecked(width, height, data, limit);
    if valid.Err? then Err(InvalidContract(valid.error))
    else if frame.Err? then Err(frame.error)
    else Ok(frame.value.(contract := contract))
  }

  function SetContract(frame: Frame, contract: FrameContract): Result<Frame, FrameError> {
    var valid := Validate(contract, frame.width, frame.height);
    if valid.Err? then Err(InvalidContract(valid.error)) else Ok(frame.(contract := contract))
  }

  /** A frame is accepted exactly when it is valid and within the memory limit. */
  lemma AcceptedFramesAreValid(width: U32, height: U32, contract: FrameContract, data: seq<Byte>, limit: U64)
    ensures NewCheckedWithContract(width, height, contract, data, limit) == Ok(Frame(width, height, contract, data))
       <==> Frame(width, height, contract, data).Valid() && |data| <= limit
    ensures NewChecked(width, height, data, limit).Ok? ==> NewChecked(width, height, data, limit).value.Valid()
  {
  }

  /** A frame can be given exactly the descriptions that are valid for its size, and stays
      valid; its pixels are not touched. */
  lemma SetContractKeepsFrames(frame: Frame, contract: FrameContract)
    requires frame.Valid()
    ensures SetContract(frame, contract).Ok? <==> frame.(contract := contract).Valid()
    ensures SetContract(frame, contract).Ok? ==> SetContract(frame, contract).value == frame.(contract := contract)
  {
    hide FrameBytes;
  }

  // ---- Padded views --------------------------------------------------------------------

  datatype FrameView = FrameView(
    width: U32, height: U32, contract: FrameContract, rowStride: nat, data: seq<Byte>)
  {
    ghost predicate Valid() {
      && 0 < width && 0 < height
      && width * BYTES_PER_PIXEL <= rowStride
      && LastRowFits()
      && Validate(contract, width, height).Ok?
    }

    ghost predicate LastRowFits()
      requires 0 < height
    {
      (height - 1) * rowStride + width * BYTES_PER_PIXEL <= |data|
    }

    /** Active pixels of one row, without the padding behind it. */
    function Row(y: U32): seq<Byte>
      requires Valid() && y < height
    {
      RowInside(this, y);
      data[y * rowStride..y * rowStride + width * BYTES_PER_PIXEL]
    }
  }

  lemma RowInside(view: FrameView, y: U32)
    requires view.Valid() && y < view.height
    ensures 0 <= y * view.rowStride
    ensures y * view.rowStride + view.width * BYTES_PER_PIXEL <= |view.data|
  {
    MulMonotone(y, view.height - 1, view.rowStride);
  }

  /** The active bytes of the first `rows` rows, in order. */
  ghost function PackedRows(view: FrameView, rows: nat): seq<Byte>
    requires view.Valid() && rows <= view.height
  {
    if rows == 0 then [] else PackedRows(view, rows - 1) + view.Row(rows - 1)
  }

  lemma {:induction false} PackedLength(view: FrameView, rows: nat)
    requires view.Valid() && rows <= view.height
    ensures |PackedRows(view, rows)| == rows * (view.width * BYTES_PER_PIXEL)
  {
    if 0 < rows {
      PackedLength(view, rows - 1);
      RowInside(view, rows - 1);
      assert rows * (view.width * BYTES_PER_PIXEL) == (rows - 1) * (view.width * BYTES_PER_PIXEL) + view.width * BYTES_PER_PIXEL;
    }
  }

  lemma RowOffset(width: nat, x: nat, y: nat)
    ensures Offset(width, x, y) == y * (width * BYTES_PER_PIXEL) + x * BYTES_PER_PIXEL
  {
  }

  lemma {:induction false} PackedPixel(view: FrameView, rows: nat, x: U32, y: U32, c: nat)
    requires view.Valid() && y < rows <= view.height && x < view.width && c < 4
    ensures Offset(view.width, x, y) + c < |PackedRows(view, rows)|
    ensures x * 4 + c < |view.Row(y)|
    ensures PackedRows(view, rows)[Offset(view.width, x, y) + c] == view.Row(y)[x * 4 + c]
  {
    hide Offset, FrameView.Row, FrameView.LastRowFits;
    RowOffset(view.width, x, y);
    PackedLength(view, rows);
    PackedLength(view, rows - 1);
    RowLength(view, y);
    if y < rows - 1 {
      PackedPixel(view, rows - 1, x, y, c);
    }
  }

  lemma RowLength(view: FrameView, y: U32)
    requires view.Valid() && y < view.height
    ensures |view.Row(y)| == view.width * BYTES_PER_PIXEL
  {
    RowInside(view, y);
  }

  lemma PackedAll(view: FrameView)
    requires view.Valid()
    ensures |PackedRows(view, view.height)| == FrameBytes(view.width, view.height)
  {
    hide FrameView.LastRowFits;
    PackedLength(view, view.height);
  }

  ghost predicate SameChannel(frame: Frame, view: FrameView, x: U32, y: U32, c: nat)
    requires view.Valid() && frame.Valid() && frame.width == view.width && frame.height == view.height
    requires x < view.width && y < view.height && c < 4
  {
    x * 4 + c < |view.Row(y)| && frame.Channel(x, y, c) == view.Row(y)[x * 4 + c]
  }

  /** Same size, same interpretation, and every channel of every pixel is the view's. */
  ghost predicate ShowsView(frame: Frame, view: FrameView)
    requires view.Valid()
  {
    && frame.Valid()
    && frame.width == view.width && frame.height == view.height && frame.contract == view.contract
    && forall x: U32, y: U32, c: nat | x < view.width && y < view.height && c < 4 ::
      SameChannel(frame, view, x, y, c)
  }

  lemma PackedShowsView(view: FrameView)
    requires view.Valid()
    ensures ShowsView(Frame(view.width, view.height, view.contract, PackedRows(view, view.height)), view)
  {
    hide FrameView.Row, Offset, FrameBytes, FrameView.LastRowFits;
    var frame := Frame(view.width, view.height, view.contract, PackedRows(view, view.height));
    PackedAll(view);
    forall x: U32, y: U32, c: nat | x < view.width && y < view.height && c < 4
      ensures SameChannel(frame, view, x, y, c)
    {
      PackedPixel(view, view.height, x, y, c);
      OffsetInside(view.width, view.height, x, y);
    }
  }

  /** Row-by-row copy into a tightly packed frame: it succeeds exactly when the frame
      fits the limit, and then shows what the view showed. */
  method ToOwnedTightlyPacked(view: FrameView, limit: U64) returns (r: Result<Frame, FrameError>)
    requires view.Valid()
    ensures r.Ok? <==> ByteLength(view.width, view.height, limit).Ok?
    ensures r.Ok? ==> ShowsView(r.value, view)
  {
    hide FrameView.Row, ShowsView, FrameBytes, FrameView.LastRowFits;
    var length := ByteLength(view.width, view.height, limit);
    if length.Err? {
      return Err(length.error);
    }
    var pixels: seq<Byte> := [];
    for y := 0 to view.height
      invariant pixels == PackedRows(view, y)
    {
      pixels := pixels + view.Row(y);
    }
    PackedAll(view);
    PackedShowsView(view);
    r := NewCheckedWithContract(view.width, view.height, view.contract, pixels, limit);
  }
}
