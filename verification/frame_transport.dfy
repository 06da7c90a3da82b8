/** The frame spool's file format, writer and reader (`src/frame_transport.rs`). */
module FrameTransport {
  import opened Numerics
  import opened Wrappers
  import opened MediaContract
  import opened Frames
  import opened LittleEndians

  type U128 = x: int | 0 <= x < U64_LIMIT * U64_LIMIT

  type Bytes = seq<Byte>

  const MAGIC: Bytes := [0x43, 0x4D, 0x41, 0x4E]
  const VERSION: U32 := 4
  const HEADER_LENGTH: nat := 76
  const WIRE_BGRA8: U32 := 1

  datatype TransportFrame = TransportFrame(
    frame: Frame,
    sequence: U64,
    generation: U64,
    monotonicNanos: U64,
    wallNanos: U128,
    fps: U32)

  datatype TransportError = NotConnected | NotNormalized | Io | FileTooLarge(bytes: nat) | BadFrame(reason: FrameError)

  // ---- Layout ----------------------------------------------------------------------------------------

  /** The header's twelve fields, in file order. */
  function Header(t: TransportFrame): (fields: seq<Bytes>)
    ensures |fields| == 12
  {
    [MAGIC,
     LittleEndian(4, VERSION),
     LittleEndian(4, t.frame.width),
     LittleEndian(4, t.frame.height),
     LittleEndian(4, WIRE_BGRA8),
     LittleEndian(4, t.fps),
     LittleEndian(4, WireCode(t.frame.contract.colorimetry)),
     LittleEndian(8, t.sequence),
     LittleEndian(8, t.generation),
     LittleEndian(8, t.monotonicNanos),
     LittleEndian(16, t.wallNanos),
     LittleEndian(8, |t.frame.data|)]
  }

  /** The first `count` fields, written one after the other. */
  function Written(fields: seq<Bytes>, count: nat): Bytes
    requires count <= |fields|
  {
    if count == 0 then [] else Written(fields, count - 1) + fields[count - 1]
  }

  function Encode(t: TransportFrame): Bytes {
    Written(Header(t), 12) + t.frame.data
  }

  /** Where each field starts, as the reader has it; the last entry is the header's length. */
  const STARTS: seq<nat> := [0, 4, 8, 12, 16, 20, 24, 28, 36, 44, 52, 68, 76]

  predicate LaidOut(fields: seq<Bytes>, starts: seq<nat>) {
    && |starts| == |fields| + 1 && starts[0] == 0
    && forall k :: 0 <= k < |fields| ==> FieldFits(fields, starts, k)
  }

  predicate FieldFits(fields: seq<Bytes>, starts: seq<nat>, k: nat)
    requires |starts| == |fields| + 1
  {
    k < |fields| && starts[k] + |fields[k]| == starts[k + 1]
  }

  lemma HeaderIsLaidOut(t: TransportFrame)
    ensures LaidOut(Header(t), STARTS)
  {
  }

  lemma {:induction false} WrittenLength(fields: seq<Bytes>, starts: seq<nat>, count: nat)
    requires LaidOut(fields, starts) && count <= |fields|
    ensures |Written(fields, count)| == starts[count]
  {
    if count > 0 {
      WrittenLength(fields, starts, count - 1);
      assert FieldFits(fields, starts, count - 1);
    }
  }

  /** Each field can be cut out again at its place, whatever follows the header. */
  lemma {:induction false} FieldAt(fields: seq<Bytes>, starts: seq<nat>, count: nat, k: nat, rest: Bytes)
    requires LaidOut(fields, starts) && k < count <= |fields|
    ensures starts[k] <= starts[k + 1] <= |Written(fields, count) + rest|
    ensures (Written(fields, count) + rest)[starts[k]..starts[k + 1]] == fields[k]
    decreases count
  {
    WrittenLength(fields, starts, count);
    WrittenLength(fields, starts, count - 1);
    assert FieldFits(fields, starts, k);
    assert Written(fields, count) == Written(fields, count - 1) + fields[count - 1];
    hide Written, LaidOut;
    if k < count - 1 {
      FieldAt(fields, starts, count - 1, k, fields[count - 1] + rest);
      assert Written(fields, count) + rest == Written(fields, count - 1) + (fields[count - 1] + rest);
    } else {
      CutMiddle(Written(fields, k), fields[k], rest);
    }
  }

  lemma CutMiddle(a: Bytes, b: Bytes, c: Bytes)
    ensures (a + b + c)[|a|..|a| + |b|] == b
  {
  }

  predicate FieldIs(fields: seq<Bytes>, starts: seq<nat>, bytes: Bytes, k: nat)
    requires |starts| == |fields| + 1
  {
    k < |fields| && starts[k] <= starts[k + 1] <= |bytes| && bytes[starts[k]..starts[k + 1]] == fields[k]
  }

  /** The fields a byte string was cut into put it back together. */
  lemma {:induction false} CutAndWritten(fields: seq<Bytes>, starts: seq<nat>, count: nat, bytes: Bytes)
    requires LaidOut(fields, starts) && count <= |fields| && starts[count] <= |bytes|
    requires forall k :: 0 <= k < |fields| ==> FieldIs(fields, starts, bytes, k)
    ensures Written(fields, count) == bytes[..starts[count]]
  {
    if count > 0 {
      assert FieldIs(fields, starts, bytes, count - 1);
      CutAndWritten(fields, starts, count - 1, bytes);
    }
  }

  // ---- Reading --------------------------------------------------------------------------------------------

  function Cut(bytes: Bytes, start: nat, end: nat): Bytes
    requires start <= end <= |bytes|
  {
    bytes[start..end]
  }

  function ReadU32(bytes: Bytes, offset: nat): U32
    requires offset + 4 <= |bytes|
  {
    WriteRead(Cut(bytes, offset, offset + 4));
    Capacities();
    FromLittleEndian(Cut(bytes, offset, offset + 4))
  }

  function ReadU64(bytes: Bytes, offset: nat): U64
    requires offset + 8 <= |bytes|
  {
    WriteRead(Cut(bytes, offset, offset + 8));
    Capacities();
    FromLittleEndian(Cut(bytes, offset, offset + 8))
  }

  function ReadU128(bytes: Bytes, offset: nat): U128
    requires offset + 16 <= |bytes|
  {
    WriteRead(Cut(bytes, offset, offset + 16));
    Capacities();
    FromLittleEndian(Cut(bytes, offset, offset + 16))
  }

  /** Ok(None) for bytes that are not a complete frame of this version. */
  function Parse(bytes: Bytes, limit: U64): Result<Option<TransportFrame>, FrameError> {
    if |bytes| < HEADER_LENGTH || bytes[..4] != MAGIC then Ok(None)
    else
      var width := ReadU32(bytes, 8);
      var height := ReadU32(bytes, 12);
      var colorimetry := FromWireCode(ReadU32(bytes, 24));
      if colorimetry.None? then Ok(None)
      else if ReadU32(bytes, 4) != VERSION || ReadU32(bytes, 16) != WIRE_BGRA8 || colorimetry.value != BT709_FULL_OPAQUE
      then Ok(None)
      else if |bytes| != HEADER_LENGTH + ReadU64(bytes, 68) then Ok(None)
      else
        var contract := CanonicalBgra(width, height).(colorimetry := colorimetry.value);
        var frame := NewCheckedWithContract(width, height, contract, bytes[HEADER_LENGTH..], limit);
        if frame.Err? then Err(frame.error)
        else Ok(Some(TransportFrame(frame.value, ReadU64(bytes, 28), ReadU64(bytes, 36), ReadU64(bytes, 44),
                                    ReadU128(bytes, 52), Max(ReadU32(bytes, 20), 1))))
  }

  /** What a writer can put in a file and a reader with this limit accepts. */
  ghost predicate Sendable(t: TransportFrame, limit: U64) {
    && t.frame.Valid() && IsCanonicalBgra(t.frame.contract, t.frame.width, t.frame.height)
    && |t.frame.data| <= limit && 1 <= t.fps
  }

  // ---- Round trips ---------------------------------------------------------------------------------------------

  lemma FieldReadsBack(t: TransportFrame, k: nat)
    requires k < 12
    ensures STARTS[k] <= STARTS[k + 1] <= |Encode(t)|
    ensures Cut(Encode(t), STARTS[k], STARTS[k + 1]) == Header(t)[k]
  {
    HeaderIsLaidOut(t);
    FieldAt(Header(t), STARTS, 12, k, t.frame.data);
  }

  lemma EncodedParts(t: TransportFrame)
    ensures |Encode(t)| == HEADER_LENGTH + |t.frame.data|
    ensures Encode(t)[HEADER_LENGTH..] == t.frame.data
    ensures Encode(t)[..4] == MAGIC
  {
    HeaderIsLaidOut(t);
    WrittenLength(Header(t), STARTS, 12);
    FieldReadsBack(t, 0);
  }

  lemma U32FieldReadsBack(t: TransportFrame, k: nat, value: U32)
    requires k < 12 && STARTS[k + 1] == STARTS[k] + 4 && Header(t)[k] == LittleEndian(4, value)
    ensures STARTS[k] + 4 <= |Encode(t)| && ReadU32(Encode(t), STARTS[k]) == value
  {
    hide Header, Encode;
    FieldReadsBack(t, k);
    Capacities();
    ReadWritten(4, value);
  }

  lemma U64FieldReadsBack(t: TransportFrame, k: nat, value: U64)
    requires k < 12 && STARTS[k + 1] == STARTS[k] + 8 && Header(t)[k] == LittleEndian(8, value)
    ensures STARTS[k] + 8 <= |Encode(t)| && ReadU64(Encode(t), STARTS[k]) == value
  {
    hide Header, Encode;
    FieldReadsBack(t, k);
    Capacities();
    ReadWritten(8, value);
  }

  lemma FormatReadsBack(t: TransportFrame)
    ensures |Encode(t)| >= HEADER_LENGTH
    ensures ReadU32(Encode(t), 4) == VERSION && ReadU32(Encode(t), 16) == WIRE_BGRA8
    ensures ReadU32(Encode(t), 8) == t.frame.width && ReadU32(Encode(t), 12) == t.frame.height
    ensures ReadU32(Encode(t), 20) == t.fps
    ensures ReadU32(Encode(t), 24) == WireCode(t.frame.contract.colorimetry)
  {
    EncodedParts(t);
    hide Encode, LittleEndian, FromLittleEndian, ReadU32;
    U32FieldReadsBack(t, 1, VERSION);
    U32FieldReadsBack(t, 2, t.frame.width);
    U32FieldReadsBack(t, 3, t.frame.height);
    U32FieldReadsBack(t, 4, WIRE_BGRA8);
    U32FieldReadsBack(t, 5, t.fps);
    U32FieldReadsBack(t, 6, WireCode(t.frame.contract.colorimetry));
  }

  lemma StampsReadBack(t: TransportFrame)
    requires |t.frame.data| < U64_LIMIT
    ensures |Encode(t)| >= HEADER_LENGTH
    ensures ReadU64(Encode(t), 28) == t.sequence && ReadU64(Encode(t), 36) == t.generation
    ensures ReadU64(Encode(t), 44) == t.monotonicNanos && ReadU128(Encode(t), 52) == t.wallNanos
    ensures ReadU64(Encode(t), 68) == |t.frame.data|
  {
    EncodedParts(t);
    hide Encode, LittleEndian, FromLittleEndian, ReadU64, Capacity;
    U64FieldReadsBack(t, 7, t.sequence);
    U64FieldReadsBack(t, 8, t.generation);
    U64FieldReadsBack(t, 9, t.monotonicNanos);
    U64FieldReadsBack(t, 11, |t.frame.data|);
    FieldReadsBack(t, 10);
    Capacities();
    ReadWritten(16, t.wallNanos);
  }

  /** The file begins with "CMAN", then version 4 and pixel format 1 as four little-endian
      bytes; the two sizes stand between them, the rate and colour code behind. */
  lemma FileBegins(t: TransportFrame)
    ensures |Encode(t)| == 76 + |t.frame.data|
    ensures Encode(t)[0..4] == [0x43, 0x4D, 0x41, 0x4E]
    ensures Encode(t)[4..8] == [4, 0, 0, 0] && Encode(t)[16..20] == [1, 0, 0, 0]
    ensures Encode(t)[8..12] == LittleEndian(4, t.frame.width) && Encode(t)[12..16] == LittleEndian(4, t.frame.height)
    ensures Encode(t)[20..24] == LittleEndian(4, t.fps)
    ensures Encode(t)[24..28] == LittleEndian(4, WireCode(t.frame.contract.colorimetry))
  {
    EncodedParts(t);
    SmallNumber(4);
    SmallNumber(1);
    hide Encode, LittleEndian;
    FieldReadsBack(t, 1);
    FieldReadsBack(t, 2);
    FieldReadsBack(t, 3);
    FieldReadsBack(t, 4);
    FieldReadsBack(t, 5);
    FieldReadsBack(t, 6);
  }

  /** Then sequence and generation, the two clocks, and the length of what follows. */
  lemma FileContinues(t: TransportFrame)
    ensures |Encode(t)| == 76 + |t.frame.data|
    ensures Encode(t)[28..36] == LittleEndian(8, t.sequence) && Encode(t)[36..44] == LittleEndian(8, t.generation)
    ensures Encode(t)[44..52] == LittleEndian(8, t.monotonicNanos) && Encode(t)[52..68] == LittleEndian(16, t.wallNanos)
    ensures Encode(t)[68..76] == LittleEndian(8, |t.frame.data|) && Encode(t)[76..] == t.frame.data
  {
    EncodedParts(t);
    hide Encode, LittleEndian;
    FieldReadsBack(t, 7);
    FieldReadsBack(t, 8);
    FieldReadsBack(t, 9);
    FieldReadsBack(t, 10);
    FieldReadsBack(t, 11);
  }

  lemma SmallNumber(value: Byte)
    ensures LittleEndian(4, value) == [value, 0, 0, 0]
  {
    assert value / 0x100 == 0;
    assert LittleEndian(3, 0) == [0] + LittleEndian(2, 0);
    assert LittleEndian(2, 0) == [0] + LittleEndian(1, 0);
    assert LittleEndian(1, 0) == [0] + LittleEndian(0, 0);
  }

  /** Every frame a writer can send is read back exactly. */
  lemma WrittenFrameIsRead(t: TransportFrame, limit: U64)
    requires Sendable(t, limit)
    ensures Parse(Encode(t), limit) == Ok(Some(t))
  {
    EncodedParts(t);
    FormatReadsBack(t);
    StampsReadBack(t);
    WireCodeInverse(WireCode(BT709_FULL_OPAQUE), BT709_FULL_OPAQUE);
    AcceptedFramesAreValid(t.frame.width, t.frame.height, t.frame.contract, t.frame.data, limit);
    hide Encode, ReadU32, ReadU64, ReadU128, WireCode, FromWireCode, NewCheckedWithContract, FrameBytes;
  }

  lemma ReadFrameIsSendable(bytes: Bytes, limit: U64, t: TransportFrame)
    requires Parse(bytes, limit) == Ok(Some(t))
    ensures Sendable(t, limit)
    ensures |bytes| >= HEADER_LENGTH && t.frame.data == bytes[HEADER_LENGTH..] && |t.frame.data| == ReadU64(bytes, 68)
    ensures t.frame.width == ReadU32(bytes, 8) && t.frame.height == ReadU32(bytes, 12)
    ensures ReadU32(bytes, 24) == WireCode(t.frame.contract.colorimetry)
    ensures bytes[..4] == MAGIC && ReadU32(bytes, 4) == VERSION && ReadU32(bytes, 16) == WIRE_BGRA8
    ensures t.sequence == ReadU64(bytes, 28) && t.generation == ReadU64(bytes, 36)
    ensures t.monotonicNanos == ReadU64(bytes, 44) && t.wallNanos == ReadU128(bytes, 52)
    ensures t.fps == Max(ReadU32(bytes, 20), 1)
  {
    hide ReadU32, ReadU64, ReadU128, WireCode, FromWireCode, FrameBytes;
    WireCodeInverse(ReadU32(bytes, 24), BT709_FULL_OPAQUE);
    var width := ReadU32(bytes, 8);
    var height := ReadU32(bytes, 12);
    var contract := CanonicalBgra(width, height);
    AcceptedFramesAreValid(width, height, contract, bytes[HEADER_LENGTH..], limit);
    assert NewCheckedWithContract(width, height, contract, bytes[HEADER_LENGTH..], limit).Ok?;
  }

  lemma U32FieldIs(fields: seq<Bytes>, bytes: Bytes, k: nat)
    requires |fields| == 12 && k < 12 && STARTS[k + 1] == STARTS[k] + 4 <= |bytes|
    requires fields[k] == LittleEndian(4, ReadU32(bytes, STARTS[k]))
    ensures FieldIs(fields, STARTS, bytes, k)
  {
    WriteRead(Cut(bytes, STARTS[k], STARTS[k] + 4));
    hide LittleEndian, FromLittleEndian;
  }

  lemma U64FieldIs(fields: seq<Bytes>, bytes: Bytes, k: nat)
    requires |fields| == 12 && k < 12 && STARTS[k + 1] == STARTS[k] + 8 <= |bytes|
    requires fields[k] == LittleEndian(8, ReadU64(bytes, STARTS[k]))
    ensures FieldIs(fields, STARTS, bytes, k)
  {
    WriteRead(Cut(bytes, STARTS[k], STARTS[k] + 8));
    hide LittleEndian, FromLittleEndian;
  }

  lemma FormatFieldsAre(bytes: Bytes, limit: U64, t: TransportFrame, k: nat)
    requires Parse(bytes, limit) == Ok(Some(t)) && k <= 6
    requires |bytes| >= HEADER_LENGTH && ReadU32(bytes, 20) >= 1
    ensures FieldIs(Header(t), STARTS, bytes, k)
  {
    ReadFrameIsSendable(bytes, limit, t);
    hide Parse, ReadU32, ReadU64, ReadU128, WireCode, LittleEndian, FromLittleEndian, Sendable;
    if k == 0 {
      assert bytes[0..4] == bytes[..4];
    } else {
      hide FieldIs;
      U32FieldIs(Header(t), bytes, k);
    }
  }

  lemma HeaderFieldsAre(bytes: Bytes, limit: U64, t: TransportFrame, k: nat)
    requires Parse(bytes, limit) == Ok(Some(t)) && k < 12
    requires |bytes| >= HEADER_LENGTH && ReadU32(bytes, 20) >= 1
    ensures FieldIs(Header(t), STARTS, bytes, k)
  {
    hide FieldIs, Parse, ReadU32, ReadU64, ReadU128, WireCode, LittleEndian, FromLittleEndian, Sendable;
    if k <= 6 {
      FormatFieldsAre(bytes, limit, t, k);
    } else {
      ReadFrameIsSendable(bytes, limit, t);
      if k == 10 {
        WallFieldIs(Header(t), bytes);
      } else {
        U64FieldIs(Header(t), bytes, k);
      }
    }
  }

  lemma WallFieldIs(fields: seq<Bytes>, bytes: Bytes)
    requires |fields| == 12 && |bytes| >= HEADER_LENGTH
    requires fields[10] == LittleEndian(16, ReadU128(bytes, 52))
    ensures FieldIs(fields, STARTS, bytes, 10)
  {
    WriteRead(Cut(bytes, 52, 68));
    hide LittleEndian, FromLittleEndian;
  }

  /** Bytes read as a frame are that frame's encoding, exactly unless they advertise a rate
      of zero, which the reader turns into one. */
  lemma ReadFrameEncodesToItsBytes(bytes: Bytes, limit: U64, t: TransportFrame)
    requires Parse(bytes, limit) == Ok(Some(t))
    ensures |bytes| >= HEADER_LENGTH
    ensures Encode(t) == bytes <==> ReadU32(bytes, 20) >= 1
  {
    ReadFrameIsSendable(bytes, limit, t);
    FormatReadsBack(t);
    hide Parse, ReadU32, Header, Sendable;
    if ReadU32(bytes, 20) >= 1 {
      forall k: nat | k < 12 ensures FieldIs(Header(t), STARTS, bytes, k) {
        HeaderFieldsAre(bytes, limit, t, k);
      }
      HeaderIsLaidOut(t);
      CutAndWritten(Header(t), STARTS, 12, bytes);
      assert bytes == bytes[..HEADER_LENGTH] + bytes[HEADER_LENGTH..];
    }
  }

  /** A black pixel in a file that advertises no rate: read as one frame a second, it does not
      encode back to the file. */
  lemma RatelessFileIsNotItsEncoding()
    ensures var pixel := Frame(1, 1, CanonicalBgra(1, 1), [0, 0, 0, 255]);
            var rateless := TransportFrame(pixel, 0, 0, 0, 0, 0);
            && Parse(Encode(rateless), 4) == Ok(Some(rateless.(fps := 1)))
            && Encode(rateless.(fps := 1)) != Encode(rateless)
  {
    var pixel := Frame(1, 1, CanonicalBgra(1, 1), [0, 0, 0, 255]);
    assert FrameBytes(1, 1) == 4;
    assert pixel.Valid();
    RatelessIsReadAsOne(TransportFrame(pixel, 0, 0, 0, 0, 0), 4);
  }

  lemma RatelessIsReadAsOne(t: TransportFrame, limit: U64)
    requires Sendable(t.(fps := 1), limit) && t.fps == 0
    ensures Parse(Encode(t), limit) == Ok(Some(t.(fps := 1)))
    ensures Encode(t.(fps := 1)) != Encode(t)
  {
    EncodedParts(t);
    FormatReadsBack(t);
    FormatReadsBack(t.(fps := 1));
    StampsReadBack(t);
    WireCodeInverse(WireCode(BT709_FULL_OPAQUE), BT709_FULL_OPAQUE);
    AcceptedFramesAreValid(t.frame.width, t.frame.height, t.frame.contract, t.frame.data, limit);
    hide Encode, ReadU32, ReadU64, ReadU128, WireCode, FromWireCode, NewCheckedWithContract, FrameBytes;
  }

  /** Writer and reader are inverse to each other. */
  lemma TransportInverse(bytes: Bytes, limit: U64, t: TransportFrame)
    ensures Parse(bytes, limit) == Ok(Some(t)) && |bytes| >= HEADER_LENGTH && ReadU32(bytes, 20) >= 1
       <==> bytes == Encode(t) && Sendable(t, limit)
  {
    hide Parse, ReadU32, Encode, Sendable;
    if Parse(bytes, limit) == Ok(Some(t)) {
      ReadFrameEncodesToItsBytes(bytes, limit, t);
      ReadFrameIsSendable(bytes, limit, t);
    }
    if bytes == Encode(t) && Sendable(t, limit) {
      WrittenFrameIsRead(t, limit);
      ReadFrameEncodesToItsBytes(bytes, limit, t);
    }
  }

  // ---- The spool file ---------------------------------------------------------------------------------------------

  const VIRTUAL_CAMERA_DEFAULT_FPS: U32 := 30

  /** The writer's fields, and the file at its path: absent until the first rename. */
  datatype Spool = Spool(connected: bool, sequence: U64, generation: U64, targetFps: U32, file: Option<Bytes>)

  /** What the clocks say, and whether the file operations up to the rename succeed. */
  datatype Moment = Moment(monotonicNanos: U64, wallNanos: U128, ioSucceeds: bool)

  function NextFrame(s: Spool, frame: Frame, now: Moment): TransportFrame {
    TransportFrame(frame, s.sequence, s.generation, now.monotonicNanos, now.wallNanos, s.targetFps)
  }

  function SendError(s: Spool, frame: Frame, now: Moment): Option<TransportError> {
    if !s.connected then Some(NotConnected)
    else if !IsCanonicalBgra(frame.contract, frame.width, frame.height) then Some(NotNormalized)
    else if !now.ioSucceeds then Some(Io)
    else None
  }

  function AfterSend(s: Spool, frame: Frame, now: Moment): Spool {
    if SendError(s, frame, now).Some? then s
    else s.(sequence := (s.sequence + 1) % U64_LIMIT, file := Some(Encode(NextFrame(s, frame, now))))
  }

  function ReadLatest(file: Option<Bytes>, limit: U64): Result<Option<TransportFrame>, TransportError> {
    if file.None? then Ok(None)
    else if limit + HEADER_LENGTH >= U64_LIMIT then Err(FileTooLarge(U64_LIMIT - 1))
    else if |file.value| > limit + HEADER_LENGTH then Err(FileTooLarge(|file.value|))
    else match Parse(file.value, limit)
      case Ok(frame) => Ok(frame)
      case Err(reason) => Err(BadFrame(reason))
  }

  class FrameSpoolSink {
    var connected: bool
    var sequence: U64
    var generation: U64
    var targetFps: U32
    var file: Option<Bytes>

    function State(): Spool
      reads this
    {
      Spool(connected, sequence, generation, targetFps, file)
    }

    constructor (newGeneration: U64, present: Option<Bytes>)
      ensures State() == Spool(false, 0, newGeneration, 30, present)
    {
      connected, sequence, generation, targetFps := false, 0, newGeneration, VIRTUAL_CAMERA_DEFAULT_FPS;
      file := present;
    }

    method SetTargetFps(fps: U32)
      modifies this`targetFps
      ensures targetFps == Max(fps, 1)
    {
      targetFps := Max(fps, 1);
    }

    method Connect()
      modifies this`connected
      ensures connected
    {
      connected := true;
    }

    method Disconnect()
      modifies this`connected
      ensures !connected
    {
      connected := false;
    }

    /** Field after field into a temporary file, then one rename. */
    method Send(frame: Frame, now: Moment) returns (error: Option<TransportError>)
      modifies this`sequence, this`file
      ensures error == SendError(old(State()), frame, now)
      ensures State() == AfterSend(old(State()), frame, now)
    {
      if !connected {
        return Some(NotConnected);
      }
      if !IsCanonicalBgra(frame.contract, frame.width, frame.height) {
        return Some(NotNormalized);
      }
      if !now.ioSucceeds {
        return Some(Io);
      }
      var bytes := WriteFrame(sequence, generation, targetFps, frame, now);
      file := Some(bytes);
      sequence := (sequence + 1) % U64_LIMIT;
      return None;
    }

    static method WriteFrame(sequence: U64, generation: U64, fps: U32, frame: Frame, now: Moment) returns (temp: Bytes)
      ensures temp == Encode(TransportFrame(frame, sequence, generation, now.monotonicNanos, now.wallNanos, fps))
    {
      hide LittleEndian, WireCode;
      ghost var fields := Header(TransportFrame(frame, sequence, generation, now.monotonicNanos, now.wallNanos, fps));
      temp := MAGIC;
      assert temp == Written(fields, 1);
      temp := temp + LittleEndian(4, VERSION);
      assert temp == Written(fields, 2);
      temp := temp + LittleEndian(4, frame.width);
      assert temp == Written(fields, 3);
      temp := temp + LittleEndian(4, frame.height);
      assert temp == Written(fields, 4);
      temp := temp + LittleEndian(4, WIRE_BGRA8);
      assert temp == Written(fields, 5);
      temp := temp + LittleEndian(4, fps);
      assert temp == Written(fields, 6);
      temp := temp + LittleEndian(4, WireCode(frame.contract.colorimetry));
      assert temp == Written(fields, 7);
      temp := temp + LittleEndian(8, sequence);
      assert temp == Written(fields, 8);
      temp := temp + LittleEndian(8, generation);
      assert temp == Written(fields, 9);
      temp := temp + LittleEndian(8, now.monotonicNanos);
      assert temp == Written(fields, 10);
      temp := temp + LittleEndian(16, now.wallNanos);
      assert temp == Written(fields, 11);
      temp := temp + LittleEndian(8, |frame.data|);
      assert temp == Written(fields, 12);
      temp := temp + frame.data;
    }
  }

  /** After a send that reported no error, a reader gets that very frame, or the error that
      it is larger than the reader's limit; after any other send it gets what it got before. */
  lemma ReaderSeesTheLastSend(s: Spool, frame: Frame, now: Moment, limit: U64)
    requires frame.Valid() && 1 <= s.targetFps && limit + HEADER_LENGTH < U64_LIMIT
    ensures var t := AfterSend(s, frame, now);
            if SendError(s, frame, now).Some? then ReadLatest(t.file, limit) == ReadLatest(s.file, limit)
            else if |frame.data| > limit then ReadLatest(t.file, limit) == Err(FileTooLarge(HEADER_LENGTH + |frame.data|))
            else ReadLatest(t.file, limit) == Ok(Some(NextFrame(s, frame, now)))
  {
    hide Parse, Encode, FrameBytes;
    var sent := NextFrame(s, frame, now);
    if SendError(s, frame, now).None? {
      EncodedParts(sent);
      if |frame.data| <= limit {
        WrittenFrameIsRead(sent, limit);
      }
    }
  }
}
