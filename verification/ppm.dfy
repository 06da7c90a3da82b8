/** The exported picture (`encode_ppm` in `src/app/io_worker.rs`): a binary PPM file, and a
    reader of that format to hold it against. */
module Ppm {
  import opened Numerics
  import opened Wrappers
  import opened Frames

  type Bytes = seq<Byte>

  const CHUNK_BYTES: nat := 4 * 4096

  const SPACE: Byte := 0x20
  const NEWLINE: Byte := 0x0A
  const MAGIC: Bytes := [0x50, 0x36, NEWLINE]
  const DEPTH: Bytes := [0x32, 0x35, 0x35, NEWLINE]

  predicate Digit(byte: Byte) {
    0x30 <= byte < 0x3A
  }

  predicate AllDigits(bytes: Bytes) {
    forall k :: 0 <= k < |bytes| ==> Digit(bytes[k])
  }

  function Decimal(n: nat): (digits: Bytes)
    ensures |digits| > 0 && AllDigits(digits)
  {
    if n < 10 then [0x30 + n] else Decimal(n / 10) + [0x30 + n % 10]
  }

  function Header(width: nat, height: nat): Bytes {
    MAGIC + (Decimal(width) + ([SPACE] + (Decimal(height) + ([NEWLINE] + DEPTH))))
  }

  /** Red, green and blue of the first `pixels` pixels of a blue-green-red-alpha buffer. */
  function Rgb(data: Bytes, pixels: nat): (rgb: Bytes)
    requires pixels * 4 <= |data|
    ensures |rgb| == pixels * 3
  {
    if pixels == 0 then []
    else
      var p := pixels - 1;
      Rgb(data, p) + [data[p * 4 + 2], data[p * 4 + 1], data[p * 4]]
  }

  function PpmFile(frame: Frame): Bytes {
    Header(frame.width, frame.height) + Rgb(frame.data, |frame.data| / 4)
  }

  // ---- The encoder ---------------------------------------------------------------------------------

  function Looks(bytes: nat): nat {
    (bytes + 4 * CHUNK_BYTES - 1) / (4 * CHUNK_BYTES)
  }

  lemma LookAhead(index: nat, bytes: nat)
    requires index % 4 == 0 && index * CHUNK_BYTES < bytes
    ensures index / 4 < Looks(bytes)
  {
  }

  lemma LooksTaken(index: nat, bytes: nat)
    requires bytes <= index * CHUNK_BYTES && (index > 0 ==> (index - 1) * CHUNK_BYTES < bytes)
    ensures (index + 3) / 4 == Looks(bytes)
  {
  }

  /** A look before every 64 KiB of the frame, the last stretch shorter. */
  lemma LooksEverySixtyFourKilobytes(bytes: nat)
    ensures Looks(bytes) == (bytes + 65535) / 65536
  {
  }

  /** `cancelled(k)` is what the k-th look at the state word finds; a look precedes every
      fourth chunk, and the first that finds a cancel ends the job. */
  method EncodePpm(frame: Frame, cancelled: nat -> bool) returns (bytes: Option<Bytes>)
    requires |frame.data| % 4 == 0
    ensures bytes.Some? ==> bytes.value == PpmFile(frame)
    ensures bytes.Some? <==> forall k :: 0 <= k < Looks(|frame.data|) ==> !cancelled(k)
  {
    hide Header, Decimal, Rgb, Looks;
    var encoded := Header(frame.width, frame.height);
    var position: nat := 0;
    var index: nat := 0;
    while position < |frame.data|
      invariant position == Min(index * CHUNK_BYTES, |frame.data|)
      invariant encoded == Header(frame.width, frame.height) + Rgb(frame.data, position / 4)
      invariant forall k :: 0 <= k < (index + 3) / 4 ==> !cancelled(k)
      invariant index > 0 ==> (index - 1) * CHUNK_BYTES < |frame.data|
      decreases |frame.data| - position
    {
      if index % 4 == 0 && cancelled(index / 4) {
        LookAhead(index, |frame.data|);
        return None;
      }
      var end := Min(position + CHUNK_BYTES, |frame.data|);
      var rgb := AppendPixels(frame.data, position / 4, end / 4);
      assert Header(frame.width, frame.height) + Rgb(frame.data, position / 4) + rgb
          == Header(frame.width, frame.height) + (Rgb(frame.data, position / 4) + rgb);
      encoded := encoded + rgb;
      position := end;
      index := index + 1;
    }
    LooksTaken(index, |frame.data|);
    bytes := Some(encoded);
  }

  method AppendPixels(data: Bytes, from: nat, to: nat) returns (rgb: Bytes)
    requires from <= to && to * 4 <= |data|
    ensures Rgb(data, from) + rgb == Rgb(data, to)
  {
    rgb := [];
    var pixel := from;
    while pixel < to
      invariant from <= pixel <= to
      invariant Rgb(data, from) + rgb == Rgb(data, pixel)
    {
      rgb := rgb + [data[pixel * 4 + 2], data[pixel * 4 + 1], data[pixel * 4]];
      pixel := pixel + 1;
    }
  }

  // ---- A reader --------------------------------------------------------------------------------------

  function DecimalValue(digits: Bytes): nat
    requires AllDigits(digits)
  {
    if |digits| == 0 then 0
    else DecimalValue(digits[..|digits| - 1]) * 10 + (digits[|digits| - 1] - 0x30)
  }

  /** How many bytes at the start are digits. */
  function DigitCount(bytes: Bytes): (count: nat)
    ensures count <= |bytes| && AllDigits(bytes[..count])
  {
    if |bytes| == 0 || !Digit(bytes[0]) then 0 else 1 + DigitCount(bytes[1..])
  }

  datatype Picture = Picture(width: nat, height: nat, rgb: Bytes)

  /** A number and what follows it. */
  function ReadNumber(bytes: Bytes): Option<(nat, Bytes)> {
    var count := DigitCount(bytes);
    if count == 0 then None else Some((DecimalValue(bytes[..count]), bytes[count..]))
  }

  function ReadExactly(expected: Bytes, bytes: Bytes): Option<Bytes> {
    if |expected| <= |bytes| && bytes[..|expected|] == expected then Some(bytes[|expected|..]) else None
  }

  function ReadSize(bytes: Bytes): Option<(nat, nat, Bytes)> {
    var width := ReadNumber(bytes);
    if width.None? then None else
    var gap := ReadExactly([SPACE], width.value.1);
    if gap.None? then None else
    var height := ReadNumber(gap.value);
    if height.None? then None else Some((width.value.0, height.value.0, height.value.1))
  }

  /** Magic, width, space, height, newline, depth 255, newline, then three bytes a pixel. */
  function ReadPpm(bytes: Bytes): Option<Picture> {
    var rest := ReadExactly(MAGIC, bytes);
    if rest.None? then None else
    var size := ReadSize(rest.value);
    if size.None? then None else
    var rgb := ReadExactly([NEWLINE] + DEPTH, size.value.2);
    if rgb.None? || |rgb.value| != size.value.0 * size.value.1 * 3 then None
    else Some(Picture(size.value.0, size.value.1, rgb.value))
  }

  lemma {:induction false} DecimalReadsBack(n: nat)
    ensures DecimalValue(Decimal(n)) == n
  {
    if n >= 10 {
      DecimalReadsBack(n / 10);
      assert Decimal(n)[..|Decimal(n)| - 1] == Decimal(n / 10);
    }
  }

  lemma {:induction false} DigitsEndAtTheFirstOther(digits: Bytes, rest: Bytes)
    requires AllDigits(digits) && (|rest| == 0 || !Digit(rest[0]))
    ensures DigitCount(digits + rest) == |digits|
  {
    if |digits| > 0 {
      assert (digits + rest)[1..] == digits[1..] + rest;
      DigitsEndAtTheFirstOther(digits[1..], rest);
    } else {
      assert digits + rest == rest;
    }
  }

  lemma NumberReadsBack(n: nat, rest: Bytes)
    requires |rest| == 0 || !Digit(rest[0])
    ensures ReadNumber(Decimal(n) + rest) == Some((n, rest))
  {
    DigitsEndAtTheFirstOther(Decimal(n), rest);
    DecimalReadsBack(n);
  }

  lemma ExactlyReadsBack(expected: Bytes, rest: Bytes)
    ensures ReadExactly(expected, expected + rest) == Some(rest)
  {
  }

  lemma SizeReadsBack(width: nat, height: nat, rest: Bytes)
    requires |rest| == 0 || !Digit(rest[0])
    ensures ReadSize(Decimal(width) + ([SPACE] + (Decimal(height) + rest))) == Some((width, height, rest))
  {
    hide Decimal, ReadNumber, ReadExactly;
    NumberReadsBack(width, [SPACE] + (Decimal(height) + rest));
    ExactlyReadsBack([SPACE], Decimal(height) + rest);
    NumberReadsBack(height, rest);
  }

  lemma PixelCount(frame: Frame)
    requires frame.Valid()
    ensures |frame.data| % 4 == 0 && |frame.data| / 4 == frame.width * frame.height
  {
  }

  /** What the exporter writes is read back as a picture of the frame's size whose every
      pixel is the frame's, in red, green, blue order. */
  lemma ExportReadsBack(frame: Frame)
    requires frame.Valid()
    ensures |frame.data| % 4 == 0
    ensures ReadPpm(PpmFile(frame)) == Some(Picture(frame.width, frame.height, Rgb(frame.data, |frame.data| / 4)))
  {
    var rgb := Rgb(frame.data, |frame.data| / 4);
    var body := [NEWLINE] + DEPTH + rgb;
    PixelCount(frame);
    hide Decimal, ReadSize, ReadExactly, Rgb;
    FileParts(frame);
    ExactlyReadsBack(MAGIC, Decimal(frame.width) + ([SPACE] + (Decimal(frame.height) + body)));
    SizeReadsBack(frame.width, frame.height, body);
    ExactlyReadsBack([NEWLINE] + DEPTH, rgb);
    hide PpmFile;
  }

  lemma FileParts(frame: Frame)
    ensures PpmFile(frame) ==
            MAGIC + (Decimal(frame.width) + ([SPACE] + (Decimal(frame.height)
            + ([NEWLINE] + DEPTH + Rgb(frame.data, |frame.data| / 4)))))
  {
    hide Decimal, Rgb;
  }

  lemma {:induction false} RgbAt(data: Bytes, pixels: nat, p: nat, c: nat)
    requires pixels * 4 <= |data| && p < pixels && c < 3
    ensures Rgb(data, pixels)[p * 3 + c] == data[p * 4 + 2 - c]
  {
    if p < pixels - 1 {
      RgbAt(data, pixels - 1, p, c);
    }
  }

  lemma ExportedPixel(frame: Frame, x: nat, y: nat, c: nat)
    requires frame.Valid() && x < frame.width && y < frame.height && c < 3
    ensures |frame.data| % 4 == 0 && 0 <= y * frame.width + x < |frame.data| / 4
    ensures Rgb(frame.data, |frame.data| / 4)[(y * frame.width + x) * 3 + c] == frame.Channel(x, y, 2 - c)
  {
    var p := y * frame.width + x;
    OffsetInside(frame.width, frame.height, x, y);
    MulMonotone(0, y, frame.width);
    assert Offset(frame.width, x, y) == p * 4;
    assert |frame.data| % 4 == 0;
    RgbAt(frame.data, |frame.data| / 4, p, c);
    hide Rgb, Offset, FrameBytes;
  }
}
