/** Where a destination pixel samples its source (`src/render.rs`): the one definition
    of nearest scaling, the two-tap linear sample, and a source's place in its cell.
    Positions the source computes in `f64` are exact rationals here. */
module Sampling {
  import opened Numerics

  datatype ScalingFilter = Nearest | Bilinear

  function NearestSourceCoordinate(dest: U32, sourceSize: U32, destSize: U32): U32 {
    hide MulDiv;
    Min(AsU32(MulDiv(dest, sourceSize, Max(destSize, 1))), SaturatingSub(sourceSize, 1))
  }

  /** Never outside a non-empty source, whatever the destination coordinate. */
  lemma NearestInside(dest: U32, sourceSize: U32, destSize: U32)
    requires 0 < sourceSize
    ensures NearestSourceCoordinate(dest, sourceSize, destSize) < sourceSize
  {
    hide MulDiv;
  }

  /** Inside the destination neither the cast nor the clamp takes part, and the
      coordinates follow the destination's order. */
  lemma NearestExact(dest: U32, dest': U32, sourceSize: U32, destSize: U32)
    requires dest <= dest' < destSize && 0 < sourceSize
    ensures NearestSourceCoordinate(dest, sourceSize, destSize) == MulDiv(dest, sourceSize, destSize)
    ensures NearestSourceCoordinate(dest, sourceSize, destSize) <= NearestSourceCoordinate(dest', sourceSize, destSize)
  {
    hide MulDiv;
    MulDivBelow(dest, sourceSize, destSize);
    MulDivBelow(dest', sourceSize, destSize);
    MulDivMonotone(dest, dest', sourceSize, destSize);
  }

  lemma NearestSameSize(dest: U32, size: U32)
    requires dest < size
    ensures NearestSourceCoordinate(dest, size, size) == dest
  {
    hide MulDiv;
    MulDivWhole(dest, size);
  }

  // ---- Linear samples --------------------------------------------------------------------

  const WEIGHT_SCALE: int := 256

  datatype LinearSample = LinearSample(low: nat, high: nat, highWeight: nat) {
    predicate Inside(size: nat) {
      low < size && high < size && highWeight <= WEIGHT_SCALE
    }
  }

  function ClampReal(x: real, low: real, high: real): real {
    if x < low then low else if high < x then high else x
  }

  /** `round` on a non-negative value: halves go up. */
  function RoundHalfUp(x: real): int {
    (x + 0.5).Floor
  }

  function RealMulDiv(a: real, b: real, d: real): real
    requires d != 0.0
  {
    a * b / d
  }

  lemma RealMulDivCancel(a: real, b: real)
    requires b != 0.0
    ensures RealMulDiv(a, b, b) == a
  {
  }

  /** Centre of a destination pixel on the source's grid, clamped to its pixel centres. */
  function LinearPosition(dest: U32, sourceSize: U32, destSize: U32): real
    requires 1 < sourceSize
  {
    ClampReal(RealMulDiv(dest as real + 0.5, sourceSize as real, Max(destSize, 1) as real) - 0.5,
              0.0, (sourceSize - 1) as real)
  }

  function LinearSampleAt(dest: U32, sourceSize: U32, destSize: U32): (sample: LinearSample)
    ensures 0 < sourceSize ==> sample.Inside(sourceSize)
    ensures sample.low <= sample.high
  {
    if sourceSize <= 1 then LinearSample(0, 0, 0) else
    hide LinearPosition;
    LinearPositionInside(dest, sourceSize, destSize);
    var position := LinearPosition(dest, sourceSize, destSize);
    var low := position.Floor;
    LinearSample(low, Min(low + 1, sourceSize - 1), Min(RoundHalfUp((position - low as real) * 256.0), 256))
  }

  lemma LinearPositionInside(dest: U32, sourceSize: U32, destSize: U32)
    requires 1 < sourceSize
    ensures 0.0 <= LinearPosition(dest, sourceSize, destSize) <= (sourceSize - 1) as real
  {
  }

  /** At equal sizes a pixel samples itself with its whole weight. */
  lemma LinearSameSize(dest: U32, size: U32)
    requires dest < size
    ensures var sample := LinearSampleAt(dest, size, size);
            sample.low == dest && sample.highWeight == 0
  {
    if 1 < size {
      hide RealMulDiv;
      RealMulDivCancel(dest as real + 0.5, size as real);
      assert LinearPosition(dest, size, size) == dest as real;
    }
  }

  // ---- Linear samples in whole numbers -------------------------------------------------------

  /** Twice the destination size times the sampled position: the centre of destination pixel
      `dest`, on a scale where source pixel k has its centre at 2 * destSize * k, kept between
      the first and the last centre. */
  function ScaledPosition(dest: int, sourceSize: int, destSize: int): int {
    Clamp((2 * dest + 1) * sourceSize - destSize, 0, 2 * destSize * (sourceSize - 1))
  }

  /** The low tap is the last centre not after the position, the high tap the next pixel, and
      the weight counts 256ths of the way between them, rounded with halves up. */
  predicate SamplesAt(sample: LinearSample, position: int, sourceSize: int, destSize: int) {
    && LastNotAfter(sample.low, position, 2 * destSize)
    && sample.high == Min(sample.low + 1, sourceSize - 1)
    && RoundedTo256ths(256 * sample.low + sample.highWeight, position, 2 * destSize)
  }

  predicate LastNotAfter(pixel: int, position: int, unit: int) {
    pixel * unit <= position < (pixel + 1) * unit
  }

  /** `reached` / 256 is the nearest to `position` / `unit`, the larger of two. */
  predicate RoundedTo256ths(reached: int, position: int, unit: int) {
    -unit < 2 * (reached * unit - 256 * position) <= unit
  }

  lemma ScaledIsReal(dest: U32, sourceSize: U32, destSize: U32)
    requires 1 < sourceSize && 0 < destSize
    ensures LinearPosition(dest, sourceSize, destSize) * (2 * destSize) as real ==
            ScaledPosition(dest, sourceSize, destSize) as real
  {
    var (d, s, n) := (destSize as real, sourceSize as real, dest as real);
    var unit := 2.0 * d;
    var quotient := RealMulDiv(n + 0.5, s, d);
    assert quotient * d == (n + 0.5) * s;
    var raw := (2 * dest + 1) * sourceSize - destSize;
    assert (quotient - 0.5) * unit == raw as real by {
      assert (quotient - 0.5) * unit == 2.0 * (quotient * d) - d;
      assert ((2 * dest + 1) * sourceSize) as real == (2.0 * n + 1.0) * s;
    }
    var end := sourceSize - 1;
    assert (2 * destSize * end) as real == end as real * unit;
    hide RealMulDiv;
    ClampScales(quotient - 0.5, end as real, unit);
  }

  lemma ClampScales(x: real, high: real, unit: real)
    requires 0.0 < unit && 0.0 <= high
    ensures ClampReal(x, 0.0, high) * unit == ClampReal(x * unit, 0.0, high * unit)
  {
  }

  function RealProduct(a: real, b: real): real {
    a * b
  }

  lemma ProductAsReal(a: int, b: int)
    ensures (a * b) as real == RealProduct(a as real, b as real)
  {
  }

  lemma RealMulOrder(a: real, b: real, c: real)
    requires 0.0 < c
    ensures a <= b ==> RealProduct(a, c) <= RealProduct(b, c)
    ensures a < b ==> RealProduct(a, c) < RealProduct(b, c)
  {
  }

  lemma FloorScales(position: real, unit: int, scaled: int)
    requires 0 < unit && position * unit as real == scaled as real
    ensures position.Floor * unit <= scaled < (position.Floor + 1) * unit
  {
    assert RealProduct(position, unit as real) == scaled as real;
    hide RealProduct;
    var (low, next) := (position.Floor, position.Floor + 1);
    assert low as real <= position < next as real;
    RealMulOrder(low as real, position, unit as real);
    RealMulOrder(position, next as real, unit as real);
    ProductAsReal(low, unit);
    ProductAsReal(next, unit);
    RealOrderIsIntOrder(low * unit, scaled);
    RealOrderIsIntOrder(next * unit, scaled);
  }

  lemma RealOrderIsIntOrder(a: int, b: int)
    ensures a <= b <==> a as real <= b as real
    ensures a > b <==> a as real > b as real
  {
  }

  lemma SplitScales(position: real, unit: int, scaled: int)
    requires 0 < unit && position * unit as real == scaled as real
    ensures var low := position.Floor; var weight := RoundHalfUp((position - low as real) * 256.0);
            && weight <= 256 && LastNotAfter(low, scaled, unit) && RoundedTo256ths(256 * low + weight, scaled, unit)
  {
    FloorScales(position, unit, scaled);
    var low := position.Floor;
    var part := (position - low as real) * 256.0;
    assert 0.0 <= part < 256.0;
    var weight := RoundHalfUp(part);
    var reached := 256.0 * position + 0.5;
    assert 256 * low + weight == reached.Floor;
    var (doubled, twice) := (512 * scaled + unit, 2 * unit);
    DoubledScales(position, unit as real, scaled as real);
    FloorScales(reached, twice, doubled);
    WeightBounds(256 * low + weight, unit, scaled);
  }

  lemma SampleSplits(dest: U32, sourceSize: U32, destSize: U32)
    requires 1 < sourceSize
    ensures var position := LinearPosition(dest, sourceSize, destSize); var low := position.Floor;
            var sample := LinearSampleAt(dest, sourceSize, destSize);
            && sample.low == low && sample.high == Min(low + 1, sourceSize - 1)
            && sample.highWeight == Min(RoundHalfUp((position - low as real) * 256.0), 256)
  {
    hide LinearPosition, RoundHalfUp;
  }

  lemma DoubledScales(position: real, unit: real, scaled: real)
    requires position * unit == scaled
    ensures (256.0 * position + 0.5) * (2.0 * unit) == 512.0 * scaled + unit
  {
  }

  /** The sample in whole numbers, for every pair of sizes. */
  lemma LinearSampleIsExact(dest: U32, sourceSize: U32, destSize: U32)
    requires 1 < sourceSize && 0 < destSize
    ensures SamplesAt(LinearSampleAt(dest, sourceSize, destSize), ScaledPosition(dest, sourceSize, destSize), sourceSize, destSize)
  {
    hide LinearPosition, ScaledPosition, RoundHalfUp, LastNotAfter, RoundedTo256ths, LinearSampleAt;
    ScaledIsReal(dest, sourceSize, destSize);
    var position := LinearPosition(dest, sourceSize, destSize);
    SplitScales(position, 2 * destSize, ScaledPosition(dest, sourceSize, destSize));
    SampleSplits(dest, sourceSize, destSize);
  }

  lemma WeightBounds(reached: int, unit: int, scaled: int)
    requires reached * (2 * unit) <= 512 * scaled + unit < (reached + 1) * (2 * unit)
    ensures RoundedTo256ths(reached, scaled, unit)
  {
    assert reached * (2 * unit) == 2 * (reached * unit);
    assert (reached + 1) * (2 * unit) == 2 * (reached * unit) + 2 * unit;
  }

  /** The position in 256ths of a source pixel. */
  function Reached(sample: LinearSample): int {
    256 * sample.low + sample.highWeight
  }

  /** A position half way between two 256ths. */
  predicate Halfway(position: int, unit: int)
    requires 0 < unit
  {
    256 * position % unit == unit / 2
  }

  /** Destination pixels mirrored about the middle sample places mirrored about the middle;
      only halves, which both round up, come out one 256th too far. */
  lemma MirroredDestination(dest: U32, sourceSize: U32, destSize: U32)
    requires 1 < sourceSize && dest < destSize
    ensures Reached(LinearSampleAt(dest, sourceSize, destSize)) +
            Reached(LinearSampleAt(destSize - 1 - dest, sourceSize, destSize)) ==
            256 * (sourceSize - 1) + if Halfway(ScaledPosition(dest, sourceSize, destSize), 2 * destSize) then 1 else 0
  {
    hide LinearSampleAt, ScaledPosition, RoundedTo256ths, LastNotAfter, Halfway;
    var other: U32 := destSize - 1 - dest;
    var (there, back) := (LinearSampleAt(dest, sourceSize, destSize), LinearSampleAt(other, sourceSize, destSize));
    LinearSampleIsExact(dest, sourceSize, destSize);
    LinearSampleIsExact(other, sourceSize, destSize);
    MirroredPosition(dest, sourceSize, destSize);
    RoundedFromBothEnds(Reached(there), Reached(back), ScaledPosition(dest, sourceSize, destSize),
                        ScaledPosition(other, sourceSize, destSize), sourceSize - 1, 2 * destSize);
  }

  lemma MirroredPosition(dest: int, sourceSize: int, destSize: int)
    requires 1 <= sourceSize && 0 <= destSize
    ensures Opposite(ScaledPosition(dest, sourceSize, destSize), ScaledPosition(destSize - 1 - dest, sourceSize, destSize),
                     sourceSize - 1, 2 * destSize)
  {
    var other := destSize - 1 - dest;
    assert (2 * other + 1) * sourceSize == 2 * destSize * sourceSize - (2 * dest + 1) * sourceSize;
    assert 2 * destSize * (sourceSize - 1) == 2 * destSize * sourceSize - 2 * destSize;
    MulMonotone(0, 2 * destSize, sourceSize - 1);
  }

  predicate Opposite(p: int, q: int, end: int, unit: int) {
    p + q == unit * end
  }

  lemma RoundedFromBothEnds(a: int, b: int, p: int, q: int, end: int, unit: int)
    requires 0 < unit && unit % 2 == 0 && Opposite(p, q, end, unit)
    requires RoundedTo256ths(a, p, unit) && RoundedTo256ths(b, q, unit)
    ensures a + b == 256 * end + if Halfway(p, unit) then 1 else 0
  {
    var half := unit / 2;
    var x := a * unit - 256 * p;
    var y := b * unit - 256 * q;
    SumOfBoth(a, b, end, unit);
    NoneOrOne(a + b - 256 * end, x + y, unit);
    if x == half {
      RestOf(256 * p, unit, a - 1, half);
      Step(a, unit);
    } else if x > 0 {
      RestOf(256 * p, unit, a - 1, unit - x);
      Step(a, unit);
    } else {
      RestOf(256 * p, unit, a, -x);
    }
  }

  lemma SumOfBoth(a: int, b: int, end: int, unit: int)
    ensures (a + b - 256 * end) * unit == a * unit + b * unit - 256 * (unit * end)
  {
  }

  lemma Step(a: int, unit: int)
    ensures (a - 1) * unit == a * unit - unit
  {
  }

  lemma NoneOrOne(total: int, sum: int, unit: int)
    requires 0 < unit && total * unit == sum && -unit < sum <= unit
    ensures total == if sum == unit then 1 else 0
  {
    MulMonotone(total, -1, unit);
    MulMonotone(2, total, unit);
    MulMonotone(1, total, unit);
    MulMonotone(total, 0, unit);
  }

  lemma RestOf(n: int, unit: int, quotient: int, rest: int)
    requires 0 <= rest < unit && n == quotient * unit + rest
    ensures n % unit == rest
  {
    Step(quotient + 1, unit);
    DivUnique(n, unit, quotient);
  }

  // ---- Mirrored and shifted coordinates -----------------------------------------------------

  function MirroredCoordinate(coordinate: nat, size: U32, mirror: bool): nat {
    var coordinate := Min(coordinate, SaturatingSub(size, 1));
    if mirror then SaturatingSub(SaturatingSub(size, 1), coordinate) else coordinate
  }

  function ShiftedLinearSample(dest: U32, sourceSize: U32, destSize: U32, sourceOffset: U32): LinearSample {
    var sample := LinearSampleAt(dest, sourceSize, destSize);
    LinearSample(sample.low + sourceOffset, sample.high + sourceOffset, sample.highWeight)
  }

  /** A window that begins at `sourceOffset` is sampled as a source of its own would be. */
  lemma ShiftedSampleIsExact(dest: U32, sourceSize: U32, destSize: U32, sourceOffset: U32)
    requires 0 < sourceSize && 0 < destSize
    ensures var sample := ShiftedLinearSample(dest, sourceSize, destSize, sourceOffset);
            && sourceOffset <= sample.low <= sample.high < sourceOffset + sourceSize
            && (1 < sourceSize ==>
                  SamplesAt(LinearSample(sample.low - sourceOffset, sample.high - sourceOffset, sample.highWeight),
                            ScaledPosition(dest, sourceSize, destSize), sourceSize, destSize))
  {
    hide SamplesAt, ScaledPosition;
    if 1 < sourceSize {
      LinearSampleIsExact(dest, sourceSize, destSize);
    }
  }

  function MirroredLinearSample(sample: LinearSample, size: U32, mirror: bool): LinearSample {
    if mirror then
      var last := SaturatingSub(size, 1);
      sample.(low := SaturatingSub(last, sample.low), high := SaturatingSub(last, sample.high))
    else sample
  }

  /** A share of free space: from none at -1000 to all of it at 1000. */
  function PositionedOffset(space: U32, position: I16): U32 {
    hide MulDiv;
    var normalized := Clamp(position, -1000, 1000) + 1000;
    MulDivAtMost(normalized, space, 2000);
    MulDiv(normalized, space, 2000)
  }

  lemma PositionedOffsetEnds(space: U32, position: I16)
    ensures PositionedOffset(space, position) <= space
    ensures PositionedOffset(space, -1000) == 0 && PositionedOffset(space, 1000) == space
    ensures PositionedOffset(space, 0) == space / 2
  {
    MulDivAtMost(Clamp(position, -1000, 1000) + 1000, space, 2000);
    MulDivWhole(space, 2000);
    assert 1000 * space / 2000 == space / 2;
  }

  /** The share is proportional, rounded down. */
  lemma PositionedOffsetIsProportional(space: U32, position: I16)
    requires -1000 <= position <= 1000
    ensures var offset := PositionedOffset(space, position);
            offset * 2000 <= (position + 1000) * space < (offset + 1) * 2000
  {
    DivBounds((position + 1000) * space, 2000);
  }
}
