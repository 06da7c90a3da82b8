/** Precomputed separable sampling maps and the bounded cache that keeps them
    (`SamplingCache` in `src/render.rs`). */
module SamplingMaps {
  import opened Numerics
  import opened MediaContract
  import opened Frames
  import opened Sampling
  import opened Shading

  const MAX_SAMPLING_MAPS: nat := 64

  datatype SamplingKey = SamplingKey(
    sourceWidth: U32, sourceHeight: U32, destWidth: U32, destHeight: U32, filter: ScalingFilter)

  datatype SamplingMap =
    | NearestMap(xOffsets: seq<nat>, yRows: seq<nat>)
    | BilinearMap(xSamples: seq<LinearSample>, ySamples: seq<LinearSample>)

  datatype TransformedSamplingKey = TransformedSamplingKey(
    contract: FrameContract,
    sourceX: U32, sourceY: U32, sourceWidth: U32, sourceHeight: U32, destWidth: U32, destHeight: U32,
    filter: ScalingFilter)
  {
    /** The window lies inside the display: what keeps the coordinate sums in 32 bits. */
    predicate Valid() {
      Measurable(contract) &&
      WindowInside(contract, Placement(destWidth, destHeight, 0, 0, sourceX, sourceY, sourceWidth, sourceHeight))
    }
  }

  datatype TransformedSamplingMap =
    | NearestCoordinates(xCoordinates: seq<nat>, yCoordinates: seq<nat>)
    | BilinearSamples(xTaps: seq<LinearSample>, yTaps: seq<LinearSample>)

  function MapFor(key: SamplingKey): SamplingMap {
    hide NearestSourceCoordinate, LinearSampleAt;
    match key.filter
    case Nearest => NearestMap(
      seq(key.destWidth, x requires 0 <= x < key.destWidth =>
        NearestSourceCoordinate(x, key.sourceWidth, key.destWidth) * BYTES_PER_PIXEL),
      seq(key.destHeight, y requires 0 <= y < key.destHeight =>
        NearestSourceCoordinate(y, key.sourceHeight, key.destHeight) * key.sourceWidth * BYTES_PER_PIXEL))
    case Bilinear => BilinearMap(
      seq(key.destWidth, x requires 0 <= x < key.destWidth =>
        LinearSampleAt(x, key.sourceWidth, key.destWidth)),
      seq(key.destHeight, y requires 0 <= y < key.destHeight =>
        LinearSampleAt(y, key.sourceHeight, key.destHeight)))
  }

  function TransformedMapFor(key: TransformedSamplingKey): TransformedSamplingMap
    requires key.Valid()
  {
    hide NearestSourceCoordinate, LinearSampleAt, DisplayDimensions;
    var (displayWidth, displayHeight) := DisplayDimensions(key.contract);
    var (horizontal, vertical) := (key.contract.transform.mirrorHorizontal, key.contract.transform.mirrorVertical);
    match key.filter
    case Nearest => NearestCoordinates(
      seq(key.destWidth, x requires 0 <= x < key.destWidth =>
        MirroredCoordinate(
          key.sourceX + NearestSourceCoordinate(x, key.sourceWidth, key.destWidth), displayWidth, horizontal)),
      seq(key.destHeight, y requires 0 <= y < key.destHeight =>
        MirroredCoordinate(
          key.sourceY + NearestSourceCoordinate(y, key.sourceHeight, key.destHeight), displayHeight, vertical)))
    case Bilinear => BilinearSamples(
      seq(key.destWidth, x requires 0 <= x < key.destWidth =>
        MirroredLinearSample(
          ShiftedLinearSample(x, key.sourceWidth, key.destWidth, key.sourceX), displayWidth, horizontal)),
      seq(key.destHeight, y requires 0 <= y < key.destHeight =>
        MirroredLinearSample(
          ShiftedLinearSample(y, key.sourceHeight, key.destHeight, key.sourceY), displayHeight, vertical)))
  }

  class SamplingCache {
    var maps: map<SamplingKey, SamplingMap>
    var transformedMaps: map<TransformedSamplingKey, TransformedSamplingMap>

    /** Every cached map is the one its key would be recomputed to, and there are at
        most 64 of them. */
    ghost predicate Valid()
      reads this
    {
      && (forall key :: key in maps ==> maps[key] == MapFor(key))
      && (forall key :: key in transformedMaps ==> key.Valid() && transformedMaps[key] == TransformedMapFor(key))
      && |maps| + |transformedMaps| <= 64
    }

    constructor ()
      ensures Valid() && maps == map[] && transformedMaps == map[]
    {
      maps := map[];
      transformedMaps := map[];
    }

    /** A hit changes nothing; a miss adds one entry, after emptying both tables when
        they are full. */
    method Get(key: SamplingKey) returns (m: SamplingMap)
      requires Valid()
      modifies this
      ensures Valid() && m == MapFor(key)
      ensures key in old(maps) ==> maps == old(maps) && transformedMaps == old(transformedMaps)
      ensures key !in old(maps) ==>
        if |old(maps)| + |old(transformedMaps)| >= 64
        then maps == map[key := m] && transformedMaps == map[]
        else maps == old(maps)[key := m] && transformedMaps == old(transformedMaps)
    {
      hide MapFor, TransformedMapFor, TransformedSamplingKey.Valid;
      if key !in maps {
        if |maps| + |transformedMaps| >= MAX_SAMPLING_MAPS {
          maps := map[];
          transformedMaps := map[];
        }
        maps := maps[key := MapFor(key)];
      }
      m := maps[key];
    }

    method GetTransformed(key: TransformedSamplingKey) returns (m: TransformedSamplingMap)
      requires Valid() && key.Valid()
      modifies this
      ensures Valid() && m == TransformedMapFor(key)
      ensures key in old(transformedMaps) ==> maps == old(maps) && transformedMaps == old(transformedMaps)
      ensures key !in old(transformedMaps) ==>
        if |old(maps)| + |old(transformedMaps)| >= 64
        then maps == map[] && transformedMaps == map[key := m]
        else maps == old(maps) && transformedMaps == old(transformedMaps)[key := m]
    {
      hide MapFor, TransformedMapFor, TransformedSamplingKey.Valid;
      if key !in transformedMaps {
        if |maps| + |transformedMaps| >= MAX_SAMPLING_MAPS {
          maps := map[];
          transformedMaps := map[];
        }
        transformedMaps := transformedMaps[key := TransformedMapFor(key)];
      }
      m := transformedMaps[key];
    }
  }
}
