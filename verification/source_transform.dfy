/** A user's crop, rotation, mirroring, opacity and placement of one source, and how it
    folds into the source's contract (`src/source_transform.rs`). */
module SourceTransforms {
  import opened Numerics
  import opened Wrappers
  import opened MediaContract

  const TRANSFORM_SCALE: U16 := 1000

  datatype SourceFit = Fit | Fill

  datatype CropInsets = CropInsets(left: U16, top: U16, right: U16, bottom: U16)

  datatype SourceTransform = SourceTransform(
    crop: CropInsets,
    fit: SourceFit,
    rotation: Rotation,
    mirrorHorizontal: bool,
    mirrorVertical: bool,
    opacity: U16,
    positionX: I16,
    positionY: I16)

  const DEFAULT_TRANSFORM :=
    SourceTransform(CropInsets(0, 0, 0, 0), Fit, Degrees0, false, false, TRANSFORM_SCALE, 0, 0)

  predicate IsIdentity(t: SourceTransform) {
    t == DEFAULT_TRANSFORM
  }

  function ValidateTransform(t: SourceTransform): Result<(), MediaError> {
    if
      || t.crop.left >= TRANSFORM_SCALE
      || t.crop.right >= TRANSFORM_SCALE
      || t.crop.top >= TRANSFORM_SCALE
      || t.crop.bottom >= TRANSFORM_SCALE
      || t.crop.left + t.crop.right >= TRANSFORM_SCALE
      || t.crop.top + t.crop.bottom >= TRANSFORM_SCALE
    then Err(EmptyCrop)
    else if
      || t.opacity > TRANSFORM_SCALE
      || !(-1000 <= t.positionX <= 1000)
      || !(-1000 <= t.positionY <= 1000)
    then Err(OpacityOrPositionOutOfRange)
    else Ok(())
  }

  function Sanitized(t: SourceTransform): SourceTransform {
    var left: U16 := Min(t.crop.left, 999);
    var right: U16 := Min(t.crop.right, 999 - left);
    var top: U16 := Min(t.crop.top, 999);
    var bottom: U16 := Min(t.crop.bottom, 999 - top);
    t.(crop := CropInsets(left, top, right, bottom),
       opacity := Min(t.opacity, TRANSFORM_SCALE),
       positionX := Clamp(t.positionX, -1000, 1000),
       positionY := Clamp(t.positionY, -1000, 1000))
  }

  /** Sanitizing always yields a valid transform, and changes nothing exactly when the
      transform was valid already. */
  lemma SanitizedFixesExactlyTheValid(t: SourceTransform)
    ensures ValidateTransform(Sanitized(t)).Ok?
    ensures Sanitized(t) == t <==> ValidateTransform(t).Ok?
  {
    if ValidateTransform(t).Ok? {
      assert Sanitized(t).crop == t.crop;
    }
  }

  /** `chosen` is no farther from `wanted` than `other`. */
  predicate NoFarther(wanted: int, chosen: int, other: int) {
    Max(wanted - chosen, chosen - wanted) <= Max(wanted - other, other - wanted)
  }

  /** Sanitizing moves each part as little as validity allows, the left and top insets
      before the right and bottom ones, and touches nothing else. */
  lemma SanitizedIsNearest(t: SourceTransform, valid: SourceTransform)
    requires ValidateTransform(valid).Ok?
    ensures var s := Sanitized(t);
            && NoFarther(t.opacity, s.opacity, valid.opacity)
            && NoFarther(t.positionX, s.positionX, valid.positionX)
            && NoFarther(t.positionY, s.positionY, valid.positionY)
            && NoFarther(t.crop.left, s.crop.left, valid.crop.left)
            && NoFarther(t.crop.top, s.crop.top, valid.crop.top)
            && (valid.crop.left == s.crop.left ==> NoFarther(t.crop.right, s.crop.right, valid.crop.right))
            && (valid.crop.top == s.crop.top ==> NoFarther(t.crop.bottom, s.crop.bottom, valid.crop.bottom))
            && s == t.(crop := s.crop, opacity := s.opacity, positionX := s.positionX, positionY := s.positionY)
  {
  }

  function ScaleDimension(value: U32, perMille: U16): U32
    requires perMille <= TRANSFORM_SCALE
  {
    MulMonotone(perMille, TRANSFORM_SCALE, value);
    value * perMille / 1000
  }

  function QuarterTurns(rotation: Rotation): nat {
    match rotation
    case Degrees0 => 0
    case Degrees90 => 1
    case Degrees180 => 2
    case Degrees270 => 3
  }

  function AddRotation(left: Rotation, right: Rotation): Rotation {
    match (QuarterTurns(left) + QuarterTurns(right)) % 4
    case 0 => Degrees0
    case 1 => Degrees90
    case 2 => Degrees180
    case _ => Degrees270
  }

  /** Opposite insets that sum to less than the whole leave at least one pixel. */
  lemma CropLeavesAPixel(size: U32, before: U16, after: U16)
    requires 0 < size && before + after < TRANSFORM_SCALE
    ensures ScaleDimension(size, before) + ScaleDimension(size, after) < size
  {
    assert size * before + size * after <= size * 999 by {
      assert size * before + size * after == size * (before + after);
      MulMonotone(before + after, 999, size);
    }
  }

  function CroppedAperture(base: CleanAperture, crop: CropInsets): CleanAperture
    requires 0 < base.width && 0 < base.height
    requires crop.left + crop.right < TRANSFORM_SCALE && crop.top + crop.bottom < TRANSFORM_SCALE
    requires base.x + base.width < U32_LIMIT && base.y + base.height < U32_LIMIT
  {
    CropLeavesAPixel(base.width, crop.left, crop.right);
    CropLeavesAPixel(base.height, crop.top, crop.bottom);
    var left := ScaleDimension(base.width, crop.left);
    var top := ScaleDimension(base.height, crop.top);
    CleanAperture(
      base.x + left, base.y + top,
      base.width - left - ScaleDimension(base.width, crop.right),
      base.height - top - ScaleDimension(base.height, crop.bottom))
  }

  function UserView(t: SourceTransform): TransformMetadata {
    TransformMetadata(t.rotation, t.mirrorHorizontal, t.mirrorVertical)
  }

  function Combined(inner: TransformMetadata, outer: TransformMetadata): TransformMetadata {
    TransformMetadata(
      AddRotation(inner.rotation, outer.rotation),
      inner.mirrorHorizontal != outer.mirrorHorizontal,
      inner.mirrorVertical != outer.mirrorVertical)
  }

  function ApplyToContract(t: SourceTransform, contract: FrameContract, width: U32, height: U32)
    : Result<FrameContract, MediaError>
  {
    var transformValid := ValidateTransform(t);
    if transformValid.Err? then Err(transformValid.error) else
    var contractValid := Validate(contract, width, height);
    if contractValid.Err? then Err(contractValid.error) else
    var moved := contract.(
      cleanAperture := CroppedAperture(contract.cleanAperture, t.crop),
      transform := Combined(contract.transform, UserView(t)));
    var movedValid := Validate(moved, width, height);
    if movedValid.Err? then Err(movedValid.error) else Ok(moved)
  }

  /** The second validation can never fail: a valid transform of a valid contract is
      accepted, and its aperture is a non-empty part of the old one. */
  lemma ApplyNeverFails(t: SourceTransform, contract: FrameContract, width: U32, height: U32)
    ensures ApplyToContract(t, contract, width, height).Ok?
       <==> ValidateTransform(t).Ok? && Validate(contract, width, height).Ok?
    ensures var applied := ApplyToContract(t, contract, width, height);
            applied.Ok? ==>
              && var (now, was) := (applied.value.cleanAperture, contract.cleanAperture);
              && Validate(applied.value, width, height).Ok?
              && 0 < now.width && 0 < now.height
              && was.x <= now.x && now.x + now.width <= was.x + was.width
              && was.y <= now.y && now.y + now.height <= was.y + was.height
              && applied.value.colorimetry == contract.colorimetry
              && applied.value.pixelAspectRatio == contract.pixelAspectRatio
  {
    if ValidateTransform(t).Ok? && Validate(contract, width, height).Ok? {
      CropLeavesAPixel(contract.cleanAperture.width, t.crop.left, t.crop.right);
      CropLeavesAPixel(contract.cleanAperture.height, t.crop.top, t.crop.bottom);
    }
  }

  // ---- Does adding rotations compose the pictures? ----------------------------------------

  /** A turn and mirroring of a whole `width` x `height` picture, as a contract. */
  function WholePicture(width: U32, height: U32, t: SourceTransform): FrameContract {
    CanonicalBgra(width, height).(transform := UserView(t))
  }

  /** The source pixel shown at (x, y) when the user's turn and mirroring act on the
      picture the contract displays. */
  function ShownTwice(contract: FrameContract, t: SourceTransform, x: U32, y: U32): (U32, U32)
    requires Measurable(contract)
  {
    var (width, height) := DisplayDimensions(contract);
    if width == 0 || height == 0 then (0, 0) else
    var (u, v) := SourceCoordinate(WholePicture(width, height, t), x, y);
    SourceCoordinate(contract, u, v)
  }

  /** A pixel `c` places into a side of `size` is kept by insets of so many thousandths. */
  predicate Kept(size: nat, before: nat, after: nat, c: nat) {
    (c + 1) * 1000 > size * before && (size - c) * 1000 > size * after
  }

  lemma KeptBetweenInsets(size: U32, before: U16, after: U16, c: nat)
    requires before + after < TRANSFORM_SCALE && c < size
    ensures ScaleDimension(size, before) <= c < size - ScaleDimension(size, after) <==> Kept(size, before, after, c)
  {
    DivBounds(before * size, 1000);
    DivBounds(after * size, 1000);
    assert before * size == size * before && after * size == size * after;
  }

  /** A crop keeps exactly the pixels that no inset reaches over in whole, each inset on its
      own side. */
  lemma CropKeepsExactly(t: SourceTransform, contract: FrameContract, width: U32, height: U32, x: U32, y: U32)
    requires ValidateTransform(t).Ok? && Validate(contract, width, height).Ok?
    requires InAperture(contract.cleanAperture, x, y)
    ensures ApplyToContract(t, contract, width, height).Ok?
    ensures var was := contract.cleanAperture;
            InAperture(ApplyToContract(t, contract, width, height).value.cleanAperture, x, y) <==>
              && Kept(was.width, t.crop.left, t.crop.right, x - was.x)
              && Kept(was.height, t.crop.top, t.crop.bottom, y - was.y)
  {
    hide ScaleDimension, Kept, Combined;
    var was := contract.cleanAperture;
    ApplyNeverFails(t, contract, width, height);
    KeptBetweenInsets(was.width, t.crop.left, t.crop.right, x - was.x);
    KeptBetweenInsets(was.height, t.crop.top, t.crop.bottom, y - was.y);
  }

  lemma UncroppedContract(contract: FrameContract, t: SourceTransform, width: U32, height: U32)
    requires Validate(contract, width, height).Ok? && ValidateTransform(t).Ok? && t.crop == CropInsets(0, 0, 0, 0)
    ensures ApplyToContract(t, contract, width, height) == Ok(contract.(
      transform := Combined(contract.transform, UserView(t))))
  {
    ApplyNeverFails(t, contract, width, height);
    var aperture := contract.cleanAperture;
    assert aperture.width * 0 / 1000 == 0 && aperture.height * 0 / 1000 == 0;
    assert CroppedAperture(aperture, t.crop) == aperture;
  }

  // ---- Axis by axis ----------------------------------------------------------------------------

  /** Whether a turn alone shows the picture's columns, or its rows, in reverse. */
  predicate TurnsColumns(rotation: Rotation) {
    rotation.Degrees180? || rotation.Degrees270?
  }

  predicate TurnsRows(rotation: Rotation) {
    rotation.Degrees90? || rotation.Degrees180?
  }

  /** Whether the view does, with its mirrors, which act on the turned picture. */
  predicate ReversesColumns(view: TransformMetadata) {
    (if view.rotation.SwapsAxes() then view.mirrorVertical else view.mirrorHorizontal) != TurnsColumns(view.rotation)
  }

  predicate ReversesRows(view: TransformMetadata) {
    (if view.rotation.SwapsAxes() then view.mirrorHorizontal else view.mirrorVertical) != TurnsRows(view.rotation)
  }

  /** A view is two reflections, after trading the axes for a quarter turn. */
  lemma ViewedByAxes(view: TransformMetadata, width: int, height: int, p: (int, int))
    ensures var (column, row) := if view.rotation.SwapsAxes() then (p.1, p.0) else p;
            Viewed(view, width, height, p) ==
            (Mirrored(column, width, ReversesColumns(view)), Mirrored(row, height, ReversesRows(view)))
  {
  }

  /** Turning twice, as reversals: the second turn's axes are those the first one shows. */
  lemma AddedReverses(inner: Rotation, outer: Rotation)
    ensures var sum := AddRotation(inner, outer);
            && sum.SwapsAxes() == (inner.SwapsAxes() != outer.SwapsAxes())
            && TurnsColumns(sum) == (TurnsColumns(inner) != (if inner.SwapsAxes() then TurnsRows(outer) else TurnsColumns(outer)))
            && TurnsRows(sum) == (TurnsRows(inner) != (if inner.SwapsAxes() then TurnsColumns(outer) else TurnsRows(outer)))
  {
  }

  /** Viewing a view: the turns add and the mirrors flip, except that a lone mirror
      inside reverses an outer quarter turn and leaves the picture upside down. */
  lemma ViewOfView(inner: TransformMetadata, outer: TransformMetadata, width: int, height: int, p: (int, int))
    ensures var sides := Sides(inner.rotation, width, height);
            var both := Combined(inner, outer);
            var view := Sides(both.rotation, width, height);
            Viewed(inner, width, height, Viewed(outer, sides.0, sides.1, p)) ==
              if inner.mirrorHorizontal == inner.mirrorVertical || !outer.rotation.SwapsAxes()
              then Viewed(both, width, height, p)
              else Viewed(both, width, height, (view.0 - 1 - p.0, view.1 - 1 - p.1))
  {
    var sides := Sides(inner.rotation, width, height);
    var both := Combined(inner, outer);
    var view := Sides(both.rotation, width, height);
    AddedReverses(inner.rotation, outer.rotation);
    ViewedByAxes(outer, sides.0, sides.1, p);
    ViewedByAxes(inner, width, height, Viewed(outer, sides.0, sides.1, p));
    ViewedByAxes(both, width, height, p);
    ViewedByAxes(both, width, height, (view.0 - 1 - p.0, view.1 - 1 - p.1));
    hide Viewed, AddRotation, TurnsColumns, TurnsRows;
  }

  /** Whether the user's view reverses the axis on which the display shows the aperture's
      width: the axis the pixel aspect ratio stretches. */
  predicate ReversesStretched(contract: FrameContract, t: SourceTransform) {
    if contract.transform.rotation.SwapsAxes() then ReversesRows(UserView(t)) else ReversesColumns(UserView(t))
  }

  predicate ReversesPlain(contract: FrameContract, t: SourceTransform) {
    if contract.transform.rotation.SwapsAxes() then ReversesColumns(UserView(t)) else ReversesRows(UserView(t))
  }

  /** A lone mirror in the frame's description, and a user's quarter turn across it. */
  predicate TurnsAcrossMirror(contract: FrameContract, t: SourceTransform) {
    contract.transform.mirrorHorizontal != contract.transform.mirrorVertical && t.rotation.SwapsAxes()
  }

  lemma CombinedReverses(contract: FrameContract, t: SourceTransform)
    ensures var both := Combined(contract.transform, UserView(t)); var across := TurnsAcrossMirror(contract, t);
            && ReversesColumns(both) == ((ReversesColumns(contract.transform) != ReversesStretched(contract, t)) != across)
            && ReversesRows(both) == ((ReversesRows(contract.transform) != ReversesPlain(contract, t)) != across)
            && both.rotation.SwapsAxes() == (contract.transform.rotation.SwapsAxes() != t.rotation.SwapsAxes())
  {
    AddedReverses(contract.transform.rotation, t.rotation);
    hide AddRotation, TurnsColumns, TurnsRows;
  }

  /** How wide the display shows the aperture's width, before any turn. */
  function ShownWidth(contract: FrameContract): U32
    requires Measurable(contract)
  {
    DisplayDimensions(contract.(transform := IDENTITY)).0
  }

  lemma DisplayByAxes(contract: FrameContract)
    requires Measurable(contract)
    ensures 0 < ShownWidth(contract)
    ensures DisplayDimensions(contract) ==
            if contract.transform.rotation.SwapsAxes() then (contract.cleanAperture.height, ShownWidth(contract))
            else (ShownWidth(contract), contract.cleanAperture.height)
  {
    hide RoundedQuotient;
  }

  /** A display coordinate as column and row of the aperture. */
  function Axes(rotation: Rotation, x: int, y: int): (int, int) {
    if rotation.SwapsAxes() then (y, x) else (x, y)
  }

  /** The source pixel that a column and row, still unreversed, stand for. */
  function SourceAt(contract: FrameContract, column: int, row: int): (int, int) {
    var aperture := contract.cleanAperture;
    (aperture.x + Mirrored(column, aperture.width, ReversesColumns(contract.transform)),
     aperture.y + Mirrored(row, aperture.height, ReversesRows(contract.transform)))
  }

  lemma AxesInside(contract: FrameContract, x: U32, y: U32)
    requires Measurable(contract)
    requires x < DisplayDimensions(contract).0 && y < DisplayDimensions(contract).1
    ensures 0 < ShownWidth(contract)
    ensures var at := Axes(contract.transform.rotation, x, y);
            0 <= at.0 < ShownWidth(contract) && 0 <= at.1 < contract.cleanAperture.height
  {
    hide DisplayDimensions, ShownWidth;
    DisplayByAxes(contract);
  }

  lemma UnscaledIsProportional(display: U32, size: U32, displaySize: U32)
    requires display < displaySize && 0 < size
    ensures Unscaled(display, size, displaySize) == MulDiv(display, size, displaySize) < size
  {
    hide MulDiv;
    MulDivBelow(display, size, displaySize);
  }

  /** For every ratio: the stretched axis is brought back by one proportion, then each axis
      is shown as it is or in reverse. */
  lemma SourceByAxes(contract: FrameContract, width: U32, height: U32, x: U32, y: U32)
    requires Validate(contract, width, height).Ok?
    requires x < DisplayDimensions(contract).0 && y < DisplayDimensions(contract).1
    ensures 0 < ShownWidth(contract)
    ensures var at := Axes(contract.transform.rotation, x, y);
            && 0 <= at.0 < ShownWidth(contract) && 0 <= at.1 < contract.cleanAperture.height
            && MulDiv(at.0, contract.cleanAperture.width, ShownWidth(contract)) < contract.cleanAperture.width
            && SourceCoordinate(contract, x, y) ==
               SourceAt(contract, MulDiv(at.0, contract.cleanAperture.width, ShownWidth(contract)), at.1)
  {
    hide DisplayDimensions, MulDiv, ShownWidth, Unscaled;
    var aperture := contract.cleanAperture;
    DisplayByAxes(contract);
    AxesInside(contract, x, y);
    var at := Axes(contract.transform.rotation, x, y);
    UnscaledIsProportional(at.0, aperture.width, ShownWidth(contract));
    UnscaledSameSize(at.1, aperture.height);
    match contract.transform.rotation case Degrees0 => case Degrees90 => case Degrees180 => case Degrees270 =>
  }

  // ---- When reversing and stretching commute

  lemma CancelFactor(a: nat, b: nat, c: nat)
    requires 0 < b && 0 < c && 0 < b * c
    ensures MulDiv(a, c, b * c) == a / b
  {
    var quotient := a / b;
    var next := quotient + 1;
    DivBounds(a, b);
    Between(a, quotient * b, next * b, c);
    Regroup(quotient, b, c);
    Regroup(next, b, c);
    var (scaled, whole) := (a * c, b * c);
    DivUnique(scaled, whole, quotient);
  }

  lemma Between(a: int, low: int, high: int, c: nat)
    requires 0 < c && low <= a < high
    ensures low * c <= a * c < high * c
  {
  }

  lemma Regroup(a: int, b: int, c: int)
    ensures a * b * c == a * (b * c)
  {
  }

  lemma Distribute(a: int, b: int, c: int)
    ensures (a - b) * c == a * c - b * c
  {
  }

  /** Counted from either end, equal groups number alike. */
  lemma GroupsFromBothEnds(size: nat, each: nat, column: nat)
    requires 0 < each && column < size * each
    ensures column / each + (size * each - 1 - column) / each == size - 1
  {
    var (all, group) := (size * each, column / each);
    var other := all - 1 - column;
    DivBounds(column, each);
    var (last, end) := (size - 1 - group, size - group);
    Distribute(size, group, each);
    Distribute(end, 1, each);
    Distribute(group + 1, 1, each);
    var next := group + 1;
    assert next * each == group * each + each;
    DivUnique(other, each, last);
  }

  lemma EvenStretchReverses(size: nat, shown: nat, column: nat)
    requires 0 < size && 0 < shown && shown % size == 0 && column < shown
    ensures size - 1 - MulDiv(column, size, shown) == MulDiv(shown - 1 - column, size, shown)
  {
    var each := shown / size;
    WholeMultiple(shown, size);
    CancelFactor(column, each, size);
    CancelFactor(shown - 1 - column, each, size);
    GroupsFromBothEnds(size, each, column);
    hide MulDiv;
  }

  lemma WholeMultiple(n: nat, d: nat)
    requires 0 < d && n % d == 0 && 0 < n
    ensures n == n / d * d && n == d * (n / d) && 0 < n / d
  {
  }

  /** At the first column whose mirror image comes out elsewhere. */
  lemma UnevenStretchDoesNot(size: nat, shown: nat)
    requires 0 < size && 0 < shown && shown % size != 0
    ensures 0 <= shown / size < shown
    ensures size - 1 - MulDiv(shown / size, size, shown) != MulDiv(shown - 1 - shown / size, size, shown)
  {
    var first := shown / size;
    DivBounds(shown, size);
    DivNonNegative(shown, size);
    MulMonotone(1, size, first);
    var (head, left) := (first * size, shown % size);
    assert head + left == shown;
    var other := shown - 1 - first;
    DivUnique(head, shown, 0);
    Distribute(shown, first + 1, size);
    Distribute(first + 1, 1, size);
    Distribute(size, 1, shown);
    var (tail, bound) := (other * size, size - 1);
    DivBelow(tail, shown, bound);
  }

  // ---- The exact condition

  /** The frame as cropped by the user's transform, in its own turn and mirroring. */
  function Cropped(contract: FrameContract, t: SourceTransform, width: U32, height: U32): (cropped: FrameContract)
    requires Validate(contract, width, height).Ok? && ValidateTransform(t).Ok?
    ensures Validate(cropped, width, height).Ok?
  {
    ApplyNeverFails(t, contract, width, height);
    contract.(cleanAperture := ApplyToContract(t, contract, width, height).value.cleanAperture)
  }

  /** The applied transform shows, at every place of the display, what the user's turn and
      mirroring show of the display of the cropped frame. */
  ghost predicate ComposesPictures(contract: FrameContract, t: SourceTransform, width: U32, height: U32)
    requires Validate(contract, width, height).Ok? && ValidateTransform(t).Ok?
  {
    ApplyNeverFails(t, contract, width, height);
    var both := ApplyToContract(t, contract, width, height).value;
    var (w, h) := DisplayDimensions(both);
    forall x: U32, y: U32 | x < w && y < h :: AgreeAt(Cropped(contract, t, width, height), t, both, x, y)
  }

  ghost predicate AgreeAt(cropped: FrameContract, t: SourceTransform, both: FrameContract, x: U32, y: U32)
    requires Measurable(cropped) && Measurable(both)
  {
    SourceCoordinate(both, x, y) == ShownTwice(cropped, t, x, y)
  }

  /** The condition, read off the cropped frame's description before anything is drawn.
      Without a quarter turn across a lone mirror only the stretched axis matters: it must
      not be reversed, or be shown a whole number of times as wide as it is. A quarter turn
      across a lone mirror leaves the picture upside down, which shows unless it is a single
      row of a single column, or of columns that share one reversed pixel of the display. */
  predicate ViewsCommute(cropped: FrameContract, t: SourceTransform)
    requires Measurable(cropped)
  {
    var aperture := cropped.cleanAperture;
    if TurnsAcrossMirror(cropped, t) then
      && aperture.height == 1
      && (aperture.width == 1 || (ShownWidth(cropped) == 1 && ReversesStretched(cropped, t)))
    else
      !ReversesStretched(cropped, t) || ShownWidth(cropped) % aperture.width == 0
  }

  function Both(cropped: FrameContract, t: SourceTransform): FrameContract {
    cropped.(transform := Combined(cropped.transform, UserView(t)))
  }

  lemma BothDisplay(cropped: FrameContract, t: SourceTransform)
    requires Measurable(cropped)
    ensures ShownWidth(Both(cropped, t)) == ShownWidth(cropped) > 0
    ensures DisplayDimensions(cropped) ==
            Axes(cropped.transform.rotation, ShownWidth(cropped), cropped.cleanAperture.height)
    ensures DisplayDimensions(Both(cropped, t)) ==
            Axes(Both(cropped, t).transform.rotation, ShownWidth(cropped), cropped.cleanAperture.height)
  {
    DisplayByAxes(cropped);
    DisplayByAxes(Both(cropped, t));
    hide DisplayDimensions, Combined;
    assert Both(cropped, t).(transform := IDENTITY) == cropped.(transform := IDENTITY);
  }

  /** The user's turn and mirroring, on the axes of the frame's own display. */
  lemma UserViewByAxes(cropped: FrameContract, t: SourceTransform, shown: int, rows: int, x: int, y: int)
    ensures var at := Axes(Both(cropped, t).transform.rotation, x, y);
            var display := Axes(cropped.transform.rotation, shown, rows);
            var seen := Viewed(UserView(t), display.0, display.1, (x, y));
            Axes(cropped.transform.rotation, seen.0, seen.1) ==
            (Mirrored(at.0, shown, ReversesStretched(cropped, t)), Mirrored(at.1, rows, ReversesPlain(cropped, t)))
  {
    var display := Axes(cropped.transform.rotation, shown, rows);
    ViewedByAxes(UserView(t), display.0, display.1, (x, y));
    CombinedReverses(cropped, t);
    hide Viewed, Combined, ReversesColumns, ReversesRows, Mirrored;
  }

  lemma ShownTwiceByAxes(cropped: FrameContract, t: SourceTransform, width: U32, height: U32, x: U32, y: U32)
    requires Validate(cropped, width, height).Ok?
    requires x < DisplayDimensions(Both(cropped, t)).0 && y < DisplayDimensions(Both(cropped, t)).1
    ensures 0 < ShownWidth(cropped)
    ensures var aperture := cropped.cleanAperture; var shown := ShownWidth(cropped);
            var at := Axes(Both(cropped, t).transform.rotation, x, y);
            var seen := Mirrored(at.0, shown, ReversesStretched(cropped, t));
            && 0 <= seen < shown
            && ShownTwice(cropped, t, x, y) ==
               SourceAt(cropped, MulDiv(seen, aperture.width, shown), Mirrored(at.1, aperture.height, ReversesPlain(cropped, t)))
  {
    BothDisplay(cropped, t);
    AxesInside(Both(cropped, t), x, y);
    var (w, h) := DisplayDimensions(cropped);
    var turned := WholePicture(w, h, t);
    UserViewByAxes(cropped, t, ShownWidth(cropped), cropped.cleanAperture.height, x, y);
    CombinedReverses(cropped, t);
    hide SourceCoordinate, DisplayDimensions, Viewed, MulDiv, Combined, ReversesStretched, ReversesPlain, SourceAt, ShownWidth;
    SquareSourceCoordinate(turned, w, h, x, y);
    var (u, v) := SourceCoordinate(turned, x, y);
    SourceByAxes(cropped, width, height, u, v);
  }

  /** Whether the two pictures show the same column of the aperture. */
  predicate ColumnAgrees(size: nat, shown: nat, reversed: bool, across: bool, column: nat)
    requires column < shown
  {
    Mirrored(MulDiv(Mirrored(column, shown, reversed), size, shown), size, reversed) ==
    Mirrored(MulDiv(column, size, shown), size, across)
  }

  predicate RowAgrees(size: nat, across: bool, row: int) {
    across ==> size - 1 - row == row
  }

  /** Taking the frame's own reflections off both sides. */
  lemma ReflectionsCancel(
    size: int, rows: int, column: int, seen: int, row: int, f: bool, reversed: bool, g: bool, plain: bool, across: bool)
    ensures Mirrored(column, size, (f != reversed) != across) == Mirrored(seen, size, f)
       <==> Mirrored(seen, size, reversed) == Mirrored(column, size, across)
    ensures Mirrored(row, rows, (g != plain) != across) == Mirrored(Mirrored(row, rows, plain), rows, g)
       <==> (across ==> rows - 1 - row == row)
  {
  }

  lemma SourcesAgree(cropped: FrameContract, t: SourceTransform, column: int, seen: int, row: int)
    ensures SourceAt(Both(cropped, t), column, row) ==
            SourceAt(cropped, seen, Mirrored(row, cropped.cleanAperture.height, ReversesPlain(cropped, t)))
       <==> && Mirrored(seen, cropped.cleanAperture.width, ReversesStretched(cropped, t)) ==
               Mirrored(column, cropped.cleanAperture.width, TurnsAcrossMirror(cropped, t))
            && RowAgrees(cropped.cleanAperture.height, TurnsAcrossMirror(cropped, t), row)
  {
    CombinedReverses(cropped, t);
    ReflectionsCancel(
      cropped.cleanAperture.width, cropped.cleanAperture.height, column, seen, row,
      ReversesColumns(cropped.transform), ReversesStretched(cropped, t),
      ReversesRows(cropped.transform), ReversesPlain(cropped, t), TurnsAcrossMirror(cropped, t));
    hide ReversesColumns, ReversesRows, ReversesStretched, ReversesPlain, TurnsAcrossMirror, Combined, Mirrored;
  }

  /** Both pictures at one place, axis by axis. */
  lemma PicturesByAxes(cropped: FrameContract, t: SourceTransform, width: U32, height: U32, x: U32, y: U32)
    requires Validate(cropped, width, height).Ok?
    requires x < DisplayDimensions(Both(cropped, t)).0 && y < DisplayDimensions(Both(cropped, t)).1
    ensures 0 < ShownWidth(cropped)
    ensures var (aperture, shown) := (cropped.cleanAperture, ShownWidth(cropped));
            var at := Axes(Both(cropped, t).transform.rotation, x, y);
            && 0 <= at.0 < shown && 0 <= at.1 < aperture.height
            && (AgreeAt(cropped, t, Both(cropped, t), x, y) <==>
                  && ColumnAgrees(aperture.width, shown, ReversesStretched(cropped, t), TurnsAcrossMirror(cropped, t), at.0)
                  && RowAgrees(aperture.height, TurnsAcrossMirror(cropped, t), at.1))
  {
    var (aperture, shown) := (cropped.cleanAperture, ShownWidth(cropped));
    hide DisplayDimensions, ShownWidth, MulDiv, Combined, RowAgrees, SourceAt, Mirrored;
    hide SourceCoordinate, ShownTwice, ReversesStretched, ReversesPlain, TurnsAcrossMirror;
    BothDisplay(cropped, t);
    ShownTwiceByAxes(cropped, t, width, height, x, y);
    SourceByAxes(Both(cropped, t), width, height, x, y);
    var at := Axes(Both(cropped, t).transform.rotation, x, y);
    var seen := Mirrored(at.0, shown, ReversesStretched(cropped, t));
    SourcesAgree(cropped, t, MulDiv(at.0, aperture.width, shown), MulDiv(seen, aperture.width, shown), at.1);
  }

  /** When every column agrees. */
  predicate ColumnsCommute(size: nat, shown: nat, reversed: bool, across: bool)
    requires 0 < size
  {
    if across then size == 1 || (shown == 1 && reversed)
    else !reversed || shown % size == 0
  }

  lemma CommutingColumnsAgree(size: nat, shown: nat, reversed: bool, across: bool, column: nat)
    requires 0 < size && column < shown && ColumnsCommute(size, shown, reversed, across)
    ensures ColumnAgrees(size, shown, reversed, across, column)
  {
    MulDivBelow(column, size, shown);
    MulDivBelow(shown - 1 - column, size, shown);
    if !across && reversed {
      EvenStretchReverses(size, shown, column);
    }
    hide MulDiv;
  }

  /** A column at which the pictures differ, when they do. */
  lemma SomeColumnDiffers(size: nat, shown: nat, reversed: bool, across: bool) returns (column: nat)
    requires 0 < size && 0 < shown && !ColumnsCommute(size, shown, reversed, across)
    ensures column < shown && !ColumnAgrees(size, shown, reversed, across, column)
  {
    column := 0;
    MulDivWhole(size, shown);
    if !across {
      UnevenStretchDoesNot(size, shown);
      column := shown / size;
    } else if reversed {
      LastColumnIsNotTheFirst(size, shown);
    }
    hide MulDiv;
  }

  lemma LastColumnIsNotTheFirst(size: nat, shown: nat)
    requires 1 < size && 1 < shown
    ensures MulDiv(shown - 1, size, shown) > 0
  {
    var last := shown - 1;
    var end := last * size;
    MulMonotone(2, size, last);
    DivMonotone(shown, end, shown);
    MulDivCancel(1, shown);
  }

  lemma CommutingViewsAgree(cropped: FrameContract, t: SourceTransform, width: U32, height: U32, x: U32, y: U32)
    requires Validate(cropped, width, height).Ok? && ViewsCommute(cropped, t)
    requires x < DisplayDimensions(Both(cropped, t)).0 && y < DisplayDimensions(Both(cropped, t)).1
    ensures AgreeAt(cropped, t, Both(cropped, t), x, y)
  {
    hide AgreeAt, ColumnAgrees, ReversesStretched, TurnsAcrossMirror, DisplayDimensions, ShownWidth, Combined;
    PicturesByAxes(cropped, t, width, height, x, y);
    var column := Axes(Both(cropped, t).transform.rotation, x, y).0;
    hide Axes;
    CommutingColumnsAgree(
      cropped.cleanAperture.width, ShownWidth(cropped), ReversesStretched(cropped, t), TurnsAcrossMirror(cropped, t), column);
  }

  lemma SomePlaceDiffers(cropped: FrameContract, t: SourceTransform, width: U32, height: U32) returns (x: U32, y: U32)
    requires Validate(cropped, width, height).Ok? && !ViewsCommute(cropped, t)
    ensures x < DisplayDimensions(Both(cropped, t)).0 && y < DisplayDimensions(Both(cropped, t)).1
    ensures !AgreeAt(cropped, t, Both(cropped, t), x, y)
  {
    hide AgreeAt, ColumnAgrees, ReversesStretched, TurnsAcrossMirror, DisplayDimensions, ShownWidth, Combined;
    BothDisplay(cropped, t);
    var (size, shown) := (cropped.cleanAperture.width, ShownWidth(cropped));
    var (reversed, across) := (ReversesStretched(cropped, t), TurnsAcrossMirror(cropped, t));
    var column := 0;
    if !ColumnsCommute(size, shown, reversed, across) {
      column := SomeColumnDiffers(size, shown, reversed, across);
    }
    if Both(cropped, t).transform.rotation.SwapsAxes() {
      x, y := 0, column;
    } else {
      x, y := column, 0;
    }
    PicturesByAxes(cropped, t, width, height, x, y);
  }

  /** The applied transform shows the user's turn and mirroring of the picture the cropped
      frame displays, at every place, exactly when `ViewsCommute`: for every pixel aspect
      ratio, aperture, crop, turn and mirroring. */
  lemma AddedTurnsComposePictures(contract: FrameContract, t: SourceTransform, width: U32, height: U32)
    requires Validate(contract, width, height).Ok? && ValidateTransform(t).Ok?
    ensures ComposesPictures(contract, t, width, height) <==> ViewsCommute(Cropped(contract, t, width, height), t)
  {
    var cropped := Cropped(contract, t, width, height);
    AppliedIsBoth(contract, t, width, height);
    hide AgreeAt, ViewsCommute, DisplayDimensions, ApplyToContract, Cropped, Both, Validate, ValidateTransform;
    if ViewsCommute(cropped, t) {
      var (w, h) := DisplayDimensions(Both(cropped, t));
      forall x: U32, y: U32 | x < w && y < h ensures AgreeAt(cropped, t, Both(cropped, t), x, y) {
        CommutingViewsAgree(cropped, t, width, height, x, y);
      }
    } else {
      var x, y := SomePlaceDiffers(cropped, t, width, height);
      assert !AgreeAt(cropped, t, Both(cropped, t), x, y);
    }
  }

  lemma AppliedIsBoth(contract: FrameContract, t: SourceTransform, width: U32, height: U32)
    requires Validate(contract, width, height).Ok? && ValidateTransform(t).Ok?
    ensures ApplyToContract(t, contract, width, height) == Ok(Both(Cropped(contract, t, width, height), t))
  {
    ApplyNeverFails(t, contract, width, height);
    hide CroppedAperture;
  }

  /** With square pixels the width never matters: only a quarter turn across a lone mirror
      goes wrong, on any picture of more than one pixel. */
  lemma SquarePixelsCompose(contract: FrameContract, t: SourceTransform, width: U32, height: U32)
    requires SquareContract(contract, width, height) && ValidateTransform(t).Ok?
    ensures var aperture := Cropped(contract, t, width, height).cleanAperture;
            ComposesPictures(contract, t, width, height) <==>
              !TurnsAcrossMirror(contract, t) || (aperture.width == 1 && aperture.height == 1)
  {
    var cropped := Cropped(contract, t, width, height);
    AddedTurnsComposePictures(contract, t, width, height);
    SquareCommutes(cropped, t, width, height);
    hide ComposesPictures, ViewsCommute, ApplyToContract, ValidateTransform;
  }

  lemma SquareCommutes(cropped: FrameContract, t: SourceTransform, width: U32, height: U32)
    requires SquareContract(cropped, width, height)
    ensures ViewsCommute(cropped, t) <==>
            !TurnsAcrossMirror(cropped, t) || (cropped.cleanAperture.width == 1 && cropped.cleanAperture.height == 1)
  {
    SquareDisplay(cropped.(transform := IDENTITY), width, height);
    hide DisplayDimensions, ReversesStretched, TurnsAcrossMirror;
    MulDivCancel(1, cropped.cleanAperture.width);
  }

  /** Two columns shown on three: turned by half, the middle one of the display comes from
      the other column than the one added turns give. */
  lemma StretchedHalfTurnDiffers()
    ensures var contract := CanonicalBgra(2, 1).(pixelAspectRatio := PixelAspectRatio(3, 2));
            var t := DEFAULT_TRANSFORM.(rotation := Degrees180);
            && Validate(contract, 2, 1).Ok? && ValidateTransform(t).Ok?
            && SourceCoordinate(Both(contract, t), 1, 0) == (1, 0) && ShownTwice(contract, t, 1, 0) == (0, 0)
            && !ComposesPictures(contract, t, 2, 1)
  {
    var contract := CanonicalBgra(2, 1).(pixelAspectRatio := PixelAspectRatio(3, 2));
    var t := DEFAULT_TRANSFORM.(rotation := Degrees180);
    UncroppedContract(contract, t, 2, 1);
    AddedTurnsComposePictures(contract, t, 2, 1);
    assert Cropped(contract, t, 2, 1) == contract;
    hide ComposesPictures, Cropped, ApplyToContract;
    StretchedHalfTurn(contract, t);
  }

  lemma StretchedHalfTurn(contract: FrameContract, t: SourceTransform)
    requires contract == CanonicalBgra(2, 1).(pixelAspectRatio := PixelAspectRatio(3, 2))
    requires t == DEFAULT_TRANSFORM.(rotation := Degrees180)
    ensures SourceCoordinate(Both(contract, t), 1, 0) == (1, 0) && ShownTwice(contract, t, 1, 0) == (0, 0)
    ensures !ViewsCommute(contract, t)
  {
    assert DisplayDimensions(contract) == (3, 1);
    assert DisplayDimensions(Both(contract, t)) == (3, 1);
  }

  /** A quarter turn across a lone mirror leaves two rows upside down. */
  lemma QuarterTurnAcrossMirrorDiffers()
    ensures var contract := CanonicalBgra(1, 2).(transform := TransformMetadata(Degrees0, true, false));
            var t := DEFAULT_TRANSFORM.(rotation := Degrees90);
            Validate(contract, 1, 2).Ok? && ValidateTransform(t).Ok? && !ComposesPictures(contract, t, 1, 2)
  {
    var contract := CanonicalBgra(1, 2).(transform := TransformMetadata(Degrees0, true, false));
    var t := DEFAULT_TRANSFORM.(rotation := Degrees90);
    UncroppedContract(contract, t, 1, 2);
    SquarePixelsCompose(contract, t, 1, 2);
    hide ComposesPictures;
  }
}
