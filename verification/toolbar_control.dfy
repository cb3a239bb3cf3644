/**
 * ToolbarControl and its variants: the rectangular ToolbarButton, the
 * primary (hexagonal) button, the grip ToolbarImage and the timer
 * ToolbarTextControl, reduced to what the toolbar's layout and pointer logic
 * read and write. Drawing is not modelled.
 */
module ToolbarControl {
  import opened Wrappers
  import opened Geometry

  /** ToolbarControlGravity: which edge of the toolbar pulls the control. */
  datatype Gravity = Near | Zero | Far

  /** ToolbarControlState flags. */
  type StateFlags = bv8
  const StateNone: StateFlags := 0
  const Hovered: StateFlags := 1
  const Active: StateFlags := 2

  /** ToolbarOptionRequestType. */
  datatype OptionRequestType = Generic | Audio | Region

  /** What a control does when it is released over (its `Action`). */
  datatype Action = NoAction | RequestOptions(request: OptionRequestType) | RecordingControl | CloseToolbar

  /** The bitmaps the toolbar loads, by resource. */
  datatype Glyph = RecordGlyph | StopGlyph | OptionsGlyph | UnmuteGlyph | RegionGlyph | CloseGlyph | GripGlyph

  /** The `Location` vector: X and Y position, Z the rendering order. */
  datatype Location3 = Location3(x: int, y: int, z: int)

  /**
   * The figure a button's geometry is built from: a rectangle from the
   * location to location + size, or the primary button's path, given as the
   * set of points (relative to the location) its fill contains.
   */
  datatype Shape = Rectangular | Hexagonal(outline: set<Point>)

  /** A built Direct2D geometry, in toolbar client coordinates. */
  datatype Region = Box(left: int, top: int, right: int, bottom: int) | Points(points: set<Point>)

  /** Whether the geometry's fill contains `p` (box edges count as inside). */
  predicate FillContains(g: Region, p: Point)
  {
    match g
    case Box(l, t, r, b) => l <= p.x <= r && t <= p.y <= b
    case Points(ps) => p in ps
  }

  /** `RefreshGeometry`: the geometry for a shape placed at `at` with size `size`. */
  function BuildGeometry(shape: Shape, at: Location3, size: Size): (g: Region)
    ensures forall p :: FillContains(g, p) <==>
      match shape
      case Rectangular => at.x <= p.x <= at.x + size.w && at.y <= p.y <= at.y + size.h
      case Hexagonal(outline) => Point(p.x - at.x, p.y - at.y) in outline
  {
    match shape
    case Rectangular => Box(at.x, at.y, at.x + size.w, at.y + size.h)
    case Hexagonal(outline) => Points(set q | q in outline :: Point(q.x + at.x, q.y + at.y))
  }

  /**
   * The variant of a control. A button's geometry is `Lazy`: None until the
   * first access builds it; `brushes` says whether its brushes are live.
   * An image's opacity is kept in eighths (the values written are 1/8, 1/2
   * and 1).
   */
  datatype Kind =
    | Button(shape: Shape, geometry: Option<Region>, brushes: bool, bitmap: Option<Glyph>)
    | Image(opacityEighths: int, bitmap: Option<Glyph>)
    | Text(content: string)

  /** The tooltip tidbit of a control, by what the control's logic reads of it. */
  datatype Tip = Tip(visible: bool, disposed: bool)

  datatype Control = Control(
    kind: Kind,
    location: Location3,
    size: Size,
    gravity: Gravity,
    state: StateFlags,
    enabled: bool,
    tidbit: string,
    action: Action,
    tip: Option<Tip>)

  predicate IsHovered(c: Control) { c.state & Hovered != 0 }
  predicate IsActive(c: Control) { c.state & Active != 0 }

  /** A tip that exists and has not been disposed. */
  predicate LiveTip(c: Control) { c.tip.Some? && !c.tip.value.disposed }

  /** A control as constructed, before its initialiser sets anything. */
  function New(kind: Kind): (c: Control)
    ensures c.gravity == Near && c.state == StateNone && c.enabled
    ensures !IsHovered(c) && !IsActive(c) && c.tip.None?
  {
    Control(kind, Location3(0, 0, 0), Size(0, 0), Near, StateNone, true, "", NoAction, None)
  }

  /**
   * The base-class `HitTest`, which every variant here overrides: enabled and
   * within the closed rectangle from the location to location + size.
   */
  predicate BaseHitTest(c: Control, p: Point)
  {
    && c.enabled
    && p.x >= c.location.x && p.y >= c.location.y
    && p.x <= c.location.x + c.size.w && p.y <= c.location.y + c.size.h
  }

  /** A disabled control never hits under the base test. */
  lemma BaseHitTestNeedsEnabled(c: Control, p: Point)
    requires !c.enabled
    ensures !BaseHitTest(c, p)
  {
  }

  /** The geometry a button's hit test reads: the built one, or the one the first access would build. */
  function GeometryOf(c: Control): (g: Region)
    requires c.kind.Button?
    ensures c.kind.geometry.Some? ==> g == c.kind.geometry.value
  {
    match c.kind.geometry
    case Some(g) => g
    case None => BuildGeometry(c.kind.shape, c.location, c.size)
  }

  /**
   * The overriding `HitTest`s: a button tests its geometry's fill and ignores
   * `Enabled`; images and text never hit.
   */
  predicate HitTest(c: Control, p: Point)
  {
    match c.kind
    case Button(_, _, _, _) => FillContains(GeometryOf(c), p)
    case Image(_, _) => false
    case Text(_) => false
  }

  /** A rectangular button whose geometry is not built yet hits exactly where the base test would, ignoring `Enabled`. */
  lemma RectangularButtonHitTest(c: Control, p: Point)
    requires c.kind.Button? && c.kind.shape == Rectangular && c.kind.geometry.None?
    ensures HitTest(c, p) <==> BaseHitTest(c.(enabled := true), p)
  {
  }

  /** Enabling or disabling a control does not change its hit test. */
  lemma HitTestIgnoresEnabled(c: Control, p: Point, e: bool)
    ensures HitTest(c.(enabled := e), p) == HitTest(c, p)
  {
  }

  /** Forces the lazy geometry: a button's geometry is built from its current location if it has none. */
  function Materialize(c: Control): (d: Control)
    ensures d.kind.Button? ==> d.kind.geometry.Some?
    ensures forall p :: HitTest(d, p) == HitTest(c, p)
    ensures d == c.(kind := d.kind)
  {
    match c.kind
    case Button(shape, None, brushes, bitmap) =>
      c.(kind := Button(shape, Some(BuildGeometry(shape, c.location, c.size)), brushes, bitmap))
    case _ => c
  }

  /** Forcing the geometry a second time changes nothing. */
  lemma MaterializeIdempotent(c: Control)
    ensures Materialize(Materialize(c)) == Materialize(c)
  {
  }

  /** Once the geometry exists, moving the control does not move where it hits. */
  lemma {:induction false} GeometryFixedAfterFirstAccess(c: Control, at: Location3, p: Point)
    requires c.kind.Button?
    ensures HitTest(Materialize(c).(location := at), p) == HitTest(Materialize(c), p)
  {
    var d := Materialize(c);
    assert d.kind.geometry.Some?;
    assert GeometryOf(d.(location := at)) == GeometryOf(d);
  }

  /** A tip as a freshly constructed tidbit leaves it: visible and live. */
  const ShownTip: Tip := Tip(true, false)

  /**
   * `Refresh`: keeps the tooltip in step with the hover flag. A hovered
   * control with text creates a tip if it has no live one, or shows its
   * hidden one; a control that is not hovered hides its live tip.
   */
  function Refresh(c: Control): (d: Control)
    ensures d == c.(tip := d.tip)
    ensures IsHovered(c) && c.tidbit != "" ==> LiveTip(d) && d.tip.value.visible
    ensures LiveTip(d) ==> (d.tip.value.visible <==> IsHovered(c))
    ensures IsHovered(c) && c.tidbit == "" ==> d.tip.None? == c.tip.None?
    ensures !IsHovered(c) ==> d.tip.None? == c.tip.None? && (!LiveTip(c) ==> d.tip == c.tip)
  {
    if IsHovered(c) then
      if (c.tip.None? || c.tip.value.disposed) && c.tidbit != "" then c.(tip := Some(ShownTip))
      else if c.tip.Some? && !c.tip.value.visible then c.(tip := Some(c.tip.value.(visible := true)))
      else c
    else if LiveTip(c) then c.(tip := Some(c.tip.value.(visible := false)))
    else c
  }

  /** Refreshing twice is the same as refreshing once. */
  lemma RefreshIdempotent(c: Control)
    ensures Refresh(Refresh(c)) == Refresh(c)
  {
  }

  /** The background brushes of a button. */
  datatype Brush = BackgroundBrush | HoveredBrush | ActiveBrush

  /** The brush a button fills its geometry with: Active first, then Hovered, then the plain one. */
  function BrushFor(c: Control): (b: Brush)
    ensures b == ActiveBrush <==> IsActive(c)
    ensures b == HoveredBrush <==> IsHovered(c) && !IsActive(c)
    ensures b == BackgroundBrush <==> !IsHovered(c) && !IsActive(c)
  {
    if c.state & Active != 0 then ActiveBrush
    else if c.state & Hovered != 0 then HoveredBrush
    else BackgroundBrush
  }

  /**
   * `Dispose`: a button releases its brushes and bitmap (its geometry is
   * built on the way, since `Geometry.Value` is read to dispose it), an image
   * its bitmap, a text control its content; then the tip is disposed and
   * dropped.
   */
  function Dispose(c: Control): (d: Control)
    ensures d.tip.None?
    ensures d.kind.Button? ==> !d.kind.brushes && d.kind.bitmap.None? && d.kind.geometry.Some?
    ensures c.kind.Button? <==> d.kind.Button?
    ensures c.kind.Image? ==> d.kind.Image? && d.kind.bitmap.None? && d.kind.opacityEighths == c.kind.opacityEighths
    ensures c.kind.Text? ==> d.kind.Text? && d.kind.content == ""
    ensures d.location == c.location && d.size == c.size && d.gravity == c.gravity && d.state == c.state
  {
    var kind := match c.kind
      case Button(shape, geometry, _, _) =>
        Button(shape, Some(GeometryOf(c)), false, None)
      case Image(opacity, _) => Image(opacity, None)
      case Text(_) => Text("");
    c.(kind := kind, tip := None)
  }

  /** Disposing a disposed control changes nothing. */
  lemma DisposeIdempotent(c: Control)
    ensures Dispose(Dispose(c)) == Dispose(c)
  {
  }
}
