/**
 * Toolbar: the floating bar of controls shown next to a selected region. The
 * controls live in an ordered dictionary (kept here as two parallel
 * sequences, keys and controls, in insertion order); the toolbar lays them
 * out by gravity when it paints and routes the pointer to them.
 */
module Toolbar {
  import opened Wrappers
  import opened Geometry
  import opened Hooks
  import opened Container
  import opened Lists
  import HC = HudComponent
  import opened ToolbarControl
  import WrapperWindow

  /** The toolbar's fixed size. */
  const ToolbarWidth: int := 256
  const ToolbarHeight: int := 32

  /** ToolbarRecordingControlIntent. */
  datatype RecordingIntent = Start | Stop | Pause | Resume

  /** The events the toolbar raises. */
  datatype Emitted = OptionsRequested(request: OptionRequestType) | RecordingIntentReceived(intent: RecordingIntent)

  datatype Toolbar = Toolbar(
    comp: HC.Component,
    keys: seq<string>,
    controls: seq<Control>,
    nextIntent: RecordingIntent,
    mouse: Arbiter,
    invalidated: bool)

  /** The dictionary's shape: one control per key. */
  predicate Shaped(t: Toolbar)
  {
    |t.keys| == |t.controls|
  }

  // ---------------------------------------------------------------------
  // The grip opacity and `Locked`

  /** Opacity values, in eighths. */
  const LockedOpacity: int := 1
  const UnlockedOpacity: int := 4

  /**
   * The index of the grip, read as a ToolbarImage: a missing key yields null
   * (and the property access then throws), a control of another type fails
   * the cast.
   */
  function Grip(t: Toolbar): (r: Result<nat>)
    requires Shaped(t)
    ensures r.Ok? ==> r.value < |t.controls| && t.keys[r.value] == "grip" && t.controls[r.value].kind.Image?
    ensures r.Throws? ==> r.error in {NullReference, InvalidCast}
    ensures r == Throws(NullReference) <==> "grip" !in t.keys
  {
    match IndexOf(t.keys, "grip")
    case None => Throws(NullReference)
    case Some(i) => if t.controls[i].kind.Image? then Ok(i) else Throws(InvalidCast)
  }

  /** `Locked` getter: the grip is faded below half opacity. */
  function Locked(t: Toolbar): (r: Result<bool>)
    requires Shaped(t)
    ensures r.Ok? <==> Grip(t).Ok?
    ensures r.Ok? ==> (r.value <==> Abs(t.controls[Grip(t).value].kind.opacityEighths) < 4)
  {
    match Grip(t)
    case Throws(e) => Throws(e)
    case Ok(i) => Ok(Abs(t.controls[i].kind.opacityEighths) < 4)
  }

  /** `Locked` setter: fades the grip to 1/8 opacity when locking, to 1/2 when unlocking. */
  function SetLocked(t: Toolbar, value: bool): (r: Result<Toolbar>)
    requires Shaped(t)
    ensures r.Ok? <==> Grip(t).Ok?
    ensures r.Throws? ==> r.error == Grip(t).error
    ensures r.Ok? ==> Shaped(r.value) && r.value.keys == t.keys && |r.value.controls| == |t.controls|
    ensures r.Ok? ==> forall i :: 0 <= i < |t.controls| && i != Grip(t).value ==> r.value.controls[i] == t.controls[i]
    ensures r.Ok? ==> r.value == t.(controls := r.value.controls)
  {
    match Grip(t)
    case Throws(e) => Throws(e)
    case Ok(i) =>
      var g := t.controls[i];
      var opacity := if value then LockedOpacity else UnlockedOpacity;
      Ok(t.(controls := t.controls[i := g.(kind := g.kind.(opacityEighths := opacity))]))
  }

  /** Writing `Locked` and reading it back returns the value written. */
  lemma LockedRoundTrip(t: Toolbar, value: bool)
    requires Shaped(t) && Grip(t).Ok?
    ensures SetLocked(t, value).Ok?
    ensures Locked(SetLocked(t, value).value) == Ok(value)
  {
    var u := SetLocked(t, value).value;
    assert u.keys == t.keys;
    assert Grip(u) == Grip(t);
  }

  // ---------------------------------------------------------------------
  // Construction and disposal

  /** The control keys, in insertion order. */
  const DeclaredKeys: seq<string> :=
    ["timerText", "optionsButton", "grip", "primaryButton", "microphoneButton", "regionButton", "closeButton"]

  /** A rectangular button of the toolbar's height, with its brushes created. */
  function SquareButton(glyph: Glyph, gravity: Gravity, tidbit: string, action: Action): Control
  {
    New(Button(Rectangular, None, true, Some(glyph))).(
      size := Size(ToolbarHeight, ToolbarHeight), gravity := gravity, tidbit := tidbit, action := action)
  }

  /**
   * The controls `InitializeRenderingObjects` creates, in insertion order.
   * `outline` stands for the primary button's hexagonal path.
   */
  function DeclaredControls(outline: set<Point>): (cs: seq<Control>)
    ensures |cs| == |DeclaredKeys|
  {
    [ New(Text("00:00")).(size := Size(48, ToolbarHeight)),
      SquareButton(OptionsGlyph, Near, "Options", RequestOptions(Generic)),
      New(Image(UnlockedOpacity, Some(GripGlyph))).(size := Size(16, ToolbarHeight)),
      New(Button(Hexagonal(outline), None, true, Some(RecordGlyph))).(
        location := Location3((ToolbarWidth - 64) / 2, -16, 64), size := Size(64, 64), gravity := Zero,
        tidbit := "Start recording", action := RecordingControl),
      SquareButton(UnmuteGlyph, Far, "Audio options", RequestOptions(Audio)),
      SquareButton(RegionGlyph, Far, "Region options", RequestOptions(Region)),
      SquareButton(CloseGlyph, Far, "Close", CloseToolbar) ]
  }

  /**
   * The constructor: the base component, then (with a wrapper) the wrapper's
   * size, no pass-through, no resizing and one mouse-hook lock request; then
   * the bounds at (320, 320) and the controls.
   */
  function Create(container: ContainerInfo, outline: set<Point>): (r: Result<Toolbar>)
    ensures r.Ok? <==> container.kind == Desktop
    ensures container.kind == Direct3D11 ==> r == Throws(NotImplemented)
    ensures r.Ok? ==> Shaped(r.value) && HC.Valid(r.value.comp) && !r.value.comp.disposed
    ensures r.Ok? ==> r.value.mouse == RequestLock(Idle)
    ensures r.Ok? ==> HC.GetBounds(r.value.comp) == Rect(320, 320, ToolbarWidth, ToolbarHeight)
    ensures r.Ok? ==> Locked(r.value) == Ok(false)
    ensures r.Ok? ==> r.value.nextIntent == Start
    ensures r.Ok? ==> r.value.comp.surface.Some?
    ensures r.Ok? ==> !WrapperWindow.PassThrough(r.value.comp.surface.value) && !r.value.comp.surface.value.resizable
  {
    match HC.Construct(container, true, true)
    case Throws(e) => Throws(e)
    case Ok(c0) =>
      var c1 := HC.WrapperMoved(c0, Rect(Hidden.x, Hidden.y, ToolbarWidth, ToolbarHeight));
      var c2 := HC.SetResizable(HC.SetPassThrough(c1, false), false);
      var mouse := if c0.surface.Some? then RequestLock(Idle) else Idle;
      var c3 := HC.SetBounds(c2, Rect(320, 320, ToolbarWidth, ToolbarHeight));
      var t := Toolbar(c3, DeclaredKeys, DeclaredControls(outline), Start, mouse, true);
      assert IndexOf(t.keys, "grip") == Some(2);
      Ok(t)
  }

  /**
   * `Dispose`: one mouse-hook unlock request, unconditionally; then the base
   * disposal, during which every control is disposed and the dictionary
   * cleared.
   */
  function Dispose(t: Toolbar): (r: Toolbar)
    ensures r.mouse.requests == t.mouse.requests - 1 && r.mouse.handlers == t.mouse.handlers
    ensures r.keys == [] && r.controls == [] && Shaped(r)
    ensures r.comp.disposed && HC.Valid(r.comp) && !HC.GetVisible(r.comp)
    ensures Locked(r) == Throws(NullReference)
  {
    t.(mouse := RequestUnlock(t.mouse), comp := HC.Dispose(t.comp), keys := [], controls := [])
  }

  /** Creating and disposing a toolbar leaves its mouse-hook requests balanced. */
  lemma CreateDisposeBalanced(container: ContainerInfo, outline: set<Point>)
    requires container.kind == Desktop
    ensures Create(container, outline).Ok?
    ensures Dispose(Create(container, outline).value).mouse.requests == 0
  {
  }

  /** `Dispose` is not guarded: a second call releases a lock the toolbar never took. */
  lemma DisposeTwiceOverReleases(t: Toolbar)
    ensures Dispose(Dispose(t)).mouse.requests == t.mouse.requests - 2
  {
  }

  // ---------------------------------------------------------------------
  // Gravity layout

  /** The summed widths of the controls of gravity `g` at index `from` or later. */
  function SumWidths(cs: seq<Control>, g: Gravity, from: nat): int
    decreases |cs| - from
  {
    if from >= |cs| then 0
    else (if cs[from].gravity == g then cs[from].size.w else 0) + SumWidths(cs, g, from + 1)
  }

  /** Controls of another gravity add nothing to the sum. */
  lemma {:induction false} SumWidthsSkip(cs: seq<Control>, g: Gravity, from: nat, to: nat)
    requires from <= to <= |cs|
    requires forall i :: from <= i < to ==> cs[i].gravity != g
    ensures SumWidths(cs, g, from) == SumWidths(cs, g, to)
    decreases |cs| - from
  {
    if from < to {
      SumWidthsSkip(cs, g, from + 1, to);
    }
  }

  /** The Z values of the controls. */
  function Zs(cs: seq<Control>): (zs: seq<int>)
    ensures |zs| == |cs| && forall i :: 0 <= i < |cs| ==> zs[i] == cs[i].location.z
  {
    seq(|cs|, i requires 0 <= i < |cs| => cs[i].location.z)
  }

  /** The number of Z values at index `from` or later that sort before the one at `j`. */
  function ZRankFrom(zs: seq<int>, j: nat, from: nat): nat
    requires j < |zs|
    decreases |zs| - from
  {
    if from >= |zs| then 0
    else
      var before := zs[from] < zs[j] || (zs[from] == zs[j] && from < j);
      (if before then 1 else 0) + ZRankFrom(zs, j, from + 1)
  }

  /** Control `j`'s position in the render order (ascending Z, ties in insertion order). */
  function ZRank(cs: seq<Control>, j: nat): nat
    requires j < |cs|
  {
    ZRankFrom(Zs(cs), j, 0)
  }

  /**
   * `CalculateEffectiveLocation` as written: `idx` is the control's position
   * in the render order, while the sums select controls by insertion index
   * strictly greater than `idx`.
   */
  function EffectiveLocationAsWritten(cs: seq<Control>, c: Control, idx: nat): (l: Location3)
    ensures l.y == c.location.y && l.z == c.location.z
    ensures c.gravity == Zero ==> l == c.location
  {
    match c.gravity
    case Near => c.location.(x := SumWidths(cs, Near, idx + 1))
    case Far => c.location.(x := ToolbarWidth - SumWidths(cs, Far, idx + 1))
    case Zero => c.location
  }

  /**
   * The layout corrected: control `j` is placed by its own insertion index.
   * A Near control starts where the Near controls after it end (so they pack
   * leftwards from 0); a Far control starts its own width plus the widths
   * of the Far controls after it short of the right edge.
   */
  function EffectiveLocation(cs: seq<Control>, j: nat): (l: Location3)
    requires j < |cs|
    ensures l.y == cs[j].location.y && l.z == cs[j].location.z
    ensures cs[j].gravity == Zero ==> l == cs[j].location
    ensures cs[j].gravity == Near ==> l.x == SumWidths(cs, Near, j + 1)
    ensures cs[j].gravity == Far ==> l.x + cs[j].size.w == ToolbarWidth - SumWidths(cs, Far, j + 1)
  {
    match cs[j].gravity
    case Near => cs[j].location.(x := SumWidths(cs, Near, j + 1))
    case Far => cs[j].location.(x := ToolbarWidth - SumWidths(cs, Far, j))
    case Zero => cs[j].location
  }

  /** Consecutive Far controls abut: each ends where the next one starts. */
  lemma FarControlsAbut(cs: seq<Control>, j: nat, k: nat)
    requires j < k < |cs| && cs[j].gravity == Far && cs[k].gravity == Far
    requires forall i :: j < i < k ==> cs[i].gravity != Far
    ensures EffectiveLocation(cs, j).x + cs[j].size.w == EffectiveLocation(cs, k).x
  {
    SumWidthsSkip(cs, Far, j + 1, k);
  }

  /** The last Far control ends at the toolbar's right edge. */
  lemma LastFarControlEndsAtEdge(cs: seq<Control>, j: nat)
    requires j < |cs| && cs[j].gravity == Far
    requires forall i :: j < i < |cs| ==> cs[i].gravity != Far
    ensures EffectiveLocation(cs, j).x + cs[j].size.w == ToolbarWidth
  {
    SumWidthsSkip(cs, Far, j + 1, |cs|);
  }

  /** Consecutive Near controls abut: the later one ends where the earlier one starts. */
  lemma NearControlsAbut(cs: seq<Control>, j: nat, k: nat)
    requires j < k < |cs| && cs[j].gravity == Near && cs[k].gravity == Near
    requires forall i :: j < i < k ==> cs[i].gravity != Near
    ensures EffectiveLocation(cs, k).x + cs[k].size.w == EffectiveLocation(cs, j).x
  {
    SumWidthsSkip(cs, Near, j + 1, k);
  }

  /** The last Near control starts at the toolbar's left edge. */
  lemma LastNearControlStartsAtEdge(cs: seq<Control>, j: nat)
    requires j < |cs| && cs[j].gravity == Near
    requires forall i :: j < i < |cs| ==> cs[i].gravity != Near
    ensures EffectiveLocation(cs, j).x == 0
  {
    SumWidthsSkip(cs, Near, j + 1, |cs|);
  }

  /**
   * As written, a toolbar whose controls all share one Z places its last Far
   * control at x = 256, wholly outside the 256-wide bar; the corrected layout
   * places it at 224.
   */
  lemma FarLayoutCounterexample()
    ensures var cs := [SquareButton(CloseGlyph, Far, "Close", CloseToolbar)];
      && ZRank(cs, 0) == 0
      && EffectiveLocationAsWritten(cs, cs[0], ZRank(cs, 0)).x == ToolbarWidth
      && EffectiveLocation(cs, 0).x == ToolbarWidth - ToolbarHeight
  {
  }

  /** The x coordinate each declared control is placed at: grip 0, options 16, timer 48, primary 96, then 160, 192, 224. */
  const DeclaredX: seq<int> := [48, 16, 0, 96, 160, 192, 224]

  /** The render-order positions of the declared controls: the primary button (Z = 64) renders last. */
  lemma DeclaredRanks(outline: set<Point>)
    ensures var cs := DeclaredControls(outline);
      && ZRank(cs, 0) == 0 && ZRank(cs, 1) == 1 && ZRank(cs, 2) == 2 && ZRank(cs, 3) == 6
      && ZRank(cs, 4) == 3 && ZRank(cs, 5) == 4 && ZRank(cs, 6) == 5
  {
    var cs := DeclaredControls(outline);
    var zs := [0, 0, 0, 64, 0, 0, 0];
    assert Zs(cs) == zs;
    assert ZRankFrom(zs, 0, 0) == 0 && ZRankFrom(zs, 1, 0) == 1 && ZRankFrom(zs, 2, 0) == 2;
    assert ZRankFrom(zs, 3, 0) == 6;
    assert ZRankFrom(zs, 4, 0) == 3 && ZRankFrom(zs, 5, 0) == 4 && ZRankFrom(zs, 6, 0) == 5;
  }

  /**
   * With the declared controls, both layouts agree and tile the bar: the
   * rank offset the primary button introduces happens to cancel the
   * off-by-one of the Far sum as written.
   */
  lemma DeclaredLayout(outline: set<Point>)
    ensures var cs := DeclaredControls(outline);
      forall j :: 0 <= j < |cs| ==>
        && EffectiveLocation(cs, j).x == DeclaredX[j]
        && EffectiveLocationAsWritten(cs, cs[j], ZRank(cs, j)).x == DeclaredX[j]
  {
    var cs := DeclaredControls(outline);
    DeclaredRanks(outline);
    assert SumWidths(cs, Near, 7) == 0 && SumWidths(cs, Far, 7) == 0;
    assert SumWidths(cs, Far, 6) == 32 && SumWidths(cs, Far, 5) == 64 && SumWidths(cs, Far, 4) == 96;
    assert SumWidths(cs, Near, 6) == 0 && SumWidths(cs, Near, 5) == 0 && SumWidths(cs, Near, 4) == 0;
    assert SumWidths(cs, Far, 3) == 96 && SumWidths(cs, Near, 3) == 0;
    assert SumWidths(cs, Near, 2) == 16 && SumWidths(cs, Near, 1) == 48;
  }

  // ---------------------------------------------------------------------
  // Painting and refreshing

  /** `Refresh()` of the toolbar: invalidates the wrapper window, if any. */
  function Invalidate(t: Toolbar): (r: Toolbar)
    ensures r == t.(invalidated := r.invalidated)
    ensures r.invalidated == (t.invalidated || t.comp.surface.Some?)
  {
    if t.comp.surface.Some? then t.(invalidated := true) else t
  }

  /** `Refresh()` of control `j`: its tooltip logic, then the toolbar's invalidation. */
  function RefreshAt(t: Toolbar, j: nat): (r: Toolbar)
    requires j < |t.controls|
    ensures |r.controls| == |t.controls| && r.controls[j] == Refresh(t.controls[j])
    ensures forall i :: 0 <= i < |t.controls| && i != j ==> r.controls[i] == t.controls[i]
    ensures r == t.(controls := r.controls, invalidated := r.invalidated)
  {
    Invalidate(t.(controls := t.controls[j := Refresh(t.controls[j])]))
  }

  /**
   * The control part of `Render`: in render order, each control is moved to
   * the location `CalculateEffectiveLocation` gives it for its render-order
   * position (the layout as written), refreshed and drawn (which builds its
   * lazy geometry). Each placement reads only gravities, sizes and Z values,
   * which painting never changes, so the order of the steps does not matter.
   */
  function Render(t: Toolbar): (r: Toolbar)
    ensures |r.controls| == |t.controls| && r.keys == t.keys
    ensures forall j :: 0 <= j < |t.controls| ==>
      && r.controls[j].location == EffectiveLocationAsWritten(t.controls, t.controls[j], ZRank(t.controls, j))
      && r.controls[j].state == t.controls[j].state
      && (r.controls[j].kind.Button? ==> r.controls[j].kind.geometry.Some?)
      && (LiveTip(r.controls[j]) ==> (r.controls[j].tip.value.visible <==> IsHovered(t.controls[j])))
  {
    var cs := t.controls;
    var placed := seq(|cs|, j requires 0 <= j < |cs| => Materialize(Refresh(cs[j].(location := EffectiveLocationAsWritten(cs, cs[j], ZRank(cs, j))))));
    if |cs| == 0 then t.(controls := placed) else Invalidate(t.(controls := placed))
  }

  /**
   * Painted with its declared controls, the toolbar tiles the bar: grip,
   * options and timer from the left, the primary button in the middle and
   * the last three buttons against the right edge, each at its declared x.
   */
  lemma RenderDeclared(t: Toolbar, outline: set<Point>)
    requires t.controls == DeclaredControls(outline)
    ensures var r := Render(t);
      |r.controls| == 7 && forall j :: 0 <= j < 7 ==> r.controls[j].location.x == DeclaredX[j]
  {
    DeclaredLayout(outline);
  }

  /** Painted alone, a Far button is drawn at x = 256, past the right edge of the 256-wide bar. */
  lemma RenderLoneFarOffBar(t: Toolbar)
    requires t.controls == [SquareButton(CloseGlyph, Far, "Close", CloseToolbar)]
    ensures Render(t).controls[0].location.x == ToolbarWidth
  {
    FarLayoutCounterexample();
  }

  /** After the first paint of a fresh toolbar, every button hits exactly where it is drawn. */
  lemma RenderedButtonsHitWhereDrawn(t: Toolbar, j: nat, p: Point)
    requires j < |t.controls| && t.controls[j].kind.Button? && t.controls[j].kind.shape == Rectangular
    requires t.controls[j].kind.geometry.None?
    ensures var c := Render(t).controls[j];
      HitTest(c, p) <==> c.location.x <= p.x <= c.location.x + c.size.w && c.location.y <= p.y <= c.location.y + c.size.h
  {
  }

  // ---------------------------------------------------------------------
  // Pointer input

  /** Whether each control is hit at `p`. */
  function Hits(cs: seq<Control>, p: Point): (hs: seq<bool>)
    ensures |hs| == |cs| && forall i :: 0 <= i < |cs| ==> hs[i] == HitTest(cs[i], p)
  {
    seq(|cs|, i requires 0 <= i < |cs| => HitTest(cs[i], p))
  }

  /** Entry `i` comes before entry `j` when sorted by descending Z (ties in insertion order). */
  predicate Outranks(zs: seq<int>, i: nat, j: nat)
    requires i < |zs| && j < |zs|
  {
    zs[i] > zs[j] || (zs[i] == zs[j] && i < j)
  }

  /** Entry `j` is the first hit entry in descending-Z order. */
  predicate IsTop(hits: seq<bool>, zs: seq<int>, j: nat)
  {
    && |hits| == |zs| && j < |zs|
    && hits[j]
    && forall i :: 0 <= i < |zs| && i != j && hits[i] ==> Outranks(zs, j, i)
  }

  /** Control `j` is the first control hit at `p` in descending-Z order. */
  predicate IsTopHit(cs: seq<Control>, p: Point, j: nat)
  {
    IsTop(Hits(cs, p), Zs(cs), j)
  }

  /** There is at most one top hit. */
  lemma TopHitUnique(cs: seq<Control>, p: Point, j: nat, k: nat)
    requires IsTopHit(cs, p, j) && IsTopHit(cs, p, k)
    ensures j == k
  {
  }

  /** The scan for the top hit, having seen the entries before `i` and kept the best so far. */
  function TopFrom(hits: seq<bool>, zs: seq<int>, i: nat, best: Option<nat>): (r: Option<nat>)
    requires |hits| == |zs| && i <= |zs|
    requires best.Some? ==> best.value < i && hits[best.value]
    requires best.Some? ==> forall k :: 0 <= k < i && k != best.value && hits[k] ==> Outranks(zs, best.value, k)
    requires best.None? ==> forall k :: 0 <= k < i ==> !hits[k]
    ensures r.Some? ==> IsTop(hits, zs, r.value)
    ensures r.None? ==> forall k :: 0 <= k < |zs| ==> !hits[k]
    decreases |zs| - i
  {
    if i == |zs| then best
    else if hits[i] && (best.None? || zs[i] > zs[best.value]) then
      assert forall k :: 0 <= k < i + 1 && k != i && hits[k] ==> Outranks(zs, i, k) by {
        forall k | 0 <= k < i && hits[k] ensures zs[i] > zs[k] {
          if k != best.value { assert Outranks(zs, best.value, k); }
        }
      }
      TopFrom(hits, zs, i + 1, Some(i))
    else
      TopFrom(hits, zs, i + 1, best)
  }

  /** The control that receives a press or the hover at `p`, if any control is hit. */
  function TopHit(cs: seq<Control>, p: Point): (r: Option<nat>)
    ensures r.Some? ==> IsTopHit(cs, p, r.value)
    ensures r.None? <==> forall k :: 0 <= k < |cs| ==> !HitTest(cs[k], p)
  {
    TopFrom(Hits(cs, p), Zs(cs), 0, None)
  }

  /** Controls that differ only in their lazy geometry, state and tip hit and rank alike. */
  ghost predicate SamePlacement(cs: seq<Control>, ds: seq<Control>)
  {
    && |cs| == |ds|
    && forall i :: 0 <= i < |cs| ==> ds[i].location == cs[i].location && forall q :: HitTest(ds[i], q) == HitTest(cs[i], q)
  }

  lemma TopHitSamePlacement(cs: seq<Control>, ds: seq<Control>, p: Point, j: nat)
    requires SamePlacement(cs, ds)
    ensures IsTopHit(cs, p, j) <==> IsTopHit(ds, p, j)
  {
    assert Hits(cs, p) == Hits(ds, p);
    assert Zs(cs) == Zs(ds);
  }

  /** Every control with its lazy geometry built. */
  function MaterializeAll(cs: seq<Control>): (ds: seq<Control>)
    ensures SamePlacement(cs, ds)
    ensures forall i :: 0 <= i < |cs| ==> ds[i] == Materialize(cs[i])
  {
    seq(|cs|, i requires 0 <= i < |cs| => Materialize(cs[i]))
  }

  /**
   * Mouse button pressed: every control is probed (building its
   * geometry); the top hit, if any, gains the Active flag and is refreshed.
   * No other control's flags change, so an earlier Active flag survives.
   */
  function MouseDown(t: Toolbar, p: Point): (r: Toolbar)
    ensures |r.controls| == |t.controls| && r.keys == t.keys && r.mouse == t.mouse && r.comp == t.comp
    ensures forall i :: 0 <= i < |t.controls| ==>
      && (IsActive(r.controls[i]) <==> IsActive(t.controls[i]) || IsTopHit(t.controls, p, i))
      && (IsHovered(r.controls[i]) <==> IsHovered(t.controls[i]))
      && (!IsTopHit(t.controls, p, i) ==> r.controls[i].state == t.controls[i].state)
      && r.controls[i].action == t.controls[i].action
    ensures SamePlacement(t.controls, r.controls)
    ensures r == t.(controls := r.controls, invalidated := r.invalidated)
  {
    var cs := MaterializeAll(t.controls);
    match TopHit(cs, p)
    case None => t.(controls := cs)
    case Some(j) =>
      OnlyTopHit(t.controls, cs, p, j);
      PressTop(t, p, j)
  }

  /**
   * The rest of a button press whose top hit is control `j`: every control
   * has been probed, `j` gains the Active flag and is refreshed.
   */
  function PressTop(t: Toolbar, p: Point, j: nat): (r: Toolbar)
    requires j < |t.controls|
    ensures |r.controls| == |t.controls| && r.keys == t.keys && r.mouse == t.mouse && r.comp == t.comp
    ensures forall i :: 0 <= i < |t.controls| ==>
      && (IsActive(r.controls[i]) <==> IsActive(t.controls[i]) || i == j)
      && (IsHovered(r.controls[i]) <==> IsHovered(t.controls[i]))
      && (i != j ==> r.controls[i].state == t.controls[i].state)
      && r.controls[i].action == t.controls[i].action
    ensures SamePlacement(t.controls, r.controls)
    ensures r == t.(controls := r.controls, invalidated := r.invalidated)
  {
    var cs := MaterializeAll(t.controls);
    var pressed := cs[j].(state := cs[j].state | Active);
    ClearHoveredKeepsActive(cs[j].state);
    RefreshAt(t.(controls := cs[j := pressed]), j)
  }

  /** The Hovered flag cleared on every control. */
  function ClearHovered(cs: seq<Control>): (ds: seq<Control>)
    ensures SamePlacement(cs, ds)
    ensures forall i :: 0 <= i < |cs| ==> ds[i] == cs[i].(state := cs[i].state & !Hovered)
    ensures forall i :: 0 <= i < |cs| ==> !IsHovered(ds[i]) && (IsActive(ds[i]) <==> IsActive(cs[i]))
  {
    var ds := seq(|cs|, i requires 0 <= i < |cs| => cs[i].(state := cs[i].state & !Hovered));
    assert forall i :: 0 <= i < |cs| ==> !IsHovered(ds[i]) && (IsActive(ds[i]) <==> IsActive(cs[i])) by {
      forall i | 0 <= i < |cs| ensures !IsHovered(ds[i]) && (IsActive(ds[i]) <==> IsActive(cs[i])) {
        ClearHoveredKeepsActive(cs[i].state);
      }
    }
    ds
  }

  /** Clearing Hovered keeps the Active flag. */
  lemma ClearHoveredKeepsActive(s: StateFlags)
    ensures (s & !Hovered) & Active == s & Active
    ensures (s & !Hovered) & Hovered == 0
    ensures ((s & !Hovered) | Hovered) & Active == s & Active
    ensures ((s & !Hovered) | Hovered) & Hovered != 0
    ensures (s | Active) & Hovered == s & Hovered
    ensures (s | Active) & Active != 0
  {
  }

  /**
   * Mouse-leave: the Hovered flag is cleared on every control, without a
   * refresh; nothing else changes.
   */
  function MouseLeave(t: Toolbar): (r: Toolbar)
    ensures |r.controls| == |t.controls|
    ensures forall i :: 0 <= i < |t.controls| ==>
      && !IsHovered(r.controls[i])
      && (IsActive(r.controls[i]) <==> IsActive(t.controls[i]))
      && r.controls[i] == t.controls[i].(state := r.controls[i].state)
    ensures r == t.(controls := r.controls)
  {
    t.(controls := ClearHovered(t.controls))
  }

  /**
   * Mouse move: Hovered is cleared everywhere; walking in descending-Z order,
   * the first control hit is marked Hovered and refreshed, and the walk
   * stops (controls after it are not probed, so their geometry stays
   * lazy). The toolbar is then invalidated, so the next paint refreshes the
   * tooltips of controls that lost the hover.
   */
  function MouseMove(t: Toolbar, p: Point): (r: Toolbar)
    ensures |r.controls| == |t.controls| && r.keys == t.keys && r.mouse == t.mouse
    ensures forall i :: 0 <= i < |t.controls| ==>
      && (IsHovered(r.controls[i]) <==> IsTopHit(t.controls, p, i))
      && (IsActive(r.controls[i]) <==> IsActive(t.controls[i]))
    ensures SamePlacement(t.controls, r.controls)
    ensures r.invalidated == (t.invalidated || t.comp.surface.Some?)
  {
    var cleared := ClearHovered(t.controls);
    match TopHit(cleared, p)
    case None =>
      Invalidate(t.(controls := MaterializeAll(cleared)))
    case Some(j) =>
      OnlyTopHit(t.controls, cleared, p, j);
      HoverTop(t, p, j)
  }

  /**
   * The rest of a mouse move whose top hit is control `j`: the controls down
   * to `j` are probed, `j` gains the Hovered flag and is refreshed.
   */
  function HoverTop(t: Toolbar, p: Point, j: nat): (r: Toolbar)
    requires IsTopHit(t.controls, p, j)
    ensures |r.controls| == |t.controls| && r.keys == t.keys && r.mouse == t.mouse
    ensures forall i :: 0 <= i < |t.controls| ==>
      && (IsHovered(r.controls[i]) <==> i == j)
      && (IsActive(r.controls[i]) <==> IsActive(t.controls[i]))
    ensures SamePlacement(t.controls, r.controls)
    ensures r.invalidated == (t.invalidated || t.comp.surface.Some?)
  {
    var cleared := ClearHovered(t.controls);
    var probed := ProbeTo(cleared, j);
    var hovered := probed[j].(state := probed[j].state | Hovered);
    ClearHoveredKeepsActive(t.controls[j].state);
    Invalidate(RefreshAt(t.(controls := probed[j := hovered]), j))
  }

  /** The top hit among controls placed like `cs` is the only one. */
  lemma OnlyTopHit(cs: seq<Control>, ds: seq<Control>, p: Point, j: nat)
    requires SamePlacement(cs, ds) && IsTopHit(ds, p, j)
    ensures forall i :: 0 <= i < |cs| ==> (IsTopHit(cs, p, i) <==> i == j)
  {
    forall i | 0 <= i < |cs| ensures IsTopHit(cs, p, i) <==> i == j {
      TopHitSamePlacement(cs, ds, p, i);
      if IsTopHit(cs, p, i) { TopHitUnique(ds, p, i, j); }
    }
  }

  /**
   * The hit tests of a move, in descending Z order down to the top hit `j`:
   * each probed control builds its geometry, the rest stay lazy.
   */
  function ProbeTo(cs: seq<Control>, j: nat): (ds: seq<Control>)
    requires j < |cs|
    ensures SamePlacement(cs, ds)
    ensures forall i :: 0 <= i < |cs| ==> ds[i].state == cs[i].state
    ensures ds[j].kind.Button? ==> ds[j].kind.geometry.Some?
  {
    seq(|cs|, i requires 0 <= i < |cs| => if i == j || Outranks(Zs(cs), i, j) then Materialize(cs[i]) else cs[i])
  }

  /** After a mouse move at most one control is hovered. */
  lemma AtMostOneHovered(t: Toolbar, p: Point, i: nat, k: nat)
    requires i < |t.controls| && k < |t.controls|
    requires IsHovered(MouseMove(t, p).controls[i]) && IsHovered(MouseMove(t, p).controls[k])
    ensures i == k
  {
    TopHitUnique(t.controls, p, i, k);
  }

  /** The first Active control in insertion order. */
  function FirstActive(cs: seq<Control>): (r: Option<nat>)
    ensures r.Some? ==> r.value < |cs| && IsActive(cs[r.value])
    ensures r.Some? ==> forall i :: 0 <= i < r.value ==> !IsActive(cs[i])
    ensures r.None? <==> forall i :: 0 <= i < |cs| ==> !IsActive(cs[i])
  {
    if |cs| == 0 then None
    else if IsActive(cs[0]) then Some(0)
    else match FirstActive(cs[1..])
      case None => None
      case Some(i) => Some(i + 1)
  }

  /** What the mouse-up handler leaves behind, and the event it raised, if any. */
  datatype Released = Released(toolbar: Toolbar, event: Option<Emitted>)

  /** Runs a control's `Action`. The close button's action disposes the toolbar. */
  function Invoke(t: Toolbar, action: Action): (r: Released)
    ensures action.CloseToolbar? ==> r == Released(Dispose(t), None)
    ensures !action.CloseToolbar? ==> r.toolbar == t
    ensures r.event.Some? <==> action.RequestOptions? || action.RecordingControl?
    ensures action.RecordingControl? ==> r.event == Some(RecordingIntentReceived(t.nextIntent))
    ensures action.RequestOptions? ==> r.event == Some(OptionsRequested(action.request))
  {
    match action
    case NoAction => Released(t, None)
    case RequestOptions(k) => Released(t, Some(OptionsRequested(k)))
    case RecordingControl => Released(t, Some(RecordingIntentReceived(t.nextIntent)))
    case CloseToolbar => Released(Dispose(t), None)
  }

  /**
   * Mouse button released: the first Active control in insertion order loses
   * the flag (without a refresh); its action runs only if the release point
   * still hits it.
   */
  function MouseUp(t: Toolbar, p: Point): (r: Released)
    ensures FirstActive(t.controls).None? ==> r == Released(t, None)
    ensures FirstActive(t.controls).Some? ==>
      var j := FirstActive(t.controls).value;
      var released := Materialize(t.controls[j]).(state := t.controls[j].state & !Active);
      var u := t.(controls := t.controls[j := released]);
      && !IsActive(released)
      && (HitTest(t.controls[j], p) ==> r == Invoke(u, t.controls[j].action))
      && (!HitTest(t.controls[j], p) ==> r == Released(u, None))
  {
    match FirstActive(t.controls)
    case None => Released(t, None)
    case Some(j) =>
      var c := Materialize(t.controls[j]);
      var released := c.(state := t.controls[j].state & !Active);
      var u := t.(controls := t.controls[j := released]);
      if HitTest(c, p) then Invoke(u, c.action) else Released(u, None)
  }

  /**
   * A click: on a toolbar with no Active control, a press whose top hit is
   * control `j` followed by a release at `q` runs `j`'s action exactly when
   * `q` still hits `j`, and, unless that closed the toolbar, leaves no
   * control Active.
   */
  lemma PressRelease(t: Toolbar, p: Point, q: Point, j: nat)
    requires IsTopHit(t.controls, p, j)
    requires forall i :: 0 <= i < |t.controls| ==> !IsActive(t.controls[i])
    ensures var r := MouseUp(MouseDown(t, p), q);
      && r.event == (if HitTest(t.controls[j], q) then Invoke(t, t.controls[j].action).event else None)
      && (!(HitTest(t.controls[j], q) && t.controls[j].action.CloseToolbar?) ==>
            |r.toolbar.controls| == |t.controls| && forall i :: 0 <= i < |t.controls| ==> !IsActive(r.toolbar.controls[i]))
  {
    var d := MouseDown(t, p);
    forall i | 0 <= i < |t.controls| ensures IsActive(d.controls[i]) <==> i == j {
      if IsTopHit(t.controls, p, i) { TopHitUnique(t.controls, p, i, j); }
    }
    assert FirstActive(d.controls) == Some(j);
    assert HitTest(d.controls[j], q) == HitTest(t.controls[j], q);
  }

  /**
   * The brush each control is filled with follows the pointer: after a move
   * the hover brush marks exactly the top hit (unless it is pressed), a
   * press fills the top hit with the active brush, and after the pointer
   * leaves no control shows the hover brush.
   */
  lemma BrushFollowsPointer(t: Toolbar, p: Point, i: nat)
    requires i < |t.controls|
    ensures BrushFor(MouseMove(t, p).controls[i]) == HoveredBrush <==> IsTopHit(t.controls, p, i) && !IsActive(t.controls[i])
    ensures IsTopHit(t.controls, p, i) ==> BrushFor(MouseDown(t, p).controls[i]) == ActiveBrush
    ensures BrushFor(MouseLeave(t).controls[i]) != HoveredBrush
  {
  }

  /**
   * Active is not exclusive: two presses without a release in between (for
   * instance with two different buttons) leave two controls Active.
   */
  lemma ActiveNotExclusive(t: Toolbar, p: Point, q: Point, i: nat, k: nat)
    requires i != k && IsTopHit(t.controls, p, i) && IsTopHit(MouseDown(t, p).controls, q, k)
    ensures IsActive(MouseDown(MouseDown(t, p), q).controls[i])
    ensures IsActive(MouseDown(MouseDown(t, p), q).controls[k])
  {
  }

  /** The outcome of `SetPrimaryButtonState`: the state reached, and the exception thrown, if any. */
  datatype Outcome = Outcome(toolbar: Toolbar, error: Option<Exception>)

  /** The primary button's index, read as a ToolbarPrimaryButton. */
  function PrimaryButton(t: Toolbar): (r: Result<nat>)
    requires Shaped(t)
    ensures r.Ok? ==> r.value < |t.controls| && t.controls[r.value].kind.Button? && t.controls[r.value].kind.shape.Hexagonal?
    ensures r == Throws(NullReference) <==> "primaryButton" !in t.keys
  {
    match IndexOf(t.keys, "primaryButton")
    case None => Throws(NullReference)
    case Some(i) =>
      if t.controls[i].kind.Button? && t.controls[i].kind.shape.Hexagonal? then Ok(i) else Throws(InvalidCast)
  }

  /** Sets the primary button's bitmap, which refreshes it. */
  function SetPrimaryBitmap(t: Toolbar, glyph: Glyph): (r: Result<Toolbar>)
    requires Shaped(t)
    ensures r.Ok? <==> PrimaryButton(t).Ok?
    ensures r.Ok? ==> Shaped(r.value) && r.value.keys == t.keys
    ensures r.Ok? ==> |r.value.controls| == |t.controls|
    ensures r.Ok? ==> var c := r.value.controls[PrimaryButton(t).value]; c.kind.Button? && c.kind.bitmap == Some(glyph)
  {
    match PrimaryButton(t)
    case Throws(e) => Throws(e)
    case Ok(i) =>
      var c := t.controls[i];
      var k := Button(c.kind.shape, c.kind.geometry, c.kind.brushes, Some(glyph));
      Ok(RefreshAt(t.(controls := t.controls[i := c.(kind := k)]), i))
  }

  /**
   * `SetPrimaryButtonState`: the intent to send is stored first; Start and
   * Stop then swap the bitmap, any other intent throws (leaving the stored
   * intent in place and `enabled` unapplied). `enabled` sets the primary
   * button's `Enabled`.
   */
  function SetPrimaryButtonState(t: Toolbar, intent: Option<RecordingIntent>, enabled: Option<bool>): (r: Outcome)
    requires Shaped(t)
    ensures Shaped(r.toolbar) && r.toolbar.keys == t.keys
    ensures intent.Some? ==> r.toolbar.nextIntent == intent.value
    ensures intent.None? ==> r.toolbar.nextIntent == t.nextIntent
    ensures intent.Some? && intent.value in {Pause, Resume} ==>
      r == Outcome(t.(nextIntent := intent.value), Some(NotImplemented))
    ensures PrimaryButton(t).Ok? && !(intent.Some? && intent.value in {Pause, Resume}) ==> r.error.None?
    ensures r.error.None? && (intent.Some? || enabled.Some?) ==>
      PrimaryButton(t).Ok? && |r.toolbar.controls| == |t.controls|
    ensures r.error.None? && intent.Some? ==>
      var c := r.toolbar.controls[PrimaryButton(t).value];
      c.kind.Button? && c.kind.bitmap == Some(if intent.value == Start then RecordGlyph else StopGlyph)
    ensures r.error.None? && enabled.Some? ==> r.toolbar.controls[PrimaryButton(t).value].enabled == enabled.value
  {
    var t1 := if intent.Some? then t.(nextIntent := intent.value) else t;
    var t2: Result<Toolbar> :=
      if intent.None? then Ok(t1)
      else match intent.value
        case Start => SetPrimaryBitmap(t1, RecordGlyph)
        case Stop => SetPrimaryBitmap(t1, StopGlyph)
        case _ => Throws(NotImplemented);
    match t2
    case Throws(e) => Outcome(t1, Some(e))
    case Ok(t3) =>
      if enabled.None? then Outcome(t3, None)
      else match PrimaryButton(t3)
        case Throws(e) => Outcome(t3, Some(e))
        case Ok(i) =>
          var c := t3.controls[i];
          Outcome(t3.(controls := t3.controls[i := c.(enabled := enabled.value)]), None)
  }

  /**
   * The intent stored by `SetPrimaryButtonState` is the one the primary
   * button sends when it is released over.
   */
  lemma ReleaseSendsStoredIntent(t: Toolbar, intent: RecordingIntent, p: Point)
    requires Shaped(t) && intent in {Start, Stop}
    requires var u := SetPrimaryButtonState(t, Some(intent), None).toolbar;
      FirstActive(u.controls).Some? && u.controls[FirstActive(u.controls).value].action == RecordingControl
      && HitTest(u.controls[FirstActive(u.controls).value], p)
    ensures MouseUp(SetPrimaryButtonState(t, Some(intent), None).toolbar, p).event == Some(RecordingIntentReceived(intent))
  {
  }
}
