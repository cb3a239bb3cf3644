/**
 * Clipper: the screen-region selector. While unlocked it follows the global
 * mouse and keyboard hooks: a left-button drag spans the selection, holding
 * Alt snaps it to the window under the pointer, and a feedback tooltip says
 * what to do next. Locking hands the hooks back and leaves the selection on
 * screen, framed by resize corners, with an optional toolbar attached below
 * it.
 *
 * The window system's answers (`WindowFromPoint`, `GetWindowBounds`, the
 * pointer position) are parameters; the tooltip is kept as the settings the
 * clipper writes into its tidbit.
 */
module Clipper {
  import opened Wrappers
  import opened Geometry
  import opened Hooks
  import opened Container
  import HC = HudComponent
  import WrapperWindow
  import T = Tidbit
  import TB = Toolbar

  /** The smallest selection the clipper accepts. */
  const MinimumWidth: int := 38
  const MinimumHeight: int := 38

  /** ClippingMode. `Pick` is the enum's zero value, so a new clipper is in Pick mode. */
  datatype Mode = Pick | Rescale

  /** The uniform corner padding (`new Padding(n)`) each mode's layout uses. */
  function PaddingFor(m: Mode): (p: int)
    ensures p > 0
  {
    match m
    case Pick => 1
    case Rescale => 5
  }

  datatype MouseButton = LeftButton | RightButton | MiddleButton | XButton1 | XButton2

  /** The virtual-key codes the clipper tells apart. */
  datatype KeyCode = LMenu | RMenu | OtherKey

  /**
   * A key event: its key code, and whether its key data also carries
   * modifier flags (then `KeyData` differs from `KeyCode`).
   */
  datatype KeyEvent = KeyEvent(code: KeyCode, modifiers: bool)

  /** What the window system reports at a point: the top-level window there (0 for none) and its bounds. */
  datatype WindowProbe = WindowProbe(handle: int, bounds: Rect)

  /** The bitmap the tooltip shows: a custom one, or (none set) the tidbit's status icon. */
  datatype TipIcon = StatusIcon | PickWindowIcon | PickRegionIcon

  /**
   * The clipper's tidbit, as the settings the clipper gives it. `accent` is
   * the custom accent colour as a 32-bit ARGB value (None: the status colour).
   */
  datatype Tip = Tip(
    disposed: bool,
    visible: bool,
    status: T.Status,
    content: Option<string>,
    icon: TipIcon,
    accent: Option<int>)

  /** A newly constructed tidbit: Information status, no content, and visible. */
  const NewTip: Tip := Tip(false, true, T.Information, None, StatusIcon, None)

  const PickWindowText: string := "Click the window to be captured"
  const SelectRegionText: string := "Select the region you want to capture"
  const TooSmallText: string := "This region is too small"

  /** `Color.FromArgb(0x28D69C)`: the 32-bit value is taken as ARGB, so its alpha byte is 0. */
  const PickWindowAccent: int := 0x0028_D69C
  /** `Color.White` and `Color.Red`. */
  const WhiteAccent: int := 0xFFFF_FFFF
  const RedAccent: int := 0xFFFF_0000

  /** The alpha byte of an ARGB colour. */
  function Alpha(argb: int): int
    requires 0 <= argb < 0x1_0000_0000
  {
    argb / 0x100_0000
  }

  /** The advice the tooltip gives. */
  datatype Advice = PickWindow | SelectRegion | TooSmall | NoAdvice

  datatype Clipper = Clipper(
    comp: HC.Component,
    mode: Mode,
    locked: bool,
    altDown: bool,
    advancedSelection: bool,
    initialPosition: Option<Point>,
    windowHandle: int,
    padding: int,
    toolbar: Option<TB.Toolbar>,
    tip: Option<Tip>,
    mouse: Arbiter,
    keyboard: Arbiter)

  /**
   * The control state is the same: mode, lock, Alt and selection flags, the
   * drag start and both hook ledgers.
   */
  predicate SameControl(c: Clipper, r: Clipper)
  {
    && r.mode == c.mode && r.locked == c.locked && r.altDown == c.altDown
    && r.advancedSelection == c.advancedSelection && r.initialPosition == c.initialPosition
    && r.mouse == c.mouse && r.keyboard == c.keyboard
  }

  /** A handler's answer to a hooked mouse event: the new state and whether the event was captured. */
  datatype Outcome = Outcome(clipper: Clipper, handled: bool)

  const MouseHandlers: multiset<Handler> := multiset{ClipperMouseDown, ClipperMouseMove, ClipperMouseUp}
  const KeyHandlers: multiset<Handler> := multiset{ClipperKeyDown, ClipperKeyUp}

  // ---------------------------------------------------------------------
  // Area and Bounds

  /** `Area` getter: the bounds shrunk by half the horizontal and vertical padding on each side. */
  function Area(c: Clipper): Rect
  {
    var b := HC.GetBounds(c.comp);
    Inflate(b, Div(-c.padding - c.padding, 2), Div(-c.padding - c.padding, 2))
  }

  /**
   * The attached toolbar's placement (UpdateAttachedToolbar): centred under
   * the clipper half a toolbar height below it and kept on the virtual
   * screen; when there is no room below, it goes one and a half toolbar
   * heights above the clipper instead.
   */
  function PlaceToolbar(screen: Rect, clip: Rect, bar: Rect): (r: Rect)
    ensures r.w == bar.w && r.h == bar.h
    // horizontally: centred when that fits, else against the nearer screen edge
    ensures bar.w <= screen.w ==> screen.x <= r.x <= screen.x + screen.w - bar.w
    ensures var centred := clip.x + Div(clip.w - bar.w, 2);
      screen.x <= centred <= screen.x + screen.w - bar.w ==> r.x == centred
    // vertically: below the clipper when that fits, else above it
    ensures var below := clip.y + clip.h + Div(bar.h, 2);
      screen.y <= below <= screen.y + screen.h - bar.h ==> r.y == below
    ensures var below := clip.y + clip.h + Div(bar.h, 2);
      screen.y <= screen.y + screen.h - bar.h < below ==> r.y == clip.y - Div(3 * bar.h, 2)
  {
    var x := Max(screen.x, Min(screen.x + screen.w - bar.w, clip.x + Div(clip.w - bar.w, 2)));
    var below := clip.y + clip.h + Div(bar.h, 2);
    var y := Max(screen.y, Min(screen.y + screen.h - bar.h, below));
    Rect(x, if y < below then clip.y - Div(3 * bar.h, 2) else y, bar.w, bar.h)
  }

  /**
   * UpdateAttachedToolbar as written: the clamp uses the virtual screen's
   * width and height where its right and bottom edges are meant.
   */
  function PlaceToolbarAsWritten(screen: Rect, clip: Rect, bar: Rect): (r: Rect)
    ensures r.w == bar.w && r.h == bar.h
    // horizontally: never left of the screen, and right of `screen.w - bar.w` only when pinned to its left edge
    ensures screen.x <= r.x && (r.x <= screen.w - bar.w || r.x == screen.x)
    ensures var centred := clip.x + Div(clip.w - bar.w, 2);
      screen.x <= centred <= screen.w - bar.w ==> r.x == centred
    // vertically: below the clipper when that clears `screen.h`, else above it
    ensures var below := clip.y + clip.h + Div(bar.h, 2);
      screen.y <= below <= screen.h - bar.h ==> r.y == below
    ensures var below := clip.y + clip.h + Div(bar.h, 2);
      screen.y <= screen.h - bar.h < below ==> r.y == clip.y - Div(3 * bar.h, 2)
  {
    var x := Max(screen.x, Min(screen.w - bar.w, clip.x + Div(clip.w - bar.w, 2)));
    var below := clip.y + clip.h + Div(bar.h, 2);
    var y := Max(screen.y, Min(screen.h - bar.h, below));
    Rect(x, if y < below then clip.y - Div(3 * bar.h, 2) else y, bar.w, bar.h)
  }

  /** On a virtual screen whose origin is (0, 0) the two clamps agree. */
  lemma PlaceToolbarAtOrigin(screen: Rect, clip: Rect, bar: Rect)
    requires screen.x == 0 && screen.y == 0
    ensures PlaceToolbarAsWritten(screen, clip, bar) == PlaceToolbar(screen, clip, bar)
  {
  }

  /**
   * With a monitor left of the primary one (virtual screen from x = -1920 to
   * 1920), a toolbar under a region near the right edge is pushed past the
   * edge as written, and kept on screen by the corrected clamp.
   */
  lemma ToolbarClampAsWrittenOffScreen()
    ensures var screen, clip, bar := Rect(-1920, 0, 3840, 1080), Rect(1800, 100, 100, 100), Rect(0, 0, 256, 32);
      && PlaceToolbarAsWritten(screen, clip, bar).x == 1722
      && PlaceToolbarAsWritten(screen, clip, bar).x + bar.w > screen.x + screen.w
      && PlaceToolbar(screen, clip, bar).x == 1664
      && PlaceToolbar(screen, clip, bar).x + bar.w <= screen.x + screen.w
  {
  }

  /** The attached toolbar, if any, sits where UpdateAttachedToolbar puts it for the clipper's current bounds. */
  predicate ToolbarPlaced(c: Clipper)
  {
    c.toolbar.Some? ==>
      var bar := HC.GetBounds(c.toolbar.value.comp);
      bar == PlaceToolbarAsWritten(c.comp.container.virtualBounds, HC.GetBounds(c.comp), bar)
  }

  /** UpdateAttachedToolbar: re-places the attached toolbar, if any, with the clamp as written. */
  function UpdateToolbar(c: Clipper): (r: Clipper)
    ensures SameControl(c, r) && r.comp == c.comp && r.padding == c.padding
    ensures r.tip == c.tip && r.windowHandle == c.windowHandle
    ensures r.toolbar.Some? == c.toolbar.Some?
    ensures c.toolbar.Some? ==> r.toolbar.value == c.toolbar.value.(comp := r.toolbar.value.comp)
    ensures c.toolbar.Some? ==>
      var screen, bar, placed := c.comp.container.virtualBounds, HC.GetBounds(c.toolbar.value.comp), HC.GetBounds(r.toolbar.value.comp);
      && placed.Dimensions() == bar.Dimensions()
      && screen.x <= placed.x && (placed.x <= screen.w - bar.w || placed.x == screen.x)
    ensures ToolbarPlaced(r)
  {
    match c.toolbar
    case None => c
    case Some(t) =>
      var placed := PlaceToolbarAsWritten(c.comp.container.virtualBounds, HC.GetBounds(c.comp), HC.GetBounds(t.comp));
      c.(toolbar := Some(t.(comp := HC.SetBounds(t.comp, placed))))
  }

  /** Placing the toolbar twice is placing it once: the placement reads only the toolbar's size. */
  lemma UpdateToolbarIdempotent(c: Clipper)
    ensures UpdateToolbar(UpdateToolbar(c)) == UpdateToolbar(c)
  {
  }

  /**
   * The desktop wrapper's Resize and Move handlers, which the constructor
   * subscribes in a desktop container only: the toolbar follows the window.
   */
  function Follow(c: Clipper): (r: Clipper)
    ensures SameControl(c, r) && r.comp == c.comp && r.padding == c.padding
    ensures r.tip == c.tip && r.windowHandle == c.windowHandle && r.toolbar.Some? == c.toolbar.Some?
    ensures c.comp.container.kind == Desktop ==> ToolbarPlaced(r)
    ensures c.comp.container.kind != Desktop ==> r == c
  {
    if c.comp.container.kind == Desktop then UpdateToolbar(c) else c
  }

  /** `Bounds` setter on the clipper: the window moves, and in a desktop container the toolbar follows it. */
  function Reposition(c: Clipper, b: Rect): (r: Clipper)
    ensures HC.GetBounds(r.comp) == b
    ensures SameControl(c, r) && r.padding == c.padding && r.tip == c.tip && r.windowHandle == c.windowHandle
    ensures r.comp.container == c.comp.container && r.comp.surface.Some? == c.comp.surface.Some?
    ensures r.comp.disposed == c.comp.disposed && r.toolbar.Some? == c.toolbar.Some?
    ensures HC.Valid(c.comp) ==> HC.Valid(r.comp)
    ensures c.comp.container.kind == Desktop ==> ToolbarPlaced(r)
  {
    Follow(c.(comp := HC.SetBounds(c.comp, b)))
  }

  /** `Area` setter: the bounds are the area grown by the padding on every side; then the toolbar follows. */
  function SetArea(c: Clipper, a: Rect): (r: Clipper)
    ensures HC.GetBounds(r.comp) == Inflate(a, c.padding, c.padding)
    ensures SameControl(c, r) && r.padding == c.padding && r.tip == c.tip && r.windowHandle == c.windowHandle
    ensures r.comp.container == c.comp.container && r.comp.surface.Some? == c.comp.surface.Some?
    ensures r.comp.disposed == c.comp.disposed
    ensures HC.Valid(c.comp) ==> HC.Valid(r.comp)
    ensures ToolbarPlaced(r)
  {
    var grow := Div(c.padding + c.padding, 2);
    UpdateToolbar(Reposition(c, Inflate(a, grow, grow)))
  }

  /** Reading `Area` returns what was set, and setting the area read leaves the bounds where they were. */
  lemma AreaRoundTrip(c: Clipper, a: Rect)
    ensures Area(SetArea(c, a)) == a
    ensures HC.GetBounds(SetArea(c, Area(c)).comp) == HC.GetBounds(c.comp)
  {
    var p := c.padding;
    assert Div(-p - p, 2) == -p;
  }

  /** RefreshLayout: switch to the mode's padding without moving the area. */
  function RefreshLayout(c: Clipper): (r: Clipper)
    ensures r.padding == PaddingFor(c.mode)
    ensures Area(r) == Area(c)
    ensures HC.GetBounds(r.comp) == Inflate(Area(c), r.padding, r.padding)
    ensures SameControl(c, r) && r.tip == c.tip && r.windowHandle == c.windowHandle
    ensures r.comp.disposed == c.comp.disposed
    ensures r.comp.container == c.comp.container && r.comp.surface.Some? == c.comp.surface.Some?
    ensures HC.Valid(c.comp) ==> HC.Valid(r.comp)
    ensures ToolbarPlaced(r)
  {
    var old_ := Area(c);
    var r := SetArea(c.(padding := PaddingFor(c.mode)), old_);
    AreaRoundTrip(c.(padding := PaddingFor(c.mode)), old_);
    r
  }

  // ---------------------------------------------------------------------
  // The tooltip

  /** RefreshTidbit's choice, first match wins. */
  function Advise(c: Clipper): (a: Advice)
    ensures a == PickWindow <==> c.altDown && c.advancedSelection
    ensures a == NoAdvice <==>
      !(c.altDown && c.advancedSelection) && Area(c).w >= MinimumWidth && Area(c).h >= MinimumHeight
  {
    var area := Area(c);
    if c.altDown && c.advancedSelection then PickWindow
    else if area.w == 0 || area.h == 0 then SelectRegion
    else if area.w < MinimumWidth || area.h < MinimumHeight then TooSmall
    else NoAdvice
  }

  /** Writes one piece of advice into the tidbit. Only "too small" touches the status. */
  function ApplyAdvice(t: Tip, a: Advice): (r: Tip)
    ensures r.visible <==> a != NoAdvice
    ensures r.status == if a == TooSmall then T.Error else t.status
    ensures r.disposed == t.disposed
    ensures a == NoAdvice ==> r == t.(visible := false)
    ensures a != NoAdvice ==> r.content.Some?
  {
    match a
    case PickWindow => t.(content := Some(PickWindowText), icon := PickWindowIcon, accent := Some(PickWindowAccent), visible := true)
    case SelectRegion => t.(content := Some(SelectRegionText), icon := PickRegionIcon, accent := Some(WhiteAccent), visible := true)
    case TooSmall =>
      t.(status := T.Error, content := Some(TooSmallText), icon := StatusIcon, accent := Some(RedAccent), visible := true)
    case NoAdvice => t.(visible := false)
  }

  /**
   * RefreshTidbit: in Pick mode, (re)create the tidbit if there is none or it
   * was disposed, then apply the advice. In Rescale mode nothing happens.
   */
  function RefreshTidbit(c: Clipper): (r: Clipper)
    ensures c.mode == Rescale ==> r == c
    ensures c.mode == Pick ==> r.tip.Some? && !r.tip.value.disposed
    ensures c.mode == Pick ==> (r.tip.value.visible <==> Advise(c) != NoAdvice)
    ensures c.mode == Pick && c.tip.Some? && !c.tip.value.disposed && Advise(c) != TooSmall ==>
      r.tip.value.status == c.tip.value.status
    ensures SameControl(c, r) && r.comp == c.comp && r.padding == c.padding
    ensures r.toolbar == c.toolbar && r.windowHandle == c.windowHandle
  {
    if c.mode != Pick then c
    else
      var t := if c.tip.None? || c.tip.value.disposed then NewTip else c.tip.value;
      c.(tip := Some(ApplyAdvice(t, Advise(c))))
  }

  /**
   * In Pick mode the tooltip is up exactly when Alt-selection is on or the
   * area is short of the minimum in either direction.
   */
  lemma TipShownUntilLargeEnough(c: Clipper)
    requires c.mode == Pick
    ensures RefreshTidbit(c).tip.value.visible <==>
      (c.altDown && c.advancedSelection) || Area(c).w < MinimumWidth || Area(c).h < MinimumHeight
  {
  }

  /**
   * The status set by "too small" is never reset: a live tidbit keeps the
   * Error status through any later advice.
   */
  lemma ErrorStatusSticks(t: Tip, a: Advice)
    ensures ApplyAdvice(ApplyAdvice(t, TooSmall), a).status == T.Error
  {
  }

  /**
   * The window-picking accent is fully transparent, unlike the white and red
   * ones, so that tidbit draws no accent border.
   */
  lemma PickWindowAccentTransparent(t: T.Tidbit, measured: Size)
    requires T.LiveTarget(t) && t.textResources
    requires T.SetCustomAccent(t, Alpha(PickWindowAccent), measured).Ok?
    ensures Alpha(PickWindowAccent) == 0 && Alpha(WhiteAccent) == 255 && Alpha(RedAccent) == 255
    ensures T.LeftBorderWidth(T.SetCustomAccent(t, Alpha(PickWindowAccent), measured).value) == Ok(0)
  {
  }

  // ---------------------------------------------------------------------
  // Hooks

  /** Lock the hook and subscribe the handlers, when the behaviour is a provider. */
  function Acquire(a: Arbiter, provider: bool, hs: multiset<Handler>): (b: Arbiter)
    ensures !provider ==> b == a
    ensures provider ==> b.requests == a.requests + 1 && b.handlers == a.handlers + hs
  {
    if provider then Subscribe(RequestLock(a), hs) else a
  }

  /** Unlock the hook and unsubscribe the handlers, when the behaviour is a provider. */
  function Release(a: Arbiter, provider: bool, hs: multiset<Handler>): (b: Arbiter)
    ensures !provider ==> b == a
    ensures provider ==> b.requests == a.requests - 1 && b.handlers == a.handlers - hs
  {
    if provider then Unsubscribe(RequestUnlock(a), hs) else a
  }

  /** Releasing undoes acquiring. */
  lemma ReleaseUndoesAcquire(a: Arbiter, provider: bool, hs: multiset<Handler>)
    ensures Release(Acquire(a, provider, hs), provider, hs) == a
  {
    if provider {
      assert (a.handlers + hs) - hs == a.handlers;
    }
  }

  /** What a clipper's ledger holds when its calls balance: one lock and one subscription per handler while unlocked. */
  function Ledger(provider: bool, unlocked: bool, hs: multiset<Handler>): Arbiter
  {
    if provider && unlocked then Arbiter(1, hs) else Idle
  }

  /** The clipper holds the hooks exactly while it is unlocked. */
  predicate Balanced(c: Clipper)
  {
    && c.mouse == Ledger(c.comp.container.mouseIsProvider, !c.locked, MouseHandlers)
    && c.keyboard == Ledger(c.comp.container.keyboardIsProvider, !c.locked, KeyHandlers)
  }

  /** The layout invariant: the padding matches the mode and the component is consistent. */
  predicate Valid(c: Clipper)
  {
    c.padding == PaddingFor(c.mode) && HC.Valid(c.comp)
  }

  // ---------------------------------------------------------------------
  // Locking and unlocking

  /**
   * The window side of locking: the window takes the mouse again, and its
   * minimum size keeps a 38 x 38 area inside the padding.
   */
  function LockWindow(comp: HC.Component, padding: int): (d: HC.Component)
    ensures comp.surface.Some? ==>
      && d.surface.Some? && !WrapperWindow.PassThrough(d.surface.value)
      && d.surface.value.minimumSize == Size(MinimumWidth + 2 * padding, MinimumHeight + 2 * padding)
    ensures HC.GetBounds(d) == HC.GetBounds(comp) && d.container == comp.container && d.disposed == comp.disposed
    ensures HC.Valid(comp) ==> HC.Valid(d)
  {
    var horizontal := padding + padding;
    var vertical := padding + padding;
    HC.SetMinimumSize(HC.SetPassThrough(comp, false), Size(MinimumWidth + horizontal, MinimumHeight + vertical))
  }

  /** `tidbit?.Dispose()`: a disposed tidbit is also hidden. */
  function DisposeTip(t: Option<Tip>): (r: Option<Tip>)
    ensures r.Some? == t.Some?
    ensures r.Some? ==> r.value.disposed && !r.value.visible
  {
    if t.Some? then Some(t.value.(disposed := true, visible := false)) else None
  }

  /** Locking apart from the hooks: Rescale layout, the window taking the mouse, the tooltip disposed. */
  function Settle(c: Clipper): (r: Clipper)
    requires !c.locked
    ensures r.locked && r.mode == Rescale && r.padding == PaddingFor(Rescale) && Area(r) == Area(c)
    ensures r.tip.None? || r.tip.value.disposed
    ensures c.comp.surface.Some? ==>
      && r.comp.surface.Some?
      && !WrapperWindow.PassThrough(r.comp.surface.value)
      && r.comp.surface.value.minimumSize == Size(MinimumWidth + 10, MinimumHeight + 10)
    ensures r.comp.container == c.comp.container && r.comp.disposed == c.comp.disposed
    ensures r.altDown == c.altDown && r.initialPosition == c.initialPosition && r.windowHandle == c.windowHandle
    ensures r.advancedSelection == c.advancedSelection && r.mouse == c.mouse && r.keyboard == c.keyboard
    ensures HC.Valid(c.comp) ==> HC.Valid(r.comp)
    ensures ToolbarPlaced(r)
  {
    var laid := RefreshLayout(c.(mode := Rescale, locked := true));
    laid.(comp := LockWindow(laid.comp, laid.padding), tip := DisposeTip(laid.tip))
  }

  /**
   * Lock: switch to Rescale mode, dispose the tooltip, make the window take
   * the mouse again with a minimum size that keeps the selection at least
   * 38 x 38, and give the hooks back.
   */
  function Lock(c: Clipper): (r: Clipper)
    ensures c.locked ==> r == c
    ensures r.locked && Area(r) == Area(c)
    ensures !c.locked ==> r.mode == Rescale && r.padding == PaddingFor(Rescale)
    ensures !c.locked ==> r.tip.None? || r.tip.value.disposed
    ensures !c.locked && c.comp.surface.Some? ==>
      && r.comp.surface.Some?
      && !WrapperWindow.PassThrough(r.comp.surface.value)
      && r.comp.surface.value.minimumSize == Size(MinimumWidth + 10, MinimumHeight + 10)
    ensures !c.locked ==> r.mouse == Release(c.mouse, c.comp.container.mouseIsProvider, MouseHandlers)
    ensures !c.locked ==> r.keyboard == Release(c.keyboard, c.comp.container.keyboardIsProvider, KeyHandlers)
    ensures r.comp.container == c.comp.container && r.comp.disposed == c.comp.disposed
    ensures r.altDown == c.altDown && r.initialPosition == c.initialPosition && r.windowHandle == c.windowHandle
    ensures r.advancedSelection == c.advancedSelection
    ensures Valid(c) ==> Valid(r)
    ensures !c.locked && HC.Valid(c.comp) ==> Valid(r)
    ensures !c.locked ==> ToolbarPlaced(r)
  {
    if c.locked then c
    else
      var settled := Settle(c);
      settled.(
        mouse := Release(c.mouse, c.comp.container.mouseIsProvider, MouseHandlers),
        keyboard := Release(c.keyboard, c.comp.container.keyboardIsProvider, KeyHandlers))
  }

  /** The window side of unlocking: the mouse passes through the window, and there is no minimum size. */
  function UnlockWindow(comp: HC.Component): (d: HC.Component)
    ensures comp.surface.Some? ==>
      d.surface.Some? && WrapperWindow.PassThrough(d.surface.value) && d.surface.value.minimumSize == Size(0, 0)
    ensures HC.GetBounds(d) == HC.GetBounds(comp) && d.container == comp.container && d.disposed == comp.disposed
    ensures HC.Valid(comp) ==> HC.Valid(d)
  {
    HC.SetMinimumSize(HC.SetPassThrough(comp, true), Size(0, 0))
  }

  /**
   * UnlockAsync without its mutex: nothing happens when already unlocked in
   * the same mode; otherwise hide the clipper, take the new mode and its
   * padding, take both hooks, let the mouse through the window, and refresh
   * the tooltip.
   */
  function Unlock(c: Clipper, mode: Mode, allowAdvanced: bool): (r: Clipper)
    ensures !c.locked && c.mode == mode ==> r == c
    ensures !(!c.locked && c.mode == mode) ==> !r.locked && r.mode == mode && r.advancedSelection == allowAdvanced
    ensures r.comp.container == c.comp.container && r.comp.disposed == c.comp.disposed
    ensures r.altDown == c.altDown && r.initialPosition == c.initialPosition && r.windowHandle == c.windowHandle
    ensures !(!c.locked && c.mode == mode) ==> ToolbarPlaced(r)
  {
    if !c.locked && c.mode == mode then c
    else
      var reopened := Reopen(c, mode, allowAdvanced);
      RefreshTidbit(reopened.(
        mouse := Acquire(c.mouse, c.comp.container.mouseIsProvider, MouseHandlers),
        keyboard := Acquire(c.keyboard, c.comp.container.keyboardIsProvider, KeyHandlers)))
  }

  /** An unlock that does something takes each hook once and subscribes its handlers once. */
  lemma UnlockHooks(c: Clipper, mode: Mode, allowAdvanced: bool)
    requires !(!c.locked && c.mode == mode)
    ensures Unlock(c, mode, allowAdvanced).mouse == Acquire(c.mouse, c.comp.container.mouseIsProvider, MouseHandlers)
    ensures Unlock(c, mode, allowAdvanced).keyboard == Acquire(c.keyboard, c.comp.container.keyboardIsProvider, KeyHandlers)
  {
  }

  /**
   * An unlock that does something lays the clipper out for the new mode
   * around the hidden bounds, read with the old padding.
   */
  lemma UnlockLayout(c: Clipper, mode: Mode, allowAdvanced: bool)
    requires !(!c.locked && c.mode == mode)
    ensures Unlock(c, mode, allowAdvanced).padding == PaddingFor(mode)
    ensures Area(Unlock(c, mode, allowAdvanced)) == Inflate(Hidden, -c.padding, -c.padding)
  {
    ReopenHides(c, mode, allowAdvanced);
  }

  /** An unlock that does something leaves a consistent clipper behind a consistent component. */
  lemma UnlockValid(c: Clipper, mode: Mode, allowAdvanced: bool)
    requires !(!c.locked && c.mode == mode)
    ensures HC.Valid(c.comp) ==> Valid(Unlock(c, mode, allowAdvanced))
  {
  }

  /**
   * An unlock that does something lets the mouse through the window, drops
   * its minimum size, and in Pick mode leaves a live tooltip.
   */
  lemma UnlockSurface(c: Clipper, mode: Mode, allowAdvanced: bool)
    requires !(!c.locked && c.mode == mode)
    ensures var r := Unlock(c, mode, allowAdvanced);
      c.comp.surface.Some? ==>
        && r.comp.surface.Some?
        && WrapperWindow.PassThrough(r.comp.surface.value)
        && r.comp.surface.value.minimumSize == Size(0, 0)
    ensures mode == Pick ==> Unlock(c, mode, allowAdvanced).tip.Some? && !Unlock(c, mode, allowAdvanced).tip.value.disposed
  {
  }

  /**
   * Unlocking apart from the hooks and the tooltip: hide the clipper, take
   * the mode and its layout, and let the mouse through the window.
   */
  function Reopen(c: Clipper, mode: Mode, allowAdvanced: bool): (r: Clipper)
    ensures !r.locked && r.mode == mode && r.advancedSelection == allowAdvanced && r.padding == PaddingFor(mode)
    ensures c.comp.surface.Some? ==>
      && r.comp.surface.Some?
      && WrapperWindow.PassThrough(r.comp.surface.value)
      && r.comp.surface.value.minimumSize == Size(0, 0)
    ensures r.comp.container == c.comp.container && r.comp.disposed == c.comp.disposed
    ensures r.altDown == c.altDown && r.initialPosition == c.initialPosition && r.windowHandle == c.windowHandle
    ensures r.mouse == c.mouse && r.keyboard == c.keyboard
    ensures HC.Valid(c.comp) ==> HC.Valid(r.comp)
    ensures ToolbarPlaced(r)
  {
    var hidden := Reposition(c.(advancedSelection := allowAdvanced, mode := mode), Hidden);
    var laid := RefreshLayout(hidden);
    laid.(locked := false, comp := UnlockWindow(laid.comp))
  }

  /** Reopening hides the clipper: its area is the hidden rectangle read with the old padding. */
  lemma ReopenHides(c: Clipper, mode: Mode, allowAdvanced: bool)
    ensures Area(Reopen(c, mode, allowAdvanced)) == Inflate(Hidden, -c.padding, -c.padding)
  {
  }

  // ---------------------------------------------------------------------
  // Hooked input

  /** The rectangle spanned by a drag from `a` to `p`, whichever way it goes. */
  function DragRect(a: Point, p: Point): (r: Rect)
    ensures r.w >= 0 && r.h >= 0
    ensures r.x == Min(a.x, p.x) && r.x + r.w == Max(a.x, p.x)
    ensures r.y == Min(a.y, p.y) && r.y + r.h == Max(a.y, p.y)
  {
    var (x, w) := if a.x < p.x then (a.x, p.x - a.x) else (p.x, a.x - p.x);
    var (y, h) := if a.y < p.y then (a.y, p.y - a.y) else (p.y, a.y - p.y);
    Rect(x, y, w, h)
  }

  /** The drag rectangle does not depend on the direction of the drag, and both ends lie on it. */
  lemma DragRectSymmetric(a: Point, p: Point)
    ensures DragRect(a, p) == DragRect(p, a)
    ensures Contains(DragRect(a, p), a) && Contains(DragRect(a, p), p)
    ensures DragRect(a, p).w == Abs(p.x - a.x) && DragRect(a, p).h == Abs(p.y - a.y)
  {
  }

  /**
   * OnHookedMouseDown: ignored while a window is snapped; a left press
   * starts a drag at the point with an empty area and captures the event;
   * any other button locks the clipper.
   */
  function MouseDown(c: Clipper, button: MouseButton, p: Point): (o: Outcome)
    ensures c.windowHandle != 0 ==> o == Outcome(c, false)
    ensures c.windowHandle == 0 && button == LeftButton ==>
      && o.handled && o.clipper.initialPosition == Some(p)
      && Area(o.clipper) == Rect(p.x, p.y, 0, 0)
      && o.clipper.locked == c.locked && o.clipper.mode == c.mode
    ensures c.windowHandle == 0 && button != LeftButton ==> o == Outcome(Lock(c), false)
  {
    if c.windowHandle != 0 then Outcome(c, false)
    else if button == LeftButton then
      var r := SetArea(c.(initialPosition := Some(p)), Rect(p.x, p.y, 0, 0));
      AreaRoundTrip(c.(initialPosition := Some(p)), Rect(p.x, p.y, 0, 0));
      Outcome(r, true)
    else Outcome(Lock(c), false)
  }

  /** Alt-selection is on: on the desktop, with Alt held and window picking allowed. */
  predicate Snapping(c: Clipper)
  {
    c.comp.container.kind == Desktop && c.altDown && c.advancedSelection
  }

  /**
   * OnHookedMouseMove: during a drag the area spans the drag and the tooltip
   * follows; with Alt-selection on the clipper snaps to the window under the
   * pointer (a window without bounds does not count); otherwise it hides.
   */
  function MouseMove(c: Clipper, p: Point, probe: WindowProbe): (r: Clipper)
    ensures c.initialPosition.Some? ==> Area(r) == DragRect(c.initialPosition.value, p) && r.windowHandle == c.windowHandle
    ensures c.initialPosition.None? && Snapping(c) ==>
      && (r.windowHandle != 0 <==> probe.handle != 0 && probe.bounds != Empty)
      && (r.windowHandle != 0 ==> r.windowHandle == probe.handle && Area(r) == probe.bounds)
      && (r.windowHandle == 0 ==> Area(r) == Area(c))
    ensures c.initialPosition.None? && !Snapping(c) ==> HC.GetBounds(r.comp) == Hidden && r.windowHandle == c.windowHandle
    ensures SameControl(c, r) && r.padding == c.padding
    ensures r.comp.container == c.comp.container && r.comp.disposed == c.comp.disposed
    ensures HC.Valid(c.comp) ==> HC.Valid(r.comp)
    ensures c.initialPosition.Some? || (c.comp.container.kind == Desktop && ToolbarPlaced(c)) ==> ToolbarPlaced(r)
  {
    if c.initialPosition.Some? then DragTo(c, p)
    else if Snapping(c) then Snap(c, probe)
    else Reposition(c, Hidden)
  }

  /** A move during a drag: the area spans the drag, and the tooltip follows. */
  function DragTo(c: Clipper, p: Point): (r: Clipper)
    requires c.initialPosition.Some?
    ensures Area(r) == DragRect(c.initialPosition.value, p)
    ensures SameControl(c, r) && r.padding == c.padding && r.windowHandle == c.windowHandle
    ensures r.comp.container == c.comp.container && r.comp.disposed == c.comp.disposed
    ensures HC.Valid(c.comp) ==> HC.Valid(r.comp)
    ensures ToolbarPlaced(r)
  {
    var a := DragRect(c.initialPosition.value, p);
    AreaRoundTrip(c, a);
    RefreshTidbit(SetArea(c, a))
  }

  /** A move with Alt-selection on: snap to the window under the pointer, if it has bounds. */
  function Snap(c: Clipper, probe: WindowProbe): (r: Clipper)
    ensures r.windowHandle != 0 <==> probe.handle != 0 && probe.bounds != Empty
    ensures r.windowHandle != 0 ==> r.windowHandle == probe.handle && Area(r) == probe.bounds
    ensures r.windowHandle == 0 ==> r.comp == c.comp
    ensures SameControl(c, r) && r.padding == c.padding
    ensures r.comp.container == c.comp.container && r.comp.disposed == c.comp.disposed
    ensures HC.Valid(c.comp) ==> HC.Valid(r.comp)
    ensures ToolbarPlaced(c) ==> ToolbarPlaced(r)
  {
    if probe.handle == 0 then c.(windowHandle := 0)
    else if probe.bounds != Empty then
      AreaRoundTrip(c, probe.bounds);
      SetArea(c.(windowHandle := probe.handle), probe.bounds)
    else c.(windowHandle := 0)
  }

  /**
   * Dispose: lock first (releasing the hooks), then the component's own
   * disposal, which also drops the tooltip.
   */
  function Dispose(c: Clipper): (r: Clipper)
    ensures r.locked && r.comp.disposed && r.tip.None? && !HC.GetVisible(r.comp)
    ensures r.mode == Lock(c).mode && r.mouse == Lock(c).mouse && r.keyboard == Lock(c).keyboard
    ensures r.comp.container == c.comp.container
    ensures r.padding == Lock(c).padding && r.altDown == c.altDown && r.windowHandle == c.windowHandle
    ensures Valid(Lock(c)) ==> Valid(r)
  {
    var l := Lock(c);
    l.(comp := HC.Dispose(l.comp), tip := None)
  }

  /**
   * OnHookedMouseUp: a selection short of 38 x 38 dismisses the clipper;
   * otherwise the drag ends, the event is captured and the clipper locks
   * around the selection.
   */
  function MouseUp(c: Clipper): (o: Outcome)
    ensures o.clipper.locked
    ensures Area(c).w < MinimumWidth || Area(c).h < MinimumHeight ==> o == Outcome(Dispose(c), false)
    ensures Area(c).w >= MinimumWidth && Area(c).h >= MinimumHeight ==>
      && o.handled && o.clipper.initialPosition.None?
      && Area(o.clipper) == Area(c) && o.clipper.comp.disposed == c.comp.disposed
      && (!c.locked ==> o.clipper.mode == Rescale)
  {
    var area := Area(c);
    if area.w < MinimumWidth || area.h < MinimumHeight then Outcome(Dispose(c), false)
    else Outcome(Lock(c.(initialPosition := None)), true)
  }

  /** The key-down test: `KeyData == LMenu` (so left Alt with modifier flags fails it) or `KeyCode == RMenu`. */
  predicate AltPress(k: KeyEvent)
  {
    (k.code == LMenu && !k.modifiers) || k.code == RMenu
  }

  /** The key-up test: either Alt key, by key code. */
  predicate AltKey(k: KeyEvent)
  {
    k.code == LMenu || k.code == RMenu
  }

  /**
   * OnHookedKeyDown: the first Alt press turns Alt-selection on, replays a
   * move at the pointer and refreshes the tooltip; a repeated Alt press does
   * nothing; any other key dismisses the clipper.
   */
  function KeyDown(c: Clipper, k: KeyEvent, pointer: Point, probe: WindowProbe): (r: Clipper)
    ensures AltPress(k) && c.altDown ==> r == c
    ensures AltPress(k) && !c.altDown ==>
      && r.altDown && r.locked == c.locked && r.mode == c.mode && r.initialPosition == c.initialPosition
      && r.mouse == c.mouse && r.keyboard == c.keyboard && r.comp.container == c.comp.container
    ensures AltPress(k) && !c.altDown && c.initialPosition.None? && Snapping(c.(altDown := true)) ==>
      (r.windowHandle != 0 <==> probe.handle != 0 && probe.bounds != Empty)
    ensures !AltPress(k) ==> r == Dispose(c)
  {
    if AltPress(k) then
      if !c.altDown then RefreshTidbit(MouseMove(c.(altDown := true), pointer, probe)) else c
    else Dispose(c)
  }

  /** OnHookedKeyUp: releasing Alt while it was down turns Alt-selection off and hides the clipper. */
  function KeyUp(c: Clipper, k: KeyEvent): (r: Clipper)
    ensures AltKey(k) && c.altDown ==> !r.altDown && HC.GetBounds(r.comp) == Hidden
    ensures !(AltKey(k) && c.altDown) ==> r == c
    ensures r.locked == c.locked && r.mode == c.mode && r.windowHandle == c.windowHandle
    ensures r.mouse == c.mouse && r.keyboard == c.keyboard && r.comp.container == c.comp.container
    ensures c.comp.container.kind == Desktop && ToolbarPlaced(c) ==> ToolbarPlaced(r)
  {
    if AltKey(k) && c.altDown then RefreshTidbit(Reposition(c.(altDown := false), Hidden))
    else c
  }

  /**
   * With modifier flags on the key data, a left-Alt press dismisses the
   * clipper, although the matching release is still taken for Alt.
   */
  lemma ModifiedLeftAltDismisses(c: Clipper, pointer: Point, probe: WindowProbe)
    requires c.altDown
    ensures KeyDown(c, KeyEvent(LMenu, true), pointer, probe) == Dispose(c)
    ensures !KeyUp(c, KeyEvent(LMenu, true)).altDown
  {
  }

  /** The clipper's own window was moved or resized by the user: the toolbar follows. */
  function WrapperMoved(c: Clipper, b: Rect): (r: Clipper)
    ensures c.comp.surface.Some? ==> HC.GetBounds(r.comp) == b
    ensures SameControl(c, r) && r.padding == c.padding && r.tip == c.tip && r.windowHandle == c.windowHandle
    ensures r.comp.container == c.comp.container && r.comp.disposed == c.comp.disposed
    ensures HC.Valid(c.comp) ==> HC.Valid(r.comp)
    ensures c.comp.container.kind == Desktop ==> ToolbarPlaced(r)
  {
    Follow(c.(comp := HC.WrapperMoved(c.comp, b)))
  }

  /** The clipper after `AttachToolbar`, and the exception the grip lookup threw, if any. */
  datatype Attachment = Attachment(clipper: Clipper, error: Option<Exception>)

  /**
   * AttachToolbar: hold the toolbar, then lock its grip and place it. The
   * toolbar is held before the grip is looked up, so a toolbar without a
   * usable grip is kept, neither locked nor placed, when the lookup throws.
   */
  function AttachToolbar(c: Clipper, t: TB.Toolbar): (r: Attachment)
    requires TB.Shaped(t)
    ensures r.error.None? <==> TB.Grip(t).Ok?
    ensures r.error.Some? ==> r.error.value == TB.Grip(t).error && r.clipper == c.(toolbar := Some(t))
    ensures r.error.None? ==> r.clipper.toolbar.Some? && TB.Shaped(r.clipper.toolbar.value)
    ensures r.error.None? ==> TB.Locked(r.clipper.toolbar.value) == Ok(true) && ToolbarPlaced(r.clipper)
    ensures r.error.None? ==> SameControl(c, r.clipper) && r.clipper.comp == c.comp && r.clipper.padding == c.padding
    ensures r.error.None? ==> r.clipper.tip == c.tip && r.clipper.windowHandle == c.windowHandle
  {
    var held := c.(toolbar := Some(t));
    match TB.SetLocked(t, true)
    case Throws(e) => Attachment(held, Some(e))
    case Ok(u) =>
      TB.LockedRoundTrip(t, true);
      var r := UpdateToolbar(held.(toolbar := Some(u)));
      assert r.toolbar.value.keys == u.keys && r.toolbar.value.controls == u.controls;
      Attachment(r, None)
  }

  /**
   * Attaching a disposed toolbar throws, yet the clipper keeps the toolbar,
   * and on the desktop the next move of the clipper's window places it.
   */
  lemma AttachToolbarDisposedFollows(c: Clipper, t: TB.Toolbar, b: Rect)
    requires c.comp.container.kind == Desktop
    ensures AttachToolbar(c, TB.Dispose(t)).error == Some(NullReference)
    ensures AttachToolbar(c, TB.Dispose(t)).clipper.toolbar == Some(TB.Dispose(t))
    ensures var moved := WrapperMoved(AttachToolbar(c, TB.Dispose(t)).clipper, b);
      moved.toolbar.Some? && moved.toolbar.value.keys == [] && ToolbarPlaced(moved)
  {
  }

  /**
   * The constructor: the component, then the Pick layout. The clipper starts
   * locked, yet in Pick mode, with Alt as the keyboard reports it.
   */
  function Construct(container: ContainerInfo, altHeld: bool): (r: Result<Clipper>)
    ensures r.Ok? <==> container.kind == Desktop
    ensures r.Throws? ==> r.error == NotImplemented
  {
    var built := HC.Construct(container, true, true);
    if built.Throws? then Throws(built.error) else Ok(Initial(built.value, altHeld))
  }

  /**
   * A new clipper holds no hooks and no drag, is laid out for Pick mode, and
   * sits off screen: the hidden bounds grown by the one-pixel padding.
   */
  lemma ConstructedState(container: ContainerInfo, altHeld: bool)
    requires container.kind == Desktop
    ensures var c := Construct(container, altHeld).value;
      && c.comp.container == container && !c.comp.disposed
      && c.altDown == altHeld && c.advancedSelection
      && c.initialPosition.None? && c.windowHandle == 0 && c.toolbar.None? && c.tip.None?
      && Valid(c) && Balanced(c)
      && HC.GetBounds(c.comp) == Inflate(Hidden, 1, 1)
  {
  }

  /** The constructed state: the fields' initial values, then RefreshLayout from the default (zero) padding. */
  function Initial(comp: HC.Component, altHeld: bool): (r: Clipper)
    ensures r.locked && r.mode == Pick && r.altDown == altHeld && r.advancedSelection
    ensures r.initialPosition.None? && r.windowHandle == 0 && r.toolbar.None? && r.tip.None?
    ensures r.mouse == Idle && r.keyboard == Idle && r.comp.container == comp.container
    ensures r.comp.disposed == comp.disposed
    ensures HC.Valid(comp) ==> Valid(r)
    ensures HC.GetBounds(r.comp) == Inflate(HC.GetBounds(comp), 1, 1)
  {
    RefreshLayout(Clipper(comp, Pick, true, altHeld, true, None, 0, 0, None, None, Idle, Idle))
  }

  // ---------------------------------------------------------------------
  // Event sequences

  /** The inputs that reach a clipper: the owner's unlock, the hooked events and the user moving the window. */
  datatype Event =
    | Unlocked(mode: Mode, allowAdvanced: bool)
    | Pressed(button: MouseButton, at: Point)
    | Moved(at: Point, probe: WindowProbe)
    | Released
    | KeyPressed(key: KeyEvent, pointer: Point, probe: WindowProbe)
    | KeyReleased(key: KeyEvent)
    | Dragged(bounds: Rect)

  function Step(c: Clipper, e: Event): Clipper
  {
    match e
    case Unlocked(m, adv) => Unlock(c, m, adv)
    case Pressed(b, p) => MouseDown(c, b, p).clipper
    case Moved(p, probe) => MouseMove(c, p, probe)
    case Released => MouseUp(c).clipper
    case KeyPressed(k, p, probe) => KeyDown(c, k, p, probe)
    case KeyReleased(k) => KeyUp(c, k)
    case Dragged(b) => WrapperMoved(c, b)
  }

  /** An unlock that changes the mode of an already unlocked clipper. */
  predicate Relock(c: Clipper, e: Event)
  {
    e.Unlocked? && !c.locked && e.mode != c.mode
  }

  /** Lock gives back exactly what a balanced clipper holds. */
  lemma LockBalances(c: Clipper)
    requires Balanced(c)
    ensures Balanced(Lock(c))
  {
    if !c.locked {
      ReleaseUndoesAcquire(Idle, c.comp.container.mouseIsProvider, MouseHandlers);
      ReleaseUndoesAcquire(Idle, c.comp.container.keyboardIsProvider, KeyHandlers);
    }
  }

  /** An unlock that is not a re-unlock takes exactly what a balanced clipper holds while unlocked. */
  lemma UnlockBalances(c: Clipper, m: Mode, adv: bool)
    requires Balanced(c) && !(!c.locked && m != c.mode)
    ensures Balanced(Unlock(c, m, adv))
  {
    if c.locked {
      UnlockHooks(c, m, adv);
      assert multiset{} + MouseHandlers == MouseHandlers;
      assert multiset{} + KeyHandlers == KeyHandlers;
    }
  }

  /** Dismissing gives back what a balanced clipper holds. */
  lemma DisposeBalances(c: Clipper)
    requires Balanced(c)
    ensures Balanced(Dispose(c))
  {
    LockBalances(c);
  }

  /** A press keeps a balanced clipper balanced. */
  lemma PressBalances(c: Clipper, b: MouseButton, p: Point)
    requires Balanced(c)
    ensures Balanced(MouseDown(c, b, p).clipper)
  {
    if c.windowHandle == 0 && b != LeftButton { LockBalances(c); }
  }

  /** A release keeps a balanced clipper balanced. */
  lemma ReleaseBalances(c: Clipper)
    requires Balanced(c)
    ensures Balanced(MouseUp(c).clipper)
  {
    if Area(c).w < MinimumWidth || Area(c).h < MinimumHeight {
      DisposeBalances(c);
    } else {
      LockBalances(c.(initialPosition := None));
    }
  }

  /** A key press keeps a balanced clipper balanced. */
  lemma KeyPressBalances(c: Clipper, k: KeyEvent, p: Point, probe: WindowProbe)
    requires Balanced(c)
    ensures Balanced(KeyDown(c, k, p, probe))
  {
    if !AltPress(k) { DisposeBalances(c); }
  }

  /** Every event but a re-unlock keeps the hook ledgers balanced. */
  lemma {:induction false} StepKeepsBalance(c: Clipper, e: Event)
    requires Balanced(c) && !Relock(c, e)
    ensures Balanced(Step(c, e))
  {
    match e
    case Unlocked(m, adv) => UnlockBalances(c, m, adv);
    case Pressed(b, p) => PressBalances(c, b, p);
    case Moved(p, probe) =>
    case Released => ReleaseBalances(c);
    case KeyPressed(k, p, probe) => KeyPressBalances(c, k, p, probe);
    case KeyReleased(k) =>
    case Dragged(b) =>
  }

  /** Every event keeps the padding in step with the mode and the component consistent. */
  lemma {:induction false} StepKeepsValid(c: Clipper, e: Event)
    requires Valid(c)
    ensures Valid(Step(c, e))
  {
    match e
    case Unlocked(m, adv) => if !(!c.locked && c.mode == m) { UnlockValid(c, m, adv); }
    case Pressed(b, p) =>
    case Moved(p, probe) =>
    case Released =>
    case KeyPressed(k, p, probe) =>
    case KeyReleased(k) =>
    case Dragged(b) =>
  }

  /**
   * On the desktop, every event that does not dismiss the clipper keeps the
   * attached toolbar where UpdateAttachedToolbar puts it: each move or
   * resize of the window, hiding included, re-places it.
   */
  lemma {:induction false} StepKeepsToolbarPlaced(c: Clipper, e: Event)
    requires c.comp.container.kind == Desktop && ToolbarPlaced(c)
    ensures !Step(c, e).comp.disposed ==> ToolbarPlaced(Step(c, e))
  {
    match e
    case Unlocked(m, adv) =>
    case Pressed(b, p) =>
    case Moved(p, probe) =>
    case Released =>
    case KeyPressed(k, p, probe) =>
    case KeyReleased(k) =>
    case Dragged(b) =>
  }

  /** Once a clipper has locked, it is in Rescale mode whenever it is locked. */
  lemma {:induction false} StepKeepsLockedRescale(c: Clipper, e: Event)
    requires c.locked ==> c.mode == Rescale
    ensures Step(c, e).locked ==> Step(c, e).mode == Rescale
  {
    match e
    case Unlocked(m, adv) =>
    case Pressed(b, p) =>
    case Moved(p, probe) =>
    case Released =>
    case KeyPressed(k, p, probe) =>
    case KeyReleased(k) =>
    case Dragged(b) =>
  }

  /** A new clipper is locked but in Pick mode, so "locked means Rescale" only holds after its first Lock. */
  lemma ConstructedLockedInPick(container: ContainerInfo, altHeld: bool)
    requires container.kind == Desktop
    ensures Construct(container, altHeld).value.locked && Construct(container, altHeld).value.mode == Pick
    ensures !Balanced(Construct(container, altHeld).value.(locked := false)) || !container.mouseIsProvider
  {
  }

  /** Unlocking a locked clipper and locking it again leaves its ledgers as they were. */
  lemma UnlockLockRoundTrip(c: Clipper, m: Mode, adv: bool)
    requires Balanced(c) && c.locked
    ensures Lock(Unlock(c, m, adv)).mouse == c.mouse && Lock(Unlock(c, m, adv)).keyboard == c.keyboard
  {
    UnlockHooks(c, m, adv);
    ReleaseUndoesAcquire(c.mouse, c.comp.container.mouseIsProvider, MouseHandlers);
    ReleaseUndoesAcquire(c.keyboard, c.comp.container.keyboardIsProvider, KeyHandlers);
  }

  /**
   * Unlocking an unlocked clipper in the other mode takes the mouse hook a
   * second time and subscribes every handler again; one Lock then leaves a
   * lock request and a full set of subscriptions behind.
   */
  lemma RelockLeaks(c: Clipper, m: Mode, adv: bool)
    requires Balanced(c) && !c.locked && m != c.mode && c.comp.container.mouseIsProvider
    ensures Unlock(c, m, adv).mouse == Arbiter(2, MouseHandlers + MouseHandlers)
    ensures Lock(Unlock(c, m, adv)).mouse == Arbiter(1, MouseHandlers)
  {
    UnlockHooks(c, m, adv);
    assert (MouseHandlers + MouseHandlers) - MouseHandlers == MouseHandlers;
  }
}
