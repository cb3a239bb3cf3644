/**
 * HudCommonWrapperWindow: the borderless, always-on-top window that backs a
 * HUD component on the desktop, reduced to the state the HUD logic reads and
 * writes and to its three pure message decisions. Numeric values of the Win32
 * constants are the documented Win32 ones.
 */
module WrapperWindow {
  import opened Geometry

  const WS_EX_TRANSPARENT: bv32 := 0x0000_0020
  const WS_EX_TOOLWINDOW: bv32 := 0x0000_0080
  const WS_EX_LAYERED: bv32 := 0x0008_0000
  const WS_EX_COMPOSITED: bv32 := 0x0200_0000
  const WS_EX_NOACTIVATE: bv32 := 0x0800_0000

  /** The extended style the window is created with. */
  const InitialExStyle: bv32 :=
    WS_EX_TOOLWINDOW | WS_EX_COMPOSITED | WS_EX_LAYERED | WS_EX_TRANSPARENT | WS_EX_NOACTIVATE

  const SWP_NOSIZE: bv32 := 0x0001
  const SWP_NOMOVE: bv32 := 0x0002
  const SWP_NOACTIVATE: bv32 := 0x0010

  const HTCAPTION: int := 2
  const HTLEFT: int := 10
  const HTRIGHT: int := 11
  const HTTOP: int := 12
  const HTTOPLEFT: int := 13
  const HTTOPRIGHT: int := 14
  const HTBOTTOM: int := 15
  const HTBOTTOMLEFT: int := 16
  const HTBOTTOMRIGHT: int := 17

  /** Width and height of the resize handles. */
  const ResizeHandleSize: int := 24

  /**
   * The window: its bounds and visibility, its extended style (of which
   * `PassThrough` is one bit), its minimum size and whether it may be resized.
   */
  datatype Surface = Surface(bounds: Rect, visible: bool, exStyle: bv32, minimumSize: Size, resizable: bool)

  /** A freshly created window given the owner's visibility and bounds. */
  function NewSurface(visible: bool, bounds: Rect): (s: Surface)
    ensures s.bounds == bounds && s.visible == visible
    ensures PassThrough(s) && s.resizable
  {
    Surface(bounds, visible, InitialExStyle, Size(0, 0), true)
  }

  /** `PassThrough` getter: whether the WS_EX_TRANSPARENT bit is set. */
  predicate PassThrough(s: Surface)
  {
    s.exStyle & WS_EX_TRANSPARENT != 0
  }

  /** `PassThrough` setter: sets or clears WS_EX_TRANSPARENT and nothing else. */
  function SetPassThrough(s: Surface, value: bool): (t: Surface)
    ensures PassThrough(t) == value
    ensures t.exStyle & !WS_EX_TRANSPARENT == s.exStyle & !WS_EX_TRANSPARENT
    ensures t == s.(exStyle := t.exStyle)
  {
    if value then s.(exStyle := s.exStyle | WS_EX_TRANSPARENT)
    else s.(exStyle := s.exStyle & !WS_EX_TRANSPARENT)
  }

  /** Reading PassThrough back returns what was written, whatever the other style bits are. */
  lemma PassThroughRoundTrip(s: Surface, a: bool, b: bool)
    ensures PassThrough(SetPassThrough(SetPassThrough(s, a), b)) == b
    ensures SetPassThrough(SetPassThrough(s, a), b) == SetPassThrough(s, b)
  {
  }

  /**
   * The result of WM_NCHITTEST for a client point: with `resizable`, the
   * resize-region classification; otherwise `defResult`, what default window
   * processing answered.
   */
  function NcHitTest(s: Surface, at: Point, defResult: int): (r: int)
    ensures !s.resizable ==> r == defResult
    ensures s.resizable ==> r in {HTTOPLEFT, HTBOTTOMRIGHT, HTBOTTOMLEFT, HTTOPRIGHT, HTLEFT, HTRIGHT, HTTOP, HTBOTTOM, HTCAPTION}
  {
    if !s.resizable then defResult
    else Classify(s.bounds.w, s.bounds.h, at)
  }

  /** The nine-way classification of a client point of a `width` x `height` window. */
  function Classify(width: int, height: int, at: Point): (r: int)
    // corners, checked first and in this order
    ensures r == HTTOPLEFT <==> at.x <= 24 && at.y <= 24
    ensures r == HTBOTTOMRIGHT <==> at.x >= width - 24 && at.y >= height - 24 && !(at.x <= 24 && at.y <= 24)
    ensures r == HTBOTTOMLEFT <==> at.x <= 24 && 24 < at.y && at.y >= height - 24 && at.x < width - 24
    ensures r == HTTOPRIGHT <==> at.x >= width - 24 && at.y <= 24 && 24 < at.x && at.y < height - 24
    // edges: what lies strictly between the corner bands
    ensures r == HTLEFT <==> at.x <= 24 && 24 < at.y < height - 24
    ensures r == HTRIGHT <==> at.x >= width - 24 && 24 < at.x && 24 < at.y < height - 24
    ensures r == HTTOP <==> at.y <= 24 && 24 < at.x < width - 24
    ensures r == HTBOTTOM <==> at.y >= height - 24 && 24 < at.y && 24 < at.x < width - 24
    // everything else moves the window
    ensures r == HTCAPTION <==> 24 < at.x < width - 24 && 24 < at.y < height - 24
  {
    var x, y := at.x, at.y;
    if x <= ResizeHandleSize && y <= ResizeHandleSize then HTTOPLEFT
    else if x >= width - ResizeHandleSize && y >= height - ResizeHandleSize then HTBOTTOMRIGHT
    else if x <= ResizeHandleSize && y >= height - ResizeHandleSize then HTBOTTOMLEFT
    else if x >= width - ResizeHandleSize && y <= ResizeHandleSize then HTTOPRIGHT
    else if y <= height - ResizeHandleSize && x <= ResizeHandleSize then HTLEFT
    else if y <= height - ResizeHandleSize && x >= width - ResizeHandleSize then HTRIGHT
    else if y <= ResizeHandleSize then HTTOP
    else if y >= height - ResizeHandleSize then HTBOTTOM
    else HTCAPTION
  }

  /**
   * WM_WINDOWPOSCHANGING: a position change without SWP_NOACTIVATE is turned
   * into one that neither moves nor resizes the window.
   */
  function WindowPosChanging(flags: bv32): (r: bv32)
    ensures r & !(SWP_NOMOVE | SWP_NOSIZE) == flags & !(SWP_NOMOVE | SWP_NOSIZE)
    ensures flags & SWP_NOACTIVATE == 0 ==> r & SWP_NOMOVE != 0 && r & SWP_NOSIZE != 0
    ensures flags & SWP_NOACTIVATE != 0 ==> r == flags
  {
    if flags & SWP_NOACTIVATE == 0 then flags | SWP_NOMOVE | SWP_NOSIZE else flags
  }
}
