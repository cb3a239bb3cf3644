/**
 * HudComponent: the base of every HUD element. A component running on the
 * desktop owns a wrapper window and a render target; its `Bounds` and
 * `Visible` read through to the wrapper when one exists and otherwise fall
 * back to a cached copy that every setter also writes.
 */
module HudComponent {
  import opened Wrappers
  import opened Geometry
  import opened Container
  import opened WrapperWindow

  /**
   * The state of one component. `renderTarget` is the pixel size of the live
   * render target (None once released); `factory` says whether the Direct2D
   * factory is live. The custom renderer field of the source is never
   * assigned, so it is not represented.
   */
  datatype Component = Component(
    container: ContainerInfo,
    surface: Option<Surface>,
    bounds: Rect,
    visible: bool,
    renderTarget: Option<Size>,
    factory: bool,
    disposed: bool)

  /** The steps of one paint of the wrapper window. */
  datatype DrawStep = BeginDraw | RenderContent | EndDraw

  /**
   * The resource invariant: a wrapper exists exactly when a render target
   * does, the render target always has the wrapper's pixel size, and a
   * disposed component holds neither.
   */
  predicate Valid(c: Component)
  {
    && (c.surface.Some? <==> c.renderTarget.Some?)
    && (c.surface.Some? ==> c.renderTarget.value == c.surface.value.bounds.Dimensions())
    && (c.disposed ==> c.surface.None? && !c.factory)
    && (!c.disposed ==> c.factory)
  }

  /**
   * The constructor's container dispatch. `initialVisible` is what the
   * (overridable) `Visible` getter answers while the wrapper does not exist
   * yet; `commonWrapper` says whether the wrapper type derives from the common
   * wrapper window.
   */
  function Construct(container: ContainerInfo, commonWrapper: bool, initialVisible: bool): (r: Result<Component>)
    ensures container.kind == Direct3D11 ==> r == Throws(NotImplemented)
    ensures container.kind == Desktop && !commonWrapper ==> r == Throws(InvalidOperation)
    ensures r.Ok? <==> container.kind == Desktop && commonWrapper
    ensures r.Ok? ==> Valid(r.value) && !r.value.disposed && r.value.container == container
    ensures r.Ok? ==> GetBounds(r.value) == Hidden && GetVisible(r.value) == initialVisible
  {
    match container.kind
    case Direct3D11 => Throws(NotImplemented)
    case Desktop =>
      var s := NewSurface(initialVisible, Hidden);
      if !commonWrapper then Throws(InvalidOperation)
      else Ok(Component(container, Some(s), Hidden, true, Some(Hidden.Dimensions()), true, false))
  }

  /** A component that was never given a wrapper window (no container window). */
  function Detached(container: ContainerInfo): (c: Component)
    ensures Valid(c) && c.surface.None? && !c.disposed
    ensures GetBounds(c) == Hidden && GetVisible(c)
  {
    Component(container, None, Hidden, true, None, true, false)
  }

  /** `Bounds` getter: the wrapper's bounds if there is a wrapper, else the cache. */
  function GetBounds(c: Component): Rect
  {
    if c.surface.Some? then c.surface.value.bounds else c.bounds
  }

  /** `Visible` getter: the wrapper's visibility if there is a wrapper, else the cache. */
  predicate GetVisible(c: Component)
  {
    if c.surface.Some? then c.surface.value.visible else c.visible
  }

  /**
   * `Bounds` setter: writes the wrapper (whose resize handler resizes the
   * render target) and the cache.
   */
  function SetBounds(c: Component, r: Rect): (d: Component)
    ensures GetBounds(d) == r && d.bounds == r
    ensures GetVisible(d) == GetVisible(c)
    ensures Valid(c) ==> Valid(d)
    ensures d.surface.Some? == c.surface.Some? && d.disposed == c.disposed && d.container == c.container
  {
    match c.surface
    case None => c.(bounds := r)
    case Some(s) =>
      c.(surface := Some(s.(bounds := r)), renderTarget := Some(r.Dimensions()), bounds := r)
  }

  /** `Visible` setter: writes the wrapper and the cache. */
  function SetVisible(c: Component, v: bool): (d: Component)
    ensures GetVisible(d) == v && d.visible == v
    ensures GetBounds(d) == GetBounds(c)
    ensures Valid(c) ==> Valid(d)
    ensures d.surface.Some? == c.surface.Some? && d.disposed == c.disposed && d.container == c.container
  {
    match c.surface
    case None => c.(visible := v)
    case Some(s) => c.(surface := Some(s.(visible := v)), visible := v)
  }

  /**
   * The user moved or resized the wrapper window directly (a drag handled by
   * the window system): the wrapper and the render target follow, the cache
   * does not.
   */
  function WrapperMoved(c: Component, r: Rect): (d: Component)
    ensures c.surface.Some? ==> GetBounds(d) == r
    ensures c.surface.None? ==> d == c
    ensures d.bounds == c.bounds && GetVisible(d) == GetVisible(c)
    ensures Valid(c) ==> Valid(d)
  {
    match c.surface
    case None => c
    case Some(s) => c.(surface := Some(s.(bounds := r)), renderTarget := Some(r.Dimensions()))
  }

  /** Applies a change to the wrapper window, if there is one. */
  function MapSurface(c: Component, f: Surface -> Surface): (d: Component)
    ensures d.surface.Some? == c.surface.Some?
    ensures c.surface.Some? ==> d.surface == Some(f(c.surface.value))
    ensures d == c.(surface := d.surface)
  {
    match c.surface
    case None => c
    case Some(s) => c.(surface := Some(f(s)))
  }

  /** `PassThrough` on the wrapper window, when there is one. */
  function SetPassThrough(c: Component, value: bool): (d: Component)
    ensures c.surface.Some? ==> d.surface.Some? && PassThrough(d.surface.value) == value
    ensures GetBounds(d) == GetBounds(c) && GetVisible(d) == GetVisible(c)
    ensures Valid(c) ==> Valid(d)
  {
    MapSurface(c, s => WrapperWindow.SetPassThrough(s, value))
  }

  /** `MinimumSize` on the wrapper window, when there is one. */
  function SetMinimumSize(c: Component, size: Size): (d: Component)
    ensures c.surface.Some? ==> d.surface.Some? && d.surface.value.minimumSize == size
    ensures GetBounds(d) == GetBounds(c) && GetVisible(d) == GetVisible(c)
    ensures Valid(c) ==> Valid(d)
  {
    MapSurface(c, (s: Surface) => s.(minimumSize := size))
  }

  /** `Resizable` on the wrapper window, when there is one. */
  function SetResizable(c: Component, value: bool): (d: Component)
    ensures c.surface.Some? ==> d.surface.Some? && d.surface.value.resizable == value
    ensures GetBounds(d) == GetBounds(c) && GetVisible(d) == GetVisible(c)
    ensures Valid(c) ==> Valid(d)
  {
    MapSurface(c, (s: Surface) => s.(resizable := value))
  }

  /**
   * One paint: draw into the render target bracketed by begin/end. Without a
   * render target (after disposal) the first call dereferences null.
   */
  function RenderLoop(c: Component): (r: Result<seq<DrawStep>>)
    ensures r.Ok? <==> c.renderTarget.Some?
    ensures r.Throws? ==> r.error == NullReference
    ensures r.Ok? ==> |r.value| == 3 && r.value[0] == BeginDraw && r.value[|r.value| - 1] == EndDraw
    ensures r.Ok? ==> multiset(r.value)[RenderContent] == 1
  {
    if c.renderTarget.None? then Throws(NullReference)
    else Ok([BeginDraw, RenderContent, EndDraw])
  }

  /** A live desktop component can always paint. */
  lemma LiveComponentRenders(c: Component)
    requires Valid(c) && c.surface.Some?
    ensures RenderLoop(c).Ok? && !c.disposed
  {
  }

  /**
   * The base part of `Dispose` that follows hiding the component: release the
   * wrapper, render target and factory and mark the component disposed.
   */
  function Release(c: Component): (d: Component)
    ensures d.surface.None? && d.renderTarget.None? && !d.factory && d.disposed
    ensures d.bounds == c.bounds && d.visible == c.visible && d.container == c.container
    ensures Valid(d)
  {
    c.(surface := None, renderTarget := None, factory := false, disposed := true)
  }

  /** `Dispose`: hide the component, then release everything it holds. */
  function Dispose(c: Component): (d: Component)
    ensures d.disposed && Valid(d)
    ensures !GetVisible(d)
    ensures GetBounds(d) == c.bounds
    ensures RenderLoop(d) == Throws(NullReference)
    ensures d.container == c.container
  {
    Release(SetVisible(c, false))
  }

  /** Every step of `Dispose` is null-guarded, so disposing twice is the same as once. */
  lemma DisposeIdempotent(c: Component)
    ensures Dispose(Dispose(c)) == Dispose(c)
  {
  }

  /** With a wrapper or without, `Bounds` reads back what was written. */
  lemma BoundsRoundTrip(c: Component, r: Rect, r2: Rect)
    ensures GetBounds(SetBounds(c, r)) == r
    ensures SetBounds(SetBounds(c, r), r2) == SetBounds(c, r2)
  {
  }

  /** With a wrapper or without, `Visible` reads back what was written. */
  lemma VisibleRoundTrip(c: Component, v: bool, w: bool)
    ensures GetVisible(SetVisible(c, v)) == v
    ensures SetVisible(SetVisible(c, v), w) == SetVisible(c, w)
  {
  }

  /**
   * The cache only records setter writes: once the wrapper has been moved
   * directly and then released, `Bounds` falls back to the last value set
   * through the property, not to where the window was.
   */
  lemma StaleCacheAfterDispose(c: Component, set_: Rect, moved: Rect)
    requires c.surface.Some?
    ensures GetBounds(WrapperMoved(SetBounds(c, set_), moved)) == moved
    ensures GetBounds(Dispose(WrapperMoved(SetBounds(c, set_), moved))) == set_
  {
  }
}
