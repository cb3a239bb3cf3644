/**
 * Tidbit: a small notification box (status icon, accent border, formatted
 * text) shown next to the pointer. This module holds one tidbit's own state
 * and the members that touch only that state; registration with the
 * container's tidbit manager is in TidbitManager.
 */
module Tidbit {
  import opened Wrappers
  import opened Geometry
  import opened WrapperWindow
  import HC = HudComponent
  import FormatHelper

  /** The global padding, in pixels. */
  const Padding: int := 6

  /** TidbitStatus, in declaration order. */
  datatype Status = Success | Information | Warning | Error

  /** The embedded icon bitmaps. */
  datatype Resource = TidbitOk | TidbitInfo | TidbitWarning | TidbitError

  /** Where the icon bitmap came from. */
  datatype IconSource = Builtin(resource: Resource) | Custom

  /** A loaded icon bitmap and its pixel size. */
  datatype Icon = Icon(source: IconSource, size: Size)

  /**
   * One tidbit. `visible` is the tidbit's own flag, which overrides the
   * component's; `accentAlpha` is the alpha byte of the accent brush (None
   * while no brush exists); `textResources` says whether the DirectWrite
   * factory and text format are live; `layout` is the text of the current
   * text layout. The component's bounds give the tidbit's location and size.
   */
  datatype Tidbit = Tidbit(
    comp: HC.Component,
    visible: bool,
    status: Status,
    showIcon: bool,
    icon: Option<Icon>,
    accentAlpha: Option<int>,
    textResources: bool,
    content: Option<string>,
    layout: Option<string>)

  /**
   * The tidbit's own consistency: the component's resource invariant, the
   * wrapper window shown exactly when the tidbit is visible, and an accent
   * brush whenever the text resources exist.
   */
  predicate Coherent(t: Tidbit)
  {
    && HC.Valid(t.comp)
    && (t.comp.surface.Some? ==> t.comp.surface.value.visible == t.visible)
    && (t.textResources ==> t.accentAlpha.Some?)
  }

  /** `Location` getter: the corner of the component's bounds. */
  function Location(t: Tidbit): Point
  {
    HC.GetBounds(t.comp).Location()
  }

  /** `Size`: the extent of the component's bounds. */
  function SizeOf(t: Tidbit): Size
  {
    HC.GetBounds(t.comp).Dimensions()
  }

  /** `Location` setter: moves the bounds and keeps their size. */
  function SetLocation(t: Tidbit, p: Point): (r: Tidbit)
    ensures Location(r) == p && SizeOf(r) == SizeOf(t)
    ensures r == t.(comp := r.comp)
    ensures Coherent(t) ==> Coherent(r)
    ensures r.comp.surface.Some? == t.comp.surface.Some? && r.comp.disposed == t.comp.disposed
  {
    var b := HC.GetBounds(t.comp);
    t.(comp := HC.SetBounds(t.comp, Rect(p.x, p.y, b.w, b.h)))
  }

  /** Reading the location back gives what was set, and the second of two moves wins. */
  lemma LocationRoundTrip(t: Tidbit, p: Point, q: Point)
    ensures Location(SetLocation(t, p)) == p
    ensures SetLocation(SetLocation(t, p), q) == SetLocation(t, q)
  {
  }

  /**
   * The part of the `Visible` setter that touches the tidbit itself: the
   * wrapper window (if any) is shown or hidden and the tidbit's flag set. The
   * component's cached flag is not written, because the property is
   * overridden.
   */
  function Display(t: Tidbit, v: bool): (r: Tidbit)
    ensures r.visible == v
    ensures r.comp.surface.Some? ==> r.comp.surface.value.visible == v
    ensures Location(r) == Location(t) && SizeOf(r) == SizeOf(t)
    ensures HC.Valid(t.comp) && (t.textResources ==> t.accentAlpha.Some?) ==> Coherent(r)
  {
    t.(comp := HC.MapSurface(t.comp, (s: Surface) => s.(visible := v)), visible := v)
  }

  /** `LeftBorderWidth`: no border for a transparent accent; the null brush throws. */
  function LeftBorderWidth(t: Tidbit): (r: Result<int>)
    ensures r.Ok? <==> t.accentAlpha.Some?
    ensures r.Throws? ==> r.error == NullReference
    ensures r.Ok? ==> (r.value == 0 <==> t.accentAlpha.value <= 0)
    ensures r.Ok? ==> r.value == 0 || r.value == 2
  {
    match t.accentAlpha
    case None => Throws(NullReference)
    case Some(a) => Ok(if a <= 0 then 0 else 2)
  }

  /** `IconSize`: the icon's size when one is shown, else empty. */
  function IconSize(t: Tidbit): (r: Size)
    ensures !t.showIcon || t.icon.None? ==> r == Size(0, 0)
    ensures t.showIcon && t.icon.Some? ==> r == t.icon.value.size
  {
    if t.showIcon && t.icon.Some? then t.icon.value.size else Size(0, 0)
  }

  /** The bitmap shown for each status. */
  function ResourceFor(s: Status): Resource
  {
    match s
    case Error => TidbitError
    case Warning => TidbitWarning
    case Information => TidbitInfo
    case Success => TidbitOk
  }

  /** Each status has its own icon, so the icon tells the status apart. */
  lemma ResourceForInjective(s: Status, u: Status)
    ensures ResourceFor(s) == ResourceFor(u) <==> s == u
  {
  }

  /** The render target exists and is not disposed. */
  predicate LiveTarget(t: Tidbit)
  {
    t.comp.renderTarget.Some?
  }

  /**
   * `RefreshIcon`: with icons on, a live render target and no icon yet, load
   * the status icon (its pixel size, `loaded`, comes from the embedded
   * resource); otherwise keep what is there.
   */
  function RefreshIcon(t: Tidbit, loaded: Size): (r: Tidbit)
    ensures t.showIcon && LiveTarget(t) && t.icon.None? ==> r.icon == Some(Icon(Builtin(ResourceFor(t.status)), loaded))
    ensures !(t.showIcon && LiveTarget(t) && t.icon.None?) ==> r == t
    ensures r == t.(icon := r.icon)
    ensures r.icon.Some? && r.icon.value.source.Builtin? && t.icon.None? ==> r.icon.value.source.resource == ResourceFor(t.status)
  {
    if t.showIcon && LiveTarget(t) && t.icon.None? then t.(icon := Some(Icon(Builtin(ResourceFor(t.status)), loaded)))
    else t
  }

  /** The status accent colours are all opaque. */
  const OpaqueAlpha: int := 255

  /** `RefreshAccentBrush`: with a live render target and no brush, create the status colour's opaque brush. */
  function RefreshAccentBrush(t: Tidbit): (r: Tidbit)
    ensures LiveTarget(t) && t.accentAlpha.None? ==> r.accentAlpha == Some(OpaqueAlpha)
    ensures t.accentAlpha.Some? ==> r == t
    ensures r == t.(accentAlpha := r.accentAlpha)
  {
    if LiveTarget(t) && t.accentAlpha.None? then t.(accentAlpha := Some(OpaqueAlpha)) else t
  }

  /**
   * `RefreshTextLayout`. With live text resources the content is stripped of
   * its markup, laid out, and the bounds resized around it; `measured` is the
   * laid-out text's width and height, already truncated to integers (text
   * measurement is not modelled). Null content makes the markup parser throw.
   */
  function RefreshTextLayout(t: Tidbit, measured: Size): (r: Result<Tidbit>)
    ensures !t.textResources ==> r == Ok(t)
    ensures t.textResources && t.content.None? ==> r == Throws(ArgumentNull)
    ensures t.textResources && t.content.Some? && t.accentAlpha.None? ==> r == Throws(NullReference)
    ensures r.Ok? && t.textResources ==>
      && r.value.layout == Some(FormatHelper.Strip(t.content.value).plain)
      && FormatHelper.NoMatch(r.value.layout.value)
      && Location(r.value) == Location(t)
      && SizeOf(r.value).w == measured.w + 4 * Padding + LeftBorderWidth(t).value + IconSize(t).w
      && SizeOf(r.value).h == measured.h + 2 * Padding
    ensures r.Ok? ==> r.value == t.(comp := r.value.comp, layout := r.value.layout)
    ensures r.Ok? && Coherent(t) ==> Coherent(r.value)
  {
    if !t.textResources then Ok(t)
    else match t.content
      case None => Throws(ArgumentNull)
      case Some(text) =>
        match LeftBorderWidth(t)
        case Throws(e) => Throws(e)
        case Ok(border) =>
          var plain := FormatHelper.Strip(text).plain;
          var b := HC.GetBounds(t.comp);
          var icon := IconSize(t);
          Ok(t.(layout := Some(plain),
                comp := HC.SetBounds(t.comp, Rect(b.x, b.y, measured.w + 4 * Padding + border + icon.w, measured.h + 2 * Padding))))
  }

  /** A coherent tidbit with content never throws while laying out its text, and its box is at least the padding. */
  lemma CoherentTextLayout(t: Tidbit, measured: Size)
    requires Coherent(t) && t.textResources && t.content.Some?
    requires measured.w >= 0 && measured.h >= 0
    requires t.icon.Some? ==> t.icon.value.size.w >= 0
    ensures RefreshTextLayout(t, measured).Ok?
    ensures SizeOf(RefreshTextLayout(t, measured).value).w >= 4 * Padding
    ensures SizeOf(RefreshTextLayout(t, measured).value).h >= 2 * Padding
  {
  }

  /** `Content` setter. */
  function SetContent(t: Tidbit, text: string, measured: Size): (r: Result<Tidbit>)
    ensures t.textResources && t.accentAlpha.Some? ==> r.Ok?
    ensures r.Ok? ==> r.value.content == Some(text)
    ensures r.Ok? && t.textResources ==> r.value.layout == Some(FormatHelper.Strip(text).plain)
  {
    RefreshTextLayout(t.(content := Some(text)), measured)
  }

  /** `ShowIcon` setter: refresh the icon, then the text layout. */
  function SetShowIcon(t: Tidbit, v: bool, loaded: Size, measured: Size): (r: Result<Tidbit>)
    ensures r.Ok? ==> r.value.showIcon == v
    ensures r.Ok? && !v && t.textResources ==> t.accentAlpha.Some? && SizeOf(r.value).w == measured.w + 4 * Padding + LeftBorderWidth(t).value
  {
    RefreshTextLayout(RefreshIcon(t.(showIcon := v), loaded), measured)
  }

  /**
   * `CustomAccent` setter: a new brush of the given alpha on the render
   * target (a null render target throws), then the text layout.
   */
  function SetCustomAccent(t: Tidbit, alpha: int, measured: Size): (r: Result<Tidbit>)
    requires 0 <= alpha <= 255
    ensures !LiveTarget(t) ==> r == Throws(NullReference)
    ensures r.Ok? ==> r.value.accentAlpha == Some(alpha)
    ensures r.Ok? && t.textResources ==> (LeftBorderWidth(r.value) == Ok(0) <==> alpha == 0)
  {
    if !LiveTarget(t) then Throws(NullReference)
    else RefreshTextLayout(t.(accentAlpha := Some(alpha)), measured)
  }

  /**
   * `CustomIcon` setter: release the old bitmap, convert the new one on the
   * render target and refresh the icon, which brings the status icon back
   * when the bitmap was cleared. Converting a bitmap on a null render target
   * throws; clearing needs no render target. The text layout is not refreshed.
   */
  function SetCustomIcon(t: Tidbit, bitmap: Option<Size>, loaded: Size): (r: Result<Tidbit>)
    ensures r.Throws? <==> bitmap.Some? && !LiveTarget(t)
    ensures r.Throws? ==> r.error == NullReference
    ensures r.Ok? && bitmap.Some? ==> r.value.icon == Some(Icon(Custom, bitmap.value))
    ensures r.Ok? && bitmap.None? && t.showIcon && LiveTarget(t) ==> r.value.icon == Some(Icon(Builtin(ResourceFor(t.status)), loaded))
    ensures r.Ok? ==> SizeOf(r.value) == SizeOf(t)
  {
    match bitmap
    case Some(s) => if !LiveTarget(t) then Throws(NullReference) else Ok(RefreshIcon(t.(icon := Some(Icon(Custom, s))), loaded))
    case None => Ok(RefreshIcon(t.(icon := None), loaded))
  }

  /** Refreshing the accent brush twice is refreshing it once: an existing brush is never replaced. */
  lemma RefreshAccentBrushIdempotent(t: Tidbit)
    ensures RefreshAccentBrush(RefreshAccentBrush(t)) == RefreshAccentBrush(t)
  {
  }

  /** A custom accent survives a later refresh of the accent brush: the status colour does not come back. */
  lemma CustomAccentSurvivesRefresh(t: Tidbit, alpha: int, measured: Size)
    requires 0 <= alpha <= 255 && SetCustomAccent(t, alpha, measured).Ok?
    ensures RefreshAccentBrush(SetCustomAccent(t, alpha, measured).value) == SetCustomAccent(t, alpha, measured).value
    ensures RefreshAccentBrush(SetCustomAccent(t, alpha, measured).value).accentAlpha == Some(alpha)
  {
  }

  /**
   * Turning icons off and back on keeps the icon the tidbit had, and widens
   * the box by exactly the icon's width.
   */
  lemma ShowIconToggle(t: Tidbit, loaded: Size, measured: Size)
    requires t.textResources && t.content.Some? && t.accentAlpha.Some?
    ensures SetShowIcon(t, false, loaded, measured).Ok?
    ensures var off := SetShowIcon(t, false, loaded, measured).value;
      && SetShowIcon(off, true, loaded, measured).Ok?
      && var on := SetShowIcon(off, true, loaded, measured).value;
      && (t.icon.Some? ==> on.icon == t.icon)
      && SizeOf(on).w == SizeOf(off).w + IconSize(on).w
  {
  }

  /**
   * Setting a custom icon succeeds exactly with a live render target, and
   * clearing it again leaves the icon the status alone would give.
   */
  lemma ClearCustomIconRestoresStatus(t: Tidbit, bitmap: Size, loaded: Size)
    ensures SetCustomIcon(t, Some(bitmap), loaded).Ok? <==> LiveTarget(t)
    ensures LiveTarget(t) ==>
      SetCustomIcon(SetCustomIcon(t, Some(bitmap), loaded).value, None, loaded) == Ok(RefreshIcon(t.(icon := None), loaded))
  {
  }

  /**
   * A freshly constructed tidbit before its `Visible = true`: status
   * Information, icons on, no content, and the component's wrapper.
   */
  function Fresh(c: HC.Component): (t: Tidbit)
    ensures t.comp == c && !t.visible && t.status == Information && t.showIcon
    ensures t.content.None? && t.icon.None? && t.accentAlpha.None? && !t.textResources
  {
    Tidbit(c, false, Information, true, None, None, false, None, None)
  }

  /**
   * `InitializeRenderingObjects`: the text resources, then the accent brush
   * and the status icon.
   */
  function Initialize(t: Tidbit, loaded: Size): (r: Tidbit)
    ensures r.textResources
    ensures LiveTarget(t) && t.accentAlpha.None? ==> r.accentAlpha == Some(OpaqueAlpha)
    ensures LiveTarget(t) && t.icon.None? && t.showIcon ==> r.icon == Some(Icon(Builtin(ResourceFor(t.status)), loaded))
    ensures r.comp == t.comp && r.visible == t.visible
    ensures HC.Valid(t.comp) && LiveTarget(t) && (t.comp.surface.Some? ==> t.comp.surface.value.visible == t.visible) ==> Coherent(r)
  {
    RefreshIcon(RefreshAccentBrush(t.(textResources := true)), loaded)
  }

  /**
   * `DestroyRenderingObjects` followed by the rest of the base `Dispose`
   * (whose `Visible = false` finds the tidbit already hidden): every brush,
   * bitmap and text resource is released and the component too.
   */
  function Release(t: Tidbit): (r: Tidbit)
    ensures r.icon.None? && r.accentAlpha.None? && !r.textResources && r.layout.None?
    ensures r.comp.disposed && r.comp.surface.None? && !LiveTarget(r)
    ensures r.visible == t.visible && Location(r) == t.comp.bounds.Location()
    ensures Coherent(r)
  {
    t.(icon := None, accentAlpha := None, textResources := false, layout := None, comp := HC.Release(t.comp))
  }

  /** Releasing twice is the same as once. */
  lemma ReleaseIdempotent(t: Tidbit)
    ensures Release(Release(t)) == Release(t)
  {
  }
}
