/**
 * HudToolbarWrapperWindow: the toolbar's wrapper window answers the
 * non-client hit test with "caption" over any point no control claims, so
 * that an unlocked toolbar can be dragged by its empty parts.
 */
module ToolbarWindow {
  import opened Wrappers
  import opened Geometry
  import WrapperWindow
  import opened ToolbarControl
  import opened Toolbar

  /** No control of the toolbar hits `p`. */
  predicate NothingHit(t: Toolbar, p: Point)
  {
    forall i :: 0 <= i < |t.controls| ==> !HitTest(t.controls[i], p)
  }

  /** No control before index `i` hits `p`, so the insertion-order walk of the hit test reaches control `i`. */
  predicate Reached(cs: seq<Control>, p: Point, i: nat)
  {
    forall k :: 0 <= k < i && k < |cs| ==> !HitTest(cs[k], p)
  }

  /**
   * `All(c => !c.HitTest(p))` over the controls in insertion order: each
   * control tested builds its lazy geometry, and the walk stops at the
   * first hit, leaving the controls after it untested.
   */
  function ProbeAll(cs: seq<Control>, p: Point): (ds: seq<Control>)
    ensures SamePlacement(cs, ds)
    ensures forall i :: 0 <= i < |cs| && Reached(cs, p, i) ==> ds[i] == Materialize(cs[i])
    ensures forall i :: 0 <= i < |cs| && !Reached(cs, p, i) ==> ds[i] == cs[i]
  {
    if |cs| == 0 then []
    else
      var c := Materialize(cs[0]);
      if HitTest(c, p) then
        assert forall i :: 0 < i < |cs| ==> !Reached(cs, p, i);
        [c] + cs[1..]
      else
        var rest := ProbeAll(cs[1..], p);
        assert forall i :: 0 < i < |cs| ==> (Reached(cs, p, i) <==> Reached(cs[1..], p, i - 1));
        [c] + rest
  }

  /** The hit test's answer, and the toolbar as the test leaves it (with the geometry it built). */
  datatype HitAnswer = HitAnswer(code: Result<int>, toolbar: Toolbar)

  /**
   * WM_NCHITTEST: first the common wrapper's answer (its resize regions, or
   * `defResult`, what default processing answered, when not resizable); then
   * the answer becomes HTCAPTION when the toolbar is unlocked and no control
   * hits the client point. Reading `Locked` throws when there is no grip;
   * a locked toolbar tests no control, an unlocked one tests them in
   * insertion order up to the first hit.
   */
  function NcHitTest(t: Toolbar, client: Point, defResult: int): (r: HitAnswer)
    requires Shaped(t) && t.comp.surface.Some?
    ensures r.code.Ok? <==> Locked(t).Ok?
    ensures r.code.Ok? && !Locked(t).value && NothingHit(t, client) ==> r.code.value == WrapperWindow.HTCAPTION
    ensures r.code.Ok? && (Locked(t).value || !NothingHit(t, client)) ==>
      r.code.value == WrapperWindow.NcHitTest(t.comp.surface.value, client, defResult)
    ensures Locked(t) != Ok(false) ==> r.toolbar == t
    ensures Locked(t) == Ok(false) ==>
      && r.toolbar == t.(controls := r.toolbar.controls)
      && SamePlacement(t.controls, r.toolbar.controls)
      && (forall i :: 0 <= i < |t.controls| && Reached(t.controls, client, i) ==> r.toolbar.controls[i] == Materialize(t.controls[i]))
      && (forall i :: 0 <= i < |t.controls| && !Reached(t.controls, client, i) ==> r.toolbar.controls[i] == t.controls[i])
  {
    var base := WrapperWindow.NcHitTest(t.comp.surface.value, client, defResult);
    match Locked(t)
    case Throws(e) => HitAnswer(Throws(e), t)
    case Ok(locked) =>
      if locked then HitAnswer(Ok(base), t)
      else
        var probed := t.(controls := ProbeAll(t.controls, client));
        HitAnswer(Ok(if NothingHit(t, client) then WrapperWindow.HTCAPTION else base), probed)
  }

  /**
   * A hit test before the first paint pins the geometry of every button it
   * reaches where the button was declared: after `Render` moves the button,
   * it still hits where it was, not where it is drawn.
   */
  lemma HitTestBeforePaintPinsGeometry(t: Toolbar, client: Point, defResult: int, j: nat, p: Point)
    requires Shaped(t) && t.comp.surface.Some? && Locked(t) == Ok(false)
    requires j < |t.controls| && t.controls[j].kind.Button? && Reached(t.controls, client, j)
    ensures HitTest(Render(NcHitTest(t, client, defResult).toolbar).controls[j], p) == HitTest(t.controls[j], p)
  {
    var u := NcHitTest(t, client, defResult).toolbar;
    var c := t.controls[j];
    var at := EffectiveLocationAsWritten(u.controls, u.controls[j], ZRank(u.controls, j));
    assert u.controls[j] == Materialize(c);
    GeometryFixedAfterFirstAccess(c, at, p);
    MaterializeIdempotent(c);
  }

  /**
   * Images and text never hit, so an unlocked toolbar is draggable wherever
   * no button hits: over the grip and the timer in particular.
   */
  lemma DraggableOutsideButtons(t: Toolbar, client: Point, defResult: int)
    requires Shaped(t) && t.comp.surface.Some? && Locked(t) == Ok(false)
    requires forall i :: 0 <= i < |t.controls| && t.controls[i].kind.Button? ==> !HitTest(t.controls[i], client)
    ensures NcHitTest(t, client, defResult).code == Ok(WrapperWindow.HTCAPTION)
  {
  }

  /**
   * The toolbar's wrapper is not resizable, so a locked toolbar keeps the
   * default processing's answer everywhere.
   */
  lemma LockedKeepsDefault(t: Toolbar, client: Point, defResult: int)
    requires Shaped(t) && t.comp.surface.Some? && !t.comp.surface.value.resizable
    requires Locked(t) == Ok(true)
    ensures NcHitTest(t, client, defResult).code == Ok(defResult)
  {
  }

  /** A freshly created toolbar is unlocked and not resizable. */
  lemma CreatedToolbarDraggable(container: Container.ContainerInfo, outline: set<Point>, client: Point, defResult: int)
    requires Create(container, outline).Ok?
    requires NothingHit(Create(container, outline).value, client)
    ensures NcHitTest(Create(container, outline).value, client, defResult).code == Ok(WrapperWindow.HTCAPTION)
  {
  }
}
