/**
 * TidbitManager: the container's registry of visible tidbits. Tidbits are
 * stacked below the pointer in registration order, 4 pixels apart; the first
 * registration takes the mouse hook and the last unregistration releases it,
 * and while the hook is held every pointer move relays the whole stack.
 *
 * The tidbit objects are kept in a map from an identity to their state, so
 * that the registry (a list of references in the source) is a sequence of
 * identities. The `Visible` setter, constructor and `Dispose` of a tidbit are
 * here because they register and unregister it.
 */
module TidbitManager {
  import opened Wrappers
  import opened Geometry
  import opened Lists
  import opened Hooks
  import opened Container
  import HC = HudComponent
  import T = Tidbit

  /** The identity of a tidbit object. */
  type Id = nat

  /**
   * Where the pointer is and the current cursor's size; a null cursor
   * (`Cursor.Current == null`) is `None`.
   */
  datatype Pointer = Pointer(at: Point, cursor: Option<Size>)

  /** The tidbit objects of one container, the manager's registry and its mouse-hook ledger. */
  datatype Hud = Hud(container: ContainerInfo, tidbits: map<Id, T.Tidbit>, registry: seq<Id>, mouse: Arbiter)

  /** The manager's ledger while it holds the hook (`bound`) or not, starting from an idle ledger. */
  function Ledger(container: ContainerInfo, bound: bool): Arbiter
  {
    if !bound then Idle
    else Arbiter(1, if container.mouseIsProvider then multiset{TidbitMouseMove} else multiset{})
  }

  /** Every registry entry refers to an existing tidbit object. */
  predicate Linked(h: Hud)
  {
    Within(h.tidbits, h.registry)
  }

  /**
   * The manager's invariant as the program keeps it: each tidbit is
   * registered at most once and exactly when it is visible, each tidbit is
   * coherent, and the hook lock is requested exactly while the registry is
   * non-empty. The subscriptions are not part of it, because the last
   * unregistration subscribes the move handler again.
   */
  predicate Valid(h: Hud)
  {
    && Linked(h)
    && Distinct(h.registry)
    && (forall id :: id in h.tidbits ==> (h.tidbits[id].visible <==> id in h.registry))
    && (forall id :: id in h.tidbits ==> T.Coherent(h.tidbits[id]))
    && h.mouse.requests == (if |h.registry| > 0 then 1 else 0)
  }

  /**
   * The invariant as intended: on top of `Valid`, the ledger is exactly the
   * one a single binding leaves, one subscription of the move handler while
   * the hook is held on a provider and none otherwise.
   */
  predicate Balanced(h: Hud)
  {
    Valid(h) && h.mouse == Ledger(h.container, |h.registry| > 0)
  }

  /** The manager of a new container: nothing registered, nothing requested. */
  function NewHud(container: ContainerInfo): (h: Hud)
    ensures Balanced(h) && h.registry == [] && h.mouse == Idle
  {
    Hud(container, map[], [], Idle)
  }

  // ---------------------------------------------------------------------
  // Placement

  /**
   * `CalculateTidbitLocation`: the point plus half the cursor's width and the
   * offset plus half its height. In the source the null-coalescing `?? 0`
   * applies to the whole sum `offset + height / 2`, so with no cursor the
   * offset is dropped too.
   */
  function Locate(at: Point, cursor: Option<Size>, offset: int): Point
  {
    match cursor
    case None => at
    case Some(c) => Point(at.x + Div(c.w, 2), at.y + offset + Div(c.h, 2))
  }

  /** With a cursor, the offset moves the location straight down by that much. */
  lemma LocateOffset(at: Point, c: Size, offset: int, d: int)
    ensures Locate(at, Some(c), offset + d) == Point(Locate(at, Some(c), offset).x, Locate(at, Some(c), offset).y + d)
    ensures Locate(at, Some(c), offset) != Locate(at, Some(c), offset + d) <==> d != 0
  {
  }

  /** With no cursor every offset gives the same point: all tidbits land on the pointer. */
  lemma NullCursorDropsOffset(at: Point, offset: int, other: int)
    ensures Locate(at, None, offset) == Locate(at, None, other) == at
  {
  }

  /** A tidbit's height. */
  function Height(t: T.Tidbit): int
  {
    T.SizeOf(t).h
  }

  /** Every listed identity refers to an existing tidbit object. */
  predicate Within(tidbits: map<Id, T.Tidbit>, ids: seq<Id>)
  {
    forall i :: 0 <= i < |ids| ==> ids[i] in tidbits
  }

  /** The heights of the listed tidbits, in order. */
  function Heights(tidbits: map<Id, T.Tidbit>, ids: seq<Id>): (hs: seq<int>)
    requires Within(tidbits, ids)
    ensures |hs| == |ids|
    ensures forall i {:trigger hs[i]} :: 0 <= i < |ids| ==> hs[i] == Height(tidbits[ids[i]])
    decreases |ids|
  {
    if |ids| == 0 then []
    else Heights(tidbits, ids[..|ids| - 1]) + [Height(tidbits[ids[|ids| - 1]])]
  }

  /** Σ (height + 4) over a list of heights: the offset below which the next tidbit goes. */
  function Spacing(hs: seq<int>): int
  {
    if |hs| == 0 then 0 else Spacing(hs[..|hs| - 1]) + hs[|hs| - 1] + 4
  }

  /** The spacing of a concatenation is the sum of the spacings. */
  lemma {:induction false} SpacingAppend(a: seq<int>, b: seq<int>)
    ensures Spacing(a + b) == Spacing(a) + Spacing(b)
    decreases |b|
  {
    if |b| > 0 {
      var b' := b[..|b| - 1];
      assert (a + b)[..|a + b| - 1] == a + b';
      SpacingAppend(a, b');
    } else {
      assert a + b == a;
    }
  }

  /** The spacing of a non-empty prefix is its first height plus 4 plus the spacing of the rest. */
  lemma SpacingCons(hs: seq<int>, k: nat)
    requires 0 < k <= |hs|
    ensures Spacing(hs[..k]) == hs[0] + 4 + Spacing(hs[1..][..k - 1])
  {
    assert hs[..k] == [hs[0]] + hs[1..][..k - 1];
    SpacingAppend([hs[0]], hs[1..][..k - 1]);
    assert [hs[0]][..0] == [];
  }

  /**
   * Dropping height `i` shortens the spacing of every later prefix by that
   * height plus 4.
   */
  lemma SpacingRemove(hs: seq<int>, i: nat, k: nat)
    requires i <= k < |hs| - 1
    ensures Spacing(RemoveAt(hs, i)[..k]) == Spacing(hs[..k + 1]) - (hs[i] + 4)
  {
    assert hs[..k + 1] == (hs[..i] + [hs[i]]) + hs[i + 1..k + 1];
    assert RemoveAt(hs, i)[..k] == hs[..i] + hs[i + 1..k + 1];
    SpacingAppend(hs[..i] + [hs[i]], hs[i + 1..k + 1]);
    SpacingAppend(hs[..i], [hs[i]]);
    SpacingAppend(hs[..i], hs[i + 1..k + 1]);
    assert [hs[i]][..0] == [];
  }

  /** Replacing one tidbit object by one of the same height (or an unlisted one) keeps the heights. */
  lemma HeightsUpdate(tidbits: map<Id, T.Tidbit>, id: Id, t: T.Tidbit, ids: seq<Id>)
    requires Within(tidbits, ids)
    requires id in ids ==> id in tidbits && Height(t) == Height(tidbits[id])
    ensures Within(tidbits[id := t], ids)
    ensures Heights(tidbits[id := t], ids) == Heights(tidbits, ids)
  {
  }

  /** The offset below the listed tidbits. */
  function StackOffset(tidbits: map<Id, T.Tidbit>, ids: seq<Id>): int
    requires Within(tidbits, ids)
  {
    Spacing(Heights(tidbits, ids))
  }

  /**
   * The registry is a stack below `at`, as a hooked move leaves it: the k-th
   * registered tidbit sits at the location for the spacing of the k before it.
   */
  predicate Stacked(h: Hud, at: Point, cursor: Option<Size>)
  {
    && Linked(h)
    && forall k {:trigger T.Location(h.tidbits[h.registry[k]])} :: 0 <= k < |h.registry| ==>
         T.Location(h.tidbits[h.registry[k]]) == Locate(at, cursor, Spacing(Heights(h.tidbits, h.registry)[..k]))
  }

  // ---------------------------------------------------------------------
  // The mouse hook

  /** `BindMouseEvents`: request the hook lock, and subscribe the move handler when the hook is a provider. */
  function Bind(h: Hud): (r: Hud)
    ensures r.mouse.requests == h.mouse.requests + 1
    ensures r.mouse.handlers == h.mouse.handlers + (if h.container.mouseIsProvider then multiset{TidbitMouseMove} else multiset{})
    ensures r == h.(mouse := r.mouse)
  {
    var locked := RequestLock(h.mouse);
    h.(mouse := if h.container.mouseIsProvider then Subscribe(locked, multiset{TidbitMouseMove}) else locked)
  }

  /** `UnbindMouseEvents` as intended: unsubscribe the move handler, then release the hook. */
  function Unbind(h: Hud): (r: Hud)
    ensures r.mouse.requests == h.mouse.requests - 1
    ensures r.mouse.handlers == h.mouse.handlers - (if h.container.mouseIsProvider then multiset{TidbitMouseMove} else multiset{})
    ensures r == h.(mouse := r.mouse)
  {
    var unsubscribed := if h.container.mouseIsProvider then Unsubscribe(h.mouse, multiset{TidbitMouseMove}) else h.mouse;
    h.(mouse := RequestUnlock(unsubscribed))
  }

  /** `UnbindMouseEvents` as written: the handler is subscribed again (`+=`) before the hook is released. */
  function UnbindAsWritten(h: Hud): (r: Hud)
    ensures r.mouse.requests == h.mouse.requests - 1
    ensures r.mouse.handlers == h.mouse.handlers + (if h.container.mouseIsProvider then multiset{TidbitMouseMove} else multiset{})
    ensures r == h.(mouse := r.mouse)
  {
    var subscribed := if h.container.mouseIsProvider then Subscribe(h.mouse, multiset{TidbitMouseMove}) else h.mouse;
    h.(mouse := RequestUnlock(subscribed))
  }

  /** Binding and then unbinding leaves the ledger as it was. */
  lemma BindUnbindBalanced(h: Hud)
    ensures Unbind(Bind(h)).mouse == h.mouse
  {
    var hs := if h.container.mouseIsProvider then multiset{TidbitMouseMove} else multiset{};
    assert h.mouse.handlers + hs - hs == h.mouse.handlers;
  }

  /** As written, each bind/unbind cycle on a provider leaves two more subscriptions of the move handler. */
  lemma BindUnbindAsWrittenLeaks(h: Hud)
    requires h.container.mouseIsProvider
    ensures UnbindAsWritten(Bind(h)).mouse.requests == h.mouse.requests
    ensures UnbindAsWritten(Bind(h)).mouse.handlers[TidbitMouseMove] == h.mouse.handlers[TidbitMouseMove] + 2
  {
  }

  // ---------------------------------------------------------------------
  // Registration

  /**
   * `RegisterTidbit`: the first registration binds the mouse events; the
   * tidbit is placed below the ones already registered (at the current mouse
   * position and cursor, `pointer`) and appended.
   */
  function Register(h: Hud, id: Id, pointer: Pointer): (r: Hud)
    requires Linked(h) && id in h.tidbits
    ensures Linked(r) && r.registry == h.registry + [id]
    ensures r.tidbits.Keys == h.tidbits.Keys
    ensures T.Location(r.tidbits[id]) == Locate(pointer.at, pointer.cursor, StackOffset(h.tidbits, h.registry))
    ensures r.tidbits[id] == h.tidbits[id].(comp := r.tidbits[id].comp)
    ensures T.SizeOf(r.tidbits[id]) == T.SizeOf(h.tidbits[id])
    ensures forall j :: j in h.tidbits && j != id ==> r.tidbits[j] == h.tidbits[j]
    ensures |h.registry| == 0 ==> r.mouse == Bind(h).mouse
    ensures |h.registry| > 0 ==> r.mouse == h.mouse
    ensures r.container == h.container
  {
    var bound := if |h.registry| == 0 then Bind(h) else h;
    var placed := T.SetLocation(h.tidbits[id], Locate(pointer.at, pointer.cursor, StackOffset(h.tidbits, h.registry)));
    bound.(tidbits := h.tidbits[id := placed], registry := h.registry + [id])
  }

  /**
   * Moves each tidbit to its entry in `locations`, if it has one, keeping its
   * size; the others are untouched.
   */
  function Place(tidbits: map<Id, T.Tidbit>, locations: map<Id, Point>): (r: map<Id, T.Tidbit>)
    requires locations.Keys <= tidbits.Keys
    ensures r.Keys == tidbits.Keys
    ensures forall j :: j in locations ==> r[j] == T.SetLocation(tidbits[j], locations[j])
    ensures forall j :: j in tidbits && j !in locations ==> r[j] == tidbits[j]
  {
    map j | j in tidbits :: if j in locations then T.SetLocation(tidbits[j], locations[j]) else tidbits[j]
  }

  /** Placing keeps every tidbit's size, visibility and coherence. */
  lemma PlaceKeeps(tidbits: map<Id, T.Tidbit>, locations: map<Id, Point>)
    requires locations.Keys <= tidbits.Keys
    ensures forall j :: j in tidbits ==> Height(Place(tidbits, locations)[j]) == Height(tidbits[j])
    ensures forall j :: j in tidbits ==> Place(tidbits, locations)[j].visible == tidbits[j].visible
    ensures forall j :: j in tidbits ==> T.Coherent(tidbits[j]) ==> T.Coherent(Place(tidbits, locations)[j])
    ensures forall j :: j in tidbits ==>
      T.Location(Place(tidbits, locations)[j]) == if j in locations then locations[j] else T.Location(tidbits[j])
  {
  }

  /** A placed tidbit is at its location. */
  lemma PlaceAt(tidbits: map<Id, T.Tidbit>, locations: map<Id, Point>, j: Id)
    requires locations.Keys <= tidbits.Keys && j in locations
    ensures T.Location(Place(tidbits, locations)[j]) == locations[j]
  {
  }

  /** Placing keeps the heights of any list of tidbits. */
  lemma HeightsPlace(tidbits: map<Id, T.Tidbit>, locations: map<Id, Point>, ids: seq<Id>)
    requires locations.Keys <= tidbits.Keys && Within(tidbits, ids)
    ensures Within(Place(tidbits, locations), ids)
    ensures Heights(Place(tidbits, locations), ids) == Heights(tidbits, ids)
  {
    PlaceKeeps(tidbits, locations);
  }

  /**
   * The locations after moving each listed tidbit up by `dy`, keeping its x.
   * A tidbit listed twice moves twice, as it would in the source.
   */
  function Shifted(tidbits: map<Id, T.Tidbit>, ids: seq<Id>, dy: int): (r: map<Id, Point>)
    ensures r.Keys <= tidbits.Keys
    ensures forall j :: j in tidbits && j in ids ==> j in r
    ensures forall j :: j in r ==> j in ids
    ensures Distinct(ids) ==> forall j :: j in r ==> r[j] == Point(T.Location(tidbits[j]).x, T.Location(tidbits[j]).y - dy)
  {
    var locations := map j | j in tidbits && j in ids :: Point(T.Location(tidbits[j]).x, Raise(T.Location(tidbits[j]).y, multiset(ids)[j], dy));
    assert Distinct(ids) ==> forall j :: j in locations ==> locations[j] == Point(T.Location(tidbits[j]).x, T.Location(tidbits[j]).y - dy) by {
      if Distinct(ids) {
        forall j | j in locations
          ensures locations[j] == Point(T.Location(tidbits[j]).x, T.Location(tidbits[j]).y - dy)
        {
          DistinctCount(ids, j);
          assert Raise(T.Location(tidbits[j]).y, 1, dy) == T.Location(tidbits[j]).y - dy;
        }
      }
    }
    locations
  }

  /** A vertical position after `times` moves up by `dy`. */
  function Raise(y: int, times: nat, dy: int): int
  {
    if times == 0 then y else Raise(y, times - 1, dy) - dy
  }

  /** In a sequence without repeats every member occurs once. */
  lemma {:induction false} DistinctCount(ids: seq<Id>, j: Id)
    requires Distinct(ids) && j in ids
    ensures multiset(ids)[j] == 1
    decreases |ids|
  {
    assert ids == [ids[0]] + ids[1..];
    assert multiset(ids) == multiset{ids[0]} + multiset(ids[1..]);
    if ids[0] == j {
      assert multiset(ids[1..])[j] == 0;
    } else {
      DistinctCount(ids[1..], j);
    }
  }

  /** Removes registry position `i` and moves the later tidbits up by `dy`. */
  function Detach(h: Hud, i: nat, dy: int): (r: Hud)
    requires Linked(h) && i < |h.registry|
    ensures Linked(r) && r.registry == RemoveAt(h.registry, i)
    ensures r.tidbits.Keys == h.tidbits.Keys && r.mouse == h.mouse && r.container == h.container
    ensures r.tidbits == Place(h.tidbits, Shifted(h.tidbits, h.registry[i + 1..], dy))
  {
    var later := h.registry[i + 1..];
    h.(tidbits := Place(h.tidbits, Shifted(h.tidbits, later, dy)), registry := RemoveAt(h.registry, i))
  }

  /**
   * `UnregisterTidbit` as intended: an unregistered tidbit is ignored;
   * otherwise the later tidbits close the gap (height plus the 4-pixel
   * spacing), the tidbit leaves the registry, and emptying the registry
   * unbinds the mouse events.
   */
  function Unregister(h: Hud, id: Id): (r: Hud)
    requires Linked(h)
    ensures id !in h.registry ==> r == h
    ensures Linked(r) && r.tidbits.Keys == h.tidbits.Keys && r.container == h.container
    ensures id in h.registry ==> r.registry == RemoveAt(h.registry, IndexOf(h.registry, id).value)
    ensures id in h.registry ==> r.tidbits == Detach(h, IndexOf(h.registry, id).value, 4 + Height(h.tidbits[id])).tidbits
    ensures id in h.registry && |h.registry| == 1 ==> r.mouse == Unbind(h).mouse
    ensures |h.registry| != 1 ==> r.mouse == h.mouse
  {
    match IndexOf(h.registry, id)
    case None => h
    case Some(i) =>
      UnbindIfEmpty(Detach(h, i, 4 + Height(h.tidbits[id])))
  }

  /** The last unregistration unbinds the mouse events; nothing else changes. */
  function UnbindIfEmpty(h: Hud): (r: Hud)
    ensures r.tidbits == h.tidbits && r.registry == h.registry && r.container == h.container
    ensures r.mouse == if |h.registry| == 0 then Unbind(h).mouse else h.mouse
  {
    if |h.registry| == 0 then Unbind(h) else h
  }

  /**
   * `UnregisterTidbit` as written: the later tidbits move up by the removed
   * height only, and emptying the registry runs the `+=` unbind.
   */
  function UnregisterAsWritten(h: Hud, id: Id): (r: Hud)
    requires Linked(h)
    ensures id !in h.registry ==> r == h
    ensures Linked(r) && r.tidbits.Keys == h.tidbits.Keys && r.container == h.container
    ensures id in h.registry ==> r.registry == RemoveAt(h.registry, IndexOf(h.registry, id).value)
    ensures id in h.registry && |h.registry| == 1 ==> r.mouse == UnbindAsWritten(h).mouse
    ensures |h.registry| != 1 ==> r.mouse == h.mouse
  {
    match IndexOf(h.registry, id)
    case None => h
    case Some(i) =>
      UnbindIfEmptyAsWritten(Detach(h, i, Height(h.tidbits[id])))
  }

  /** The last unregistration as written runs the `+=` unbind; nothing else changes. */
  function UnbindIfEmptyAsWritten(h: Hud): (r: Hud)
    ensures r.tidbits == h.tidbits && r.registry == h.registry && r.container == h.container
    ensures r.mouse == if |h.registry| == 0 then UnbindAsWritten(h).mouse else h.mouse
  {
    if |h.registry| == 0 then UnbindAsWritten(h) else h
  }

  // ---------------------------------------------------------------------
  // Pointer moves

  /**
   * The body of `OnHookedMouseMove`: each listed tidbit in order gets the
   * location for the running offset, which starts at 0 and grows by each
   * height (from `hs`) plus 4; so the last one goes at the spacing of all
   * before it. A tidbit listed twice keeps its later location.
   */
  function Layout(ids: seq<Id>, hs: seq<int>, at: Point, cursor: Option<Size>): (r: map<Id, Point>)
    requires |hs| == |ids|
    ensures forall j :: j in r ==> j in ids
    decreases |ids|
  {
    if |ids| == 0 then map[]
    else
      var n := |ids| - 1;
      Layout(ids[..n], hs[..n], at, cursor)[ids[n] := Locate(at, cursor, Spacing(hs[..n]))]
  }

  /** `OnHookedMouseMove`: relay the whole registry below the event's location. */
  function Move(h: Hud, pointer: Pointer): (r: Hud)
    requires Linked(h)
    ensures r.registry == h.registry && r.mouse == h.mouse && r.container == h.container
    ensures r.tidbits == Place(h.tidbits, Layout(h.registry, Heights(h.tidbits, h.registry), pointer.at, pointer.cursor))
    ensures Valid(h) ==> Valid(r)
  {
    var locations := Layout(h.registry, Heights(h.tidbits, h.registry), pointer.at, pointer.cursor);
    PlaceKeeps(h.tidbits, locations);
    h.(tidbits := Place(h.tidbits, locations))
  }

  /**
   * A listed tidbit not listed again later lands at the spacing of the
   * tidbits before it.
   */
  lemma {:induction false} LayoutPlaces(ids: seq<Id>, hs: seq<int>, at: Point, cursor: Option<Size>, k: nat)
    requires |hs| == |ids| && k < |ids|
    requires forall m :: k < m < |ids| ==> ids[m] != ids[k]
    ensures ids[k] in Layout(ids, hs, at, cursor)
    ensures Layout(ids, hs, at, cursor)[ids[k]] == Locate(at, cursor, Spacing(hs[..k]))
    decreases |ids|
  {
    var n := |ids| - 1;
    if k < n {
      var earlier := Layout(ids[..n], hs[..n], at, cursor);
      assert ids[..n][k] == ids[k] && hs[..n][..k] == hs[..k];
      LayoutPlaces(ids[..n], hs[..n], at, cursor, k);
      assert ids[n] != ids[k];
      assert Layout(ids, hs, at, cursor)[ids[k]] == earlier[ids[k]];
    }
  }

  /** After a hooked move the registry is stacked below the event's location. */
  lemma MoveStacks(h: Hud, pointer: Pointer)
    requires Linked(h) && Distinct(h.registry)
    ensures Stacked(Move(h, pointer), pointer.at, pointer.cursor)
  {
    var hs := Heights(h.tidbits, h.registry);
    var locations := Layout(h.registry, hs, pointer.at, pointer.cursor);
    var r := Move(h, pointer);
    HeightsPlace(h.tidbits, locations, h.registry);
    forall k {:trigger T.Location(r.tidbits[r.registry[k]])} | 0 <= k < |r.registry|
      ensures T.Location(r.tidbits[r.registry[k]]) == Locate(pointer.at, pointer.cursor, Spacing(Heights(r.tidbits, r.registry)[..k]))
    {
      PlaceLayoutAt(h.tidbits, h.registry, hs, pointer.at, pointer.cursor, k);
    }
  }

  /** Placing a laid-out list without repeats puts its k-th tidbit at the spacing of the k before it. */
  lemma PlaceLayoutAt(tidbits: map<Id, T.Tidbit>, ids: seq<Id>, hs: seq<int>, at: Point, cursor: Option<Size>, k: nat)
    requires Within(tidbits, ids) && Distinct(ids) && |hs| == |ids| && k < |ids|
    ensures Layout(ids, hs, at, cursor).Keys <= tidbits.Keys
    ensures T.Location(Place(tidbits, Layout(ids, hs, at, cursor))[ids[k]]) == Locate(at, cursor, Spacing(hs[..k]))
  {
    var locations := Layout(ids, hs, at, cursor);
    var x := ids[k];
    assert x in locations && locations[x] == Locate(at, cursor, Spacing(hs[..k])) by {
      forall m | k < m < |ids| ensures ids[m] != ids[k] {
        DistinctAt(ids, k, m);
      }
      LayoutPlaces(ids, hs, at, cursor, k);
    }
    assert T.Location(Place(tidbits, locations)[x]) == locations[x] by {
      PlaceAt(tidbits, locations, x);
    }
  }

  /**
   * A move depends only on where the pointer is: relaying a second time (a
   * doubly subscribed handler) puts every tidbit where the first relay did.
   */
  lemma MoveTwice(h: Hud, pointer: Pointer)
    requires Linked(h)
    ensures Move(Move(h, pointer), pointer) == Move(h, pointer)
  {
    var hs := Heights(h.tidbits, h.registry);
    var locations := Layout(h.registry, hs, pointer.at, pointer.cursor);
    HeightsPlace(h.tidbits, locations, h.registry);
    PlaceTwice(h.tidbits, locations);
  }

  /** Placing at the same locations again changes nothing. */
  lemma PlaceTwice(tidbits: map<Id, T.Tidbit>, locations: map<Id, Point>)
    requires locations.Keys <= tidbits.Keys
    ensures Place(Place(tidbits, locations), locations) == Place(tidbits, locations)
  {
    var once := Place(tidbits, locations);
    forall j | j in locations
      ensures T.SetLocation(once[j], locations[j]) == once[j]
    {
      T.LocationRoundTrip(tidbits[j], locations[j], locations[j]);
    }
  }

  /**
   * Registering at the pointer a stack was laid out for extends that stack:
   * the registration offset agrees with the move offset.
   */
  lemma RegisterExtendsStack(h: Hud, id: Id, pointer: Pointer)
    requires Linked(h) && id in h.tidbits && id !in h.registry
    requires Stacked(h, pointer.at, pointer.cursor)
    ensures Stacked(Register(h, id, pointer), pointer.at, pointer.cursor)
  {
    var r := Register(h, id, pointer);
    var hs := Heights(h.tidbits, h.registry);
    assert Heights(r.tidbits, r.registry) == hs + [Height(h.tidbits[id])];
    forall k {:trigger T.Location(r.tidbits[r.registry[k]])} | 0 <= k < |r.registry|
      ensures T.Location(r.tidbits[r.registry[k]]) == Locate(pointer.at, pointer.cursor, Spacing(Heights(r.tidbits, r.registry)[..k]))
    {
      assert (hs + [Height(h.tidbits[id])])[..k] == hs[..k];
      if k < |h.registry| {
        assert h.registry[k] != id;
      } else {
        assert hs[..k] == hs;
      }
    }
  }

  /** Detaching removes position `i` from the list of heights. */
  lemma DetachHeights(h: Hud, i: nat, dy: int)
    requires Linked(h) && i < |h.registry|
    ensures Heights(Detach(h, i, dy).tidbits, Detach(h, i, dy).registry) == RemoveAt(Heights(h.tidbits, h.registry), i)
  {
    var later := h.registry[i + 1..];
    HeightsPlace(h.tidbits, Shifted(h.tidbits, later, dy), RemoveAt(h.registry, i));
    HeightsRemoveAt(h.tidbits, h.registry, i);
  }

  /** The heights of a list with one position removed are its heights with that position removed. */
  lemma HeightsRemoveAt(tidbits: map<Id, T.Tidbit>, ids: seq<Id>, i: nat)
    requires Within(tidbits, ids) && i < |ids|
    ensures Within(tidbits, RemoveAt(ids, i))
    ensures Heights(tidbits, RemoveAt(ids, i)) == RemoveAt(Heights(tidbits, ids), i)
  {
    var rest := RemoveAt(ids, i);
    assert Within(tidbits, rest) by {
      forall k | 0 <= k < |rest| ensures rest[k] in tidbits {
        if k < i { assert rest[k] == ids[k]; } else { assert rest[k] == ids[k + 1]; }
      }
    }
    var a := Heights(tidbits, rest);
    var b := RemoveAt(Heights(tidbits, ids), i);
    forall k | 0 <= k < |a| ensures a[k] == b[k] {
      if k < i { assert rest[k] == ids[k]; } else { assert rest[k] == ids[k + 1]; }
    }
  }

  /** Detaching position `i` of a registry without repeats leaves the earlier tidbits where they were. */
  lemma DetachBefore(h: Hud, i: nat, dy: int, k: nat)
    requires Linked(h) && Distinct(h.registry) && k < i < |h.registry|
    ensures T.Location(Detach(h, i, dy).tidbits[h.registry[k]]) == T.Location(h.tidbits[h.registry[k]])
  {
    var shifted := Shifted(h.tidbits, h.registry[i + 1..], dy);
    DistinctNotInSuffix(h.registry, k, i + 1);
    PlaceKeeps(h.tidbits, shifted);
  }

  /** Detaching position `i` of a registry without repeats moves each later tidbit up by `dy`. */
  lemma DetachAfter(h: Hud, i: nat, dy: int, k: nat)
    requires Linked(h) && Distinct(h.registry) && i < k < |h.registry|
    ensures
      var was := T.Location(h.tidbits[h.registry[k]]);
      T.Location(Detach(h, i, dy).tidbits[h.registry[k]]) == Point(was.x, was.y - dy)
  {
    var later := h.registry[i + 1..];
    var shifted := Shifted(h.tidbits, later, dy);
    DistinctDrop(h.registry, i + 1);
    assert h.registry[k] == later[k - i - 1];
    PlaceKeeps(h.tidbits, shifted);
  }

  /**
   * Detaching position `i` of a stack and moving the later tidbits up by its
   * height plus 4 leaves each remaining tidbit where the shorter stack wants it.
   */
  lemma DetachStackAt(h: Hud, hs: seq<int>, i: nat, dy: int, at: Point, c: Size, k: nat)
    requires Linked(h) && Distinct(h.registry) && i < |h.registry| && k < |h.registry| - 1
    requires hs == Heights(h.tidbits, h.registry) && dy == 4 + hs[i]
    requires Stacked(h, at, Some(c))
    ensures T.Location(Detach(h, i, dy).tidbits[RemoveAt(h.registry, i)[k]]) == Locate(at, Some(c), Spacing(RemoveAt(hs, i)[..k]))
  {
    if k < i {
      assert T.Location(h.tidbits[h.registry[k]]) == Locate(at, Some(c), Spacing(hs[..k]));
      DetachStackBefore(h, hs, i, dy, at, c, k);
    } else {
      assert T.Location(h.tidbits[h.registry[k + 1]]) == Locate(at, Some(c), Spacing(hs[..k + 1]));
      DetachStackAfter(h, hs, i, dy, at, c, k);
    }
  }

  /** The case of `DetachStackAt` for a tidbit before the detached one. */
  lemma DetachStackBefore(h: Hud, hs: seq<int>, i: nat, dy: int, at: Point, c: Size, k: nat)
    requires Linked(h) && Distinct(h.registry) && k < i < |h.registry|
    requires hs == Heights(h.tidbits, h.registry) && dy == 4 + hs[i]
    requires T.Location(h.tidbits[h.registry[k]]) == Locate(at, Some(c), Spacing(hs[..k]))
    ensures T.Location(Detach(h, i, dy).tidbits[h.registry[k]]) == Locate(at, Some(c), Spacing(RemoveAt(hs, i)[..k]))
  {
    DetachBefore(h, i, dy, k);
    SpacingKeep(hs, i, k);
  }

  /** The case of `DetachStackAt` for a tidbit after the detached one. */
  lemma DetachStackAfter(h: Hud, hs: seq<int>, i: nat, dy: int, at: Point, c: Size, k: nat)
    requires Linked(h) && Distinct(h.registry) && i <= k < |h.registry| - 1
    requires hs == Heights(h.tidbits, h.registry) && dy == 4 + hs[i]
    requires T.Location(h.tidbits[h.registry[k + 1]]) == Locate(at, Some(c), Spacing(hs[..k + 1]))
    ensures T.Location(Detach(h, i, dy).tidbits[h.registry[k + 1]]) == Locate(at, Some(c), Spacing(RemoveAt(hs, i)[..k]))
  {
    DetachAfter(h, i, dy, k + 1);
    SpacingShift(hs, i, k, at, c, T.Location(h.tidbits[h.registry[k + 1]]));
  }

  /** Dropping height `i` keeps the spacing of every earlier prefix. */
  lemma SpacingKeep(hs: seq<int>, i: nat, k: nat)
    requires k < i < |hs|
    ensures Spacing(RemoveAt(hs, i)[..k]) == Spacing(hs[..k])
  {
    assert RemoveAt(hs, i)[..k] == hs[..k];
  }

  /**
   * A tidbit after dropped height `i`, moved up by that height plus 4, is
   * where the shorter list of heights places it.
   */
  lemma SpacingShift(hs: seq<int>, i: nat, k: nat, at: Point, c: Size, was: Point)
    requires i <= k < |hs| - 1
    requires was == Locate(at, Some(c), Spacing(hs[..k + 1]))
    ensures Point(was.x, was.y - (4 + hs[i])) == Locate(at, Some(c), Spacing(RemoveAt(hs, i)[..k]))
  {
    SpacingRemove(hs, i, k);
    LocateOffset(at, c, Spacing(RemoveAt(hs, i)[..k]), 4 + hs[i]);
  }

  /** Detaching position `i` and closing its gap keeps a stack a stack. */
  lemma DetachKeepsStack(h: Hud, hs: seq<int>, i: nat, dy: int, at: Point, c: Size)
    requires Linked(h) && Distinct(h.registry) && i < |h.registry|
    requires hs == Heights(h.tidbits, h.registry) && dy == 4 + hs[i]
    requires Stacked(h, at, Some(c))
    ensures Stacked(Detach(h, i, dy), at, Some(c))
  {
    var d := Detach(h, i, dy);
    DetachHeights(h, i, dy);
    forall k {:trigger T.Location(d.tidbits[d.registry[k]])} | 0 <= k < |d.registry|
      ensures T.Location(d.tidbits[d.registry[k]]) == Locate(at, Some(c), Spacing(Heights(d.tidbits, d.registry)[..k]))
    {
      DetachStackAt(h, hs, i, dy, at, c, k);
    }
  }

  /** Whether the registry is a stack depends on the tidbits and the registry only. */
  lemma StackedTransfer(d: Hud, r: Hud, at: Point, cursor: Option<Size>)
    requires r.tidbits == d.tidbits && r.registry == d.registry
    requires Stacked(d, at, cursor)
    ensures Stacked(r, at, cursor)
  {
  }

  /**
   * Unregistering closes the gap exactly: with a cursor, the rest of a stack
   * is again a stack at the same place.
   */
  lemma UnregisterKeepsStack(h: Hud, id: Id, at: Point, c: Size)
    requires Linked(h) && Distinct(h.registry)
    requires Stacked(h, at, Some(c))
    ensures Stacked(Unregister(h, id), at, Some(c))
  {
    if id in h.registry {
      var i := IndexOf(h.registry, id).value;
      var hs := Heights(h.tidbits, h.registry);
      var dy := 4 + Height(h.tidbits[id]);
      assert h.registry[i] == id;
      DetachKeepsStack(h, hs, i, dy, at, c);
      StackedTransfer(Detach(h, i, dy), UnbindIfEmpty(Detach(h, i, dy)), at, Some(c));
    }
  }

  /**
   * As written, unregistering the first of three stacked tidbits of heights
   * 20, 30 and 40 leaves the other two at offsets 4 and 38, where a fresh
   * layout would put them at 0 and 34: a 4-pixel gap opens at the top.
   */
  lemma UnregisterAsWrittenOpensGap(container: ContainerInfo, c: HC.Component)
    requires c.surface.None?
    ensures
      var h := Sample(container, c);
      && Stacked(h, Point(0, 0), Some(Size(0, 0)))
      && T.Location(UnregisterAsWritten(h, 0).tidbits[1]).y == 4
      && T.Location(UnregisterAsWritten(h, 0).tidbits[2]).y == 38
      && !Stacked(UnregisterAsWritten(h, 0), Point(0, 0), Some(Size(0, 0)))
  {
    var h := Sample(container, c);
    SampleStacked(container, c);
    var w := UnregisterAsWritten(h, 0);
    SampleAsWritten(container, c);
    assert Heights(w.tidbits, w.registry)[..0] == [];
    LocateOrigin(0);
  }

  /** Where the as-written unregistering leaves the sample's other two tidbits. */
  lemma SampleAsWritten(container: ContainerInfo, c: HC.Component)
    requires c.surface.None?
    ensures
      var w := UnregisterAsWritten(Sample(container, c), 0);
      && w.registry == [1, 2]
      && T.Location(w.tidbits[1]) == Point(0, 4)
      && T.Location(w.tidbits[2]) == Point(0, 38)
  {
    var h := Sample(container, c);
    assert IndexOf(h.registry, 0) == Some(0);
    DetachAfter(h, 0, 20, 1);
    DetachAfter(h, 0, 20, 2);
  }

  /** The corrected `Unregister` on the same sample leaves 0 and 34: a stack again. */
  lemma UnregisterClosesGap(container: ContainerInfo, c: HC.Component)
    requires c.surface.None?
    ensures
      var h := Sample(container, c);
      && T.Location(Unregister(h, 0).tidbits[1]).y == 0
      && T.Location(Unregister(h, 0).tidbits[2]).y == 34
      && Stacked(Unregister(h, 0), Point(0, 0), Some(Size(0, 0)))
  {
    SampleStacked(container, c);
    SampleUnregistered(container, c);
    SampleDistinct();
    UnregisterKeepsStack(Sample(container, c), 0, Point(0, 0), Size(0, 0));
  }

  /** Where the corrected unregistering leaves the sample's other two tidbits. */
  lemma SampleUnregistered(container: ContainerInfo, c: HC.Component)
    requires c.surface.None?
    ensures
      var u := Unregister(Sample(container, c), 0);
      && T.Location(u.tidbits[1]) == Point(0, 0)
      && T.Location(u.tidbits[2]) == Point(0, 34)
  {
    var h := Sample(container, c);
    assert IndexOf(h.registry, 0) == Some(0);
    DetachAfter(h, 0, 24, 1);
    DetachAfter(h, 0, 24, 2);
  }

  /** The sample registry has no repeats. */
  lemma SampleDistinct()
    ensures Distinct<Id>([0, 1, 2])
  {
    var s: seq<Id> := [0, 1, 2];
    assert s[1..] == [1, 2] && s[1..][1..] == [2] && s[1..][1..][1..] == [];
  }

  /** The sample is a stack at the origin for a cursor of size zero. */
  lemma SampleStacked(container: ContainerInfo, c: HC.Component)
    requires c.surface.None?
    ensures Stacked(Sample(container, c), Point(0, 0), Some(Size(0, 0)))
  {
    var h := Sample(container, c);
    var hs := Heights(h.tidbits, h.registry);
    forall k {:trigger T.Location(h.tidbits[h.registry[k]])} | 0 <= k < |h.registry|
      ensures T.Location(h.tidbits[h.registry[k]]) == Locate(Point(0, 0), Some(Size(0, 0)), Spacing(hs[..k]))
    {
      var y := Spacing(hs[..k]);
      if k == 0 {
        assert hs[..0] == [];
        assert y == 0;
      } else if k == 1 {
        assert hs[..1] == [20];
        assert [20][..0] == [];
        assert y == 24;
      } else {
        assert hs[..2] == [20, 30];
        assert [20, 30][..1] == [20];
        assert [20][..0] == [];
        assert y == 58;
      }
      assert T.Location(h.tidbits[h.registry[k]]) == Point(0, y);
      LocateOrigin(y);
    }
  }

  /** With a zero-size cursor at the origin, the location is straight down by the offset. */
  lemma LocateOrigin(y: int)
    ensures Locate(Point(0, 0), Some(Size(0, 0)), y) == Point(0, y)
  {
  }

  /** A detached tidbit of the given height at the given vertical position. */
  function SampleTidbit(c: HC.Component, y: int, height: int): (t: T.Tidbit)
    requires c.surface.None?
    ensures T.Location(t) == Point(0, y) && Height(t) == height
  {
    T.Tidbit(HC.SetBounds(c, Rect(0, y, 100, height)), true, T.Information, true, None, None, false, None, None)
  }

  /** Three registered tidbits of heights 20, 30 and 40, stacked at the origin. */
  function Sample(container: ContainerInfo, c: HC.Component): (h: Hud)
    requires c.surface.None?
    ensures Linked(h) && h.registry == [0, 1, 2]
  {
    Hud(container, map[0 := SampleTidbit(c, 0, 20), 1 := SampleTidbit(c, 24, 30), 2 := SampleTidbit(c, 58, 40)], [0, 1, 2], Ledger(container, true))
  }

  // ---------------------------------------------------------------------
  // The tidbit's Visible setter, constructor and Dispose

  /** `Visible = true` on a hidden tidbit: show its wrapper, set the flag, register it at the mouse position. */
  function Show(h: Hud, id: Id, pointer: Pointer): (r: Hud)
    requires Linked(h) && id in h.tidbits
    ensures r.tidbits.Keys == h.tidbits.Keys
    ensures h.tidbits[id].visible ==> r == h
    ensures r.tidbits[id].visible
    ensures r.tidbits[id] == h.tidbits[id].(comp := r.tidbits[id].comp, visible := true)
    ensures !h.tidbits[id].visible ==> r.registry == h.registry + [id]
    ensures !h.tidbits[id].visible ==>
      T.Location(r.tidbits[id]) == Locate(pointer.at, pointer.cursor, StackOffset(h.tidbits, h.registry))
    ensures Valid(h) ==> Valid(r) && id in r.registry
  {
    var t := h.tidbits[id];
    if t.visible then h
    else
      var h1 := h.(tidbits := h.tidbits[id := T.Display(t, true)]);
      HeightsUpdate(h.tidbits, id, T.Display(t, true), h.registry);
      var r := Register(h1, id, pointer);
      if Valid(h) then
        ShowValid(h, id, pointer, h1, r);
        r
      else r
  }

  /** The proof obligation of `Show` for a valid manager. */
  lemma ShowValid(h: Hud, id: Id, pointer: Pointer, h1: Hud, r: Hud)
    requires Valid(h) && id in h.tidbits && !h.tidbits[id].visible
    requires h1 == h.(tidbits := h.tidbits[id := T.Display(h.tidbits[id], true)])
    requires r == Register(h1, id, pointer)
    ensures Valid(r) && id in r.registry
  {
    DistinctAppend(h.registry, id);
  }

  /**
   * `Visible = false` on a visible tidbit: hide its wrapper, clear the flag,
   * and unregister it as the program does (the height-only shift, and the
   * `+=` unbind when the registry empties).
   */
  function Hide(h: Hud, id: Id): (r: Hud)
    requires Linked(h) && id in h.tidbits
    ensures r.tidbits.Keys == h.tidbits.Keys
    ensures !h.tidbits[id].visible ==> r == h
    ensures !r.tidbits[id].visible
    ensures Valid(h) ==> Valid(r) && id !in r.registry
  {
    var t := h.tidbits[id];
    if !t.visible then h
    else
      var h1 := h.(tidbits := h.tidbits[id := T.Display(t, false)]);
      var r := UnregisterAsWritten(h1, id);
      if Valid(h) then
        HideValid(h, id, h1, r);
        r
      else r
  }

  /** The proof obligation of `Hide` for a valid manager. */
  lemma HideValid(h: Hud, id: Id, h1: Hud, r: Hud)
    requires Valid(h) && id in h.tidbits && h.tidbits[id].visible
    requires h1 == h.(tidbits := h.tidbits[id := T.Display(h.tidbits[id], false)])
    requires r == UnregisterAsWritten(h1, id)
    ensures Valid(r) && id !in r.registry && !r.tidbits[id].visible
  {
    var i := IndexOf(h1.registry, id).value;
    var dy := Height(h1.tidbits[id]);
    assert r.tidbits == Detach(h1, i, dy).tidbits && r.registry == Detach(h1, i, dy).registry;
    HideRegistry(h, id, h1, i, dy);
    HideVisibility(h, id, h1, i, dy);
    HideCoherent(h, id, h1, i, dy);
    HideLedger(h, id, h1, r);
  }

  /** Detaching the hidden tidbit's entry removes exactly it from the registry. */
  lemma HideRegistry(h: Hud, id: Id, h1: Hud, i: nat, dy: int)
    requires Valid(h) && id in h.tidbits && h.tidbits[id].visible
    requires h1 == h.(tidbits := h.tidbits[id := T.Display(h.tidbits[id], false)])
    requires i < |h1.registry| && h1.registry[i] == id
    ensures var d := Detach(h1, i, dy);
      && Distinct(d.registry) && id !in d.registry
      && forall j :: j != id ==> (j in d.registry <==> j in h.registry)
  {
    RemoveAtDistinct(h1.registry, i);
  }

  /** Detaching the hidden tidbit's entry keeps every tidbit's visibility but the hidden one's. */
  lemma HideVisibility(h: Hud, id: Id, h1: Hud, i: nat, dy: int)
    requires Valid(h) && id in h.tidbits && h.tidbits[id].visible
    requires h1 == h.(tidbits := h.tidbits[id := T.Display(h.tidbits[id], false)])
    requires i < |h1.registry|
    ensures var d := Detach(h1, i, dy);
      && d.tidbits.Keys == h.tidbits.Keys
      && forall j :: j in d.tidbits ==> d.tidbits[j].visible == (j != id && h.tidbits[j].visible)
  {
    DetachKeeps(h1, i, dy);
  }

  /** Detaching the hidden tidbit's entry keeps every tidbit coherent. */
  lemma HideCoherent(h: Hud, id: Id, h1: Hud, i: nat, dy: int)
    requires Valid(h) && id in h.tidbits && h.tidbits[id].visible
    requires h1 == h.(tidbits := h.tidbits[id := T.Display(h.tidbits[id], false)])
    requires i < |h1.registry|
    ensures forall j :: j in Detach(h1, i, dy).tidbits ==> T.Coherent(Detach(h1, i, dy).tidbits[j])
  {
    DetachKeeps(h1, i, dy);
    assert T.Coherent(h1.tidbits[id]);
  }

  /** Detaching keeps every tidbit's visibility and coherence. */
  lemma DetachKeeps(h: Hud, i: nat, dy: int)
    requires Linked(h) && i < |h.registry|
    ensures forall j :: j in h.tidbits ==> Detach(h, i, dy).tidbits[j].visible == h.tidbits[j].visible
    ensures forall j :: j in h.tidbits && T.Coherent(h.tidbits[j]) ==> T.Coherent(Detach(h, i, dy).tidbits[j])
  {
    PlaceKeeps(h.tidbits, Shifted(h.tidbits, h.registry[i + 1..], dy));
  }

  /**
   * As written, hiding the last registered tidbit releases the lock but
   * subscribes the move handler once more on a provider; otherwise the
   * ledger stays.
   */
  lemma HideLedger(h: Hud, id: Id, h1: Hud, r: Hud)
    requires Valid(h) && id in h.tidbits && h.tidbits[id].visible
    requires h1 == h.(tidbits := h.tidbits[id := T.Display(h.tidbits[id], false)])
    requires r == UnregisterAsWritten(h1, id)
    ensures r.mouse.requests == (if |r.registry| > 0 then 1 else 0)
    ensures r.mouse.handlers ==
      h.mouse.handlers + (if |r.registry| == 0 && h.container.mouseIsProvider then multiset{TidbitMouseMove} else multiset{})
  {
    assert id in h1.registry;
  }

  /** `Visible = false` as intended: the same, with the intended unregistration. */
  function HideIntended(h: Hud, id: Id): (r: Hud)
    requires Linked(h) && id in h.tidbits
    ensures r.tidbits.Keys == h.tidbits.Keys
    ensures !h.tidbits[id].visible ==> r == h
    ensures !r.tidbits[id].visible
    ensures Balanced(h) ==> Balanced(r) && id !in r.registry
  {
    var t := h.tidbits[id];
    if !t.visible then h
    else
      var h1 := h.(tidbits := h.tidbits[id := T.Display(t, false)]);
      var r := Unregister(h1, id);
      if Balanced(h) then
        HideIntendedValid(h, id, h1, r);
        HideIntendedLedger(h, id, h1, r);
        r
      else r
  }

  /** The intended unregistration of a hidden tidbit keeps the manager valid. */
  lemma HideIntendedValid(h: Hud, id: Id, h1: Hud, r: Hud)
    requires Valid(h) && id in h.tidbits && h.tidbits[id].visible
    requires h1 == h.(tidbits := h.tidbits[id := T.Display(h.tidbits[id], false)])
    requires r == Unregister(h1, id)
    ensures Valid(r) && id !in r.registry && !r.tidbits[id].visible
  {
    var i := IndexOf(h1.registry, id).value;
    var dy := 4 + Height(h1.tidbits[id]);
    assert r.tidbits == Detach(h1, i, dy).tidbits && r.registry == Detach(h1, i, dy).registry;
    HideRegistry(h, id, h1, i, dy);
    HideVisibility(h, id, h1, i, dy);
    HideCoherent(h, id, h1, i, dy);
  }

  /** As intended, hiding the last registered tidbit leaves the idle ledger; otherwise the ledger stays. */
  lemma HideIntendedLedger(h: Hud, id: Id, h1: Hud, r: Hud)
    requires Balanced(h) && id in h.tidbits && h.tidbits[id].visible
    requires h1 == h.(tidbits := h.tidbits[id := T.Display(h.tidbits[id], false)])
    requires r == Unregister(h1, id)
    ensures r.mouse == Ledger(r.container, |r.registry| > 0)
  {
    if |h.registry| == 1 {
      var hs := if h.container.mouseIsProvider then multiset{TidbitMouseMove} else multiset{};
      assert h.mouse.handlers - hs == multiset{};
    }
  }

  /** The `Visible` setter: nothing happens when the value does not change. */
  function SetVisible(h: Hud, id: Id, v: bool, pointer: Pointer): (r: Hud)
    requires Linked(h) && id in h.tidbits
    ensures r.tidbits.Keys == h.tidbits.Keys
    ensures h.tidbits[id].visible == v ==> r == h
    ensures r.tidbits[id].visible == v
    ensures Valid(h) ==> Valid(r) && (id in r.registry <==> v)
  {
    if v then Show(h, id, pointer) else Hide(h, id)
  }

  /**
   * The tidbit constructor: build the component (hidden, since the
   * overridden getter answers false), create the rendering objects (`loaded`
   * is the status icon's pixel size), then `Visible = true`.
   */
  function Create(h: Hud, id: Id, pointer: Pointer, loaded: Size): (r: Result<Hud>)
    requires Linked(h) && id !in h.tidbits
    ensures r.Ok? <==> h.container.kind == Desktop
    ensures r.Throws? ==> r.error == NotImplemented
    ensures r.Ok? ==> id in r.value.tidbits && r.value.registry == h.registry + [id]
    ensures r.Ok? ==> T.Location(r.value.tidbits[id]) == Locate(pointer.at, pointer.cursor, StackOffset(h.tidbits, h.registry))
    ensures r.Ok? ==> r.value.tidbits[id].status == T.Information && r.value.tidbits[id].icon == Some(T.Icon(T.Builtin(T.TidbitInfo), loaded))
    ensures r.Ok? && Valid(h) ==> Valid(r.value)
  {
    match HC.Construct(h.container, true, false)
    case Throws(e) => Throws(e)
    case Ok(c) =>
      var t := T.Initialize(T.Fresh(c), loaded);
      CreatedTidbit(h.container, loaded);
      var h1 := h.(tidbits := h.tidbits[id := t]);
      HeightsUpdate(h.tidbits, id, t, h.registry);
      if Valid(h) then
        AddHiddenValid(h, id, t);
        Ok(Show(h1, id, pointer))
      else Ok(Show(h1, id, pointer))
  }

  /** A newly built tidbit is hidden, coherent, informational and shows the information icon. */
  lemma CreatedTidbit(container: ContainerInfo, loaded: Size)
    requires container.kind == Desktop
    ensures
      var t := T.Initialize(T.Fresh(HC.Construct(container, true, false).value), loaded);
      && !t.visible && T.Coherent(t)
      && t.status == T.Information && t.icon == Some(T.Icon(T.Builtin(T.TidbitInfo), loaded))
  {
  }

  /** Adding a hidden, coherent tidbit object keeps the manager valid. */
  lemma AddHiddenValid(h: Hud, id: Id, t: T.Tidbit)
    requires Valid(h) && id !in h.tidbits && !t.visible && T.Coherent(t)
    ensures Valid(h.(tidbits := h.tidbits[id := t]))
  {
    assert id !in h.registry;
  }

  /** `Dispose`: `Visible = false` (which unregisters, as written), then release everything. */
  function Dispose(h: Hud, id: Id): (r: Hud)
    requires Linked(h) && id in h.tidbits
    ensures r.tidbits.Keys == h.tidbits.Keys
    ensures Valid(h) ==> Valid(r) && id !in r.registry
    ensures !r.tidbits[id].visible && r.tidbits[id].comp.disposed
  {
    var hidden := Hide(h, id);
    hidden.(tidbits := hidden.tidbits[id := T.Release(hidden.tidbits[id])])
  }

  /** Disposing twice is the same as once. */
  lemma DisposeIdempotent(h: Hud, id: Id)
    requires Valid(h) && id in h.tidbits
    ensures Dispose(Dispose(h, id), id) == Dispose(h, id)
  {
    var once := Dispose(h, id);
    T.ReleaseIdempotent(Hide(h, id).tidbits[id]);
    assert once.tidbits[id := T.Release(once.tidbits[id])] == once.tidbits;
  }

  /** `Dispose` as intended: `HideIntended`, then release everything. */
  function DisposeIntended(h: Hud, id: Id): (r: Hud)
    requires Linked(h) && id in h.tidbits
    ensures r.tidbits.Keys == h.tidbits.Keys
    ensures Balanced(h) ==> Balanced(r) && id !in r.registry
    ensures !r.tidbits[id].visible && r.tidbits[id].comp.disposed
  {
    var hidden := HideIntended(h, id);
    hidden.(tidbits := hidden.tidbits[id := T.Release(hidden.tidbits[id])])
  }

  /**
   * As intended, the hook ledger balances: from a fresh container, creating
   * a tidbit and disposing it leaves the ledger idle.
   */
  lemma CreateDisposeBalanced(container: ContainerInfo, id: Id, pointer: Pointer, loaded: Size)
    requires container.kind == Desktop
    ensures Create(NewHud(container), id, pointer, loaded).Ok?
    ensures DisposeIntended(Create(NewHud(container), id, pointer, loaded).value, id).mouse == Idle
  {
  }

  /**
   * As written, the same life cycle on a provider hook releases the lock but
   * leaves the move handler subscribed twice.
   */
  lemma CreateDisposeAsWrittenLeaks(container: ContainerInfo, id: Id, pointer: Pointer, loaded: Size)
    requires container.kind == Desktop && container.mouseIsProvider
    ensures Create(NewHud(container), id, pointer, loaded).Ok?
    ensures var r := Dispose(Create(NewHud(container), id, pointer, loaded).value, id);
      r.mouse.requests == 0 && r.mouse.handlers[TidbitMouseMove] == 2
  {
    var h := Create(NewHud(container), id, pointer, loaded).value;
    assert h.registry == [id];
    assert IndexOf(h.registry, id) == Some(0);
  }
}
