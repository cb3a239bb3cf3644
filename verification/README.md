# Captain HUD overlay: a Dafny model of its interaction core

Captain's HUD is a set of overlay components drawn over the Windows desktop:

- the **Clipper**, the region selector;
- the **Toolbar**, the recording bar with its controls;
- the **tidbits**, the small tooltips that follow the mouse pointer.

Each component is a `HudComponent` backed by a borderless `HudCommonWrapperWindow`. The components share the system-wide mouse and keyboard hooks by asking a hook behaviour for a lock and subscribing handlers to its events.

This project models the state machines of these components as pure functions over immutable records, one Dafny module per source component:

| module | models |
|---|---|
| `Geometry` | points, sizes, `Rectangle.Inflate`, and C#'s truncating division |
| `Hooks` | one component's ledger with a hook behaviour: net lock requests, plus the multiset of subscribed handlers |
| `Container` | the container information: its type, whether each hook is a provider, and the virtual screen |
| `WrapperWindow` | the common wrapper window: its extended style, the WM_NCHITTEST resize regions and the WM_WINDOWPOSCHANGING filter |
| `HudComponent` | the component base: bounds and visibility read through to the wrapper or cached, construction per container type, disposal |
| `FormatHelper` | `DirectWriteFormatHelper.CreateFormatter`: leftmost-match stripping of `__italic__` and `**bold**` markup, with the style ranges |
| `Tidbit` | one tooltip: icon, accent brush, text layout, location and the resources it releases |
| `TidbitManager` | the tooltip registry, its stacking layout, the mouse-hook binding, and the tidbit's `Visible` / constructor / `Dispose`, which drive the manager |
| `ToolbarControl` | buttons (with lazily built geometry), images and text: hit tests, tooltip refresh, brush choice, disposal |
| `Toolbar` | the toolbar: the grip-opacity `Locked` flag, construction and disposal, gravity layout, Z-ordered hit testing, hover/press/release, and the primary button's state |
| `ToolbarWindow` | the toolbar's wrapper window: the caption hit test that makes an unlocked toolbar draggable |
| `ColorExtensions` | `ToYiq` and the primary button's decision to invert its bitmap |
| `Clipper` | the region selector: area and padding, layout, lock and unlock, the hooked mouse and keyboard handlers, the tooltip policy, and the attached toolbar's placement |

Exceptions become a `Result` (`Wrappers.Exception` names the exception type). Everything the code asks of the operating system is passed in as a parameter:

- the mouse position and the current cursor size;
- `WindowFromPoint` and `GetWindowBounds`;
- text measurement;
- bitmap sizes.

## Model

| member | source | states |
|---|---|---|
| `Geometry.Div` | UI/Hud/Clipper/Clipper.cs:99-105 | the quotient is truncated toward zero, with the remainder bounds of that rounding for either sign of the dividend |
| `Geometry.DivNegate` | UI/Hud/Clipper/Clipper.cs:99-105 | truncating division commutes with negation, so the area getter's `(-l - r) / 2` is exactly minus the setter's `(l + r) / 2` |
| `Geometry.InflateInverse` | UI/Hud/Clipper/Clipper.cs:98-107 | deflating by the amounts of an inflation restores the rectangle |
| `Lists.IndexOf` | UI/Hud/Tidbit/TidbitManager.cs:44-45 | the index found holds the element and no earlier index does; no index is found exactly when the element is absent |
| `Lists.RemoveAt` | UI/Hud/Tidbit/TidbitManager.cs:51 | one element shorter; elements before the index are kept and later ones shift down by one |
| `Lists.RemoveAtDistinct` | UI/Hud/Tidbit/TidbitManager.cs:51 | removing from a list without repeats removes exactly that element and keeps the others |
| `WrapperWindow.NewSurface` | UI/Hud/DesktopWrapper/HudCommonWrapperWindow.cs:25-46 | a new wrapper has the owner's bounds and visibility, lets the mouse through (WS_EX_TRANSPARENT is set) and is resizable |
| `WrapperWindow.SetPassThrough` | UI/Hud/DesktopWrapper/HudCommonWrapperWindow.cs:51-72 | `PassThrough` then reads the value written; every other style bit and every other window field is unchanged |
| `WrapperWindow.PassThroughRoundTrip` | UI/Hud/DesktopWrapper/HudCommonWrapperWindow.cs:51-72 | read-after-write gives the value written, and the later of two writes wins |
| `WrapperWindow.NcHitTest` | UI/Hud/DesktopWrapper/HudCommonWrapperWindow.cs:118-153 | a window that is not resizable keeps the default answer; a resizable one answers one of the nine resize or caption codes |
| `WrapperWindow.Classify` | UI/Hud/DesktopWrapper/HudCommonWrapperWindow.cs:122-151 | each of the nine answers as an if-and-only-if over the point: four corner squares of side 24, the four edge bands between them, and the caption region inside |
| `WrapperWindow.WindowPosChanging` | UI/Hud/DesktopWrapper/HudCommonWrapperWindow.cs:164-177 | a change without SWP_NOACTIVATE gains NOMOVE and NOSIZE and keeps every other flag; a change with it passes through unchanged |
| `HudComponent.Construct` | UI/Hud/HudComponent.cs:100-144 | Direct3D11 throws NotImplemented; a wrapper that does not derive from the common wrapper throws InvalidOperation; otherwise the component is consistent, live and hidden off-screen, with the visibility it had before the wrapper existed |
| `HudComponent.Detached` | UI/Hud/HudComponent.cs:21-26 | without a wrapper, the cached defaults are read: hidden bounds, visible |
| `HudComponent.SetBounds` | UI/Hud/HudComponent.cs:75-84 | `Bounds` then reads the value written, with or without a wrapper; visibility is unchanged; the render target follows the wrapper's size |
| `HudComponent.SetVisible` | UI/Hud/HudComponent.cs:41-50 | `Visible` then reads the value written; the bounds are unchanged |
| `HudComponent.WrapperMoved` | UI/Hud/HudComponent.cs:124-127 | a direct move of the wrapper changes the bounds read through it and the render target, but not the cache |
| `HudComponent.SetPassThrough` | UI/Hud/DesktopWrapper/HudCommonWrapperWindow.cs:57-71 | with a wrapper, `PassThrough` reads the value written; bounds, visibility and consistency are kept |
| `HudComponent.SetMinimumSize` | UI/Hud/Clipper/Clipper.cs:447-448 | with a wrapper, its minimum size is the one written; bounds, visibility and consistency are kept |
| `HudComponent.SetResizable` | UI/Hud/DesktopWrapper/HudCommonWrapperWindow.cs:82 | with a wrapper, `Resizable` is the value written; bounds, visibility and consistency are kept |
| `HudComponent.RenderLoop` | UI/Hud/HudComponent.cs:149-154 | a paint succeeds exactly when a render target exists; it is BeginDraw, one Render, then EndDraw; with no target it throws NullReference |
| `HudComponent.LiveComponentRenders` | UI/Hud/HudComponent.cs:149-154 | a consistent component with a wrapper can always paint |
| `HudComponent.Release` | UI/Hud/HudComponent.cs:165-179 | wrapper, render target and factory are all gone, the disposed flag is set, and the cached bounds and visibility remain |
| `HudComponent.Dispose` | UI/Hud/HudComponent.cs:160-180 | the component ends disposed, consistent and invisible; `Bounds` falls back to the cache; a later paint throws NullReference |
| `HudComponent.DisposeIdempotent` | UI/Hud/HudComponent.cs:160-180 | disposing twice is the same as disposing once |
| `HudComponent.BoundsRoundTrip` | UI/Hud/HudComponent.cs:75-84 | `Bounds` read-after-write, and the later of two writes wins |
| `HudComponent.VisibleRoundTrip` | UI/Hud/HudComponent.cs:41-50 | `Visible` read-after-write, and the later of two writes wins |
| `HudComponent.StaleCacheAfterDispose` | UI/Hud/HudComponent.cs:75-84 | after a direct move and a disposal, `Bounds` reports the last value set through the property, not where the window was |
| `FormatHelper.CloseFrom` | UI/Helper/DirectWriteFormatHelper.cs:11-12 | the lazy `(.*?)\k<1>` scan finds the nearest closing delimiter on the same line, or proves there is none |
| `FormatHelper.MatchAt` | UI/Helper/DirectWriteFormatHelper.cs:11-12 | a match is found at a position exactly when the pattern matches there |
| `FormatHelper.FindFrom` | UI/Helper/DirectWriteFormatHelper.cs:25 | the match returned is the leftmost one; none is returned only when the pattern matches nowhere |
| `FormatHelper.Find` | UI/Helper/DirectWriteFormatHelper.cs:25 | `Regex.Match`: leftmost match, and no match exactly when the pattern matches nowhere |
| `FormatHelper.Replace` | UI/Helper/DirectWriteFormatHelper.cs:27-29 | the text loses exactly the four delimiter characters: the prefix, the inner text and the suffix are kept in place |
| `FormatHelper.Strip` | UI/Helper/DirectWriteFormatHelper.cs:25-41 | the result has no markup left; four characters are removed per recorded range; each range lies within the text it was recorded in |
| `FormatHelper.RangesPartition` | UI/Helper/DirectWriteFormatHelper.cs:31-38 | every removed pair lands in exactly one of the bold and italic lists |
| `FormatHelper.StripNoMatch` | UI/Helper/DirectWriteFormatHelper.cs:25-26 | text without markup comes back unchanged, with no ranges |
| `FormatHelper.StripIdempotent` | UI/Helper/DirectWriteFormatHelper.cs:25-41 | stripping the plain text again changes nothing |
| `FormatHelper.StripStep` | UI/Helper/DirectWriteFormatHelper.cs:26-41 | one loop iteration keeps the loop's relation to the whole strip: the leftmost pair is removed and recorded first |
| `FormatHelper.CreateFormatter` | UI/Helper/DirectWriteFormatHelper.cs:21-47 | the loop returns the plain text and the bold and italic ranges in removal order; the plain text has no markup; markup-free input is returned as it was |
| `Tidbit.SetLocation` | UI/Hud/Tidbit/Tidbit.cs:117-120 | the location is the point written; the size and everything but the bounds are kept |
| `Tidbit.LocationRoundTrip` | UI/Hud/Tidbit/Tidbit.cs:117-120 | `Location` read-after-write, and the later of two writes wins |
| `Tidbit.Display` | UI/Hud/Tidbit/Tidbit.cs:81-97 | the tidbit's own flag and its wrapper both take the new visibility; the bounds are kept |
| `Tidbit.LeftBorderWidth` | UI/Hud/Tidbit/Tidbit.cs:102 | 0 for an accent with zero alpha, otherwise 2; with no brush it throws NullReference |
| `Tidbit.IconSize` | UI/Hud/Tidbit/Tidbit.cs:107 | the icon's size when icons are shown and one exists, otherwise empty |
| `Tidbit.ResourceForInjective` | UI/Hud/Tidbit/Tidbit.cs:309-322 | each status has its own icon |
| `Tidbit.RefreshIcon` | UI/Hud/Tidbit/Tidbit.cs:307-324 | the status icon is loaded only with icons on, a live render target and no icon yet; otherwise nothing changes |
| `Tidbit.RefreshAccentBrush` | UI/Hud/Tidbit/Tidbit.cs:329-346 | with a live target and no brush, the status brush is opaque; an existing brush is kept |
| `Tidbit.RefreshAccentBrushIdempotent` | UI/Hud/Tidbit/Tidbit.cs:329-346 | refreshing the accent brush twice is refreshing it once |
| `Tidbit.RefreshTextLayout` | UI/Hud/Tidbit/Tidbit.cs:282-302 | without text resources nothing happens; null content throws ArgumentNull and a missing brush throws NullReference; otherwise the layout is the stripped content and the box is resized around it |
| `Tidbit.CoherentTextLayout` | UI/Hud/Tidbit/Tidbit.cs:282-302 | a consistent tidbit with content always lays out, and its box is at least four paddings wide and two high |
| `Tidbit.SetContent` | UI/Hud/Tidbit/Tidbit.cs:164-170 | the content is stored; with live text resources the layout shows it without markup |
| `Tidbit.SetShowIcon` | UI/Hud/Tidbit/Tidbit.cs:130-137 | the flag is stored; turning icons off shrinks the width to the text plus paddings and border |
| `Tidbit.ShowIconToggle` | UI/Hud/Tidbit/Tidbit.cs:130-137 | turning icons off and on again keeps the icon and widens the box by exactly its width |
| `Tidbit.SetCustomAccent` | UI/Hud/Tidbit/Tidbit.cs:153-159 | no live render target throws; otherwise the brush has the new alpha, and the left border disappears exactly for a transparent accent |
| `Tidbit.CustomAccentSurvivesRefresh` | UI/Hud/Tidbit/Tidbit.cs:153-159 | a custom accent is not replaced by a later refresh of the accent brush |
| `Tidbit.SetCustomIcon` | UI/Hud/Tidbit/Tidbit.cs:142-148 | a bitmap needs the render target: without one the conversion throws NullReference, and that is the only throw; otherwise a bitmap replaces the icon, clearing it brings the status icon back, and the size is not refreshed |
| `Tidbit.ClearCustomIconRestoresStatus` | UI/Hud/Tidbit/Tidbit.cs:142-148 | setting a custom icon succeeds exactly with a live render target, and clearing it again leaves the icon the status alone would give |
| `Tidbit.Fresh` | UI/Hud/Tidbit/Tidbit.cs:178-179 | a tidbit under construction is hidden, informational, shows icons, and has no content, icon, brush or text resources |
| `Tidbit.Initialize` | UI/Hud/Tidbit/Tidbit.cs:224-245 | text resources exist; a live target gets the opaque status brush and the status icon; the result is consistent |
| `Tidbit.Release` | UI/Hud/Tidbit/Tidbit.cs:251-277 | every brush, bitmap and text resource is released and the component is disposed; the tidbit stays consistent |
| `Tidbit.ReleaseIdempotent` | UI/Hud/Tidbit/Tidbit.cs:251-277 | releasing twice is the same as once |
| `TidbitManager.NewHud` | UI/Hud/Tidbit/TidbitManager.cs:26-27 | a new manager is valid and balanced, with an empty registry and an idle ledger |
| `TidbitManager.LocateOffset` | UI/Hud/Tidbit/TidbitManager.cs:101-103 | with a cursor, the offset moves the location straight down by exactly that much |
| `TidbitManager.NullCursorDropsOffset` | UI/Hud/Tidbit/TidbitManager.cs:101-103 | with no cursor, `?? 0` swallows the offset and every tidbit lands on the pointer |
| `TidbitManager.Bind` | UI/Hud/Tidbit/TidbitManager.cs:59-64 | one lock request more; the move handler is subscribed once when the hook is a provider |
| `TidbitManager.Unbind` | UI/Hud/Tidbit/TidbitManager.cs:69-75 | the intended unbinding: one request less, and the move handler unsubscribed |
| `TidbitManager.UnbindAsWritten` | UI/Hud/Tidbit/TidbitManager.cs:69-75 | the unbinding as written: one request less, but the move handler subscribed again |
| `TidbitManager.BindUnbindBalanced` | UI/Hud/Tidbit/TidbitManager.cs:59-75 | binding then unbinding restores the ledger |
| `TidbitManager.BindUnbindAsWrittenLeaks` | UI/Hud/Tidbit/TidbitManager.cs:69-75 | as written, each bind/unbind cycle on a provider leaves two more subscriptions of the move handler |
| `TidbitManager.Register` | UI/Hud/Tidbit/TidbitManager.cs:33-37 | the tidbit is appended and placed below the registered ones (their heights plus 4 each); the first registration binds; no other tidbit changes |
| `TidbitManager.Shifted` | UI/Hud/Tidbit/TidbitManager.cs:48-50 | each later tidbit's new location is its old one moved up by the given amount |
| `TidbitManager.Detach` | UI/Hud/Tidbit/TidbitManager.cs:48-51 | the registry loses that position; the later tidbits are moved up |
| `TidbitManager.DetachBefore` | UI/Hud/Tidbit/TidbitManager.cs:48-50 | tidbits before the removed one do not move |
| `TidbitManager.DetachAfter` | UI/Hud/Tidbit/TidbitManager.cs:48-50 | tidbits after the removed one move up by exactly the shift |
| `TidbitManager.Unregister` | UI/Hud/Tidbit/TidbitManager.cs:43-54 | the intended unregistration (shift by height plus 4, `-=` unbind): an unregistered tidbit is ignored; otherwise exactly its entry leaves the registry, the later tidbits are detached upwards by its height plus the 4-pixel spacing, and the last unregistration unbinds |
| `TidbitManager.UnbindIfEmpty` | UI/Hud/Tidbit/TidbitManager.cs:53 | unbinds exactly when the registry is empty; nothing else changes |
| `TidbitManager.UnregisterAsWritten` | UI/Hud/Tidbit/TidbitManager.cs:43-54 | the unregistration as written: an unregistered tidbit is ignored; otherwise exactly its entry leaves the registry, and the last unregistration runs the `+=` unbind |
| `TidbitManager.UnbindIfEmptyAsWritten` | UI/Hud/Tidbit/TidbitManager.cs:53 | as written, the `+=` unbind runs exactly when the registry is empty; nothing else changes |
| `TidbitManager.Move` | UI/Hud/Tidbit/TidbitManager.cs:85-92 | the registry and ledger are unchanged; each registered tidbit is placed by the running offset; validity is kept |
| `TidbitManager.LayoutPlaces` | UI/Hud/Tidbit/TidbitManager.cs:86-91 | the k-th tidbit gets the location for the spacing of the k before it |
| `TidbitManager.MoveStacks` | UI/Hud/Tidbit/TidbitManager.cs:85-92 | after a hooked move the registry forms a stack below the pointer |
| `TidbitManager.MoveTwice` | UI/Hud/Tidbit/TidbitManager.cs:85-92 | relaying twice for one event (a doubly subscribed handler) leaves the tidbits where one relay put them |
| `TidbitManager.RegisterExtendsStack` | UI/Hud/Tidbit/TidbitManager.cs:35 | registering at the pointer a stack was laid out for extends that stack: the registration offset agrees with the move offset |
| `TidbitManager.DetachKeepsStack` | UI/Hud/Tidbit/TidbitManager.cs:48-51 | removing one tidbit and moving the later ones up by its height plus 4 keeps a stack a stack |
| `TidbitManager.UnregisterKeepsStack` | UI/Hud/Tidbit/TidbitManager.cs:43-54 | the intended unregistration closes the gap exactly: the rest of a stack is again a stack at the same place |
| `TidbitManager.UnregisterAsWrittenOpensGap` | UI/Hud/Tidbit/TidbitManager.cs:48-50 | as written, removing the first of three stacked tidbits (heights 20, 30, 40) leaves the others at 4 and 38: no longer a stack |
| `TidbitManager.UnregisterClosesGap` | UI/Hud/Tidbit/TidbitManager.cs:43-54 | on the same sample, the intended unregistration leaves 0 and 34: a stack |
| `TidbitManager.Show` | UI/Hud/Tidbit/Tidbit.cs:84-91 | showing a hidden tidbit makes it visible and registers it below the others; showing a visible one changes nothing; validity is kept |
| `TidbitManager.ShowValid` | UI/Hud/Tidbit/Tidbit.cs:84-91 | registering a newly displayed tidbit keeps the manager valid and registers it |
| `TidbitManager.Hide` | UI/Hud/Tidbit/Tidbit.cs:84-94 | as written (height-only shift, `+=` unbind): hiding a visible tidbit hides it and unregisters it; hiding a hidden one changes nothing; the program's invariant (registered exactly when visible, lock held exactly while the registry is non-empty) is kept |
| `TidbitManager.HideValid` | UI/Hud/Tidbit/Tidbit.cs:84-94 | unregistering a newly hidden tidbit as written keeps the program's invariant and removes the tidbit |
| `TidbitManager.HideRegistry` | UI/Hud/Tidbit/TidbitManager.cs:48-51 | detaching the hidden tidbit's entry, whatever the shift, removes exactly that tidbit from the registry |
| `TidbitManager.HideVisibility` | UI/Hud/Tidbit/Tidbit.cs:84-94 | hiding changes no tidbit's visibility but the hidden one's |
| `TidbitManager.HideLedger` | UI/Hud/Tidbit/TidbitManager.cs:53 | as written, the lock is requested exactly while some tidbit is registered, but hiding the last one on a provider subscribes the move handler once more |
| `TidbitManager.HideIntended` | UI/Hud/Tidbit/Tidbit.cs:84-94 | with the intended unregistration, hiding keeps the balanced ledger as well as the invariant |
| `TidbitManager.HideIntendedValid` | UI/Hud/Tidbit/TidbitManager.cs:43-54 | the intended unregistration of a hidden tidbit keeps the program's invariant and removes the tidbit |
| `TidbitManager.HideIntendedLedger` | UI/Hud/Tidbit/TidbitManager.cs:53 | as intended, hiding the last registered tidbit leaves the idle ledger, and otherwise the ledger stays balanced |
| `TidbitManager.SetVisible` | UI/Hud/Tidbit/Tidbit.cs:81-97 | as written: writing the current value changes nothing; afterwards a tidbit is registered exactly when it is visible, and the program's invariant is kept |
| `TidbitManager.Create` | UI/Hud/Tidbit/Tidbit.cs:178-187 | Direct3D11 throws NotImplemented; on the desktop the new tidbit is informational, shows the information icon and is registered below the others |
| `TidbitManager.CreatedTidbit` | UI/Hud/Tidbit/Tidbit.cs:178-179 | a newly built tidbit is hidden, consistent, informational and shows the information icon |
| `TidbitManager.Dispose` | UI/Hud/Tidbit/Tidbit.cs:352-355 | as written: the tidbit ends hidden, unregistered and disposed, and the program's invariant is kept |
| `TidbitManager.DisposeIdempotent` | UI/Hud/Tidbit/Tidbit.cs:352-355 | disposing twice is the same as once |
| `TidbitManager.DisposeIntended` | UI/Hud/Tidbit/Tidbit.cs:352-355 | with the intended unregistration, disposal keeps the balanced ledger; the tidbit ends hidden, unregistered and disposed |
| `TidbitManager.CreateDisposeBalanced` | UI/Hud/Tidbit/TidbitManager.cs:59-75 | as intended, creating and disposing a tidbit in a fresh container leaves the hook ledger idle |
| `TidbitManager.CreateDisposeAsWrittenLeaks` | UI/Hud/Tidbit/TidbitManager.cs:69-75 | as written, the same life cycle (`Dispose` as the program runs it) on a provider releases the lock but leaves the move handler subscribed twice |
| `ToolbarControl.BuildGeometry` | UI/Hud/Toolbar/Control/ToolbarButton.cs:24-26 | a rectangle's fill contains exactly the closed box from the location to location + size; the primary button's path contains its outline moved to the location |
| `ToolbarControl.New` | UI/Hud/Toolbar/Control/ToolbarControl.cs:40-50 | a new control has Near gravity, no state flags, is enabled and has no tooltip |
| `ToolbarControl.BaseHitTestNeedsEnabled` | UI/Hud/Toolbar/Control/ToolbarControl.cs:88-93 | a disabled control never hits under the base test |
| `ToolbarControl.GeometryOf` | UI/Hud/Toolbar/Control/ToolbarButton.cs:117 | a built geometry is reused as it is |
| `ToolbarControl.RectangularButtonHitTest` | UI/Hud/Toolbar/Control/ToolbarButton.cs:151-152 | an unbuilt rectangular button hits exactly where the base test would, except that it ignores `Enabled` |
| `ToolbarControl.HitTestIgnoresEnabled` | UI/Hud/Toolbar/Control/ToolbarButton.cs:151-152 | enabling or disabling a control never changes its hit test |
| `ToolbarControl.Materialize` | UI/Hud/Toolbar/Control/ToolbarButton.cs:117 | forcing the lazy geometry builds it and changes no hit test |
| `ToolbarControl.MaterializeIdempotent` | UI/Hud/Toolbar/Control/ToolbarButton.cs:117 | the lazy value is built once |
| `ToolbarControl.GeometryFixedAfterFirstAccess` | UI/Hud/Toolbar/Control/ToolbarButton.cs:117 | once the geometry is built, moving the control does not move where it hits |
| `ToolbarControl.Refresh` | UI/Hud/Toolbar/Control/ToolbarControl.cs:98-110 | a hovered control with text ends with a live, visible tip; a live tip is visible exactly when the control is hovered; nothing but the tip changes |
| `ToolbarControl.RefreshIdempotent` | UI/Hud/Toolbar/Control/ToolbarControl.cs:98-110 | refreshing twice is the same as once |
| `ToolbarControl.BrushFor` | UI/Hud/Toolbar/Control/ToolbarButton.cs:161-169 | the active brush exactly when Active; the hover brush exactly when Hovered and not Active; otherwise the plain one |
| `ToolbarControl.Dispose` | UI/Hud/Toolbar/Control/ToolbarButton.cs:130-143 | brushes, bitmap and tip are released (the geometry is built on the way); the variant and placement are kept |
| `ToolbarControl.DisposeIdempotent` | UI/Hud/Toolbar/Control/ToolbarControl.cs:72-75 | disposing twice is the same as once |
| `Toolbar.Grip` | UI/Hud/Toolbar/Toolbar.cs:66 | a missing "grip" key throws NullReference; a grip that is not an image throws InvalidCast |
| `Toolbar.Locked` | UI/Hud/Toolbar/Toolbar.cs:65-66 | locked exactly when the grip's opacity is below one half; it throws exactly when the grip lookup does |
| `Toolbar.SetLocked` | UI/Hud/Toolbar/Toolbar.cs:67 | only the grip changes; the other controls, the keys and every other field are kept |
| `Toolbar.LockedRoundTrip` | UI/Hud/Toolbar/Toolbar.cs:65-67 | `Locked` read-after-write gives the value written (1/8 reads locked, 1/2 unlocked) |
| `Toolbar.DeclaredControls` | UI/Hud/Toolbar/Toolbar.cs:233-285 | the seven controls, one per declared key |
| `Toolbar.Create` | UI/Hud/Toolbar/Toolbar.cs:85-112 | Direct3D11 throws NotImplemented; otherwise one mouse-hook lock request, bounds (320, 320, 256, 32), unlocked, no pass-through, not resizable, next intent Start |
| `Toolbar.Dispose` | UI/Hud/Toolbar/Toolbar.cs:149-153 | one unlock request unconditionally; the controls are cleared, the component is disposed, and `Locked` then throws NullReference |
| `Toolbar.CreateDisposeBalanced` | UI/Hud/Toolbar/Toolbar.cs:97-151 | creating and disposing a toolbar leaves its lock requests balanced |
| `Toolbar.DisposeTwiceOverReleases` | UI/Hud/Toolbar/Toolbar.cs:149-153 | a second dispose releases a lock the toolbar never took |
| `Toolbar.EffectiveLocationAsWritten` | UI/Hud/Toolbar/Toolbar.cs:315-336 | as written: a Zero-gravity control is not moved, and Y and Z are kept |
| `Toolbar.EffectiveLocation` | UI/Hud/Toolbar/Toolbar.cs:315-336 | corrected: a Near control starts where the later Near controls end; a Far control ends where the later Far controls begin, counted back from the right edge |
| `Toolbar.FarControlsAbut` | UI/Hud/Toolbar/Toolbar.cs:326-332 | consecutive Far controls abut |
| `Toolbar.LastFarControlEndsAtEdge` | UI/Hud/Toolbar/Toolbar.cs:326-332 | the last Far control ends at the right edge |
| `Toolbar.NearControlsAbut` | UI/Hud/Toolbar/Toolbar.cs:319-324 | consecutive Near controls abut |
| `Toolbar.LastNearControlStartsAtEdge` | UI/Hud/Toolbar/Toolbar.cs:319-324 | the last Near control starts at the left edge |
| `Toolbar.FarLayoutCounterexample` | UI/Hud/Toolbar/Toolbar.cs:326-332 | as written, a lone Far control is placed at x = 256, outside the bar; corrected, at 224 |
| `Toolbar.DeclaredRanks` | UI/Hud/Toolbar/Toolbar.cs:358-360 | the render order of the declared controls: the primary button (Z = 64) last, the others in insertion order |
| `Toolbar.DeclaredLayout` | UI/Hud/Toolbar/Toolbar.cs:358-362 | for the declared controls both layouts agree and tile the bar: grip 0, options 16, timer 48, primary 96, then 160, 192, 224 |
| `Toolbar.Invalidate` | UI/Hud/Toolbar/Toolbar.cs:375 | the toolbar is marked for repaint exactly when it has a wrapper |
| `Toolbar.RefreshAt` | UI/Hud/Toolbar/Control/ToolbarControl.cs:98-110 | only that control's tooltip changes, and the toolbar is invalidated |
| `Toolbar.Render` | UI/Hud/Toolbar/Toolbar.cs:342-370 | as written, each control is placed by `CalculateEffectiveLocation` with its render-order rank as the index (y and Z kept, Zero gravity not moved), refreshed, and has its geometry built; the keys are kept |
| `Toolbar.RenderDeclared` | UI/Hud/Toolbar/Toolbar.cs:356-365 | painted with its declared controls, the toolbar tiles the bar: each control lands at its declared x |
| `Toolbar.RenderLoneFarOffBar` | UI/Hud/Toolbar/Toolbar.cs:315-336 | painted alone, a Far button lands at x = 256, past the right edge of the bar |
| `Toolbar.RenderedButtonsHitWhereDrawn` | UI/Hud/Toolbar/Toolbar.cs:358-368 | after the first paint, a rectangular button hits exactly the box it is drawn in |
| `Toolbar.TopHitUnique` | UI/Hud/Toolbar/Toolbar.cs:180-183 | there is at most one first hit in descending Z order |
| `Toolbar.TopFrom` | UI/Hud/Toolbar/Toolbar.cs:180-183 | the scan returns the first hit in descending Z order (ties in insertion order), or none when nothing is hit |
| `Toolbar.TopHit` | UI/Hud/Toolbar/Toolbar.cs:180-183 | the control a press or hover goes to; none exactly when no control is hit |
| `Toolbar.MouseDown` | UI/Hud/Toolbar/Toolbar.cs:179-189 | the top hit gains Active and is refreshed; no other control's flags change; actions and the stored intent are kept |
| `Toolbar.ClearHovered` | UI/Hud/Toolbar/Toolbar.cs:199-201 | no control is hovered afterwards, and the Active flags are unchanged |
| `Toolbar.ClearHoveredKeepsActive` | UI/Hud/Toolbar/Toolbar.cs:200-205 | clearing or setting Hovered leaves Active unchanged, and setting Active leaves Hovered unchanged |
| `Toolbar.MouseLeave` | UI/Hud/Toolbar/Toolbar.cs:103-107 | every Hovered flag is cleared, without a refresh; nothing else changes |
| `Toolbar.MouseMove` | UI/Hud/Toolbar/Toolbar.cs:196-212 | only the top hit ends hovered and the Active flags are kept; the toolbar is invalidated |
| `Toolbar.AtMostOneHovered` | UI/Hud/Toolbar/Toolbar.cs:196-212 | after a mouse move at most one control is hovered |
| `Toolbar.FirstActive` | UI/Hud/Toolbar/Toolbar.cs:161-164 | the first Active control in insertion order, or none when no control is Active |
| `Toolbar.Invoke` | UI/Hud/Toolbar/Toolbar.cs:239-285 | each action raises its own event (options with its request type, recording with the stored intent); close disposes the toolbar |
| `Toolbar.MouseUp` | UI/Hud/Toolbar/Toolbar.cs:160-172 | with no Active control nothing happens; otherwise the first one loses Active, and its action runs only if the release point hits it |
| `Toolbar.ActiveNotExclusive` | UI/Hud/Toolbar/Toolbar.cs:179-189 | two presses without a release leave two controls Active |
| `Toolbar.PressRelease` | UI/Hud/Toolbar/Toolbar.cs:160-189 | a press then a release, from no Active control, runs the pressed control's action exactly when the release point still hits it, and leaves no control Active |
| `Toolbar.BrushFollowsPointer` | UI/Hud/Toolbar/Control/ToolbarButton.cs:161-169 | after a move the hover brush marks exactly the top hit unless it is pressed; a press gives the top hit the active brush; after the pointer leaves no control shows the hover brush |
| `Toolbar.PrimaryButton` | UI/Hud/Toolbar/Toolbar.cs:125 | a missing "primaryButton" key throws NullReference; otherwise it is the hexagonal button |
| `Toolbar.SetPrimaryBitmap` | UI/Hud/Toolbar/Toolbar.cs:125-126 | the primary button shows the glyph; the keys and the number of controls are kept |
| `Toolbar.SetPrimaryButtonState` | UI/Hud/Toolbar/Toolbar.cs:119-143 | the intent is stored first; Start and Stop set the record or stop glyph; other intents throw NotImplemented before `enabled` is applied; `enabled` sets the button's Enabled |
| `Toolbar.ReleaseSendsStoredIntent` | UI/Hud/Toolbar/Toolbar.cs:119-143 | releasing over the primary button sends the intent last stored |
| `ToolbarWindow.NcHitTest` | UI/Hud/DesktopWrapper/HudToolbarWrapperWindow.cs:46-56 | an unlocked toolbar answers HTCAPTION where no control hits; otherwise the common wrapper's answer; it throws when `Locked` does; an unlocked toolbar's controls are tested in insertion order up to the first hit, and exactly those build their geometry |
| `ToolbarWindow.ProbeAll` | UI/Hud/DesktopWrapper/HudToolbarWrapperWindow.cs:49-50 | `All(c => !c.HitTest(p))`: every control up to the first hit is tested and builds its geometry; the rest are untouched |
| `ToolbarWindow.HitTestBeforePaintPinsGeometry` | UI/Hud/DesktopWrapper/HudToolbarWrapperWindow.cs:49-50 | a button reached by a hit test before the first paint keeps hitting where it was declared after `Render` moves it |
| `ToolbarWindow.DraggableOutsideButtons` | UI/Hud/DesktopWrapper/HudToolbarWrapperWindow.cs:49-54 | images and text never hit, so an unlocked toolbar is draggable wherever no button hits |
| `ToolbarWindow.LockedKeepsDefault` | UI/Hud/DesktopWrapper/HudToolbarWrapperWindow.cs:46-56 | a locked toolbar, whose wrapper is not resizable, keeps the default answer |
| `ToolbarWindow.CreatedToolbarDraggable` | UI/Hud/Toolbar/Toolbar.cs:85-112 | a newly created toolbar is draggable by its empty parts |
| `ColorExtensions.ToYiq` | UI/Helper/ColorExtensions.cs:13-14 | the luma is the weighted channel sum divided by 1000, rounded down, and lies in 0..229 |
| `ColorExtensions.ToYiqMonotone` | UI/Helper/ColorExtensions.cs:13-14 | brightening a channel never lowers the luma |
| `ColorExtensions.ToYiqExtremes` | UI/Helper/ColorExtensions.cs:13-14 | black has luma 0 and white 229, whatever the alpha |
| `ColorExtensions.ToYiqIgnoresAlpha` | UI/Helper/ColorExtensions.cs:13-14 | alpha plays no part in the luma |
| `ColorExtensions.ShouldInvertThreshold` | UI/Hud/Toolbar/ToolbarPrimaryButton.cs:49 | the bitmap is inverted on Windows 10 or later exactly when the weighted sum is at least 128000 |
| `Clipper.PlaceToolbar` | UI/Hud/Clipper/Clipper.cs:251-269 | corrected: the toolbar keeps its size and stays within the screen horizontally; it is centred under the clipper when that fits, half a bar below it when that fits, and one and a half bars above it when there is no room below |
| `Clipper.PlaceToolbarAsWritten` | UI/Hud/Clipper/Clipper.cs:257-266 | as written: the toolbar keeps its size and is never left of the screen; it is centred or half a bar below when that clears the screen's width and height, which are taken for its right and bottom edges |
| `Clipper.PlaceToolbarAtOrigin` | UI/Hud/Clipper/Clipper.cs:258-263 | the two clamps agree on a virtual screen whose origin is (0, 0) |
| `Clipper.ToolbarClampAsWrittenOffScreen` | UI/Hud/Clipper/Clipper.cs:258-260 | with a monitor left of the primary one, the toolbar as written crosses the right edge, and the corrected one stays on screen |
| `Clipper.UpdateToolbar` | UI/Hud/Clipper/Clipper.cs:251-269 | as written: only the toolbar's bounds change; it keeps its size, never leaves the screen on the left, and passes `screen.w - bar.w` only when pinned to the left edge; afterwards it sits where the placement puts it |
| `Clipper.UpdateToolbarIdempotent` | UI/Hud/Clipper/Clipper.cs:251-269 | placing the toolbar twice is placing it once |
| `Clipper.Follow` | UI/Hud/Clipper/Clipper.cs:118-121 | the wrapper's move and resize handlers re-place the toolbar in a desktop container, and do nothing elsewhere |
| `Clipper.Reposition` | UI/Hud/Clipper/Clipper.cs:118-121 | the `Bounds` setter: the bounds are the value written, and in a desktop container the toolbar follows |
| `Clipper.SetArea` | UI/Hud/Clipper/Clipper.cs:102-107 | the bounds are the area inflated by the padding; the control state, padding and tooltip are kept; the toolbar is re-placed |
| `Clipper.AreaRoundTrip` | UI/Hud/Clipper/Clipper.cs:98-107 | `Area` read-after-write gives the area written, and writing back the area read keeps the bounds |
| `Clipper.RefreshLayout` | UI/Hud/Clipper/Clipper.cs:127-157 | the padding becomes the mode's (1 for Pick, 5 for Rescale) and the area is preserved around it |
| `Clipper.Advise` | UI/Hud/Clipper/Clipper.cs:369-388 | "pick a window" exactly while Alt is held with advanced selection; no advice exactly when neither that holds nor is the area empty or under 38 x 38 |
| `Clipper.ApplyAdvice` | UI/Hud/Clipper/Clipper.cs:369-388 | the tip is visible exactly when there is advice; only "too small" sets the Error status, and otherwise the status stays |
| `Clipper.RefreshTidbit` | UI/Hud/Clipper/Clipper.cs:363-390 | Rescale changes nothing; in Pick the tip is live and visible exactly when there is advice; nothing else changes |
| `Clipper.TipShownUntilLargeEnough` | UI/Hud/Clipper/Clipper.cs:375-388 | without the Alt-pick case, the tip is shown exactly while the area is under 38 in some direction |
| `Clipper.ErrorStatusSticks` | UI/Hud/Clipper/Clipper.cs:380-381 | once "too small" has set Error, no later advice clears it |
| `Clipper.PickWindowAccentTransparent` | UI/Hud/Clipper/Clipper.cs:373 | `Color.FromArgb(0x28D69C)` has alpha 0, so the pick-window tip has no left border; white and red are opaque |
| `Clipper.Acquire` | UI/Hud/Clipper/Clipper.cs:329-347 | on a provider: one lock request and one subscription of each handler; otherwise nothing |
| `Clipper.Release` | UI/Hud/Clipper/Clipper.cs:452-468 | on a provider: one unlock request and one unsubscription of each handler; otherwise nothing |
| `Clipper.ReleaseUndoesAcquire` | UI/Hud/Clipper/Clipper.cs:452-468 | releasing after acquiring restores any ledger |
| `Clipper.LockWindow` | UI/Hud/Clipper/Clipper.cs:444-449 | the wrapper stops letting the mouse through and gets minimum size 38 + 2p each way; the bounds are kept |
| `Clipper.DisposeTip` | UI/Hud/Clipper/Clipper.cs:441 | an existing tip ends disposed and hidden |
| `Clipper.Settle` | UI/Hud/Clipper/Clipper.cs:437-449 | locked in Rescale with padding 5 and the same area; the tip is disposed; the wrapper is locked down; the hooks are untouched |
| `Clipper.Lock` | UI/Hud/Clipper/Clipper.cs:429-469 | a locked clipper is unchanged; otherwise it ends locked in Rescale with the same area, a disposed tip, a 48 x 48 minimum size, and both hooks released |
| `Clipper.UnlockWindow` | UI/Hud/Clipper/Clipper.cs:350-353 | the wrapper lets the mouse through and has no minimum size |
| `Clipper.Unlock` | UI/Hud/Clipper/Clipper.cs:305-358 | nothing happens when already unlocked in that mode; otherwise it ends unlocked in the new mode, with the advanced-selection flag given |
| `Clipper.UnlockHooks` | UI/Hud/Clipper/Clipper.cs:329-347 | an unlock takes each hook once and subscribes its handlers once |
| `Clipper.UnlockLayout` | UI/Hud/Clipper/Clipper.cs:318-323 | an unlock hides the clipper and takes the new mode's padding |
| `Clipper.UnlockValid` | UI/Hud/Clipper/Clipper.cs:305-358 | an unlock keeps the clipper consistent |
| `Clipper.UnlockSurface` | UI/Hud/Clipper/Clipper.cs:349-356 | an unlock lets the mouse through with no minimum size; in Pick mode the tip is live |
| `Clipper.Reopen` | UI/Hud/Clipper/Clipper.cs:312-353 | the part of unlocking before the hooks: new mode and padding, unlocked, the window opened, the hooks untouched |
| `Clipper.ReopenHides` | UI/Hud/Clipper/Clipper.cs:318-323 | the area is the hidden rectangle read with the old padding |
| `Clipper.DragRect` | UI/Hud/Clipper/Clipper.cs:505-522 | the rectangle spans from the smaller to the larger coordinate on each axis, so its size is never negative |
| `Clipper.DragRectSymmetric` | UI/Hud/Clipper/Clipper.cs:505-522 | a drag gives the same rectangle in either direction; it contains both ends and its size is the distance between them |
| `Clipper.MouseDown` | UI/Hud/Clipper/Clipper.cs:479-494 | ignored once a window is selected; a left press starts a zero-size drag at the point and captures the event; any other button locks |
| `Clipper.MouseMove` | UI/Hud/Clipper/Clipper.cs:504-553 | while dragging the area is the drag rectangle; while snapping it is the probed window's; otherwise the clipper is hidden; on the desktop the toolbar follows every one of these moves |
| `Clipper.DragTo` | UI/Hud/Clipper/Clipper.cs:505-525 | the area is the drag rectangle from where the drag started |
| `Clipper.Snap` | UI/Hud/Clipper/Clipper.cs:530-550 | a window is selected exactly when the probe finds one with non-default bounds, and the area is then that window's bounds |
| `Clipper.Dispose` | UI/Hud/Clipper/Clipper.cs:163-167 | the clipper locks first (releasing its hooks), then ends disposed, invisible and without a tip |
| `Clipper.MouseUp` | UI/Hud/Clipper/Clipper.cs:563-575 | an area under 38 x 38 disposes the clipper; otherwise the drag ends, the event is captured and the clipper locks with the same area |
| `Clipper.KeyDown` | UI/Hud/Clipper/Clipper.cs:397-411 | the first Alt press sets the flag, re-runs the move at the pointer and refreshes the tip; a repeated Alt press does nothing; any other key dismisses |
| `Clipper.KeyUp` | UI/Hud/Clipper/Clipper.cs:418-424 | releasing a held Alt clears the flag and hides the clipper, and on the desktop the toolbar follows; otherwise nothing changes |
| `Clipper.ModifiedLeftAltDismisses` | UI/Hud/Clipper/Clipper.cs:398 | left Alt with modifier flags fails the `KeyData` test, so it dismisses the clipper |
| `Clipper.WrapperMoved` | UI/Hud/Clipper/Clipper.cs:119-120 | a direct move of the wrapper moves the bounds, and on the desktop re-places the toolbar |
| `Clipper.AttachToolbar` | UI/Hud/Clipper/Clipper.cs:242-246 | the toolbar is held first; a missing or mistyped grip then throws the grip's exception with the toolbar held and nothing else changed; otherwise the toolbar is locked and placed |
| `Clipper.AttachToolbarDisposedFollows` | UI/Hud/Clipper/Clipper.cs:119-120 | attaching a disposed toolbar throws NullReference, yet the clipper keeps it and the next move of its window places it |
| `Clipper.Construct` | UI/Hud/Clipper/Clipper.cs:115-122 | a clipper can be built exactly on the desktop; Direct3D11 throws NotImplemented |
| `Clipper.ConstructedState` | UI/Hud/Clipper/Clipper.cs:115-122 | a new clipper is locked in Pick, with the Alt state sampled at construction; it has no drag, window, toolbar or tip, and is consistent and balanced |
| `Clipper.Initial` | UI/Hud/Clipper/Clipper.cs:275-278 | the field defaults plus the first layout: padding 1 around the component's bounds |
| `Clipper.LockBalances` | UI/Hud/Clipper/Clipper.cs:429-469 | locking releases exactly what a balanced unlocked clipper holds |
| `Clipper.UnlockBalances` | UI/Hud/Clipper/Clipper.cs:305-358 | unlocking a locked clipper takes exactly what a balanced unlocked one holds |
| `Clipper.DisposeBalances` | UI/Hud/Clipper/Clipper.cs:163-167 | dismissal keeps the ledgers balanced |
| `Clipper.PressBalances` | UI/Hud/Clipper/Clipper.cs:479-494 | a press keeps the ledgers balanced |
| `Clipper.ReleaseBalances` | UI/Hud/Clipper/Clipper.cs:563-575 | a release keeps the ledgers balanced |
| `Clipper.KeyPressBalances` | UI/Hud/Clipper/Clipper.cs:397-411 | a key press keeps the ledgers balanced |
| `Clipper.StepKeepsBalance` | UI/Hud/Clipper/Clipper.cs:305-575 | every event except an unlock into the other mode while unlocked keeps each hook ledger equal to what the lock state calls for |
| `Clipper.StepKeepsValid` | UI/Hud/Clipper/Clipper.cs:127-157 | every event keeps the padding in step with the mode and the component consistent |
| `Clipper.StepKeepsToolbarPlaced` | UI/Hud/Clipper/Clipper.cs:118-121 | on the desktop, every event that does not dismiss the clipper leaves the toolbar where the placement puts it |
| `Clipper.StepKeepsLockedRescale` | UI/Hud/Clipper/Clipper.cs:437-439 | once locked in Rescale, every event keeps "locked implies Rescale" |
| `Clipper.ConstructedLockedInPick` | UI/Hud/Clipper/Clipper.cs:88-93 | a new clipper is locked yet in Pick mode; it holds no hook, so an unlock is what takes them |
| `Clipper.UnlockLockRoundTrip` | UI/Hud/Clipper/Clipper.cs:329-468 | unlocking and then locking a balanced, locked clipper leaves both ledgers as they were |
| `Clipper.RelockLeaks` | UI/Hud/Clipper/Clipper.cs:305-347 | unlocking an unlocked clipper into the other mode takes the hook and subscribes every handler a second time; one lock then leaves a request and a full set of handlers behind |

## Left out

- Rendering is not modelled. This covers the `Render` methods, brushes and colours, bitmaps, the acrylic noise texture, blur-behind, DWM margins, WM_PAINT beyond the shape of one paint, and WM_SETCURSOR.
- `UnlockAsync`'s mutex and its asynchronous wait are not modelled, nor is the `ReleaseMutex` in `Lock`. Single-threaded event handling makes these invisible to the state. `Clipper.Unlock` models everything before the wait.
- Logging calls are not modelled.
- Operating-system queries become parameters rather than being modelled:
  - `Control.MousePosition` and `Cursor.Current` become the `Pointer` argument;
  - `WindowFromPoint` and `GetWindowBounds` become a `WindowProbe`;
  - text measurement becomes a `measured` size;
  - embedded bitmap sizes become a `loaded` size;
  - the accent colour becomes a `Color`;
  - the OS version becomes an integer.
- The window system's own rules are not modelled: it enforces `MinimumSize` and never gives a window a negative size. As a result, the hidden clipper's area in the model has width -2p.
- The arbiter that installs the operating-system hook and fans out its events is not modelled. Each component keeps its own ledger instead: net lock requests plus the handlers it subscribed.
- `Clipper.RefreshTidbit` keeps the clipper's tooltip as a small record (`Clipper.Tip`), not as a tidbit registered with the `TidbitManager`. Its registration with the manager, and its own text layout, are not part of this model.
- The `timeout` argument of the tidbit constructor is a TODO in the source with no behaviour, so it is not modelled.
- `ColorExtensions.Blend` is not modelled, because it is floating-point arithmetic and no core operation reads it.
- `ToolbarPrimaryButton.RefreshColors` is not modelled: the inversion effect, the accent-derived hover and active colours, and WM_DWMCOLORIZATIONCHANGED. Only the inversion decision (`ColorExtensions.ShouldInvert`) is modelled.
- The primary button's hexagonal path is not modelled as geometry. It is a given set of points: the path geometry is drawn by Direct2D.
- Toolbar coordinates are integers, and the grip's opacity is counted in eighths. The values written (1/8, 1/2, 1) and the `< 0.5` test are exact in eighths.
- The `Disposing` event of `HudComponent` has no subscriber in the modelled code, so it is not modelled.
- The custom `HudRenderer` field of `HudComponent` is never assigned, so its branches are not modelled.
- The text control's own text layout is not modelled. Its disposal nulls the content, which the model writes as the empty string.
- `FormatHelper.Strip`: text is a sequence of Unicode characters, while the program's `TextRange` offsets count UTF-16 code units. For text with characters outside the Basic Multilingual Plane, the ranges recorded here differ from the program's.
- `ToolbarControl.Refresh`: a control's tooltip is a small record of its visibility and disposal (`ToolbarControl.Tip`), not a tidbit registered with the `TidbitManager`. Its registration with the manager, its location and its text layout are not part of this model.
- `Tidbit.SetCustomIcon` and `Tidbit.SetCustomAccent`: when the conversion throws, the old bitmap or brush has already been released; the thrown result does not carry the tidbit in that state.
- `Toolbar.EffectiveLocationAsWritten`: only the parts that do not depend on the index mix-up are stated. The rest is shown by the counterexample and by the agreement on the declared controls.

## Findings

| source | as written | input that shows it | evidently intended | confidence | as-written member | corrected member |
|---|---|---|---|---|---|---|
| UI/Hud/Tidbit/TidbitManager.cs:69-75 | `UnbindMouseEvents` subscribes the move handler again (`+=`) before releasing the hook | a provider mouse hook; create one tidbit and dispose it: the lock is released but the handler stays subscribed twice | `-=`, so that bind followed by unbind restores the hook's subscriptions | not executed; high | `TidbitManager.BindUnbindAsWrittenLeaks` | `TidbitManager.BindUnbindBalanced` |
| UI/Hud/Tidbit/TidbitManager.cs:48-50 | unregistering moves the later tidbits up by the removed tidbit's height only | three stacked tidbits of heights 20, 30 and 40 at the origin; unregister the first: the others land at 4 and 38 instead of 0 and 34 | move them up by the height plus the 4-pixel spacing the layout uses | not executed; high | `TidbitManager.UnregisterAsWrittenOpensGap` | `TidbitManager.UnregisterKeepsStack` |
| UI/Hud/Clipper/Clipper.cs:258-263 | the toolbar is clamped to `VirtualBounds.Width - w` and `VirtualBounds.Height - h`, which are sizes and not right or bottom edges | virtual screen (-1920, 0, 3840, 1080), clipper (1800, 100, 100, 100), toolbar 256 wide: x = 1722, so the bar ends at 1978, beyond the right edge at 1920 | clamp to `Right - w` and `Bottom - h` (x = 1664) | not executed; high | `Clipper.ToolbarClampAsWrittenOffScreen` | `Clipper.PlaceToolbar` |
| UI/Hud/Toolbar/Toolbar.cs:315-336 | the Near/Far sums select controls whose insertion index exceeds `idx`, where `idx` is the control's position in the Z-sorted render order | a toolbar with one Far button: it is placed at x = 256, wholly outside the bar; the declared controls happen to come out right, because the primary button's rank offset cancels the error | select by the control's own insertion index, with the Far sum including the control's own width | not executed; medium (latent for the declared controls) | `Toolbar.FarLayoutCounterexample` | `Toolbar.EffectiveLocation` |

### Behaviour of the code worth noting

- **Undersized mouse-up.** An undersized selection dismisses the clipper through `Dispose`, which calls `Lock()` first, so the hooks are handed back before the component goes (`Clipper.Dispose`, `Clipper.MouseUp`).
- **Active flag.** Active is not exclusive: a press never clears another control's Active flag, so two presses without a release leave two Active controls (`Toolbar.ActiveNotExclusive`).
- **Disposal.** `Toolbar.Dispose` is not idempotent: every call releases a hook lock, so a second call releases one lock too many (`Toolbar.DisposeTwiceOverReleases`).
- **Tooltip on an empty area.** Unlocking hides the clipper at bounds of size 0. Read through the padding, that area is negative rather than empty, so without the window system's clamping the first tooltip in Pick mode is "too small" (`Clipper.Advise`).
- **Alt release.** The key-up handler never locks: releasing Alt only clears the flag and hides the clipper (`Clipper.KeyUp`).
