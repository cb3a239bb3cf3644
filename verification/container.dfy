/** The hosting context shared by all HUD components of one container. */
module Container {
  import opened Geometry

  /** HudContainerType. */
  datatype ContainerType = Desktop | Direct3D11

  /**
   * HudContainerInfo without its DirectX fields. Each hook behaviour is
   * represented by whether it implements the provider interface, which is all
   * the modelled code tests (`is IMouseHookProvider`, `is IKeyboardHookProvider`).
   * The container's TidbitManager is the `Tidbits.Hud` value.
   */
  datatype ContainerInfo = ContainerInfo(
    kind: ContainerType,
    mouseIsProvider: bool,
    keyboardIsProvider: bool,
    virtualBounds: Rect)
}
