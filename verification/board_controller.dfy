/**
 * The `BoardController` of board-controller.mjs: a single, replaceable
 * listener slot, and the click filter that forwards a click to the listener
 * only when the clicked cell holds the Blank symbol.
 */
module BoardControllers {
  import opened Results
  import opened Symbols

  /** The identity of a registered callback. */
  type Handler = nat

  /** The controller's state: its one listener slot (`null` when empty). */
  datatype Controller = Controller(listener: Option<Handler>)

  /** What one click leads to: nothing, or one call of the listener with the clicked cell. */
  datatype Dispatch = Ignored | Notified(handler: Handler, cell: nat)

  /** The constructor: no listener is registered yet. */
  function NewController(): (c: Controller)
    ensures c.listener.None?
  {
    Controller(None)
  }

  /** `registerListener`: `h` becomes the only listener, whatever was registered before. */
  function RegisterListener(c: Controller, h: Handler): (c': Controller)
    ensures c'.listener == Some(h)
  {
    c.(listener := Some(h))
  }

  /**
   * `processEvent`: a click on cell `cell` whose `data-value` attribute is
   * `value`. The attribute is looked up in the registry first, so an
   * unregistered value throws; the listener is called only for a Blank cell.
   * The controller itself is left as it was (the listener is not cleared).
   */
  function ProcessEvent(c: Controller, cell: nat, value: string): (r: Result<Dispatch>)
    ensures r.Err? <==> value != "blank" && value != "cross" && value != "nought"
    ensures r.Err? ==> r.message == NotFound(value)
    ensures forall h: Handler :: r == Ok(Notified(h, cell)) <==> value == "blank" && c.listener == Some(h)
    ensures r.Ok? && r.value.Notified? ==> r.value.cell == cell
  {
    match SymbolForName(value)
    case Err(e) => Err(e)
    case Ok(m) =>
      if m == Blank && c.listener.Some? then Ok(Notified(c.listener.value, cell)) else Ok(Ignored)
  }

  /** A click on a Cross or Nought cell never reaches the listener. */
  lemma OccupiedCellIgnored(c: Controller, cell: nat, m: Marker)
    requires m != Blank
    ensures ProcessEvent(c, cell, Name(m)) == Ok(Ignored)
  {
  }

  /** A click with no listener registered does nothing. */
  lemma NoListenerNoOp(cell: nat, value: string)
    requires value == "blank" || value == "cross" || value == "nought"
    ensures ProcessEvent(NewController(), cell, value) == Ok(Ignored)
  {
  }

  /**
   * Registration replaces: after registering `h1` then `h2`, a click on a
   * Blank cell reaches `h2` only, and it keeps reaching `h2` on every later
   * Blank click, because processing a click does not change the slot.
   */
  lemma LastRegistrationWins(c: Controller, h1: Handler, h2: Handler, cell: nat)
    ensures ProcessEvent(RegisterListener(RegisterListener(c, h1), h2), cell, "blank")
            == Ok(Notified(h2, cell))
  {
  }
}
