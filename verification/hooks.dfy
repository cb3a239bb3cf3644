/**
 * The calls the HUD components make on a hook behaviour (`RequestLock`,
 * `RequestUnlock`) and on its provider events (`+=`, `-=`). The arbiter that
 * installs the operating-system hook is not part of this model: each component
 * keeps its own ledger, so that the model can state whether that component's
 * calls balance.
 */
module Hooks {

  /** The hook event handlers bound by the modelled components. */
  datatype Handler =
    | ClipperMouseDown
    | ClipperMouseMove
    | ClipperMouseUp
    | ClipperKeyDown
    | ClipperKeyUp
    | TidbitMouseMove

  /**
   * One component's ledger with one hook behaviour: the lock requests it made,
   * net of the releases it made, and the handlers it has subscribed. A C# event
   * keeps one entry per `+=`, so the subscriptions form a multiset.
   */
  datatype Arbiter = Arbiter(requests: int, handlers: multiset<Handler>)

  /** A ledger with no requests and no subscriptions. */
  const Idle: Arbiter := Arbiter(0, multiset{})

  function RequestLock(a: Arbiter): (b: Arbiter)
    ensures b.requests == a.requests + 1 && b.handlers == a.handlers
  {
    a.(requests := a.requests + 1)
  }

  function RequestUnlock(a: Arbiter): (b: Arbiter)
    ensures b.requests == a.requests - 1 && b.handlers == a.handlers
  {
    a.(requests := a.requests - 1)
  }

  /** `event += handler` for each handler of `hs`: every subscription adds one entry. */
  function Subscribe(a: Arbiter, hs: multiset<Handler>): (b: Arbiter)
    ensures b.requests == a.requests
    ensures forall h :: b.handlers[h] == a.handlers[h] + hs[h]
  {
    a.(handlers := a.handlers + hs)
  }

  /** `event -= handler` for each handler of `hs`: removes one entry if there is one, else does nothing. */
  function Unsubscribe(a: Arbiter, hs: multiset<Handler>): (b: Arbiter)
    ensures b.requests == a.requests
    ensures forall h :: b.handlers[h] == if a.handlers[h] <= hs[h] then 0 else a.handlers[h] - hs[h]
  {
    a.(handlers := a.handlers - hs)
  }
}
