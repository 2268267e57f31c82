/**
 * The base adapter: four emitters, each broadcasting one `{type, node}`
 * event on the adapter's private stream, and the placeholders `setup`,
 * `traverseTree` and `cleanup` that concrete adapters replace.
 */
module Base {
  import opened Wrappers
  import opened Platform
  import opened Events
  import Rx

  /** `interface AdapterEvent { type: string, node: Node }`. */
  datatype AdapterEvent = AdapterEvent(eventType: string, node: Element)

  /** The event an emitter of kind `k` broadcasts for `el`. */
  function EventFor(k: EventKind, el: Element): (e: AdapterEvent)
    ensures e.node == el
  {
    AdapterEvent(Name(k), el)
  }

  /** How a call ends: normally, or by throwing an `Error` with a message. */
  datatype Outcome = Done | Threw(message: string)

  const NotImplemented: string := "Not yet implemented."

  class BaseAdapter {
    /** The private `_stream` subject. */
    const stream: Rx.Subject<AdapterEvent>

    constructor()
      ensures fresh(stream) && stream.log == []
    {
      stream := new Rx.Subject();
    }

    /** `addRoot`: broadcasts `{type: ROOT, node: rootEl}`. */
    method AddRoot(rootEl: Element)
      modifies stream
      ensures stream.log == old(stream.log) + [EventFor(ROOT, rootEl)]
    {
      var rootEvt := AdapterEvent(Name(ROOT), rootEl);
      stream.OnNext(rootEvt);
    }

    /** `addChild`: broadcasts `{type: ADD, node: childEl}`. */
    method AddChild(childEl: Element)
      modifies stream
      ensures stream.log == old(stream.log) + [EventFor(ADD, childEl)]
    {
      var childEvt := AdapterEvent(Name(ADD), childEl);
      stream.OnNext(childEvt);
    }

    /** `changeComponent`: broadcasts `{type: CHANGE, node: el}`. */
    method ChangeComponent(el: Element)
      modifies stream
      ensures stream.log == old(stream.log) + [EventFor(CHANGE, el)]
    {
      var childEvt := AdapterEvent(Name(CHANGE), el);
      stream.OnNext(childEvt);
    }

    /** `removeComponent`: broadcasts `{type: REMOVE, node: el}`. */
    method RemoveComponent(el: Element)
      modifies stream
      ensures stream.log == old(stream.log) + [EventFor(REMOVE, el)]
    {
      var childEvt := AdapterEvent(Name(REMOVE), el);
      stream.OnNext(childEvt);
    }

    /** The base `setup` always throws and broadcasts nothing. */
    method Setup() returns (r: Outcome)
      ensures r == Threw(NotImplemented)
    {
      r := Threw(NotImplemented);
    }

    /** The base `traverseTree` always throws and broadcasts nothing. */
    method TraverseTree() returns (r: Outcome)
      ensures r == Threw(NotImplemented)
    {
      r := Threw(NotImplemented);
    }

    /** The base `cleanup` always throws and broadcasts nothing. */
    method Cleanup() returns (r: Outcome)
      ensures r == Threw(NotImplemented)
    {
      r := Threw(NotImplemented);
    }
  }
}
