/**
 * The identity and snapshot helpers of the in-page agent: a component's
 * dotted id, its visible attribute properties, the component and state
 * messages built from it, and the walks that push one message per tree
 * node onto the component and state streams.
 */
module Core {
  import opened Wrappers
  import opened Platform
  import JsIndex
  import Rx

  // ---------------------------------------------------------------------------
  // Identity
  // ---------------------------------------------------------------------------

  const NgIdAttribute: string := "data-ngid"

  /** `s.replace(/#/g, '.')`: every `#` becomes `.`. */
  function ReplaceHash(s: string): string
  {
    if s == [] then []
    else [if s[0] == '#' then '.' else s[0]] + ReplaceHash(s[1..])
  }

  /** The rewrite keeps the length and maps each character on its own: `#` to `.`, anything else to itself. */
  lemma {:induction false} ReplaceHashSpec(s: string)
    ensures |ReplaceHash(s)| == |s|
    ensures forall i :: 0 <= i < |s| ==> ReplaceHash(s)[i] == (if s[i] == '#' then '.' else s[i])
  {
    if s != [] {
      ReplaceHashSpec(s[1..]);
    }
  }

  /** The rewrite leaves no `#` behind and changes nothing that is not a `#`. */
  lemma ReplaceHashDotted(s: string)
    ensures |ReplaceHash(s)| == |s| && '#' !in ReplaceHash(s)
    ensures forall i :: 0 <= i < |s| && s[i] != '#' ==> ReplaceHash(s)[i] == s[i]
    ensures '#' !in s ==> ReplaceHash(s) == s
  {
    ReplaceHashSpec(s);
    var r := ReplaceHash(s);
    forall i | 0 <= i < |r| ensures r[i] != '#' {
    }
  }

  /** Rewriting an id that has already been rewritten changes nothing. */
  lemma ReplaceHashIdempotent(s: string)
    ensures ReplaceHash(ReplaceHash(s)) == ReplaceHash(s)
  {
    ReplaceHashDotted(s);
    ReplaceHashDotted(ReplaceHash(s));
  }

  /**
   * `componentID(compEl)`: the native element's `data-ngid` with `#`
   * rewritten to `.`; `None` where the attribute is missing and
   * `getAttribute` returns `null`, on which `replace` throws.
   */
  function ComponentID(c: Component): Option<string>
  {
    match GetAttribute(c.nativeElement, NgIdAttribute)
    case None => None
    case Some(raw) => Some(ReplaceHash(raw))
  }

  /**
   * An id exists exactly when the element has a `data-ngid`; it is as long
   * as the attribute value, has no `#`, and agrees with it at every other
   * character.
   */
  lemma ComponentIdSpec(c: Component)
    ensures ComponentID(c).None? <==> GetAttribute(c.nativeElement, NgIdAttribute).None?
    ensures ComponentID(c).Some? ==>
              var raw, id := GetAttribute(c.nativeElement, NgIdAttribute).value, ComponentID(c).value;
              && |id| == |raw| && '#' !in id
              && forall i :: 0 <= i < |raw| && raw[i] != '#' ==> id[i] == raw[i]
  {
    if GetAttribute(c.nativeElement, NgIdAttribute).Some? {
      ReplaceHashSpec(GetAttribute(c.nativeElement, NgIdAttribute).value);
      ReplaceHashDotted(GetAttribute(c.nativeElement, NgIdAttribute).value);
    }
  }

  // ---------------------------------------------------------------------------
  // Properties
  // ---------------------------------------------------------------------------

  /** The attributes `componentProperties` hides. */
  const Blacklist: seq<string> := ["class", "data-ngid"]

  /**
   * What the filter and reduce callbacks receive: an attribute node, or a
   * bare string key, whose `nodeName` and `nodeValue` are `undefined`.
   */
  datatype Item = AttrNode(name: string, value: string) | KeyString(key: string)

  /** `item.nodeName`, `None` for `undefined`. */
  function NodeName(item: Item): Option<string>
  {
    match item
    case AttrNode(name, _) => Some(name)
    case KeyString(_) => None
  }

  /** `!BLACKLIST.includes(item.nodeName)`: `undefined` is not in the list. */
  predicate Visible(item: Item)
  {
    NodeName(item).None? || NodeName(item).value !in Blacklist
  }

  /** `.filter(...)`: the visible items, in order. */
  function Filter(items: seq<Item>): seq<Item>
  {
    if items == [] then []
    else if Visible(items[|items| - 1]) then Filter(items[..|items| - 1]) + [items[|items| - 1]]
    else Filter(items[..|items| - 1])
  }

  /** The filter keeps only visible items, all from the input, and keeps every visible one. */
  lemma {:induction false} FilterSpec(items: seq<Item>)
    ensures |Filter(items)| <= |items|
    ensures forall i :: 0 <= i < |Filter(items)| ==> Visible(Filter(items)[i]) && Filter(items)[i] in items
    ensures forall i :: 0 <= i < |items| && Visible(items[i]) ==> items[i] in Filter(items)
  {
    if items != [] {
      var init := items[..|items| - 1];
      FilterSpec(init);
      assert forall x :: x in init ==> x in items;
      assert forall i :: 0 <= i < |init| ==> init[i] == items[i];
    }
  }

  /** The filter runs item by item: filtering a concatenation concatenates the filtered parts, in order. */
  lemma {:induction false} FilterConcat(a: seq<Item>, b: seq<Item>)
    ensures Filter(a + b) == Filter(a) + Filter(b)
    decreases |b|
  {
    if b != [] {
      var n := |b| - 1;
      FilterConcat(a, b[..n]);
      assert (a + b)[..|a + b| - 1] == a + b[..n];
      assert (a + b)[|a + b| - 1] == b[n];
    } else {
      assert a + b == a;
    }
  }

  /** One item survives the filter exactly when it is visible. */
  lemma FilterSingle(x: Item)
    ensures Filter([x]) == if Visible(x) then [x] else []
  {
    assert [x][..0] == [];
  }

  /**
   * `.reduce(...)`, left to right from `{}`: each item with a `nodeName`
   * maps that name to its `nodeValue`, a later item overwriting an earlier one.
   */
  function Reduce(items: seq<Item>): map<string, string>
  {
    if items == [] then map[]
    else
      var acc, last := Reduce(items[..|items| - 1]), items[|items| - 1];
      match last
      case AttrNode(name, value) => acc[name := value]
      case KeyString(_) => acc
  }

  /** A name is a key of the reduced map exactly when some item carries it, and its value is the last such item's. */
  lemma {:induction false} ReduceSpec(items: seq<Item>, k: string)
    ensures k in Reduce(items) <==> exists i :: 0 <= i < |items| && NodeName(items[i]) == Some(k)
    ensures k in Reduce(items) ==>
              exists i :: 0 <= i < |items| && items[i] == AttrNode(k, Reduce(items)[k])
                          && forall j :: i < j < |items| ==> NodeName(items[j]) != Some(k)
    decreases |items|
  {
    if items != [] {
      var n := |items| - 1;
      var init := items[..n];
      ReduceSpec(init, k);
      assert forall i :: 0 <= i < n ==> init[i] == items[i];
      if items[n].AttrNode? && items[n].name == k {
        assert NodeName(items[n]) == Some(k);
      } else if k in Reduce(items) {
        assert Reduce(items)[k] == Reduce(init)[k];
        var i :| 0 <= i < n && init[i] == AttrNode(k, Reduce(init)[k])
                 && forall j :: i < j < n ==> NodeName(init[j]) != Some(k);
        assert items[i] == AttrNode(k, Reduce(items)[k]);
      }
    }
  }

  /** The attribute nodes of an element, as `Array.prototype.slice` copies them. */
  function AttrItems(attrs: seq<Attr>): seq<Item>
  {
    if attrs == [] then [] else AttrItems(attrs[..|attrs| - 1]) + [AttrNode(attrs[|attrs| - 1].name, attrs[|attrs| - 1].value)]
  }

  lemma {:induction false} AttrItemsAt(attrs: seq<Attr>)
    ensures |AttrItems(attrs)| == |attrs|
    ensures forall i :: 0 <= i < |attrs| ==> AttrItems(attrs)[i] == AttrNode(attrs[i].name, attrs[i].value)
  {
    if attrs != [] {
      var init := attrs[..|attrs| - 1];
      AttrItemsAt(init);
      assert forall i :: 0 <= i < |init| ==> init[i] == attrs[i];
    }
  }

  /** `Object.keys(array)` of an array of `n` elements: its indices as decimal text. */
  function KeyItems(n: nat): seq<Item>
  {
    if n == 0 then [] else KeyItems(n - 1) + [KeyString(JsIndex.DecimalString(n - 1))]
  }

  /** The keys are bare strings, one per index, in index order. */
  lemma {:induction false} KeyItemsAt(n: nat)
    ensures |KeyItems(n)| == n
    ensures forall i :: 0 <= i < n ==> KeyItems(n)[i] == KeyString(JsIndex.DecimalString(i))
  {
    if n > 0 {
      KeyItemsAt(n - 1);
      var last := KeyString(JsIndex.DecimalString(n - 1));
      assert KeyItems(n) == KeyItems(n - 1) + [last];
      forall i | 0 <= i < n ensures KeyItems(n)[i] == KeyString(JsIndex.DecimalString(i)) {
        if i < n - 1 {
          assert KeyItems(n)[i] == KeyItems(n - 1)[i];
        }
      }
    }
  }

  /** `componentProperties(compEl)` as intended: the filter and reduce run over the attribute nodes. */
  function ComponentProperties(c: Component): map<string, string>
  {
    Reduce(Filter(AttrItems(c.nativeElement.attributes)))
  }

  /**
   * The properties never include `class` or `data-ngid`; every other
   * attribute name is a key, and its value is that of the last attribute
   * with the name.
   */
  lemma PropertiesSpec(c: Component, k: string)
    ensures k in ComponentProperties(c) <==>
              k !in Blacklist && exists i :: 0 <= i < |c.nativeElement.attributes| && c.nativeElement.attributes[i].name == k
    ensures k in ComponentProperties(c) ==>
              exists i :: 0 <= i < |c.nativeElement.attributes|
                          && c.nativeElement.attributes[i] == Attr(k, ComponentProperties(c)[k])
                          && forall j :: i < j < |c.nativeElement.attributes| ==> c.nativeElement.attributes[j].name != k
  {
    var attrs := c.nativeElement.attributes;
    var items := AttrItems(attrs);
    var kept := Filter(items);
    AttrItemsAt(attrs);
    FilterSpec(items);
    ReduceSpec(kept, k);
    if k in ComponentProperties(c) {
      var i :| 0 <= i < |kept| && kept[i] == AttrNode(k, Reduce(kept)[k])
               && forall j :: i < j < |kept| ==> NodeName(kept[j]) != Some(k);
      assert Visible(kept[i]);
      PropertiesLastWins(attrs, k);
    }
    if k !in Blacklist && exists i :: 0 <= i < |attrs| && attrs[i].name == k {
      var p :| 0 <= p < |attrs| && attrs[p].name == k;
      assert Visible(items[p]) && items[p] in kept;
      var i :| 0 <= i < |kept| && kept[i] == items[p];
      assert NodeName(kept[i]) == Some(k);
    }
  }

  /**
   * The filter drops no attribute whose name is outside the blacklist, so
   * such a property takes the value of the last attribute with its name.
   */
  lemma {:induction false} PropertiesLastWins(attrs: seq<Attr>, k: string)
    requires k !in Blacklist && k in Reduce(Filter(AttrItems(attrs)))
    ensures exists i :: 0 <= i < |attrs| && attrs[i] == Attr(k, Reduce(Filter(AttrItems(attrs)))[k])
                        && forall j :: i < j < |attrs| ==> attrs[j].name != k
    decreases |attrs|
  {
    var n := |attrs| - 1;
    var init, last := attrs[..n], attrs[n];
    var item := AttrNode(last.name, last.value);
    var kept, prev := Filter(AttrItems(attrs)), Filter(AttrItems(init));
    assert AttrItems(attrs) == AttrItems(init) + [item];
    if Visible(item) {
      assert kept == prev + [item] && kept[..|kept| - 1] == prev;
    } else {
      assert kept == prev;
    }
    if last.name == k {
      assert Reduce(kept)[k] == last.value;
      assert attrs[n] == Attr(k, last.value);
    } else {
      assert Reduce(kept)[k] == Reduce(prev)[k];
      PropertiesLastWins(init, k);
      var i :| 0 <= i < n && init[i] == Attr(k, Reduce(prev)[k])
               && forall j :: i < j < n ==> init[j].name != k;
      assert attrs[i] == init[i];
      forall j | i < j < |attrs| ensures attrs[j].name != k {
        if j < n {
          assert attrs[j] == init[j];
        }
      }
    }
  }

  /** `componentProperties(compEl)` as written: it iterates `Object.keys` of the attribute array. */
  function PropertiesAsWritten(c: Component): map<string, string>
  {
    Reduce(Filter(KeyItems(|c.nativeElement.attributes|)))
  }

  /** Bare keys have no `nodeName`, so the written version always yields `{}`. */
  lemma PropertiesAsWrittenEmpty(c: Component)
    ensures PropertiesAsWritten(c) == map[]
  {
    var keys := KeyItems(|c.nativeElement.attributes|);
    var items := Filter(keys);
    KeyItemsAt(|c.nativeElement.attributes|);
    FilterSpec(keys);
    forall k ensures k !in Reduce(items) {
      ReduceSpec(items, k);
      forall i | 0 <= i < |items| ensures NodeName(items[i]) == None {
        assert items[i] in keys;
      }
    }
  }

  /** An element with one `title` attribute: the intended properties hold it, the written ones are empty. */
  lemma PropertiesAsWrittenDropsAttributes(el: Element, c: Component)
    requires el.attributes == [Attr("title", "Hello")] && c.nativeElement == el
    ensures ComponentProperties(c) == map["title" := "Hello"]
    ensures PropertiesAsWritten(c) == map[]
  {
    PropertiesAsWrittenEmpty(c);
    var items := AttrItems(el.attributes);
    AttrItemsAt(el.attributes);
    assert items == [AttrNode("title", "Hello")];
    assert "title" !in Blacklist;
    assert Filter(items) == items by {
      assert items[..0] == [];
    }
    assert items[..0] == [];
  }

  // ---------------------------------------------------------------------------
  // Messages
  // ---------------------------------------------------------------------------

  /** What `buildComponentEvent` returns. */
  datatype ComponentEvent = ComponentEvent(ref: Element, id: string, name: string, properties: map<string, string>)

  /** What `emitComponentEvent` returns. */
  datatype ComponentMessage = ComponentMessage(eventType: string, component: ComponentEvent)

  /** What `emitStateEvent` returns; `prev` is `None` for `null`. */
  datatype StateEvent = StateEvent(componentRef: Element, prev: Option<State>, next: State)

  /** `EVENT_TYPES.ADD` of `attachComponents`. */
  const Added: string := "added"

  /** `buildComponentEvent(compEl)`: `None` where `componentID` throws. */
  function BuildComponentEvent(c: Component): Option<ComponentEvent>
  {
    match ComponentID(c)
    case None => None
    case Some(id) => Some(ComponentEvent(c.nativeElement, id, c.name, ComponentProperties(c)))
  }

  /** `emitComponentEvent(eventType, compEl)`. */
  function EmitComponentEvent(eventType: string, c: Component): Option<ComponentMessage>
  {
    match BuildComponentEvent(c)
    case None => None
    case Some(e) => Some(ComponentMessage(eventType, e))
  }

  /**
   * A component message exists exactly when the element has an id; it
   * carries the event type, and its component event the element, the id
   * `componentID` computes, the constructor name and the properties.
   */
  lemma ComponentMessageSpec(eventType: string, c: Component)
    ensures EmitComponentEvent(eventType, c).Some? <==> GetAttribute(c.nativeElement, NgIdAttribute).Some?
    ensures EmitComponentEvent(eventType, c).Some? ==>
              EmitComponentEvent(eventType, c).value ==
                ComponentMessage(eventType, ComponentEvent(c.nativeElement, ComponentID(c).value, c.name, ComponentProperties(c)))
  {
    ComponentIdSpec(c);
  }

  /** `emitStateEvent(compEl)`: the element, no previous state, and the current state. */
  function EmitStateEvent(c: Component): (e: StateEvent)
    ensures e.componentRef == c.nativeElement && e.prev == None && e.next == c.state
  {
    StateEvent(c.nativeElement, None, c.state)
  }

  // ---------------------------------------------------------------------------
  // Walks
  // ---------------------------------------------------------------------------

  /** The messages `emitComponentEvent` builds for nodes visited in this order, `None` where it throws. */
  function AddedAttempts(nodes: seq<Component>): seq<Option<ComponentMessage>>
  {
    if nodes == [] then [] else AddedAttempts(nodes[..|nodes| - 1]) + [EmitComponentEvent(Added, nodes[|nodes| - 1])]
  }

  /** The values before the first `None`, and whether there was none: a run that stops at the first throw. */
  function UntilNone<T>(xs: seq<Option<T>>): (seq<T>, bool)
  {
    if xs == [] then ([], true)
    else
      var done := UntilNone(xs[..|xs| - 1]);
      if !done.1 then done
      else match xs[|xs| - 1]
        case None => (done.0, false)
        case Some(m) => (done.0 + [m], true)
  }

  /**
   * The messages `attachComponents` emits for nodes visited in this order,
   * and whether every node was reached: the walk ends at the first node
   * whose id cannot be read.
   */
  function AddedMessages(nodes: seq<Component>): (seq<ComponentMessage>, bool)
  {
    UntilNone(AddedAttempts(nodes))
  }

  /** The state messages `attachState` emits for nodes visited in this order. */
  function StateMessages(nodes: seq<Component>): seq<StateEvent>
  {
    if nodes == [] then [] else StateMessages(nodes[..|nodes| - 1]) + [EmitStateEvent(nodes[|nodes| - 1])]
  }

  lemma {:induction false} AddedAttemptsConcat(a: seq<Component>, b: seq<Component>)
    ensures AddedAttempts(a + b) == AddedAttempts(a) + AddedAttempts(b)
    decreases |b|
  {
    if b == [] {
      assert a + b == a;
    } else {
      var n := |b| - 1;
      assert (a + b)[..|a + b| - 1] == a + b[..n];
      AddedAttemptsConcat(a, b[..n]);
    }
  }

  lemma {:induction false} UntilNoneConcat<T>(x: seq<Option<T>>, y: seq<Option<T>>)
    ensures UntilNone(x + y) ==
              if UntilNone(x).1 then (UntilNone(x).0 + UntilNone(y).0, UntilNone(y).1) else UntilNone(x)
    decreases |y|
  {
    if y == [] {
      assert x + y == x;
      assert UntilNone(x).0 + [] == UntilNone(x).0;
    } else {
      var n := |y| - 1;
      assert (x + y)[..|x + y| - 1] == x + y[..n];
      assert (x + y)[|x + y| - 1] == y[n];
      UntilNoneConcat(x, y[..n]);
      if UntilNone(x).1 && UntilNone(y[..n]).1 && y[n].Some? {
        assert (UntilNone(x).0 + UntilNone(y[..n]).0) + [y[n].value] == UntilNone(x).0 + (UntilNone(y[..n]).0 + [y[n].value]);
      }
    }
  }

  /** Visiting more nodes after a complete run extends it; after a stopped run it changes nothing. */
  lemma AddedMessagesConcat(a: seq<Component>, b: seq<Component>)
    ensures AddedMessages(a + b) ==
              if AddedMessages(a).1 then (AddedMessages(a).0 + AddedMessages(b).0, AddedMessages(b).1)
              else AddedMessages(a)
  {
    AddedAttemptsConcat(a, b);
    UntilNoneConcat(AddedAttempts(a), AddedAttempts(b));
  }

  lemma {:induction false} StateMessagesConcat(a: seq<Component>, b: seq<Component>)
    ensures StateMessages(a + b) == StateMessages(a) + StateMessages(b)
    decreases |b|
  {
    if b == [] {
      assert a + b == a;
    } else {
      var n := |b| - 1;
      assert (a + b)[..|a + b| - 1] == a + b[..n];
      StateMessagesConcat(a, b[..n]);
    }
  }

  /**
   * When every node has a `data-ngid`, there is one `added` message per
   * node, in visiting order, each built from its node; otherwise the run is
   * reported incomplete.
   */
  lemma AddedMessagesSpec(nodes: seq<Component>)
    ensures AddedMessages(nodes).1 <==> forall i :: 0 <= i < |nodes| ==> ComponentID(nodes[i]).Some?
    ensures AddedMessages(nodes).1 ==>
              && |AddedMessages(nodes).0| == |nodes|
              && forall i :: 0 <= i < |nodes| ==>
                   Some(AddedMessages(nodes).0[i]) == EmitComponentEvent(Added, nodes[i])
  {
    AddedAttemptsAt(nodes);
    UntilNoneSpec(AddedAttempts(nodes));
    forall i | 0 <= i < |nodes| ensures EmitComponentEvent(Added, nodes[i]).Some? <==> ComponentID(nodes[i]).Some? {
      ComponentMessageSpec(Added, nodes[i]);
      ComponentIdSpec(nodes[i]);
    }
  }

  lemma {:induction false} AddedAttemptsAt(nodes: seq<Component>)
    ensures |AddedAttempts(nodes)| == |nodes|
    ensures forall i :: 0 <= i < |nodes| ==> AddedAttempts(nodes)[i] == EmitComponentEvent(Added, nodes[i])
  {
    if nodes != [] {
      var n := |nodes| - 1;
      var init := nodes[..n];
      AddedAttemptsAt(init);
      assert AddedAttempts(nodes) == AddedAttempts(init) + [EmitComponentEvent(Added, nodes[n])];
      forall i | 0 <= i < |nodes| ensures AddedAttempts(nodes)[i] == EmitComponentEvent(Added, nodes[i]) {
        if i < n {
          assert init[i] == nodes[i];
        }
      }
    }
  }

  /** A run completes exactly when no value is missing, and then it holds every value in order. */
  lemma {:induction false} UntilNoneSpec<T>(xs: seq<Option<T>>)
    ensures UntilNone(xs).1 <==> forall i :: 0 <= i < |xs| ==> xs[i].Some?
    ensures UntilNone(xs).1 ==> |UntilNone(xs).0| == |xs| && forall i :: 0 <= i < |xs| ==> Some(UntilNone(xs).0[i]) == xs[i]
  {
    if xs != [] {
      var n := |xs| - 1;
      UntilNoneSpec(xs[..n]);
      assert forall i :: 0 <= i < n ==> xs[..n][i] == xs[i];
    }
  }

  /** One state message per node, in visiting order, each for its node with no previous state. */
  lemma {:induction false} StateMessagesSpec(nodes: seq<Component>)
    ensures |StateMessages(nodes)| == |nodes|
    ensures forall i :: 0 <= i < |nodes| ==> StateMessages(nodes)[i] == StateEvent(nodes[i].nativeElement, None, nodes[i].state)
  {
    if nodes != [] {
      var n := |nodes| - 1;
      StateMessagesSpec(nodes[..n]);
      assert forall i :: 0 <= i < n ==> nodes[..n][i] == nodes[i];
    }
  }

  /**
   * `attachComponents` on a tree whose nodes all carry a `data-ngid` emits
   * exactly one `added` message per node, for the nodes in pre-order, the
   * first being the tree root.
   */
  lemma AttachComponentsMessages(t: Component)
    requires forall i :: 0 <= i < |PreOrder(t)| ==> ComponentID(PreOrder(t)[i]).Some?
    ensures |AddedMessages(PreOrder(t)).0| == Size(t) == |PreOrder(t)|
    ensures AddedMessages(PreOrder(t)).0[0].component.ref == t.nativeElement
    ensures forall i :: 0 <= i < Size(t) ==>
              && AddedMessages(PreOrder(t)).0[i].eventType == Added
              && AddedMessages(PreOrder(t)).0[i].component.ref == PreOrder(t)[i].nativeElement
              && AddedMessages(PreOrder(t)).0[i].component.id == ComponentID(PreOrder(t)[i]).value
  {
    PreOrderSize(t);
    AddedMessagesSpec(PreOrder(t));
  }

  /** `attachState` emits one state message per node in pre-order, each with no previous state. */
  lemma AttachStateMessages(t: Component)
    ensures |StateMessages(PreOrder(t))| == Size(t) == |PreOrder(t)|
    ensures StateMessages(PreOrder(t))[0].componentRef == t.nativeElement
    ensures forall i :: 0 <= i < Size(t) ==>
              && StateMessages(PreOrder(t))[i].prev == None
              && StateMessages(PreOrder(t))[i].componentRef == PreOrder(t)[i].nativeElement
              && StateMessages(PreOrder(t))[i].next == PreOrder(t)[i].state
  {
    PreOrderSize(t);
    StateMessagesSpec(PreOrder(t));
  }

  /**
   * `attachComponents(stream, treeRoot)`: `traverseTree` with the callback
   * that pushes an `added` message for each node; `ok` is false where a
   * node without `data-ngid` ends the walk with a `TypeError`.
   */
  method AttachComponents(stream: Rx.Subject<ComponentMessage>, treeRoot: Component) returns (ok: bool)
    modifies stream
    ensures stream.log == old(stream.log) + AddedMessages(PreOrder(treeRoot)).0
    ensures ok == AddedMessages(PreOrder(treeRoot)).1
    decreases treeRoot
  {
    var message := EmitComponentEvent(Added, treeRoot);
    AddedMessagesHead(treeRoot);
    if message.None? {
      return false;
    }
    stream.OnNext(message.value);
    var children := treeRoot.children;
    var i := 0;
    while i < |children|
      invariant 0 <= i <= |children|
      invariant AddedMessages(Visited(treeRoot, i)).1
      invariant stream.log == old(stream.log) + AddedMessages(Visited(treeRoot, i)).0
    {
      ghost var before := stream.log;
      ok := AttachComponents(stream, children[i]);
      AddedMessagesStep(old(stream.log), treeRoot, i, before, stream.log, ok);
      if !ok {
        AddedMessagesStopped(treeRoot, i + 1);
        return;
      }
      i := i + 1;
    }
    VisitedAll(treeRoot);
    ok := true;
  }

  /**
   * `attachState(stream, treeRoot)`: `traverseTree` with the callback that
   * pushes a state message for each node.
   */
  method AttachState(stream: Rx.Subject<StateEvent>, treeRoot: Component)
    modifies stream
    ensures stream.log == old(stream.log) + StateMessages(PreOrder(treeRoot))
    decreases treeRoot
  {
    stream.OnNext(EmitStateEvent(treeRoot));
    var children := treeRoot.children;
    StateMessagesHead(treeRoot);
    var i := 0;
    while i < |children|
      invariant 0 <= i <= |children|
      invariant stream.log == old(stream.log) + StateMessages(Visited(treeRoot, i))
    {
      ghost var before := stream.log;
      AttachState(stream, children[i]);
      StateMessagesStep(old(stream.log), treeRoot, i, before, stream.log);
      i := i + 1;
    }
    VisitedAll(treeRoot);
  }

  // Single steps of the walks, each stated for the visiting order they extend.

  /** The nodes visited once the entry node and the subtrees of its first `i` children are done. */
  function Visited(t: Component, i: nat): seq<Component>
    requires i <= |t.children|
  {
    [t] + PreOrderList(t.children[..i])
  }

  lemma VisitedAll(t: Component)
    ensures Visited(t, |t.children|) == PreOrder(t)
  {
    assert t.children[..|t.children|] == t.children;
  }

  lemma VisitedStep(t: Component, i: nat)
    requires i < |t.children|
    ensures Visited(t, i + 1) == Visited(t, i) + PreOrder(t.children[i])
  {
    assert t.children[..i + 1][..i] == t.children[..i];
  }

  /** What is left after the first `i` children is visited after `Visited(t, i)`. */
  lemma VisitedRest(t: Component, i: nat)
    requires i <= |t.children|
    ensures PreOrder(t) == Visited(t, i) + PreOrderList(t.children[i..])
  {
    var cs := t.children;
    assert cs == cs[..i] + cs[i..];
    PreOrderListConcat(cs[..i], cs[i..]);
  }

  lemma AddedMessagesHead(t: Component)
    ensures EmitComponentEvent(Added, t).Some? ==>
              AddedMessages(Visited(t, 0)) == ([EmitComponentEvent(Added, t).value], true)
    ensures EmitComponentEvent(Added, t).None? ==> AddedMessages(PreOrder(t)) == ([], false)
  {
    var e := EmitComponentEvent(Added, t);
    assert Visited(t, 0) == [t] by {
      assert t.children[..0] == [];
    }
    assert AddedAttempts([t]) == [e] by {
      assert [t][..0] == [];
    }
    UntilNoneSingle(e);
    AddedMessagesConcat([t], PreOrderList(t.children));
  }

  lemma UntilNoneSingle<T>(e: Option<T>)
    ensures UntilNone([e]) == if e.Some? then ([e.value], true) else ([], false)
  {
    assert [e][..0] == [];
    assert UntilNone([e][..0]) == ([], true);
    if e.Some? {
      assert [] + [e.value] == [e.value];
    }
  }

  lemma AddedMessagesStep(start: seq<ComponentMessage>, t: Component, i: nat,
                          before: seq<ComponentMessage>, log: seq<ComponentMessage>, ok: bool)
    requires i < |t.children|
    requires AddedMessages(Visited(t, i)).1
    requires before == start + AddedMessages(Visited(t, i)).0
    requires log == before + AddedMessages(PreOrder(t.children[i])).0
    requires ok == AddedMessages(PreOrder(t.children[i])).1
    ensures log == start + AddedMessages(Visited(t, i + 1)).0
    ensures ok == AddedMessages(Visited(t, i + 1)).1
  {
    var v, c := Visited(t, i), PreOrder(t.children[i]);
    assert Visited(t, i + 1) == v + c by {
      VisitedStep(t, i);
    }
    AddedMessagesConcat(v, c);
  }

  /** Once the run has stopped, the rest of the tree adds nothing. */
  lemma AddedMessagesStopped(t: Component, i: nat)
    requires i <= |t.children|
    requires !AddedMessages(Visited(t, i)).1
    ensures AddedMessages(PreOrder(t)) == AddedMessages(Visited(t, i))
  {
    var w, rest := Visited(t, i), PreOrderList(t.children[i..]);
    assert PreOrder(t) == w + rest by {
      VisitedRest(t, i);
    }
    AddedMessagesConcat(w, rest);
  }

  lemma StateMessagesHead(t: Component)
    ensures StateMessages(Visited(t, 0)) == [EmitStateEvent(t)]
  {
    assert t.children[..0] == [];
    assert Visited(t, 0) == [t];
    assert [t][..0] == [];
  }

  lemma StateMessagesStep(start: seq<StateEvent>, t: Component, i: nat, before: seq<StateEvent>, log: seq<StateEvent>)
    requires i < |t.children|
    requires before == start + StateMessages(Visited(t, i))
    requires log == before + StateMessages(PreOrder(t.children[i]))
    ensures log == start + StateMessages(Visited(t, i + 1))
  {
    VisitedStep(t, i);
    StateMessagesConcat(Visited(t, i), PreOrder(t.children[i]));
  }
}
