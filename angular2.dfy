/**
 * The Angular 2 adapter: recognises root components by their `ngid`
 * attributes, walks a component tree broadcasting ROOT for the entry node
 * and ADD for every descendant, and classifies batches of DOM mutation
 * records into adapter calls.
 */
module Angular2 {
  import opened Wrappers
  import opened Platform
  import opened Events
  import opened Base

  const NgIdProperty: string := "ngid"
  const NgIdSeparator: string := "#"

  // ---------------------------------------------------------------------------
  // Root selector and root predicate
  // ---------------------------------------------------------------------------

  /** A CSS attribute selector `[attr$='suffix']`: the attribute's value ends with `suffix`. */
  datatype Selector = AttrSuffix(attr: string, suffix: string)

  /** The selector's CSS text. */
  function SelectorText(sel: Selector): string
  {
    "[" + sel.attr + "$='" + sel.suffix + "']"
  }

  /** Index of the first `c` in `s`. */
  function IndexOfChar(s: string, c: char): (r: Option<nat>)
    ensures r.None? <==> c !in s
    ensures r.Some? ==> r.value < |s| && s[r.value] == c && c !in s[..r.value]
  {
    if s == [] then None
    else if s[0] == c then Some(0)
    else match IndexOfChar(s[1..], c)
      case None => None
      case Some(i) =>
        assert s[..i + 1] == [s[0]] + s[1..][..i];
        Some(i + 1)
  }

  /** Reads back the attribute name and suffix of a selector text of the form `[attr$='suffix']`. */
  function ParseSelector(text: string): Option<Selector>
  {
    if |text| < 3 || text[0] != '[' || text[|text| - 2..] != "']" then None
    else ParseInner(text[1..|text| - 2])
  }

  /** Reads back `attr$='suffix`: the attribute name ends at the first `$`. */
  function ParseInner(inner: string): Option<Selector>
  {
    match IndexOfChar(inner, '$')
    case None => None
    case Some(i) =>
      var rest := inner[i..];
      if |rest| >= 3 && rest[..3] == "$='" then Some(AttrSuffix(inner[..i], rest[3..])) else None
  }

  /** The first `c` of `s` is at `k` when `s[k]` is `c` and no earlier character is. */
  lemma IndexOfCharAt(s: string, c: char, k: nat)
    requires k < |s| && s[k] == c && c !in s[..k]
    ensures IndexOfChar(s, c) == Some(k)
  {
    var r := IndexOfChar(s, c);
    assert c in s;
    forall j | 0 <= j < k ensures s[j] != c {
      assert s[..k][j] == s[j];
    }
    forall j | 0 <= j < r.value ensures s[j] != c {
      assert s[..r.value][j] == s[j];
    }
  }

  /** The three parts of a concatenation can be sliced back out of it. */
  lemma SliceParts(x: string, y: string, z: string)
    ensures (x + y + z)[..|x|] == x
    ensures (x + y + z)[|x|..|x| + |y|] == y
    ensures (x + y + z)[|x| + |y|..] == z
  {
  }

  /** Rendering a selector whose attribute name has no `$` and parsing the text gives the selector back. */
  lemma SelectorTextRoundTrip(sel: Selector)
    requires '$' !in sel.attr
    ensures ParseSelector(SelectorText(sel)) == Some(sel)
  {
    var inner := sel.attr + ("$='" + sel.suffix);
    calc {
      ParseSelector(SelectorText(sel));
      { assert SelectorText(sel) == "[" + inner + "']"; }
      ParseSelector("[" + inner + "']");
      { BracketsRoundTrip(inner); }
      ParseInner(inner);
      { InnerRoundTrip(sel.attr, "$='" + sel.suffix, sel.suffix); }
      Some(sel);
    }
  }

  lemma BracketsRoundTrip(inner: string)
    ensures ParseSelector("[" + inner + "']") == ParseInner(inner)
  {
    var text := "[" + inner + "']";
    SliceParts("[", inner, "']");
    assert |text| >= 3 && text[0] == '[' && text[|text| - 2..] == "']" && text[1..|text| - 2] == inner;
  }

  lemma InnerRoundTrip(attr: string, tail: string, suffix: string)
    requires '$' !in attr && tail == "$='" + suffix
    ensures ParseInner(attr + tail) == Some(AttrSuffix(attr, suffix))
  {
    var inner := attr + tail;
    assert inner[..|attr|] == attr && inner[|attr|..] == tail by {
      SliceParts(attr, tail, "");
      assert inner + "" == inner;
    }
    IndexOfCharAt(inner, '$', |attr|);
    assert |tail| >= 3 && tail[..3] == "$='" && tail[3..] == suffix by {
      SliceParts("$='", suffix, "");
      assert tail + "" == tail;
    }
  }

  /** `_rootSelector()`: elements whose `data-ngid` ends with the separator then `0`. */
  function RootSelector(): Selector
  {
    AttrSuffix("data-" + NgIdProperty, NgIdSeparator + "0")
  }

  /** The root selector's text is `[data-ngid$='#0']`, and that text reads back to the root selector. */
  lemma RootSelectorText()
    ensures RootSelector() == AttrSuffix("data-ngid", "#0")
    ensures SelectorText(RootSelector()) == "[data-ngid$='#0']"
    ensures ParseSelector("[data-ngid$='#0']") == Some(RootSelector())
  {
    var sel := AttrSuffix("data-ngid", "#0");
    assert RootSelector() == sel;
    assert SelectorText(sel) == "[data-ngid$='#0']";
    assert '$' !in sel.attr by {
      assert forall i :: 0 <= i < |sel.attr| ==> sel.attr[i] != '$';
    }
    SelectorTextRoundTrip(sel);
  }

  predicate EndsWith(s: string, suffix: string)
  {
    |suffix| <= |s| && s[|s| - |suffix|..] == suffix
  }

  /**
   * `el.matches(sel)` for an attribute-suffix selector: the attribute is
   * present and its value ends with the (non-empty) suffix.
   */
  predicate SelectorMatches(el: Element, sel: Selector)
  {
    match GetAttribute(el, sel.attr)
    case None => false
    case Some(v) => sel.suffix != "" && EndsWith(v, sel.suffix)
  }

  /** `_isRootNode(el)`: a non-empty `ngid` attribute, and the root selector matches. */
  predicate IsRootNode(el: Element)
  {
    match GetAttribute(el, NgIdProperty)
    case None => false
    case Some(id) => if id == "" then false else SelectorMatches(el, RootSelector())
  }

  /** An element is a root node exactly when it has a non-empty `ngid` and its `data-ngid` ends with `#0`. */
  lemma IsRootNodeIff(el: Element)
    ensures IsRootNode(el) <==>
              && GetAttribute(el, "ngid").Some? && GetAttribute(el, "ngid").value != ""
              && GetAttribute(el, "data-ngid").Some? && EndsWith(GetAttribute(el, "data-ngid").value, "#0")
  {
    assert RootSelector() == AttrSuffix("data-ngid", "#0");
  }

  // ---------------------------------------------------------------------------
  // Mutation classification
  // ---------------------------------------------------------------------------

  /** A DOM `MutationRecord`, reduced to what `_handleChanges` reads. */
  datatype Mutation =
    | Attributes(target: Element)
    | ChildList(addedNodes: seq<Element>, removedNodes: seq<Element>)
    | CharacterData(target: Element)
    | Other(kind: string)

  /** The adapter method a classified node is handed to. */
  datatype Call =
    | AddRoot(el: Element)
    | AddChild(el: Element)
    | ChangeComponent(el: Element)
    | RemoveRoot(el: Element)
    | RemoveChild(el: Element)

  /** `_handleNodeAddition`: a root node goes to `addRoot`, any other to `addChild`. */
  function NodeAddition(el: Element): Call
  {
    if IsRootNode(el) then AddRoot(el) else AddChild(el)
  }

  /** `_handleNodeRemoval`: a root node goes to `removeRoot`, any other to `removeChild`. */
  function NodeRemoval(el: Element): Call
  {
    if IsRootNode(el) then RemoveRoot(el) else RemoveChild(el)
  }

  /** `additions.forEach(this._handleNodeAddition)`. */
  function Additions(nodes: seq<Element>): seq<Call>
  {
    if nodes == [] then [] else Additions(nodes[..|nodes| - 1]) + [NodeAddition(nodes[|nodes| - 1])]
  }

  /** `removals.forEach(this._handleNodeRemoval)`. */
  function Removals(nodes: seq<Element>): seq<Call>
  {
    if nodes == [] then [] else Removals(nodes[..|nodes| - 1]) + [NodeRemoval(nodes[|nodes| - 1])]
  }

  /** Every added node is handed on, in order, to the method its root-ness selects. */
  lemma {:induction false} AdditionsAt(nodes: seq<Element>)
    ensures |Additions(nodes)| == |nodes|
    ensures forall i :: 0 <= i < |nodes| ==>
              Additions(nodes)[i] == NodeAddition(nodes[i])
    decreases |nodes|
  {
    if nodes != [] {
      var n := |nodes| - 1;
      AdditionsAt(nodes[..n]);
      assert forall i :: 0 <= i < n ==> nodes[..n][i] == nodes[i];
    }
  }

  /** Every removed node is handed on, in order, to the method its root-ness selects. */
  lemma {:induction false} RemovalsAt(nodes: seq<Element>)
    ensures |Removals(nodes)| == |nodes|
    ensures forall i :: 0 <= i < |nodes| ==>
              Removals(nodes)[i] == NodeRemoval(nodes[i])
    decreases |nodes|
  {
    if nodes != [] {
      var n := |nodes| - 1;
      RemovalsAt(nodes[..n]);
      assert forall i :: 0 <= i < n ==> nodes[..n][i] == nodes[i];
    }
  }

  /** The calls one mutation record leads to. */
  function Classify(m: Mutation): seq<Call>
  {
    match m
    case Attributes(target) => [ChangeComponent(target)]
    case ChildList(added, removed) => Additions(added) + Removals(removed)
    case CharacterData(_) => []
    case Other(_) => []
  }

  /** Each added node handed on by itself, in order: the reference for `Additions`. */
  function AddedCalls(nodes: seq<Element>): seq<Call>
  {
    seq(|nodes|, i requires 0 <= i < |nodes| => NodeAddition(nodes[i]))
  }

  /** Each removed node handed on by itself, in order: the reference for `Removals`. */
  function RemovedCalls(nodes: seq<Element>): seq<Call>
  {
    seq(|nodes|, i requires 0 <= i < |nodes| => NodeRemoval(nodes[i]))
  }

  /**
   * An attribute change is one `changeComponent`; a child-list record is
   * its additions in order followed by its removals in order; any other
   * record yields no call.
   */
  lemma ClassifyShape(m: Mutation)
    ensures m.Attributes? ==> Classify(m) == [ChangeComponent(m.target)]
    ensures m.ChildList? ==> Classify(m) == AddedCalls(m.addedNodes) + RemovedCalls(m.removedNodes)
    ensures m.CharacterData? || m.Other? ==> Classify(m) == []
  {
    if m.ChildList? {
      AdditionsAt(m.addedNodes);
      RemovalsAt(m.removedNodes);
      assert Additions(m.addedNodes) == AddedCalls(m.addedNodes);
      assert Removals(m.removedNodes) == RemovedCalls(m.removedNodes);
    }
  }

  /** The calls of each record of a batch, record by record. */
  function Classified(ms: seq<Mutation>): seq<seq<Call>>
  {
    if ms == [] then [] else Classified(ms[..|ms| - 1]) + [Classify(ms[|ms| - 1])]
  }

  function Flatten<T>(ss: seq<seq<T>>): seq<T>
  {
    if ss == [] then [] else Flatten(ss[..|ss| - 1]) + ss[|ss| - 1]
  }

  /** The calls `_handleChanges` makes for a batch: those of each record, in order. */
  function ClassifyBatch(ms: seq<Mutation>): seq<Call>
  {
    Flatten(Classified(ms))
  }

  /** Classifying one more record appends that record's calls. */
  lemma ClassifyBatchSnoc(ms: seq<Mutation>, m: Mutation)
    ensures ClassifyBatch(ms + [m]) == ClassifyBatch(ms) + Classify(m)
  {
    var ms' := ms + [m];
    assert ms'[..|ms'| - 1] == ms;
    var cs := Classified(ms');
    assert cs == Classified(ms) + [Classify(m)];
    assert cs[..|cs| - 1] == Classified(ms);
  }

  /** A batch is classified as the in-order concatenation of its parts. */
  lemma ClassifyBatchConcat(a: seq<Mutation>, b: seq<Mutation>)
    ensures ClassifyBatch(a + b) == ClassifyBatch(a) + ClassifyBatch(b)
  {
    ClassifiedConcat(a, b);
    FlattenConcat(Classified(a), Classified(b));
  }

  lemma {:induction false} ClassifiedConcat(a: seq<Mutation>, b: seq<Mutation>)
    ensures Classified(a + b) == Classified(a) + Classified(b)
    decreases |b|
  {
    if b == [] {
      assert a + b == a;
    } else {
      var n := |b| - 1;
      assert (a + b)[..|a + b| - 1] == a + b[..n];
      ClassifiedConcat(a, b[..n]);
    }
  }

  lemma {:induction false} FlattenConcat<T>(x: seq<seq<T>>, y: seq<seq<T>>)
    ensures Flatten(x + y) == Flatten(x) + Flatten(y)
    decreases |y|
  {
    if y == [] {
      assert x + y == x;
    } else {
      var n := |y| - 1;
      assert (x + y)[..|x + y| - 1] == x + y[..n];
      FlattenConcat(x, y[..n]);
    }
  }

  /** A text-content or unknown mutation yields nothing and does not stop the rest of the batch. */
  lemma IgnoredMutationTransparent(before: seq<Mutation>, m: Mutation, after: seq<Mutation>)
    requires m.CharacterData? || m.Other?
    ensures ClassifyBatch(before + [m] + after) == ClassifyBatch(before) + ClassifyBatch(after)
  {
    ClassifyBatchConcat(before + [m], after);
    ClassifyBatchSnoc(before, m);
    assert Classify(m) == [];
    assert ClassifyBatch(before + [m]) == ClassifyBatch(before);
  }

  /** The event each call broadcasts; both kinds of removal go through `removeComponent`. */
  function EventOf(c: Call): (e: AdapterEvent)
    ensures e.node == c.el
  {
    match c
    case AddRoot(el) => EventFor(ROOT, el)
    case AddChild(el) => EventFor(ADD, el)
    case ChangeComponent(el) => EventFor(CHANGE, el)
    case RemoveRoot(el) => EventFor(REMOVE, el)
    case RemoveChild(el) => EventFor(REMOVE, el)
  }

  function EventsOf(cs: seq<Call>): seq<AdapterEvent>
  {
    if cs == [] then [] else EventsOf(cs[..|cs| - 1]) + [EventOf(cs[|cs| - 1])]
  }

  predicate IsRemoval(c: Call)
  {
    c.RemoveRoot? || c.RemoveChild?
  }

  /**
   * What the calls broadcast when `removeRoot` and `removeChild` do not
   * exist: the events of the calls before the first removal, and whether a
   * removal was reached (where the `TypeError` ends the batch).
   */
  function EventsAsWritten(cs: seq<Call>): (r: (seq<AdapterEvent>, bool))
    ensures r.1 <==> exists i :: 0 <= i < |cs| && IsRemoval(cs[i])
    ensures !r.1 ==> r.0 == EventsOf(cs)
  {
    if cs == [] then ([], false)
    else
      var n := |cs| - 1;
      var before := EventsAsWritten(cs[..n]);
      assert forall i :: 0 <= i < n ==> cs[..n][i] == cs[i];
      if before.1 then before
      else if IsRemoval(cs[n]) then (before.0, true)
      else (before.0 + [EventOf(cs[n])], false)
  }

  /**
   * As written, the first removal ends the run: the broadcast events are
   * exactly those of the calls before the first removal, and the batch is
   * cut short there.
   */
  lemma {:induction false} EventsAsWrittenStops(cs: seq<Call>, i: nat)
    requires i < |cs| && IsRemoval(cs[i])
    requires forall j :: 0 <= j < i ==> !IsRemoval(cs[j])
    ensures EventsAsWritten(cs) == (EventsOf(cs[..i]), true)
    decreases |cs|
  {
    var n := |cs| - 1;
    var init := cs[..n];
    if i == n {
      assert forall j :: 0 <= j < n ==> !IsRemoval(init[j]);
      assert EventsAsWritten(init) == (EventsOf(init), false);
    } else {
      assert IsRemoval(init[i]) && forall j :: 0 <= j < i ==> init[j] == cs[j];
      EventsAsWrittenStops(init, i);
      assert init[..i] == cs[..i];
    }
  }

  /**
   * As written, any removed node ends the batch with a TypeError: a batch
   * whose first record removes an element and whose second changes an
   * attribute broadcasts nothing, where the intended classification
   * broadcasts a REMOVE and then a CHANGE.
   */
  lemma RemovalAbortsBatchAsWritten(gone: Element, changed: Element)
    ensures var ms := [ChildList([], [gone]), Attributes(changed)];
            && EventsAsWritten(ClassifyBatch(ms)) == ([], true)
            && EventsOf(ClassifyBatch(ms)) == [EventFor(REMOVE, gone), EventFor(CHANGE, changed)]
  {
    var cs := [NodeRemoval(gone), ChangeComponent(changed)];
    RemoveThenChange(gone, changed);
    EventsOfAt(cs);
    assert IsRemoval(cs[0]);
  }

  lemma RemoveThenChange(gone: Element, changed: Element)
    ensures ClassifyBatch([ChildList([], [gone]), Attributes(changed)]) == [NodeRemoval(gone), ChangeComponent(changed)]
  {
    var first, second := ChildList([], [gone]), Attributes(changed);
    assert [gone][..0] == [];
    assert Removals([gone]) == [NodeRemoval(gone)];
    assert Classify(first) == [NodeRemoval(gone)];
    assert [] + [first] == [first];
    ClassifyBatchSnoc([], first);
    ClassifyBatchSnoc([first], second);
    assert [first] + [second] == [first, second];
  }

  // ---------------------------------------------------------------------------
  // Tree walk
  // ---------------------------------------------------------------------------

  /** The callback invocations `(node, isRoot)` of `_traverseTree(compEl, cb, isRoot)`. */
  function Calls(t: Component, isRoot: bool): seq<(Component, bool)>
  {
    [(t, isRoot)] + CallsList(t.children)
  }

  /** The invocations of the recursive calls on each child, which pass no `isRoot`. */
  function CallsList(cs: seq<Component>): seq<(Component, bool)>
  {
    if cs == [] then [] else CallsList(cs[..|cs| - 1]) + Calls(cs[|cs| - 1], false)
  }

  /**
   * The walk invokes the callback once per node, in pre-order, and only
   * the entry invocation carries the caller's `isRoot`.
   */
  lemma {:induction false} CallsShape(t: Component, isRoot: bool)
    ensures |Calls(t, isRoot)| == |PreOrder(t)|
    ensures forall i :: 0 <= i < |PreOrder(t)| ==> Calls(t, isRoot)[i] == (PreOrder(t)[i], i == 0 && isRoot)
  {
    CallsListShape(t.children);
    var c, p := Calls(t, isRoot), PreOrder(t);
    forall i | 0 <= i < |p| ensures c[i] == (p[i], i == 0 && isRoot) {
      if i > 0 {
        assert c[i] == CallsList(t.children)[i - 1];
        assert p[i] == PreOrderList(t.children)[i - 1];
      }
    }
  }

  lemma {:induction false} CallsListShape(cs: seq<Component>)
    ensures |CallsList(cs)| == |PreOrderList(cs)|
    ensures forall i :: 0 <= i < |PreOrderList(cs)| ==> CallsList(cs)[i] == (PreOrderList(cs)[i], false)
  {
    if cs != [] {
      var n := |cs| - 1;
      CallsListShape(cs[..n]);
      CallsShape(cs[n], false);
      var a, b := CallsList(cs[..n]), Calls(cs[n], false);
      var pa, pb := PreOrderList(cs[..n]), PreOrder(cs[n]);
      forall i | 0 <= i < |pa + pb| ensures (a + b)[i] == ((pa + pb)[i], false) {
        if i >= |a| {
          assert (a + b)[i] == b[i - |a|] && (pa + pb)[i] == pb[i - |a|];
        }
      }
    }
  }

  /** `_emitNativeElement(compEl, isRoot)`. */
  function NativeCall(compEl: Component, isRoot: bool): Call
  {
    if isRoot then AddRoot(compEl.nativeElement) else AddChild(compEl.nativeElement)
  }

  function WalkEvents(calls: seq<(Component, bool)>): seq<AdapterEvent>
  {
    if calls == [] then []
    else WalkEvents(calls[..|calls| - 1]) + [EventOf(NativeCall(calls[|calls| - 1].0, calls[|calls| - 1].1))]
  }

  /**
   * A walk broadcasts one event per tree node, for the nodes' native
   * elements in pre-order; the entry event is ROOT exactly when `isRoot`
   * is set and every other event is ADD.
   */
  lemma TraversalEvents(t: Component, isRoot: bool)
    ensures |WalkEvents(Calls(t, isRoot))| == Size(t) == |PreOrder(t)|
    ensures forall i :: 0 <= i < Size(t) ==>
              && WalkEvents(Calls(t, isRoot))[i].node == PreOrder(t)[i].nativeElement
              && KindOf(WalkEvents(Calls(t, isRoot))[i].eventType) == Some(if i == 0 && isRoot then ROOT else ADD)
  {
    CallsShape(t, isRoot);
    PreOrderSize(t);
    WalkEventsAt(Calls(t, isRoot));
  }

  /** The invocations `roots.forEach(root => this._traverseTree(root, cb, flag))` makes. */
  function ForestCalls(roots: seq<Component>, flag: bool): seq<(Component, bool)>
  {
    if roots == [] then [] else ForestCalls(roots[..|roots| - 1], flag) + Calls(roots[|roots| - 1], flag)
  }

  /**
   * As written, `setup` hands `true` to `forEach` as its `thisArg`, so every
   * walk starts with no `isRoot`: a root with two children broadcasts ADD
   * three times, where the intended walk broadcasts ROOT, ADD, ADD.
   */
  lemma SetupAsWrittenEmitsNoRoot(root: Component, a: Component, b: Component)
    requires a.children == [] && b.children == [] && root.children == [a, b]
    ensures WalkEvents(ForestCalls([root], false)) ==
              [EventFor(ADD, root.nativeElement), EventFor(ADD, a.nativeElement), EventFor(ADD, b.nativeElement)]
    ensures WalkEvents(ForestCalls([root], true)) ==
              [EventFor(ROOT, root.nativeElement), EventFor(ADD, a.nativeElement), EventFor(ADD, b.nativeElement)]
  {
    assert [root][..0] == [];
    assert ForestCalls([root], false) == Calls(root, false);
    assert ForestCalls([root], true) == Calls(root, true);
    TwoLeafWalk(root, a, b, false);
    TwoLeafWalk(root, a, b, true);
  }

  lemma TwoLeafWalk(root: Component, a: Component, b: Component, isRoot: bool)
    requires a.children == [] && b.children == [] && root.children == [a, b]
    ensures WalkEvents(Calls(root, isRoot)) ==
              [EventOf(NativeCall(root, isRoot)), EventOf(NativeCall(a, false)), EventOf(NativeCall(b, false))]
  {
    assert [a, b][..1] == [a] && [a, b][..1][..0] == [];
    assert CallsList(a.children) == [] && CallsList(b.children) == [];
    assert Calls(a, false) == [(a, false)] + CallsList(a.children);
    assert Calls(b, false) == [(b, false)] + CallsList(b.children);
    assert CallsList([a]) == [(a, false)];
    assert CallsList([a, b]) == [(a, false), (b, false)];
    WalkEventsAt(Calls(root, isRoot));
  }

  // ---------------------------------------------------------------------------
  // The adapter
  // ---------------------------------------------------------------------------

  /** `Angular2Adapter extends BaseAdapter`: the inherited part is held as `base`. */
  class Angular2Adapter {
    const base: BaseAdapter

    constructor()
      ensures fresh(base) && fresh(base.stream) && base.stream.log == []
    {
      base := new BaseAdapter();
    }

    /** Hands a classified node to the base emitter; both removals use `removeComponent`. */
    method Perform(c: Call)
      modifies base.stream
      ensures base.stream.log == old(base.stream.log) + [EventOf(c)]
    {
      match c
      case AddRoot(el) => base.AddRoot(el);
      case AddChild(el) => base.AddChild(el);
      case ChangeComponent(el) => base.ChangeComponent(el);
      case RemoveRoot(el) => base.RemoveComponent(el);
      case RemoveChild(el) => base.RemoveComponent(el);
    }

    /** `_emitNativeElement(compEl, isRoot)`. */
    method EmitNativeElement(compEl: Component, isRoot: bool)
      modifies base.stream
      ensures base.stream.log == old(base.stream.log) + [EventOf(NativeCall(compEl, isRoot))]
    {
      if isRoot {
        base.AddRoot(compEl.nativeElement);
        return;
      }
      base.AddChild(compEl.nativeElement);
    }

    /** `_traverseTree(compEl, this._emitNativeElement, isRoot)`. */
    method TraverseTree(compEl: Component, isRoot: bool)
      modifies base.stream
      ensures base.stream.log == old(base.stream.log) + WalkEvents(Calls(compEl, isRoot))
      decreases compEl
    {
      EmitNativeElement(compEl, isRoot);
      var children := compEl.children;
      WalkPrefixStart(compEl, isRoot);
      if |children| == 0 {
        WalkPrefixEnd(compEl, isRoot);
        return;
      }
      var i := 0;
      while i < |children|
        invariant 0 <= i <= |children|
        invariant base.stream.log == old(base.stream.log) + WalkPrefix(compEl, isRoot, i)
      {
        TraverseTree(children[i], false);
        WalkPrefixStep(compEl, isRoot, i);
        i := i + 1;
      }
      WalkPrefixEnd(compEl, isRoot);
    }

    /** `setup()` with the walk's `isRoot` set, as intended; the observers it attaches are not modelled. */
    method Setup(roots: seq<Component>)
      modifies base.stream
      ensures base.stream.log == old(base.stream.log) + WalkEvents(ForestCalls(roots, true))
    {
      var i := 0;
      while i < |roots|
        invariant 0 <= i <= |roots|
        invariant base.stream.log == old(base.stream.log) + WalkEvents(ForestCalls(roots[..i], true))
      {
        TraverseTree(roots[i], true);
        SetupStep(old(base.stream.log), roots, i, base.stream.log);
        i := i + 1;
      }
      assert roots[..i] == roots;
    }

    /** `_handleNodeAddition(node)`. */
    method HandleNodeAddition(el: Element)
      modifies base.stream
      ensures base.stream.log == old(base.stream.log) + [EventOf(NodeAddition(el))]
    {
      if IsRootNode(el) {
        base.AddRoot(el);
        return;
      }
      base.AddChild(el);
    }

    /** `_handleNodeRemoval(node)`, with the removal broadcast through `removeComponent`. */
    method HandleNodeRemoval(el: Element)
      modifies base.stream
      ensures base.stream.log == old(base.stream.log) + [EventOf(NodeRemoval(el))]
    {
      Perform(NodeRemoval(el));
    }

    /** The `childList` case of `_handleChanges`: every added node, then every removed node. */
    method HandleChildList(additions: seq<Element>, removals: seq<Element>)
      modifies base.stream
      ensures base.stream.log == old(base.stream.log) + EventsOf(Additions(additions) + Removals(removals))
    {
      var a := 0;
      while a < |additions|
        invariant 0 <= a <= |additions|
        invariant base.stream.log == old(base.stream.log) + EventsOf(Additions(additions[..a]))
      {
        HandleNodeAddition(additions[a]);
        AdditionStep(old(base.stream.log), additions, a, base.stream.log);
        a := a + 1;
      }
      assert additions[..a] == additions;
      assert removals[..0] == [];
      RemovalStart(old(base.stream.log), Additions(additions), base.stream.log);
      var r := 0;
      while r < |removals|
        invariant 0 <= r <= |removals|
        invariant base.stream.log == old(base.stream.log) + EventsOf(Additions(additions) + Removals(removals[..r]))
      {
        HandleNodeRemoval(removals[r]);
        RemovalStep(old(base.stream.log), Additions(additions), removals, r, base.stream.log);
        r := r + 1;
      }
      assert removals[..r] == removals;
    }

    /** The body of the `forEach` callback in `_handleChanges`, for one record. */
    method HandleMutation(mutation: Mutation)
      modifies base.stream
      ensures base.stream.log == old(base.stream.log) + EventsOf(Classify(mutation))
    {
      match mutation {
        case Attributes(target) =>
          base.ChangeComponent(target);
          assert [ChangeComponent(target)][..0] == [];
        case ChildList(additions, removals) =>
          HandleChildList(additions, removals);
        case CharacterData(_) =>
        case Other(_) =>
      }
    }

    /** `_handleChanges(mutations)`: every record of the batch, in delivery order. */
    method HandleChanges(mutations: seq<Mutation>)
      modifies base.stream
      ensures base.stream.log == old(base.stream.log) + EventsOf(ClassifyBatch(mutations))
    {
      var j := 0;
      while j < |mutations|
        invariant 0 <= j <= |mutations|
        invariant base.stream.log == old(base.stream.log) + EventsOf(ClassifyBatch(mutations[..j]))
      {
        HandleMutation(mutations[j]);
        BatchStep(old(base.stream.log), mutations, j, base.stream.log);
        j := j + 1;
      }
      assert mutations[..j] == mutations;
    }
  }

  // Single loop steps of the adapter's methods, each stated for the log it extends.

  lemma SetupStep(start: seq<AdapterEvent>, roots: seq<Component>, i: nat, log: seq<AdapterEvent>)
    requires i < |roots|
    requires log == start + WalkEvents(ForestCalls(roots[..i], true)) + WalkEvents(Calls(roots[i], true))
    ensures log == start + WalkEvents(ForestCalls(roots[..i + 1], true))
  {
    assert roots[..i + 1][..i] == roots[..i];
    AppendWalks(start, ForestCalls(roots[..i], true), Calls(roots[i], true), log);
  }

  lemma AppendWalks(start: seq<AdapterEvent>, a: seq<(Component, bool)>, b: seq<(Component, bool)>, log: seq<AdapterEvent>)
    requires log == start + WalkEvents(a) + WalkEvents(b)
    ensures log == start + WalkEvents(a + b)
  {
    WalkEventsConcat(a, b);
  }

  lemma BatchStep(start: seq<AdapterEvent>, ms: seq<Mutation>, j: nat, log: seq<AdapterEvent>)
    requires j < |ms|
    requires log == start + EventsOf(ClassifyBatch(ms[..j])) + EventsOf(Classify(ms[j]))
    ensures log == start + EventsOf(ClassifyBatch(ms[..j + 1]))
  {
    assert ms[..j + 1] == ms[..j] + [ms[j]];
    ClassifyBatchSnoc(ms[..j], ms[j]);
    AppendEvents(start, ClassifyBatch(ms[..j]), Classify(ms[j]), log);
  }

  lemma AppendEvents(start: seq<AdapterEvent>, a: seq<Call>, b: seq<Call>, log: seq<AdapterEvent>)
    requires log == start + EventsOf(a) + EventsOf(b)
    ensures log == start + EventsOf(a + b)
  {
    EventsOfConcat(a, b);
  }

  lemma AdditionStep(start: seq<AdapterEvent>, nodes: seq<Element>, a: nat, log: seq<AdapterEvent>)
    requires a < |nodes|
    requires log == start + EventsOf(Additions(nodes[..a])) + [EventOf(NodeAddition(nodes[a]))]
    ensures log == start + EventsOf(Additions(nodes[..a + 1]))
  {
    var prev, c := Additions(nodes[..a]), NodeAddition(nodes[a]);
    assert Additions(nodes[..a + 1]) == prev + [c] by {
      assert nodes[..a + 1][..a] == nodes[..a];
    }
    assert EventsOf([c]) == [EventOf(c)] by {
      assert [c][..0] == [];
    }
    EventsOfConcat(prev, [c]);
  }

  lemma RemovalStart(start: seq<AdapterEvent>, calls: seq<Call>, log: seq<AdapterEvent>)
    requires log == start + EventsOf(calls)
    ensures log == start + EventsOf(calls + Removals([]))
  {
    assert calls + Removals([]) == calls;
  }

  lemma RemovalStep(start: seq<AdapterEvent>, prefix: seq<Call>, nodes: seq<Element>, r: nat, log: seq<AdapterEvent>)
    requires r < |nodes|
    requires log == start + EventsOf(prefix + Removals(nodes[..r])) + [EventOf(NodeRemoval(nodes[r]))]
    ensures log == start + EventsOf(prefix + Removals(nodes[..r + 1]))
  {
    var prev, c := Removals(nodes[..r]), NodeRemoval(nodes[r]);
    calc {
      EventsOf(prefix + Removals(nodes[..r + 1]));
      { RemovalsSnoc(nodes, r); }
      EventsOf(prefix + (prev + [c]));
      { assert prefix + (prev + [c]) == (prefix + prev) + [c]; }
      EventsOf((prefix + prev) + [c]);
      { EventsOfConcat(prefix + prev, [c]); EventsOfSingle(c); }
      EventsOf(prefix + prev) + [EventOf(c)];
    }
  }

  lemma RemovalsSnoc(nodes: seq<Element>, r: nat)
    requires r < |nodes|
    ensures Removals(nodes[..r + 1]) == Removals(nodes[..r]) + [NodeRemoval(nodes[r])]
  {
    assert nodes[..r + 1][..r] == nodes[..r];
  }

  lemma EventsOfSingle(c: Call)
    ensures EventsOf([c]) == [EventOf(c)]
  {
    assert [c][..0] == [];
  }

  /** The events of the entry invocation and of the walks of the first `i` children. */
  function WalkPrefix(t: Component, isRoot: bool, i: nat): seq<AdapterEvent>
    requires i <= |t.children|
  {
    WalkEvents([(t, isRoot)] + CallsList(t.children[..i]))
  }

  lemma WalkPrefixStart(t: Component, isRoot: bool)
    ensures WalkPrefix(t, isRoot, 0) == [EventOf(NativeCall(t, isRoot))]
  {
    assert t.children[..0] == [];
    assert [(t, isRoot)] + CallsList(t.children[..0]) == [(t, isRoot)];
    assert [(t, isRoot)][..0] == [];
    assert WalkEvents([(t, isRoot)]) == WalkEvents([]) + [EventOf(NativeCall(t, isRoot))];
  }

  lemma WalkPrefixStep(t: Component, isRoot: bool, i: nat)
    requires i < |t.children|
    ensures WalkPrefix(t, isRoot, i) + WalkEvents(Calls(t.children[i], false)) == WalkPrefix(t, isRoot, i + 1)
  {
    var cs := t.children;
    assert cs[..i + 1][..i] == cs[..i];
    assert CallsList(cs[..i + 1]) == CallsList(cs[..i]) + Calls(cs[i], false);
    assert [(t, isRoot)] + CallsList(cs[..i + 1]) == ([(t, isRoot)] + CallsList(cs[..i])) + Calls(cs[i], false);
    WalkEventsConcat([(t, isRoot)] + CallsList(cs[..i]), Calls(cs[i], false));
  }

  lemma WalkPrefixEnd(t: Component, isRoot: bool)
    ensures WalkPrefix(t, isRoot, |t.children|) == WalkEvents(Calls(t, isRoot))
  {
    assert t.children[..|t.children|] == t.children;
  }

  lemma {:induction false} WalkEventsConcat(a: seq<(Component, bool)>, b: seq<(Component, bool)>)
    ensures WalkEvents(a + b) == WalkEvents(a) + WalkEvents(b)
    decreases |b|
  {
    if b == [] {
      assert a + b == a;
    } else {
      var n := |b| - 1;
      assert (a + b)[..|a + b| - 1] == a + b[..n];
      WalkEventsConcat(a, b[..n]);
    }
  }

  /** The walk's events are the events of its invocations, one for one. */
  lemma {:induction false} WalkEventsAt(calls: seq<(Component, bool)>)
    ensures |WalkEvents(calls)| == |calls|
    ensures forall i :: 0 <= i < |calls| ==> WalkEvents(calls)[i] == EventOf(NativeCall(calls[i].0, calls[i].1))
  {
    if calls != [] {
      WalkEventsAt(calls[..|calls| - 1]);
    }
  }

  lemma {:induction false} EventsOfConcat(a: seq<Call>, b: seq<Call>)
    ensures EventsOf(a + b) == EventsOf(a) + EventsOf(b)
    decreases |b|
  {
    if b == [] {
      assert a + b == a;
    } else {
      var n := |b| - 1;
      assert (a + b)[..|a + b| - 1] == a + b[..n];
      EventsOfConcat(a, b[..n]);
    }
  }

  /** One event per call, in the same order. */
  lemma {:induction false} EventsOfAt(cs: seq<Call>)
    ensures |EventsOf(cs)| == |cs| && forall i :: 0 <= i < |cs| ==> EventsOf(cs)[i] == EventOf(cs[i])
  {
    if cs != [] {
      EventsOfAt(cs[..|cs| - 1]);
    }
  }
}
