/**
 * The model reconciler of the DOM controller. Every adapter event
 * `{type, node}` is applied to the controller's mirror of the component
 * forest: a list of root records, each with an optional list of child
 * slots. Ids are the rewritten `data-ngid` texts: `r` names root `r`,
 * `r.c` names slot `c` of root `r`.
 */
module Controller {
  import opened Wrappers
  import opened Platform
  import opened Events
  import opened Base
  import opened JsIndex

  /** What the adapter's serialiser makes of an element: its id and the rest of the record. */
  datatype Snapshot = Snapshot(id: string, data: map<string, string>)

  /** A children array; `None` is a hole left by an assignment past the end. */
  type Slots = seq<Option<Snapshot>>

  /** A root record: the root's snapshot and its `children` array, absent until first needed. */
  datatype Root = Root(snapshot: Snapshot, children: Option<Slots>)

  type Model = seq<Root>

  /**
   * Why a handler throws. `InvalidIndex`: a segment that is not an array
   * index; `NoSuchRoot`: reading `children` of a missing root; `NoChildren`:
   * calling `splice` on a missing array.
   */
  datatype Error = UnknownAdapterEvent | InvalidIndex | NoSuchRoot | NoChildren

  datatype Status = Applied | Failed(error: Error)

  /** The model after a handler, and whether the handler returned or threw. */
  datatype Step = Step(model: Model, status: Status)

  // ---------------------------------------------------------------------
  // Id parsing: `id.split('.')`
  // ---------------------------------------------------------------------

  const Separator: char := '.'

  /** `s.split('.')`: the texts between separators, at least one of them. */
  function Split(s: string): (parts: seq<string>)
    ensures |parts| >= 1
  {
    if s == [] then [""]
    else
      var rest := Split(s[1..]);
      if s[0] == Separator then [""] + rest else [[s[0]] + rest[0]] + rest[1..]
  }

  /** `parts.join('.')`. */
  function Join(parts: seq<string>): string
    requires |parts| >= 1
  {
    if |parts| == 1 then parts[0] else parts[0] + [Separator] + Join(parts[1..])
  }

  predicate NoSeparator(s: string)
  {
    Separator !in s
  }

  /** `idxParts[0]`: the text before the first separator. */
  function RootSegment(id: string): string
  {
    Split(id)[0]
  }

  /** `idxParts[1]`, `undefined` when the id has no separator. */
  function ChildSegment(id: string): Option<string>
  {
    var parts := Split(id);
    if |parts| >= 2 then Some(parts[1]) else None
  }

  /** `!childIdx`: the second segment is absent or empty. */
  predicate RootLevel(id: string)
  {
    ChildSegment(id).None? || ChildSegment(id).value == ""
  }

  /** The slot a child segment addresses, when it is an array index. */
  function ChildIndex(id: string): Option<nat>
  {
    match ChildSegment(id)
    case None => None
    case Some(c) => ArrayIndex(c)
  }

  /** Joining the segments of a text gives the text back. */
  lemma {:induction false} SplitJoin(s: string)
    ensures Join(Split(s)) == s
    decreases |s|
  {
    if s != [] {
      var rest := Split(s[1..]);
      SplitJoin(s[1..]);
      if s[0] == Separator {
        assert s == [Separator] + s[1..];
      } else if |rest| == 1 {
        assert s == [s[0]] + s[1..];
      } else {
        assert rest == [rest[0]] + rest[1..];
        assert Join(rest) == rest[0] + [Separator] + Join(rest[1..]);
        assert s == [s[0]] + s[1..];
      }
    }
  }

  /** No segment contains the separator. */
  lemma {:induction false} SplitSegments(s: string)
    ensures forall i :: 0 <= i < |Split(s)| ==> NoSeparator(Split(s)[i])
    decreases |s|
  {
    if s != [] {
      SplitSegments(s[1..]);
    }
  }

  /** Splitting a text with no separator in front of a tail extends the tail's first segment. */
  lemma {:induction false} SplitPrefix(p: string, tail: string)
    requires NoSeparator(p)
    ensures Split(p + tail) == [p + Split(tail)[0]] + Split(tail)[1..]
    decreases |p|
  {
    if p != [] {
      assert (p + tail)[1..] == p[1..] + tail;
      SplitPrefix(p[1..], tail);
      assert [p[0]] + (p[1..] + Split(tail)[0]) == p + Split(tail)[0];
    } else {
      assert p + tail == tail;
      assert Split(tail) == [Split(tail)[0]] + Split(tail)[1..];
      assert p + Split(tail)[0] == Split(tail)[0];
    }
  }

  /** Splitting joined segments that hold no separator gives the segments back. */
  lemma {:induction false} JoinSplit(parts: seq<string>)
    requires |parts| >= 1
    requires forall i :: 0 <= i < |parts| ==> NoSeparator(parts[i])
    ensures Split(Join(parts)) == parts
    decreases |parts|
  {
    if |parts| == 1 {
      SplitPrefix(parts[0], "");
      assert parts[0] + "" == parts[0];
    } else {
      var tail := Join(parts[1..]);
      JoinSplit(parts[1..]);
      assert Split([Separator] + tail) == [""] + Split(tail);
      SplitPrefix(parts[0], [Separator] + tail);
      assert parts[0] + [Separator] + tail == parts[0] + ([Separator] + tail);
      assert parts[0] + "" == parts[0];
      assert [parts[0]] + parts[1..] == parts;
    }
  }

  /** `rootIdx` is the text before the first separator: the whole id when there is none. */
  lemma RootSegmentSpec(id: string)
    ensures NoSeparator(RootSegment(id))
    ensures |RootSegment(id)| <= |id| && id[..|RootSegment(id)|] == RootSegment(id)
    ensures ChildSegment(id).None? <==> NoSeparator(id)
    ensures ChildSegment(id).None? ==> RootSegment(id) == id
    ensures ChildSegment(id).Some? ==> id[|RootSegment(id)|] == Separator
  {
    SplitSegments(id);
    SplitJoin(id);
    var parts := Split(id);
    if |parts| >= 2 {
      assert Join(parts) == parts[0] + [Separator] + Join(parts[1..]);
      assert id[|parts[0]|] == Separator;
    }
  }

  /** An id `r.c…` parses to root segment `r` and child segment `c`; it is root-level exactly when `c` is empty. */
  lemma ChildIdSegments(r: string, c: string, rest: string)
    requires NoSeparator(r) && NoSeparator(c)
    requires rest == [] || rest[0] == Separator
    ensures RootSegment(r + [Separator] + c + rest) == r
    ensures ChildSegment(r + [Separator] + c + rest) == Some(c)
    ensures RootLevel(r + [Separator] + c + rest) <==> c == ""
  {
    var tail := c + rest;
    assert Split(rest)[0] == "" by {
      if rest != [] {
        assert Split(rest) == [""] + Split(rest[1..]);
      }
    }
    SplitPrefix(c, rest);
    assert Split(tail)[0] == c by {
      assert c + Split(rest)[0] == c;
    }
    assert Split([Separator] + tail) == [""] + Split(tail) by {
      assert ([Separator] + tail)[1..] == tail;
    }
    SplitPrefix(r, [Separator] + tail);
    assert r + [Separator] + c + rest == r + ([Separator] + tail);
    assert r + "" == r;
  }

  /** An id with no separator is root-level and names itself. */
  lemma RootIdSegments(r: string)
    requires NoSeparator(r)
    ensures RootSegment(r) == r && ChildSegment(r) == None && RootLevel(r)
  {
    JoinSplit([r]);
  }

  /** The id of slot `c` of root `r` addresses exactly that slot. */
  lemma ChildIdIndices(r: nat, c: nat)
    requires r < MaxIndexBound && c < MaxIndexBound
    ensures ArrayIndex(RootSegment(DecimalString(r) + [Separator] + DecimalString(c))) == Some(r)
    ensures ChildIndex(DecimalString(r) + [Separator] + DecimalString(c)) == Some(c)
    ensures !RootLevel(DecimalString(r) + [Separator] + DecimalString(c))
  {
    DigitsHaveNoSeparator(DecimalString(r));
    DigitsHaveNoSeparator(DecimalString(c));
    ChildIdSegments(DecimalString(r), DecimalString(c), []);
    assert DecimalString(r) + [Separator] + DecimalString(c) + [] == DecimalString(r) + [Separator] + DecimalString(c);
    ArrayIndexIff(DecimalString(r), r);
    ArrayIndexIff(DecimalString(c), c);
  }

  lemma DigitsHaveNoSeparator(s: string)
    requires AllDigits(s)
    ensures NoSeparator(s)
  {
  }

  // ---------------------------------------------------------------------
  // Array primitives
  // ---------------------------------------------------------------------

  /** `slots[k] = v`: past the end the array grows, and the gap is holes. */
  function Assign(slots: Slots, k: nat, v: Option<Snapshot>): Slots
  {
    if k < |slots| then slots[k := v] else slots + seq(k - |slots|, _ => None) + [v]
  }

  /** `xs.splice(k, 1)`: removes the element at `k` if there is one. */
  function Splice<T>(xs: seq<T>, k: nat): seq<T>
  {
    if k < |xs| then xs[..k] + xs[k + 1..] else xs
  }

  /** The assigned slot holds the value, the array is long enough for it, every other slot is kept, and new slots in between are holes. */
  lemma AssignSpec(slots: Slots, k: nat, v: Option<Snapshot>)
    ensures |Assign(slots, k, v)| == if k < |slots| then |slots| else k + 1
    ensures Assign(slots, k, v)[k] == v
    ensures forall j :: 0 <= j < |slots| && j != k ==> Assign(slots, k, v)[j] == slots[j]
    ensures forall j :: |slots| <= j < k ==> Assign(slots, k, v)[j] == None
  {
  }

  /** Assigning the same value to the same slot twice is assigning it once. */
  lemma AssignIdempotent(slots: Slots, k: nat, v: Option<Snapshot>)
    ensures Assign(Assign(slots, k, v), k, v) == Assign(slots, k, v)
  {
    AssignSpec(slots, k, v);
  }

  /** `splice(k, 1)` within range drops element `k` and shifts the later ones down by one; out of range it changes nothing. */
  lemma SpliceSpec<T>(xs: seq<T>, k: nat)
    ensures k < |xs| ==> |Splice(xs, k)| == |xs| - 1
    ensures forall i :: 0 <= i < k && i < |Splice(xs, k)| ==> Splice(xs, k)[i] == xs[i]
    ensures k < |xs| ==> forall i :: k <= i < |xs| - 1 ==> Splice(xs, k)[i] == xs[i + 1]
    ensures k >= |xs| ==> Splice(xs, k) == xs
  {
  }

  // ---------------------------------------------------------------------
  // The handlers, as functions of the model before the event
  // ---------------------------------------------------------------------

  /** Where `this.model[rootIdx]` leads: a root, or the reason reading its `children` throws. */
  datatype Located = At(index: nat) | Miss(error: Error)

  function Locate(m: Model, segment: string): (l: Located)
    ensures l.At? ==> l.index < |m|
  {
    match ArrayIndex(segment)
    case None => Miss(InvalidIndex)
    case Some(r) => if r < |m| then At(r) else Miss(NoSuchRoot)
  }

  /** ROOT: push the root snapshot. */
  function RootAdded(m: Model, snap: Snapshot): Model
  {
    m + [Root(snap, None)]
  }

  /**
   * ADD: give the root a children array if it has none, then assign the
   * snapshot to the child slot. A child segment that is not an array index
   * sets a named property of the array, which the model does not hold.
   */
  function ChildAdded(m: Model, snap: Snapshot): Step
  {
    match Locate(m, RootSegment(snap.id))
    case Miss(e) => Step(m, Failed(e))
    case At(r) =>
      var slots := m[r].children.GetOr([]);
      var slots' := match ChildIndex(snap.id)
        case None => slots
        case Some(k) => Assign(slots, k, Some(snap));
      Step(m[r := Root(m[r].snapshot, Some(slots'))], Applied)
  }

  /**
   * CHANGE: a root-level id replaces the root record and gives it the old
   * children (an empty array if it had none); a child-level id does what ADD does.
   */
  function ComponentChanged(m: Model, snap: Snapshot): Step
  {
    if RootLevel(snap.id) then
      match Locate(m, RootSegment(snap.id))
      case Miss(e) => Step(m, Failed(e))
      case At(r) => Step(m[r := Root(snap, Some(m[r].children.GetOr([])))], Applied)
    else
      ChildAdded(m, snap)
  }

  /**
   * REMOVE as evidently intended: a root-level id splices the root out and
   * stops; a child-level id splices the slot out of the root's `children`.
   */
  function Removed(m: Model, snap: Snapshot): Step
  {
    if RootLevel(snap.id) then
      match ArrayIndex(RootSegment(snap.id))
      case None => Step(m, Failed(InvalidIndex))
      case Some(r) => Step(Splice(m, r), Applied)
    else
      match Locate(m, RootSegment(snap.id))
      case Miss(e) => Step(m, Failed(e))
      case At(r) =>
        match m[r].children
        case None => Step(m, Failed(NoChildren))
        case Some(slots) =>
          match ArrayIndex(ChildSegment(snap.id).value)
          case None => Step(m, Failed(InvalidIndex))
          case Some(k) => Step(m[r := Root(m[r].snapshot, Some(Splice(slots, k)))], Applied)
  }

  /**
   * REMOVE as written: the root-level branch splices and falls through, and
   * both branches then read the property `childrens`, which no record has,
   * and call `splice` on `undefined`.
   */
  function RemovedAsWritten(m: Model, snap: Snapshot): Step
  {
    if RootLevel(snap.id) then
      match ArrayIndex(RootSegment(snap.id))
      case None => Step(m, Failed(InvalidIndex))
      case Some(r) =>
        var m' := Splice(m, r);
        Step(m', Failed(if r < |m'| then NoChildren else NoSuchRoot))
    else
      match Locate(m, RootSegment(snap.id))
      case Miss(e) => Step(m, Failed(e))
      case At(r) => Step(m, Failed(NoChildren))
  }

  /** `_onViewChange`: route the event by its type; any other type throws. */
  function Dispatch(m: Model, serialize: Element -> Snapshot, evt: AdapterEvent): Step
  {
    match KindOf(evt.eventType)
    case None => Step(m, Failed(UnknownAdapterEvent))
    case Some(ROOT) => Step(RootAdded(m, serialize(evt.node)), Applied)
    case Some(ADD) => ChildAdded(m, serialize(evt.node))
    case Some(CHANGE) => ComponentChanged(m, serialize(evt.node))
    case Some(REMOVE) => Removed(m, serialize(evt.node))
  }

  // ---------------------------------------------------------------------
  // The controller
  // ---------------------------------------------------------------------

  class DomController {
    /** The adapter's `serializeComponent`. */
    const serialize: Element -> Snapshot
    var model: Model

    constructor(serialize: Element -> Snapshot)
      ensures this.serialize == serialize && model == []
    {
      this.serialize := serialize;
      model := [];
    }

    /** `_onViewChange` without the channel message. */
    method OnViewChange(evt: AdapterEvent) returns (status: Status)
      modifies this
      ensures Step(model, status) == Dispatch(old(model), serialize, evt)
    {
      var kind := KindOf(evt.eventType);
      match kind {
        case None =>
          status := Failed(UnknownAdapterEvent);
        case Some(ROOT) =>
          HandleRootAdd(evt.node);
          status := Applied;
        case Some(ADD) =>
          status := HandleChildAdd(evt.node);
        case Some(CHANGE) =>
          status := HandleComponentChanges(evt.node);
        case Some(REMOVE) =>
          status := HandleRemovals(evt.node);
      }
    }

    method HandleRootAdd(node: Element)
      modifies this
      ensures model == RootAdded(old(model), serialize(node))
    {
      var rootNode := serialize(node);
      model := model + [Root(rootNode, None)];
    }

    method HandleChildAdd(node: Element) returns (status: Status)
      modifies this
      ensures Step(model, status) == ChildAdded(old(model), serialize(node))
    {
      var childNode := serialize(node);
      var idxParts := Split(childNode.id);
      var rootIdx := idxParts[0];
      var childIdx := if |idxParts| >= 2 then Some(idxParts[1]) else None;
      var root := Locate(model, rootIdx);
      if root.Miss? {
        return Failed(root.error);
      }
      var r := root.index;
      var children := model[r].children.GetOr([]);
      if childIdx.Some? && ArrayIndex(childIdx.value).Some? {
        var k := ArrayIndex(childIdx.value).value;
        if k < |children| {
          children := children[k := Some(childNode)];
        } else {
          children := children + seq(k - |children|, _ => None) + [Some(childNode)];
        }
      }
      model := model[r := Root(model[r].snapshot, Some(children))];
      status := Applied;
    }

    method HandleComponentChanges(node: Element) returns (status: Status)
      modifies this
      ensures Step(model, status) == ComponentChanged(old(model), serialize(node))
    {
      var componentNode := serialize(node);
      var idxParts := Split(componentNode.id);
      var childIdx := if |idxParts| >= 2 then Some(idxParts[1]) else None;
      if childIdx.None? || childIdx.value == "" {
        var root := Locate(model, idxParts[0]);
        if root.Miss? {
          return Failed(root.error);
        }
        var oldChildren := model[root.index].children.GetOr([]);
        model := model[root.index := Root(componentNode, Some(oldChildren))];
        return Applied;
      }
      status := HandleChildAdd(node);
    }

    /** `_handleRemovals` as evidently intended (see `RemovedAsWritten`). */
    method HandleRemovals(node: Element) returns (status: Status)
      modifies this
      ensures Step(model, status) == Removed(old(model), serialize(node))
    {
      var componentNode := serialize(node);
      var idxParts := Split(componentNode.id);
      var childIdx := if |idxParts| >= 2 then Some(idxParts[1]) else None;
      if childIdx.None? || childIdx.value == "" {
        var r := ArrayIndex(idxParts[0]);
        if r.None? {
          return Failed(InvalidIndex);
        }
        if r.value < |model| {
          model := model[..r.value] + model[r.value + 1..];
        }
        return Applied;
      }
      var root := Locate(model, idxParts[0]);
      if root.Miss? {
        return Failed(root.error);
      }
      var children := model[root.index].children;
      if children.None? {
        return Failed(NoChildren);
      }
      var k := ArrayIndex(childIdx.value);
      if k.None? {
        return Failed(InvalidIndex);
      }
      var slots := children.value;
      if k.value < |slots| {
        slots := slots[..k.value] + slots[k.value + 1..];
      }
      model := model[root.index := Root(model[root.index].snapshot, Some(slots))];
      status := Applied;
    }
  }

  // ---------------------------------------------------------------------
  // Properties of the handlers
  // ---------------------------------------------------------------------

  /** ROOT appends exactly one root, with no children array, and keeps every earlier root. */
  lemma RootAddedSpec(m: Model, snap: Snapshot)
    ensures |RootAdded(m, snap)| == |m| + 1
    ensures forall i :: 0 <= i < |m| ==> RootAdded(m, snap)[i] == m[i]
    ensures RootAdded(m, snap)[|m|] == Root(snap, None)
  {
  }

  /**
   * ADD succeeds exactly when the root segment names an existing root. It
   * then keeps the model's length, every other root and the root's own
   * snapshot, and the root's children are its old ones (or a new empty
   * array) with the child slot assigned.
   */
  lemma ChildAddedSpec(m: Model, snap: Snapshot)
    ensures ChildAdded(m, snap).status == Applied <==>
      ArrayIndex(RootSegment(snap.id)).Some? && ArrayIndex(RootSegment(snap.id)).value < |m|
    ensures ChildAdded(m, snap).status.Failed? ==> ChildAdded(m, snap).model == m
    ensures ChildAdded(m, snap).status == Applied ==>
      var r := ArrayIndex(RootSegment(snap.id)).value;
      var m' := ChildAdded(m, snap).model;
      var slots := m[r].children.GetOr([]);
      && |m'| == |m|
      && (forall i :: 0 <= i < |m| && i != r ==> m'[i] == m[i])
      && m'[r].snapshot == m[r].snapshot
      && m'[r].children.Some?
      && (ChildIndex(snap.id).None? ==> m'[r].children.value == slots)
      && (ChildIndex(snap.id).Some? ==> m'[r].children.value == Assign(slots, ChildIndex(snap.id).value, Some(snap)))
  {
  }

  /** A child ADD through a valid slot index stores the snapshot there and keeps every other slot of the root. */
  lemma ChildAddedStoresSlot(m: Model, snap: Snapshot, r: nat, k: nat)
    requires ArrayIndex(RootSegment(snap.id)) == Some(r) && r < |m|
    requires ChildIndex(snap.id) == Some(k)
    ensures ChildAdded(m, snap).status == Applied
    ensures var slots' := ChildAdded(m, snap).model[r].children;
      && slots'.Some?
      && k < |slots'.value|
      && slots'.value[k] == Some(snap)
      && (forall j :: 0 <= j < |m[r].children.GetOr([])| && j != k ==> slots'.value[j] == m[r].children.GetOr([])[j])
  {
    AssignSpec(m[r].children.GetOr([]), k, Some(snap));
  }

  /** Applying the same ADD twice gives the model that applying it once gives. */
  lemma ChildAddedIdempotent(m: Model, snap: Snapshot)
    ensures ChildAdded(ChildAdded(m, snap).model, snap) == ChildAdded(m, snap)
  {
    match Locate(m, RootSegment(snap.id))
    case Miss(e) =>
    case At(r) =>
      var slots := m[r].children.GetOr([]);
      match ChildIndex(snap.id)
      case None =>
      case Some(k) =>
        AssignIdempotent(slots, k, Some(snap));
  }

  /**
   * A root-level CHANGE of an existing root replaces its record with the new
   * snapshot and keeps its children (an empty array if it had none), so the
   * subtree is never cut; the length and every other root are kept.
   */
  lemma RootChangeKeepsChildren(m: Model, snap: Snapshot, r: nat)
    requires RootLevel(snap.id)
    requires ArrayIndex(RootSegment(snap.id)) == Some(r) && r < |m|
    ensures ComponentChanged(m, snap).status == Applied
    ensures |ComponentChanged(m, snap).model| == |m|
    ensures ComponentChanged(m, snap).model[r] == Root(snap, Some(m[r].children.GetOr([])))
    ensures forall i :: 0 <= i < |m| && i != r ==> ComponentChanged(m, snap).model[i] == m[i]
  {
  }

  /**
   * A root-level CHANGE succeeds exactly when the root segment names an
   * existing root (`this.model[rootIdx]` is otherwise undefined and the
   * assignment to its `children` throws); a failure changes nothing.
   */
  lemma ComponentChangedSpec(m: Model, snap: Snapshot)
    requires RootLevel(snap.id)
    ensures ComponentChanged(m, snap).status == Applied <==>
      ArrayIndex(RootSegment(snap.id)).Some? && ArrayIndex(RootSegment(snap.id)).value < |m|
    ensures ComponentChanged(m, snap).status.Failed? ==> ComponentChanged(m, snap).model == m
  {
  }

  /** A child-level CHANGE replaces one slot of the named root, as ADD does, and is an error exactly where ADD is. */
  lemma ChildChangeReplacesSlot(m: Model, snap: Snapshot)
    requires !RootLevel(snap.id)
    ensures ComponentChanged(m, snap) == ChildAdded(m, snap)
    ensures ComponentChanged(m, snap).status == Applied ==> |ComponentChanged(m, snap).model| == |m|
  {
    ChildAddedSpec(m, snap);
  }

  /** Applying the same CHANGE twice gives the model that applying it once gives. */
  lemma ComponentChangedIdempotent(m: Model, snap: Snapshot)
    ensures ComponentChanged(ComponentChanged(m, snap).model, snap) == ComponentChanged(m, snap)
  {
    if !RootLevel(snap.id) {
      ChildAddedIdempotent(m, snap);
    }
  }

  /**
   * A root-level REMOVE with an array index deletes exactly the root there,
   * when there is one, and the later roots shift down by one.
   */
  lemma RootRemovalSplices(m: Model, snap: Snapshot, r: nat)
    requires RootLevel(snap.id)
    requires ArrayIndex(RootSegment(snap.id)) == Some(r)
    ensures Removed(m, snap).status == Applied
    ensures r < |m| ==> |Removed(m, snap).model| == |m| - 1
    ensures forall i :: 0 <= i < r && i < |Removed(m, snap).model| ==> Removed(m, snap).model[i] == m[i]
    ensures r < |m| ==> forall i :: r <= i < |m| - 1 ==> Removed(m, snap).model[i] == m[i + 1]
    ensures r >= |m| ==> Removed(m, snap).model == m
  {
    SpliceSpec(m, r);
  }

  /** A child-level REMOVE takes one slot out of the named root's children and keeps every other root. */
  lemma ChildRemovalSplices(m: Model, snap: Snapshot, r: nat, k: nat)
    requires !RootLevel(snap.id)
    requires ArrayIndex(RootSegment(snap.id)) == Some(r) && r < |m|
    requires m[r].children.Some?
    requires ChildIndex(snap.id) == Some(k)
    ensures Removed(m, snap).status == Applied
    ensures |Removed(m, snap).model| == |m|
    ensures forall i :: 0 <= i < |m| && i != r ==> Removed(m, snap).model[i] == m[i]
    ensures Removed(m, snap).model[r] == Root(m[r].snapshot, Some(Splice(m[r].children.value, k)))
  {
  }

  /**
   * The corrected REMOVE fails exactly when it cannot reach what it removes:
   * a root-level id needs an array-index root segment (an index past the
   * end is a no-op splice); a child-level id needs an existing root with a
   * children array and an array-index child segment. A failure changes nothing.
   */
  lemma RemovedSpec(m: Model, snap: Snapshot)
    ensures RootLevel(snap.id) ==>
      (Removed(m, snap).status == Applied <==> ArrayIndex(RootSegment(snap.id)).Some?)
    ensures !RootLevel(snap.id) ==>
      (Removed(m, snap).status == Applied <==>
        && ArrayIndex(RootSegment(snap.id)).Some?
        && ArrayIndex(RootSegment(snap.id)).value < |m|
        && m[ArrayIndex(RootSegment(snap.id)).value].children.Some?
        && ChildIndex(snap.id).Some?)
    ensures Removed(m, snap).status.Failed? ==> Removed(m, snap).model == m
  {
  }

  /** A handler that throws leaves the model as it was (the corrected REMOVE included). */
  lemma FailureLeavesModel(m: Model, serialize: Element -> Snapshot, evt: AdapterEvent)
    ensures Dispatch(m, serialize, evt).status.Failed? ==> Dispatch(m, serialize, evt).model == m
  {
  }

  /**
   * Each of the four event names reaches its own handler, and every other
   * type, and only those, is an unknown adapter event.
   */
  lemma DispatchRoutes(m: Model, serialize: Element -> Snapshot, evt: AdapterEvent)
    ensures evt.eventType == Name(ROOT) ==> Dispatch(m, serialize, evt) == Step(RootAdded(m, serialize(evt.node)), Applied)
    ensures evt.eventType == Name(ADD) ==> Dispatch(m, serialize, evt) == ChildAdded(m, serialize(evt.node))
    ensures evt.eventType == Name(CHANGE) ==> Dispatch(m, serialize, evt) == ComponentChanged(m, serialize(evt.node))
    ensures evt.eventType == Name(REMOVE) ==> Dispatch(m, serialize, evt) == Removed(m, serialize(evt.node))
    ensures Dispatch(m, serialize, evt).status == Failed(UnknownAdapterEvent) <==>
      forall k: EventKind :: evt.eventType != Name(k)
  {
    KindOfName(evt.eventType, ROOT);
    KindOfName(evt.eventType, ADD);
    KindOfName(evt.eventType, CHANGE);
    KindOfName(evt.eventType, REMOVE);
    var s := serialize(evt.node);
    assert ChildAdded(m, s).status != Failed(UnknownAdapterEvent);
    assert ComponentChanged(m, s).status != Failed(UnknownAdapterEvent);
    assert Removed(m, s).status != Failed(UnknownAdapterEvent);
  }

  /** As written, REMOVE always throws; a root-level removal of an existing root still drops the root first. */
  lemma RemovalAsWrittenThrows(m: Model, snap: Snapshot)
    ensures RemovedAsWritten(m, snap).status.Failed?
    ensures RemovedAsWritten(m, snap).model == Removed(m, snap).model || !RootLevel(snap.id)
    ensures !RootLevel(snap.id) ==> RemovedAsWritten(m, snap).model == m
  {
  }

  /** Removing root `0` of two roots: the as-written handler throws after the splice, the corrected one returns. */
  lemma RemoveFirstRootAsWritten(a: Snapshot, b: Snapshot, snap: Snapshot)
    requires snap.id == "0"
    ensures RemovedAsWritten([Root(a, None), Root(b, None)], snap) == Step([Root(b, None)], Failed(NoChildren))
    ensures Removed([Root(a, None), Root(b, None)], snap) == Step([Root(b, None)], Applied)
  {
    RootIdSegments("0");
    ArrayIndexIff("0", 0);
    assert DecimalString(0) == "0";
  }

  /**
   * A removed slot shifts the later slots down, so re-adding the removed id
   * overwrites the slot's former successor: with slots `[x, y, z]`, removing
   * `0.1` and adding `0.1` again leaves `[x, snap]`.
   */
  lemma RemoveThenReAddOverwritesNeighbour(root: Snapshot, x: Snapshot, y: Snapshot, z: Snapshot, snap: Snapshot)
    requires snap.id == "0.1"
    ensures var m := [Root(root, Some([Some(x), Some(y), Some(z)]))];
      ChildAdded(Removed(m, snap).model, snap) == Step([Root(root, Some([Some(x), Some(snap)]))], Applied)
  {
    assert DecimalString(0) == "0" && DecimalString(1) == "1";
    ChildIdIndices(0, 1);
    assert DecimalString(0) + [Separator] + DecimalString(1) == "0.1";
    var m := [Root(root, Some([Some(x), Some(y), Some(z)]))];
    assert Locate(m, "0") == At(0);
    assert ArrayIndex("1") == Some(1);
    var removed := [Root(root, Some([Some(x), Some(z)]))];
    assert Removed(m, snap) == Step(removed, Applied) by {
      assert Splice([Some(x), Some(y), Some(z)], 1) == [Some(x), Some(z)];
    }
    assert Locate(removed, "0") == At(0);
    assert Assign([Some(x), Some(z)], 1, Some(snap)) == [Some(x), Some(snap)];
  }
}
