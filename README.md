# batarangle core, modelled in Dafny

batarangle is a developer tool for Angular 2 applications. It turns the
DOM of a running application into a component tree. This project models
the pipeline that produces that tree.

1. **Event kinds** (`events.dfy`, module `Events`): the `Events` enum
   and the `AdapterEvent` getters that name its members.
2. **Base adapter** (`base.dfy`, module `Base`): four emitters, each of
   which appends one `{type, node}` event to the adapter's stream. An Rx
   subject is modelled as an append-only log (`rx.dfy`, class
   `Rx.Subject`). The base `setup`, `traverseTree` and `cleanup` always
   throw "Not yet implemented.".
3. **Angular 2 adapter** (`angular2.dfy`, module `Angular2`) has three parts:
   - the root selector `[data-ngid$='#0']` and the root-node predicate;
   - the pre-order walk that emits ROOT for a root entry node and ADD for
     every other node;
   - the classification of a batch of mutation records into adapter calls.
4. **Component helpers** (`core.dfy`, module `Core`):
   - `componentID`, the `#` to `.` rewrite;
   - `componentProperties`, the blacklist filter over attributes;
   - the component and state messages;
   - `attachComponents` and `attachState`, which walk the tree in pre-order
     and emit one message per node.
5. **Model reconciler** (`dom.dfy`, module `Controller`, class
   `DomController`). It applies each adapter event to the controller's
   mirror of the tree: a list of root records, each with a lazily created
   array of child slots, addressed by the dotted id `root.child`.

Shared definitions live in three more files:
- `platform.dfy` (module `Platform`): elements, attributes, component
  trees, their pre-order and positions.
- `jsindex.dfy` (module `JsIndex`): which property keys of a JavaScript
  array are element indices.
- `wrappers.dfy`: `Option`.

These parts change state in place, and the model keeps them as classes:
- the stream subjects (`Rx.Subject.log`);
- the adapters (`Base.BaseAdapter`, `Angular2.Angular2Adapter`);
- the controller (`Controller.DomController.model`).

Each method is specified by a pure function of the state before the call:
- `EventsOf(ClassifyBatch(ms))` for a batch;
- `WalkEvents(Calls(t, isRoot))` for a walk;
- `AddedMessages(PreOrder(t))` for `attachComponents`;
- `ChildAdded(m, snap)` and the other handler functions for the reconciler.

The lemmas then state what the source promises about those functions.

Everything outside the model is a parameter:
- A DOM element is its identity and its attribute list.
- A debug element is a `Platform.Component` record: element, class name,
  state and view children.
- The adapter's `serializeComponent` is a function field of the controller.
- A mutation record is a datatype with one constructor per record type.

## Model

| member | source | states |
|---|---|---|
| Events.OrdinalsInOrder | src/adapters/events.ts:3-8 | the enum numbers ROOT, ADD, CHANGE, REMOVE as 0, 1, 2, 3, and distinct members get distinct numbers |
| Events.Lookup | src/adapters/events.ts:3-8 | the enum object maps each member name to its ordinal and each ordinal key back to the name, and holds no other keys |
| Events.Get | src/adapters/events.ts:14-16 | `Events[Events[key]]` gives back `key` for every member name, and the ordinal for an ordinal key |
| Events.Getter | src/adapters/events.ts:18-32 | each getter returns its own member name |
| Events.GettersDistinct | src/adapters/events.ts:3-32 | the four getter values are pairwise distinct |
| Events.KindOf | src/adapters/events.ts:18-32 | a recognised event-type string is the name of the kind it is taken for |
| Events.KindOfName | src/adapters/events.ts:18-32 | a string is taken for kind `k` exactly when it is `k`'s name |
| Rx.Subject.OnNext | src/adapters/base.ts:33-34 | `onNext` appends exactly one value and keeps everything emitted before |
| Base.EventFor | src/adapters/base.ts:26-29 | the event an emitter builds carries the element it was given |
| Base.BaseAdapter.constructor | src/adapters/base.ts:33-34 | a new adapter's stream is fresh and has emitted nothing |
| Base.BaseAdapter.AddRoot | src/adapters/base.ts:40-47 | `addRoot` emits exactly one event `{type: ROOT, node}` after the earlier ones |
| Base.BaseAdapter.AddChild | src/adapters/base.ts:49-56 | `addChild` emits exactly one event `{type: ADD, node}` after the earlier ones |
| Base.BaseAdapter.ChangeComponent | src/adapters/base.ts:58-65 | `changeComponent` emits exactly one event `{type: CHANGE, node}` after the earlier ones |
| Base.BaseAdapter.RemoveComponent | src/adapters/base.ts:67-74 | `removeComponent` emits exactly one event `{type: REMOVE, node}` after the earlier ones |
| Base.BaseAdapter.Setup | src/adapters/base.ts:77-79 | the base `setup` throws "Not yet implemented." and emits nothing |
| Base.BaseAdapter.TraverseTree | src/adapters/base.ts:81-83 | the base `traverseTree` throws "Not yet implemented." and emits nothing |
| Base.BaseAdapter.Cleanup | src/adapters/base.ts:85-87 | the base `cleanup` throws "Not yet implemented." and emits nothing |
| Platform.FirstValueSpec | src/adapters/angular2.ts:145-151 | `getAttribute` gives the value of the first attribute with the name, and null exactly when no attribute has it |
| Platform.PreOrderSize | src/adapters/angular2.ts:65-75 | a pre-order walk visits as many nodes as the tree has, the entry node first |
| Platform.PreOrderListConcat | src/adapters/angular2.ts:71-74 | the walks of a run of siblings are the walk of its first part followed by the walk of the rest |
| Platform.PathsLocate | src/adapters/angular2.ts:65-75 | the i-th visited node is the subtree at the i-th position |
| Platform.PathsDistinct | src/adapters/angular2.ts:65-75 | no position of the tree is visited twice |
| Platform.PathsComplete | src/adapters/angular2.ts:65-75 | every position of the tree is visited |
| Angular2.IndexOfChar | src/adapters/angular2.ts:50-57 | a helper of the selector-text read-back: finds the first occurrence of a character, and none exactly when it does not occur |
| Angular2.SelectorTextRoundTrip | src/adapters/angular2.ts:50-57 | reading back the CSS text of an attribute-suffix selector whose attribute name has no `$` gives the selector |
| Angular2.RootSelectorText | src/adapters/angular2.ts:50-57 | the root selector is `[data-ngid$='#0']`: an attribute-suffix selector on `data-ngid` with suffix `#0`, and its text reads back to that selector |
| Angular2.IsRootNodeIff | src/adapters/angular2.ts:145-151 | an element is a root node exactly when it has a non-empty `ngid` attribute and its `data-ngid` ends with `#0`; a missing or empty `ngid` means it is not |
| Angular2.AdditionsAt | src/adapters/angular2.ts:129-135 | every added node goes, in order, to `addRoot` if it is a root node and to `addChild` otherwise |
| Angular2.RemovalsAt | src/adapters/angular2.ts:137-143 | every removed node goes, in order, to root removal if it is a root node and to child removal otherwise |
| Angular2.ClassifyShape | src/adapters/angular2.ts:108-126 | an `attributes` record gives one CHANGE of its target; a `childList` record gives each added node's call in order, then each removed node's call in order; any other record gives nothing |
| Angular2.ClassifyBatchSnoc | src/adapters/angular2.ts:107-127 | classifying one more record appends that record's calls |
| Angular2.ClassifyBatchConcat | src/adapters/angular2.ts:107-127 | a batch classifies as the in-order concatenation of its parts |
| Angular2.IgnoredMutationTransparent | src/adapters/angular2.ts:122-125 | a text-content or unknown record adds nothing and does not stop the rest of the batch |
| Angular2.EventOf | src/adapters/angular2.ts:129-143 | each call's event carries the node it was given; removal calls give REMOVE (corrected, see ## Findings) |
| Angular2.EventsOfAt | src/adapters/angular2.ts:107-127 | a batch broadcasts one event per call, in call order |
| Angular2.CallsShape | src/adapters/angular2.ts:65-75 | the walk calls back on the nodes in pre-order, with `isRoot` set only on the entry node and only when the walk was given it |
| Angular2.TraversalEvents | src/adapters/angular2.ts:65-85 | a walk emits one event per tree node, in pre-order, ROOT for the entry node of a root walk and ADD for all others |
| Angular2.WalkEventsConcat | src/adapters/angular2.ts:71-74 | consecutive walks emit their events one after the other |
| Angular2.Angular2Adapter.constructor | src/adapters/angular2.ts:33-34 | a new adapter has a fresh stream that has emitted nothing |
| Angular2.Angular2Adapter.Perform | src/adapters/angular2.ts:129-143 | handing on one classified node emits exactly that call's event |
| Angular2.Angular2Adapter.EmitNativeElement | src/adapters/angular2.ts:81-85 | `_emitNativeElement` emits one ROOT event for a root entry node and one ADD event otherwise |
| Angular2.Angular2Adapter.TraverseTree | src/adapters/angular2.ts:65-75 | `_traverseTree` appends exactly the walk's events to the stream |
| Angular2.Angular2Adapter.Setup | src/adapters/angular2.ts:36-43 | `setup` emits the walks of all roots, in order, each started as a root walk (corrected, see ## Findings) |
| Angular2.Angular2Adapter.HandleNodeAddition | src/adapters/angular2.ts:129-135 | one added node emits exactly one ROOT or ADD event |
| Angular2.Angular2Adapter.HandleNodeRemoval | src/adapters/angular2.ts:137-143 | one removed node emits exactly one REMOVE event (corrected, see ## Findings) |
| Angular2.Angular2Adapter.HandleChildList | src/adapters/angular2.ts:114-121 | a `childList` record emits the events of all additions, then those of all removals |
| Angular2.Angular2Adapter.HandleMutation | src/adapters/angular2.ts:108-126 | one record emits exactly the events of its classification |
| Angular2.Angular2Adapter.HandleChanges | src/adapters/angular2.ts:107-127 | a batch emits exactly the events of its classification, record by record in delivery order (corrected, see ## Findings) |
| Angular2.EventsAsWritten | src/adapters/angular2.ts:137-143 | with `removeRoot` and `removeChild` missing, a batch is cut short exactly when it contains a removal, and otherwise emits all its events |
| Angular2.EventsAsWrittenStops | src/adapters/angular2.ts:137-143 | as written, a batch whose first removal is call `i` broadcasts exactly the events of the calls before `i`, nothing after it, and is cut short |
| Angular2.RemovalAbortsBatchAsWritten | src/adapters/angular2.ts:137-143 | as written, a removal followed by an attribute change emits nothing; the intended classification emits REMOVE, then CHANGE |
| Angular2.SetupAsWrittenEmitsNoRoot | src/adapters/angular2.ts:36-43 | as written, a root with two leaf children emits ADD three times; with `isRoot` passed it emits ROOT, ADD, ADD |
| JsIndex.DecimalStringValue | app/ts/core/core.ts:35 | the decimal text of a number reads back as that number and is canonical |
| JsIndex.CanonicalIsDecimalString | src/controllers/dom.ts:84 | canonical decimal text is the decimal text of the number it denotes |
| JsIndex.ArrayIndexIff | src/controllers/dom.ts:84 | a key is an array index exactly when it is the decimal text of a number below 2^32 - 1 |
| Core.ReplaceHashSpec | app/ts/core/core.ts:16-18 | the rewrite keeps the length and maps each character on its own: `#` to `.`, everything else to itself |
| Core.ReplaceHashDotted | app/ts/core/core.ts:16-18 | the rewritten id has no `#`, and an id without `#` is unchanged |
| Core.ReplaceHashIdempotent | app/ts/core/core.ts:17 | rewriting an already rewritten id changes nothing |
| Core.ComponentIdSpec | app/ts/core/core.ts:16-18 | `componentID` fails exactly when `data-ngid` is missing, and otherwise is the rewritten `data-ngid` |
| Core.FilterSpec | app/ts/core/core.ts:36-38 | the filter keeps every item whose name is not blacklisted, and only those |
| Core.FilterConcat | app/ts/core/core.ts:36-38 | filtering a concatenation gives the filtered parts concatenated, so the kept items stay in input order |
| Core.FilterSingle | app/ts/core/core.ts:36-38 | a single item is kept exactly when it is visible, so each visible input item is kept exactly once |
| Core.ReduceSpec | app/ts/core/core.ts:39-45 | a name is a key of the reduced map exactly when some item carries it, and the last such item gives its value |
| Core.PropertiesSpec | app/ts/core/core.ts:28-46 | the intended properties are the element's attributes other than `class` and `data-ngid`, each with the value of an attribute of that name that no later attribute shares; the blacklisted keys never appear |
| Core.PropertiesLastWins | app/ts/core/core.ts:36-45 | a property whose name is not blacklisted takes the value of the last attribute with that name |
| Core.PropertiesAsWrittenEmpty | app/ts/core/core.ts:35 | as written, `componentProperties` is always `{}` |
| Core.PropertiesAsWrittenDropsAttributes | app/ts/core/core.ts:35 | an element with one `title` attribute: the intended result holds it, the written one is empty |
| Core.ComponentMessageSpec | app/ts/core/core.ts:48-62 | a component message exists exactly when `data-ngid` does; it carries the event type, the element, `componentID` of the same element as its id, the class name and the properties (corrected properties, see ## Findings) |
| Core.EmitStateEvent | app/ts/core/core.ts:64-70 | a state message carries the element, a null previous state and the current state |
| Core.AddedMessagesSpec | app/ts/core/core.ts:103-113 | the run completes exactly when every visited node has an id, and then it holds one `'added'` message per node, in order (corrected properties, see ## Findings) |
| Core.AddedMessagesConcat | app/ts/core/core.ts:76-86 | visiting more nodes after a complete run extends it; after a stopped run it changes nothing |
| Core.StateMessagesSpec | app/ts/core/core.ts:125-129 | one state message per visited node, in order, each with no previous state |
| Core.AttachComponentsMessages | app/ts/core/core.ts:103-113 | when every node has an id, `attachComponents` emits one `'added'` message per tree node, in pre-order, starting at the root (corrected properties, see ## Findings) |
| Core.AttachStateMessages | app/ts/core/core.ts:125-129 | `attachState` emits one state message per tree node, in pre-order, starting at the root, each with a null previous state |
| Core.AttachComponents | app/ts/core/core.ts:76-113 | `attachComponents` appends the pre-order run of `'added'` messages to the stream, up to the first node whose id throws, and says whether it completed (corrected properties, see ## Findings) |
| Core.AttachState | app/ts/core/core.ts:76-86 | `attachState` appends one state message per node, in pre-order |
| Controller.SplitJoin | src/controllers/dom.ts:79 | joining the segments of an id gives the id back |
| Controller.JoinSplit | src/controllers/dom.ts:79 | splitting joined segments that contain no `.` gives the segments back |
| Controller.RootSegmentSpec | src/controllers/dom.ts:79-81 | `rootIdx` is the text before the first `.`, or the whole id when there is none, and a second segment exists exactly when the id has a `.` |
| Controller.ChildIdSegments | src/controllers/dom.ts:89-93 | the id `r.c…` has root segment `r` and child segment `c`, and takes the root-level branch exactly when `c` is empty |
| Controller.RootIdSegments | src/controllers/dom.ts:89-93 | an id with no `.` takes the root-level branch and names itself |
| Controller.ChildIdIndices | src/controllers/dom.ts:79-84 | the id `r.c` of two indices addresses root `r`, slot `c`, and is not root-level |
| Controller.AssignSpec | src/controllers/dom.ts:84 | assigning a slot stores the value there, grows the array to reach it with holes in the gap, and keeps every other slot |
| Controller.AssignIdempotent | src/controllers/dom.ts:84 | assigning the same value to the same slot twice is assigning it once |
| Controller.SpliceSpec | src/controllers/dom.ts:116 | `splice(k, 1)` in range removes element `k` and shifts the later ones down by one; out of range it changes nothing |
| Controller.Locate | src/controllers/dom.ts:83 | a located root exists in the model |
| Controller.DomController.constructor | src/controllers/dom.ts:35-40 | a new controller keeps the serialiser and starts with an empty model |
| Controller.DomController.OnViewChange | src/controllers/dom.ts:48-64 | the new model and outcome are those the dispatch function gives for the old model |
| Controller.DomController.HandleRootAdd | src/controllers/dom.ts:71-75 | the model gains the serialised root at its end |
| Controller.DomController.HandleChildAdd | src/controllers/dom.ts:77-85 | the new model and outcome are those of `ChildAdded` on the old model |
| Controller.DomController.HandleComponentChanges | src/controllers/dom.ts:87-107 | the new model and outcome are those of `ComponentChanged` on the old model |
| Controller.DomController.HandleRemovals | src/controllers/dom.ts:109-120 | the new model and outcome are those of the corrected `Removed` on the old model |
| Controller.RootAddedSpec | src/controllers/dom.ts:71-75 | ROOT grows the model by one, keeps every earlier root, and puts the snapshot last with no children array |
| Controller.ChildAddedSpec | src/controllers/dom.ts:77-85 | ADD succeeds exactly when the root segment names an existing root. It then keeps the length, every other root and that root's snapshot, and gives the root its old children (a new empty array if it had none) with the slot assigned. A failure leaves the model unchanged |
| Controller.ChildAddedStoresSlot | src/controllers/dom.ts:83-84 | an ADD through slot `k` stores the snapshot at `k` and keeps every other slot of the root |
| Controller.ChildAddedIdempotent | src/controllers/dom.ts:83-84 | applying the same ADD twice gives the model that applying it once gives |
| Controller.RootChangeKeepsChildren | src/controllers/dom.ts:93-99 | a root-level CHANGE replaces the root record with the snapshot and keeps its children (empty if none); length and other roots are kept |
| Controller.ComponentChangedSpec | src/controllers/dom.ts:93-99 | a root-level CHANGE succeeds exactly when the root segment names an existing root; a failing one leaves the model as it was |
| Controller.ChildChangeReplacesSlot | src/controllers/dom.ts:102-106 | a child-level CHANGE replaces the slot exactly as ADD does and keeps the model's length |
| Controller.ComponentChangedIdempotent | src/controllers/dom.ts:87-107 | applying the same CHANGE twice gives the model that applying it once gives |
| Controller.RootRemovalSplices | src/controllers/dom.ts:115-117 | a root-level REMOVE deletes exactly the root at `rootIdx`, if there is one, and later roots shift down by one |
| Controller.ChildRemovalSplices | src/controllers/dom.ts:119 | the corrected child-level REMOVE splices one slot out of the named root's children and keeps every other root |
| Controller.RemovedSpec | src/controllers/dom.ts:109-120 | the corrected REMOVE succeeds exactly when a root-level id has an array-index segment, or a child-level id names an existing root with a children array and an array-index slot; a failing one leaves the model as it was (corrected, see ## Findings) |
| Controller.FailureLeavesModel | src/controllers/dom.ts:48-64 | an event whose handler throws leaves the model as it was (corrected removal, see ## Findings) |
| Controller.DispatchRoutes | src/controllers/dom.ts:48-64 | ROOT, ADD, CHANGE and REMOVE each reach their own handler, and a type is an unknown adapter event exactly when it names none of them |
| Controller.RemovalAsWrittenThrows | src/controllers/dom.ts:115-119 | as written, REMOVE always throws; a root-level removal has already spliced the root out, and a child-level removal changes nothing |
| Controller.RemoveFirstRootAsWritten | src/controllers/dom.ts:115-119 | removing root `0` of two: as written the handler throws after the splice, while the corrected one returns with the same model |
| Controller.RemoveThenReAddOverwritesNeighbour | src/controllers/dom.ts:84 | because splice shifts later slots down, removing `0.1` from `[x, y, z]` and then adding `0.1` again gives `[x, snap]` (corrected removal, see ## Findings) |

## Left out

- Browser plumbing is not modelled. This covers the MutationObserver and its
  disconnect (`setup`'s observers, `cleanup`), `querySelectorAll` root
  discovery, the vendor `matches` fallbacks, the DOM mutation-event
  listeners (`listenToChanges`, `observeComponents`, `init`) and
  `hookIntoBackend`'s subscription. The adapter is handed the roots, the
  mutation records and the debug elements instead.
- The channel message after each event (`dom.ts:66-68`) is transport and is
  not modelled.
- The framework accessors `ng.probe`, `componentViewChildren`,
  `constructor.name`, `Object.assign` and `serializeComponent` are fields or
  parameters of the model. A component's state is an opaque map.
- Each `traverseTree` callback is inlined into the walk that uses it:
  `_emitNativeElement` in `Angular2Adapter.TraverseTree`, and the two
  stream callbacks in `Core.AttachComponents` and `Core.AttachState`. The
  model has no generic walk that takes a callback. `Platform.PreOrder` is
  the visiting order of every walk. The `this` binding of methods passed as
  callbacks is not modelled.
- `Core.AttachComponents` models `componentID` throwing on a missing
  `data-ngid` as the walk stopping there. The other messages carry the
  attributes `componentProperties` reads, not the `attributes` object itself.
- `core.ts:81` and `angular2.ts:70` read `children.length`, which throws
  when `componentViewChildren` is undefined or null (an empty list returns
  normally). The model's children are always a list, in `Core.AttachComponents` and in `Angular2.Calls` and
  `Angular2.Angular2Adapter.TraverseTree` alike.
- Angular2.Mutation: added and removed nodes are elements only. A text or
  comment node would throw at `angular2.ts:146` (it has no `getAttribute`)
  and end the batch; the model cannot hold such a node.
- `src/adapters/event_types.ts` is not part of this model. `dom.ts:16` and
  `base.ts:23` import `AdapterEventType` from it. The model takes its four
  values to be the member names of `events.ts`. The emitters and the
  reconciler share them, so routing depends only on their being distinct.
- The controller's `model` field is never initialised in the source
  (`dom.ts:25`, `dom.ts:35-40`). The first `push` would throw, so the model
  starts it as an empty list.
- Controller.ComponentChanged: a child-level CHANGE also sets `children` of
  the new child to the root's own children array (`dom.ts:103`, `dom.ts:106`).
  That creates a cycle, and a value model cannot express the aliasing. The
  model replaces the slot only; this applies to Controller.ChildChangeReplacesSlot,
  Controller.ComponentChangedIdempotent and
  Controller.DomController.HandleComponentChanges as well.
- Controller.ChildAdded: a child segment that is not an array index
  (absent, empty, `x`, `01`) sets a named property on the children array.
  The model does not hold named properties, so such an ADD only creates the
  children array. The exception is the segment `length`. There
  `children["length"] = childNode` throws a RangeError (`dom.ts:84`, and
  `dom.ts:105` for a child-level CHANGE) after the children array was
  created. The model reports Applied instead. So Controller.ChildAddedSpec,
  Controller.ComponentChangedIdempotent and Controller.FailureLeavesModel do
  not describe the source for that one segment.
- Angular2.SelectorMatches: models the evidently intended method. The stray
  `};` at `angular2.ts:164` closes `_selectorMatches` before its
  `return f.call(el, selector)`, which as written leaves the method without
  a result.
- Controller.Locate: a root segment that is not an array index reads a named
  property of the model array. The model reports `InvalidIndex` without
  modelling properties such as `length`.
- Controller.Removed: `splice` turns a non-index segment into an integer
  (`"x"` becomes 0, `"01"` becomes 1). The model reports `InvalidIndex` for
  such a segment instead.
- The model has only two levels of mirror: roots and their child slots, as
  the source's ids have. Deeper ids keep only their first two segments, as
  in the source.

## Findings

| source | as written | input that shows it | evidently intended | confidence | as-written member | corrected member |
|---|---|---|---|---|---|---|
| src/controllers/dom.ts:115-119 | The root-level branch has no `return` after the splice. Both branches then call `splice` on `childrens`, which is misspelt and undefined. A root removal splices and then throws a TypeError; a child removal always throws | model `[a, b]`, REMOVE of id `0` | root level: splice the root and return; child level: splice the slot out of `children` | high, not executed | Controller.RemovedAsWritten, shown by Controller.RemoveFirstRootAsWritten | Controller.Removed, proved by Controller.RootRemovalSplices and Controller.ChildRemovalSplices |
| src/adapters/angular2.ts:140,142 | `removeRoot` and `removeChild` are not defined on `BaseAdapter`. The first removed node throws a TypeError and ends the batch | batch `[childList(removed: [x]), attributes(y)]` | broadcast REMOVE through `removeComponent` and go on with the batch | high, not executed | Angular2.EventsAsWritten, shown by Angular2.RemovalAbortsBatchAsWritten | Angular2.Angular2Adapter.HandleNodeRemoval, used by Angular2.Angular2Adapter.HandleChanges |
| src/adapters/angular2.ts:39-41 | `true` is passed to `forEach` as its `thisArg`, not to `_traverseTree` as `isRoot`. Every walk starts without `isRoot`, so no ROOT is emitted | one root with two leaf children | each root's walk starts with `isRoot` set and emits ROOT first | high, not executed | Angular2.SetupAsWrittenEmitsNoRoot | Angular2.Angular2Adapter.Setup |
| app/ts/core/core.ts:35 | `Object.keys` of the attribute array gives index strings with no `nodeName`, so the result is always `{}` | an element with the attribute `title="Hello"` | filter and reduce over the attribute nodes themselves | high, not executed | Core.PropertiesAsWritten, shown by Core.PropertiesAsWrittenDropsAttributes | Core.ComponentProperties, proved by Core.PropertiesSpec |
