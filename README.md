# Browser mock and test helpers of the web client, in Dafny

This project models three pieces of sequential bookkeeping from the web client's
test tooling and proves properties about them.

- **The browser mock** (`addons/web/static/lib/hoot/mock/window.js`, module
  `WindowMock` in `window_mock.dfy`):
  - **Patch log.** `applyPropertyDescriptors` writes the original descriptors to
    `originalDescriptors`, `findOriginalDescriptor` searches that log, and
    `unpatchWindow` replays it. Properties are found on their owner through
    `findPropertyOwner`.
  - **Title.** `getTitle` and `setTitle` go through the mocked `document.title`.
  - **Listener registry.** Each watched target in `listenerMap` has a registry
    from event type to a set of callbacks. The mocked `addEventListener` and
    `removeEventListener` maintain it through `registerListener` and
    `unregisterListener`. `watchListeners` resets it, and `cleanupWindow`
    empties it.
  - **Representation.** Objects are identities. The own properties of all
    objects form a heap from (object, property) to descriptor. A prototype
    chain is a sequence that starts with the object itself. The module-level
    state is the class `MockWindow`, whose methods update its fields in place.
    Calls that leave the module (native `addEventListener`/`removeEventListener`,
    clearing the other mocks, invoking a callback) are appended to an `effects`
    trace.
- **The interaction helpers** of `contains(target, options)`
  (`addons/web/static/tests/_framework/dom_test_helpers.js`, module
  `DomTestHelpers`):
  - `click` builds its action list with `unshift` and `push`.
  - Other rules: the `focusCurrent` rule, the option defaults, and the step
    order of `drag` and `dragAndDrop`.
  - Every call into the DOM helper library or the mocked clock is an event
    appended to the trace of the class `Interactions`.
- **The condition tree editor's extraction helpers**
  (`addons/web/static/tests/core/tree_editor/condition_tree_editor_test_helpers.js`,
  module `TreeEditorHelpers`):
  - `getTreeEditorContent` computes nesting levels.
  - `get` indexes like `Array.prototype.at`.
  - The string assemblers are `getCurrentPath`, `getCurrentValue`,
    `getCurrentConnector`, `getCurrentCondition` and `getConditionText`.
  - The DOM is a list of tree nodes in document order, each with an optional
    parent index smaller than its own. What the selectors match inside a node
    is given as plain values.

Some conventions hold across the modules:
- **Specification functions.** Each loop in the source is a method proved
  against a specification function on values: `ApplyAll`, `Replay`,
  `OriginalDescriptor`, `WatchAll`, `Removals`/`Cleaned`, `Dispatch`,
  `NonBlankTrimmed`, `Level`/`NodeValueOf`. The properties the source promises
  are proved about those functions as lemmas.
- **Invariant.** The invariant of the listener bookkeeping is `Consistent`, a
  predicate on values that `MockWindow.Valid` wraps. It says:
  - every registry is well formed: no key twice, no empty set, no callback
    twice in a set;
  - no two targets share a registry;
  - the watch order lists each watched target once;
  - only targets whose listeners are mocked can have recorded callbacks.

The doc comment of `watchListeners` (window.js:283-288) describes a function
that checks for and removes leftover listeners; the code returns one that only
clears `listenerMap`, and the model follows the code.

## Model

Paths are relative to the repository root. `window.js` stands for
`addons/web/static/lib/hoot/mock/window.js`.

| member | source | states |
|---|---|---|
| WindowMock.Own | addons/web/static/lib/hoot/mock/window.js:49 | `getOwnPropertyDescriptor` gives a descriptor exactly when the object owns the property |
| WindowMock.FindPropertyOwner | addons/web/static/lib/hoot/mock/window.js:81-90 | the owner is the first object of the chain that owns the property, and no object before it owns it; if no object in the chain owns it, the owner is the last object, the one with a null prototype |
| WindowMock.OwnerFrame | addons/web/static/lib/hoot/mock/window.js:81-90 | the owner depends only on which objects of the chain own the property |
| WindowMock.Installed | addons/web/static/lib/hoot/mock/window.js:54-57 | the installed descriptor is a copy with the same value, getter and setter; it is made `writable: false` exactly when it carries a value, and otherwise its writability is kept |
| WindowMock.ApplyOne | addons/web/static/lib/hoot/mock/window.js:47-57 | one iteration of `applyPropertyDescriptors`: the original own descriptor of the owner is recorded, then the copy is defined on that owner |
| WindowMock.ApplyAll | addons/web/static/lib/hoot/mock/window.js:45-60 | `applyPropertyDescriptors` as the iterations of `ApplyOne` over the entries, in order |
| WindowMock.ApplyAllFrame | addons/web/static/lib/hoot/mock/window.js:45-60 | a patch leaves every (owner, property) pair it does not redefine as it was |
| WindowMock.ApplyAllHeap | addons/web/static/lib/hoot/mock/window.js:45-60 | a patch with distinct properties installs each descriptor's copy on the owner the property had before the patch |
| WindowMock.OwnerStable | addons/web/static/lib/hoot/mock/window.js:47 | redefining other properties does not change the owner of a property, nor the record made for it |
| WindowMock.ApplyAllLog | addons/web/static/lib/hoot/mock/window.js:48-53 | the earlier records are kept; one record per property is appended, in order, each holding the original own descriptor, the owner, the property and the target |
| WindowMock.Replay | addons/web/static/lib/hoot/mock/window.js:277-279 | `defineProperty(owner, property, descriptor)` for each record in order, stopping with a throw at the first record whose descriptor is `undefined` |
| WindowMock.ReplaySucceeds | addons/web/static/lib/hoot/mock/window.js:277-279 | replaying the log completes exactly when every record holds a descriptor (a recorded `undefined` makes `defineProperty` throw) |
| WindowMock.ReplayStops | addons/web/static/lib/hoot/mock/window.js:277-279 | once a record has thrown, no later record is replayed |
| WindowMock.ReplayFrame | addons/web/static/lib/hoot/mock/window.js:277-279 | replaying leaves every pair that no record names as it was |
| WindowMock.ReplayEffect | addons/web/static/lib/hoot/mock/window.js:277-279 | replaying records of distinct properties, each with a descriptor, succeeds and writes every recorded descriptor back onto its owner |
| WindowMock.PatchThenRestore | addons/web/static/lib/hoot/mock/window.js:276-281 | replaying the log a patch wrote gives back exactly the heap before the patch, when the patched properties are distinct and each is owned somewhere in the chain |
| WindowMock.OriginalDescriptor | addons/web/static/lib/hoot/mock/window.js:67-74 | the result is `null` exactly when no record matches both target and property; otherwise it is the descriptor of the first record that does |
| WindowMock.OriginalDescriptorAppend | addons/web/static/lib/hoot/mock/window.js:67-74 | since the log is only appended to, a later patch never changes what an earlier matching record gives |
| WindowMock.CallGetter | addons/web/static/lib/hoot/mock/window.js:241 | the mocked title getter returns `mockTitle`, the browser's own getter returns the document's title, and calling an absent getter throws |
| WindowMock.ReadProperty | addons/web/static/lib/hoot/mock/window.js:243 | reading a property no object of the chain owns gives `undefined`; a plain read never throws |
| WindowMock.TitleAfterPatch | addons/web/static/lib/hoot/mock/window.js:238-245 | once the document descriptors are patched, `document.title` reads the mocked title while `getTitle` still reads the browser's |
| WindowMock.TitleRecorded | addons/web/static/lib/hoot/mock/window.js:239 | the first title record of the document decides what `getTitle` sees |
| WindowMock.TitleOf | addons/web/static/lib/hoot/mock/window.js:238-245 | what `getTitle()` returns: the recorded getter's result, or a plain read of `document.title` when no descriptor was recorded |
| WindowMock.PropertyWrite | addons/web/static/lib/hoot/mock/window.js:269 | strict-mode `document.title = value`: an owner's setter is called when it has one; an accessor without a setter, or a data property not marked writable, throws; otherwise the receiver gets (or keeps) an own writable data property holding the value |
| WindowMock.WriteThenRead | addons/web/static/lib/hoot/mock/window.js:243-269 | after an assignment that defines a data property, reading the property through the chain gives the value assigned |
| WindowMock.CallSetter | addons/web/static/lib/hoot/mock/window.js:266 | `setter.call(document, value)`: the mock's setter sets the mocked title, the browser's sets the document's title, another mock's is an effect |
| WindowMock.SetTitleOf | addons/web/static/lib/hoot/mock/window.js:264-271 | `setTitle(value)`: the recorded setter when a descriptor was recorded (throwing when it has none), else the assignment `PropertyWrite` resolves, with the setter it finds called, the data property it defines written, or a throw |
| WindowMock.SetThenGetTitle | addons/web/static/lib/hoot/mock/window.js:238-271 | `getTitle()` right after `setTitle(value)` gives `value` and the set does not throw, whenever the title it writes is a matching getter/setter pair (the browser's or the mock's), a writable data property, or absent |
| WindowMock.Without | addons/web/static/lib/hoot/mock/window.js:148 | `Set.delete`: the result holds exactly the callbacks other than the one deleted; a set stays a set; deleting an absent callback changes nothing |
| WindowMock.Lookup | addons/web/static/lib/hoot/mock/window.js:133 | `listeners[type]`: the set recorded for the type, empty when the key is absent |
| WindowMock.Registered | addons/web/static/lib/hoot/mock/window.js:132-137 | `registerListener`: the set of the type is created when absent, then the callback is added to it |
| WindowMock.Unregistered | addons/web/static/lib/hoot/mock/window.js:144-152 | `unregisterListener`: nothing for an absent type; otherwise the callback is deleted from the set, and the key once the set is empty |
| WindowMock.LookupEmpty | addons/web/static/lib/hoot/mock/window.js:144-152 | in a well-formed registry, a type has no callbacks exactly when its key is absent |
| WindowMock.RegisteredSpec | addons/web/static/lib/hoot/mock/window.js:132-137 | after `registerListener` the callback is in the set of its type (created when absent), a callback already there changes nothing, other types keep their sets, and the registry stays well formed |
| WindowMock.RegisteredNewKey | addons/web/static/lib/hoot/mock/window.js:133-136 | an absent type gets a new set holding just the callback |
| WindowMock.RegisteredExtends | addons/web/static/lib/hoot/mock/window.js:136 | a new callback is appended to the existing set of its type |
| WindowMock.RegisteredTwice | addons/web/static/lib/hoot/mock/window.js:132-137 | registering the same callback twice is the same as once, and the set holds it exactly once |
| WindowMock.UnregisteredSpec | addons/web/static/lib/hoot/mock/window.js:144-152 | `unregisterListener` is a no-op for an absent type; otherwise the callback leaves the set of its type, the key is deleted once its set is empty, and other types are untouched, so no type ever maps to an empty set |
| WindowMock.UnregisteredDeletes | addons/web/static/lib/hoot/mock/window.js:149-151 | removing the last callback of a type deletes that key and keeps the other types |
| WindowMock.UnregisteredShrinks | addons/web/static/lib/hoot/mock/window.js:148 | removing a callback that is not the last one keeps the key with the smaller set |
| WindowMock.RemainingStep | addons/web/static/lib/hoot/mock/window.js:231-233 | removing the callbacks of a registry snapshot one by one, in order, unregisters exactly the next one each time |
| WindowMock.CallbackRemovals | addons/web/static/lib/hoot/mock/window.js:231-233 | one `removeEventListener(type, callback)` per callback of the set, in order, with no options |
| WindowMock.CallbackRemovalsCover | addons/web/static/lib/hoot/mock/window.js:231-233 | the removals for one type name exactly that target, that type and the callbacks of its set |
| WindowMock.TableRemovals | addons/web/static/lib/hoot/mock/window.js:230-234 | the removals for every callback of every type of one registry, in `Object.entries` order |
| WindowMock.TableRemovalsCover | addons/web/static/lib/hoot/mock/window.js:230-234 | the removals for one registry name exactly its target and, under each type, the callbacks recorded for it |
| WindowMock.Removals | addons/web/static/lib/hoot/mock/window.js:226-235 | the removals of `cleanupWindow`: those of each watched target in the DOM, in watch order |
| WindowMock.Cleaned | addons/web/static/lib/hoot/mock/window.js:226-235 | the registries after `cleanupWindow` has gone through some targets: those of the targets gone through and in the DOM are empty |
| WindowMock.RemovalsCover | addons/web/static/lib/hoot/mock/window.js:226-235 | `cleanupWindow` removes a callback from a target exactly when the target is watched and in the DOM and the callback is recorded for that type; it removes nothing else, so targets outside the DOM are skipped |
| WindowMock.WatchOne | addons/web/static/lib/hoot/mock/window.js:291 | `listenerMap.set(target, {})`: a fresh, empty registry for the target; a target already in the `Map` keeps its position |
| WindowMock.WatchAll | addons/web/static/lib/hoot/mock/window.js:289-292 | the loop of `watchListeners`: `WatchOne` for each target, in order |
| WindowMock.WatchOrder | addons/web/static/lib/hoot/mock/window.js:290-292 | the `Map` lists exactly the old and the new targets, each once, with the old ones first in their old order |
| WindowMock.WatchAllFrame | addons/web/static/lib/hoot/mock/window.js:289-292 | `watchListeners` watches exactly the given targets on top of the earlier ones and keeps every registry object created before |
| WindowMock.WatchAllOrder | addons/web/static/lib/hoot/mock/window.js:289-292 | the targets are listed in first-insertion order |
| WindowMock.WatchAllSpec | addons/web/static/lib/hoot/mock/window.js:289-292 | each given target gets a fresh, empty registry, replacing any earlier one; other targets keep theirs |
| WindowMock.CleanedSnoc | addons/web/static/lib/hoot/mock/window.js:226-235 | going through one more target of the watch order empties that target's registry alone, and only when it is in the DOM |
| WindowMock.CleanedStep | addons/web/static/lib/hoot/mock/window.js:226-235 | one target of the cleanup loop still has the registry it had when the loop began; emptying it when in the DOM, with its removals, moves both the cleaned registries and the removals on by that target |
| WindowMock.ConsistentUpdate | addons/web/static/lib/hoot/mock/window.js:104-107 | replacing one registry by a well-formed one keeps the bookkeeping invariant, so long as callbacks are recorded only for mocked targets |
| WindowMock.ConsistentRecord | addons/web/static/lib/hoot/mock/window.js:99-121 | updating the registry of a mocked target keeps the bookkeeping invariant |
| WindowMock.ConsistentWatch | addons/web/static/lib/hoot/mock/window.js:291 | `listenerMap.set(target, {})` keeps the bookkeeping invariant |
| WindowMock.MockWindow.constructor | addons/web/static/lib/hoot/mock/window.js:159-167 | module load: no records, nothing watched or mocked, an empty mocked title |
| WindowMock.MockWindow.ApplyPropertyDescriptors | addons/web/static/lib/hoot/mock/window.js:45-60 | the loop leaves the heap and log that `ApplyAll` gives, so the lemmas on `ApplyAll` apply to it |
| WindowMock.MockWindow.FindOriginalDescriptor | addons/web/static/lib/hoot/mock/window.js:67-74 | the search returns what `OriginalDescriptor` specifies: the first matching record, else `null` |
| WindowMock.MockWindow.UnpatchWindow | addons/web/static/lib/hoot/mock/window.js:276-281 | every record is redefined on its owner, in order, and the log is emptied; if a recorded `undefined` throws, the records before it stay restored and the log is not emptied |
| WindowMock.MockWindow.GetTitle | addons/web/static/lib/hoot/mock/window.js:238-245 | the original title getter is called when one was recorded; otherwise `document.title` is read |
| WindowMock.MockWindow.SetTitle | addons/web/static/lib/hoot/mock/window.js:264-271 | the new heap, titles and effects, and whether the call threw, are exactly what `SetTitleOf` gives for the old ones, so `SetThenGetTitle` applies to it |
| WindowMock.MockWindow.InvokeSetter | addons/web/static/lib/hoot/mock/window.js:266 | calling a title setter changes exactly what `CallSetter` says: the mocked title, the browser's title, or an effect of another mock |
| WindowMock.MockWindow.MockEventListeners | addons/web/static/lib/hoot/mock/window.js:95-125 | the target's add and remove now go through the mock |
| WindowMock.MockWindow.PatchWindow | addons/web/static/lib/hoot/mock/window.js:250-252 | `window` is patched with the window descriptors and its listeners are mocked |
| WindowMock.MockWindow.OnDocumentReady | addons/web/static/lib/hoot/mock/window.js:253-258 | the document is patched with the document descriptors, and the listeners of document, body and head are mocked |
| WindowMock.MockWindow.RegisterListener | addons/web/static/lib/hoot/mock/window.js:132-137 | the registry object becomes `Registered` of its old contents and nothing else changes; `RegisteredSpec` says what that is |
| WindowMock.MockWindow.UnregisterListener | addons/web/static/lib/hoot/mock/window.js:144-152 | the registry object becomes `Unregistered` of its old contents and nothing else changes; `UnregisteredSpec` says what that is |
| WindowMock.MockWindow.AddEventListener | addons/web/static/lib/hoot/mock/window.js:99-112 | the callback is recorded only on a mocked, watched target and only when it is not an OWL synthetic listener; a `once` callback is first wrapped in a fresh wrapper; the native add is always called, with the recorded callback; the invariant is kept |
| WindowMock.MockWindow.RemoveEventListener | addons/web/static/lib/hoot/mock/window.js:115-121 | on a mocked, watched target the callback is unregistered; the native remove is always called; the invariant is kept |
| WindowMock.MockWindow.CallOnceWrapper | addons/web/static/lib/hoot/mock/window.js:104-107 | a `once` wrapper takes itself out of the registry it closed over before the original callback is invoked |
| WindowMock.MockWindow.WatchListeners | addons/web/static/lib/hoot/mock/window.js:289-292 | the loop leaves the bookkeeping `WatchAll` specifies and keeps the invariant |
| WindowMock.MockWindow.Watch | addons/web/static/lib/hoot/mock/window.js:291 | one `listenerMap.set(target, {})`, as `WatchOne` specifies, keeping the invariant |
| WindowMock.MockWindow.UnwatchListeners | addons/web/static/lib/hoot/mock/window.js:294-296 | `unwatchListeners` empties the whole map |
| WindowMock.MockWindow.RemoveRecordedListeners | addons/web/static/lib/hoot/mock/window.js:230-234 | every recorded callback of the target is removed through the target, type by type in `Object.entries` order, which empties its registry |
| WindowMock.MockWindow.RemoveCallbacksOf | addons/web/static/lib/hoot/mock/window.js:231-233 | the callbacks recorded for one type are removed in order, which deletes that type's key |
| WindowMock.MockWindow.RemoveCallbackAt | addons/web/static/lib/hoot/mock/window.js:232 | one removal takes exactly the next callback of the snapshot out of the registry |
| WindowMock.MockWindow.CleanupWindow | addons/web/static/lib/hoot/mock/window.js:212-236 | the other mocks are cleared and the mocked title becomes `""`; then, in watch order, every target in the DOM has all its recorded callbacks removed and its registry emptied, while targets outside the DOM are skipped; the invariant is kept; every registry object still exists afterwards, and those no watched target reaches keep their contents |
| WindowMock.MockWindow.CleanupTarget | addons/web/static/lib/hoot/mock/window.js:226-235 | one iteration of the cleanup loop moves the cleaned registries and the removals on by one target; only that target's registry object changes, and only when the target is in the DOM |
| WindowMock.UnreachedKeptStep | addons/web/static/lib/hoot/mock/window.js:226-235 | emptying the registry of one watched target keeps every registry object, and the contents of those no watched target reaches |
| DomTestHelpers.WithDefault | addons/web/static/tests/_framework/dom_test_helpers.js:184 | `{ confirm: true, ...options }` and `{ visible: true, ...options }`: a key set in the caller's options wins, the default is used otherwise, and every other key of the options is kept, with nothing added but the defaulted key |
| DomTestHelpers.QueryOptions | addons/web/static/tests/_framework/dom_test_helpers.js:85 | `waitFor` gets `visible: true` unless the caller's options set `visible`, plus all of the caller's options |
| DomTestHelpers.ConfirmOptions | addons/web/static/tests/_framework/dom_test_helpers.js:184 | `{ confirm: true, ...options }`, as `WithDefault` with the key `confirm` |
| DomTestHelpers.RawString | addons/web/static/tests/_framework/dom_test_helpers.js:74-75 | `String.raw`: the literal parts with the substitutions between them, a missing substitution reading as empty |
| DomTestHelpers.RawStringNoSubstitutions | addons/web/static/tests/_framework/dom_test_helpers.js:74-75 | with no substitutions, the literal parts are simply joined |
| DomTestHelpers.RawStringExtraSubstitutions | addons/web/static/tests/_framework/dom_test_helpers.js:74-75 | substitutions beyond the last gap between literal parts are ignored |
| DomTestHelpers.RawStringLength | addons/web/static/tests/_framework/dom_test_helpers.js:74-75 | with one substitution per gap, the result is exactly as long as all the parts together |
| DomTestHelpers.ModifierKeys | addons/web/static/tests/_framework/dom_test_helpers.js:99-114 | the held keys are exactly the modifiers whose flags are set, one per flag, in key-down order Shift, Meta, Control, Alt |
| DomTestHelpers.BuildClickActions | addons/web/static/tests/_framework/dom_test_helpers.js:98-114 | building the list with `unshift` and `push` gives all key-downs, the click, then the key-ups in reverse |
| DomTestHelpers.HoldKey | addons/web/static/tests/_framework/dom_test_helpers.js:99-102 | one `unshift`/`push` pair wraps the actions in that key's down and up |
| DomTestHelpers.ClickActions | addons/web/static/tests/_framework/dom_test_helpers.js:97-119 | the actions of a click: all key-downs, the click, then the key-ups in reverse |
| DomTestHelpers.ClickActionsShape | addons/web/static/tests/_framework/dom_test_helpers.js:97-119 | there are 1 + 2 × (keys held) actions, and exactly one of them is the click, right after the key-downs |
| DomTestHelpers.ClickActionsNest | addons/web/static/tests/_framework/dom_test_helpers.js:98-114 | the key-ups are the key-downs in reverse: the i-th key pressed is released i-th from the end, so the keys are well nested around the click |
| DomTestHelpers.Dispatch | addons/web/static/tests/_framework/dom_test_helpers.js:117-119 | running the actions dispatches one event per action, in order |
| DomTestHelpers.DragEvents | addons/web/static/tests/_framework/dom_test_helpers.js:126-163 | `drag`: the drag start, a delay, a hover at (100, 100) relative to the node, and a second delay |
| DomTestHelpers.DragAndDropEvents | addons/web/static/tests/_framework/dom_test_helpers.js:168-177 | `dragAndDrop`: a drag start without options, then `moveTo` to the target and `drop`, each of the three followed by a delay |
| DomTestHelpers.DragAndDropOrder | addons/web/static/tests/_framework/dom_test_helpers.js:168-177 | `dragAndDrop` issues drag start, `moveTo` and `drop`, in that order and each exactly once, each followed at once by `advanceTime(20)` then `animationFrame`, so the clock moves 60 ms |
| DomTestHelpers.Interactions.Contains | addons/web/static/tests/_framework/dom_test_helpers.js:73-85 | a tagged template is first turned into its raw string and the call is made again without options; otherwise `waitFor` is called with the defaulted options |
| DomTestHelpers.Interactions.FocusCurrent | addons/web/static/tests/_framework/dom_test_helpers.js:78-83 | a pointer-down is issued on the node exactly when it is not the active element |
| DomTestHelpers.Interactions.DragEffectDelay | addons/web/static/tests/_framework/dom_test_helpers.js:60-63 | `advanceTime(20)`, then `animationFrame` |
| DomTestHelpers.Interactions.Check | addons/web/static/tests/_framework/dom_test_helpers.js:90-93 | `check` on the node, then one animation frame |
| DomTestHelpers.Interactions.Uncheck | addons/web/static/tests/_framework/dom_test_helpers.js:230-233 | `uncheck` on the node, then one animation frame |
| DomTestHelpers.Interactions.Click | addons/web/static/tests/_framework/dom_test_helpers.js:97-121 | the events of the click's action list are issued in order, then one animation frame |
| DomTestHelpers.Interactions.Drag | addons/web/static/tests/_framework/dom_test_helpers.js:126-163 | the drag starts, then one delay, a hover at (100, 100) relative to the node, and a second delay, all before the helpers are returned |
| DomTestHelpers.Interactions.DragCancel | addons/web/static/tests/_framework/dom_test_helpers.js:128-131 | `cancel`, then one delay |
| DomTestHelpers.Interactions.DragDrop | addons/web/static/tests/_framework/dom_test_helpers.js:134-137 | `drop`, then one delay |
| DomTestHelpers.Interactions.DragMoveTo | addons/web/static/tests/_framework/dom_test_helpers.js:140-143 | `moveTo`, then one delay |
| DomTestHelpers.Interactions.DragAndDrop | addons/web/static/tests/_framework/dom_test_helpers.js:168-177 | issues the `dragAndDrop` event sequence, whose order `DragAndDropOrder` proves |
| DomTestHelpers.Interactions.Edit | addons/web/static/tests/_framework/dom_test_helpers.js:182-186 | the node is focused first when needed; then `edit` with `confirm` defaulted to true, then one animation frame |
| DomTestHelpers.Interactions.Fill | addons/web/static/tests/_framework/dom_test_helpers.js:191-195 | the node is focused first when needed; then `fill` with `confirm` defaulted to true, then one animation frame |
| DomTestHelpers.Interactions.Focus | addons/web/static/tests/_framework/dom_test_helpers.js:196-199 | the node is focused when needed, then one animation frame |
| DomTestHelpers.Interactions.Hover | addons/web/static/tests/_framework/dom_test_helpers.js:200-203 | `hover` on the node, then one animation frame |
| DomTestHelpers.Interactions.Press | addons/web/static/tests/_framework/dom_test_helpers.js:207-211 | the node is focused first when needed; then `press`, then one animation frame |
| DomTestHelpers.Interactions.Scroll | addons/web/static/tests/_framework/dom_test_helpers.js:215-218 | `scroll` on the node, then one animation frame |
| DomTestHelpers.Interactions.Select | addons/web/static/tests/_framework/dom_test_helpers.js:222-226 | the node is focused first when needed; then `select`, then one animation frame |
| TreeEditorHelpers.JoinLength | addons/web/static/tests/core/tree_editor/condition_tree_editor_test_helpers.js:167 | a joined string ends right after its last part |
| TreeEditorHelpers.JoinPartAt | addons/web/static/tests/core/tree_editor/condition_tree_editor_test_helpers.js:167 | every part appears in the joined string at its offset |
| TreeEditorHelpers.JoinSeparatorAt | addons/web/static/tests/core/tree_editor/condition_tree_editor_test_helpers.js:167 | between two consecutive parts, the joined string holds exactly the separator |
| TreeEditorHelpers.Join | addons/web/static/tests/core/tree_editor/condition_tree_editor_test_helpers.js:167 | `Array.prototype.join`: the parts with the separator between consecutive ones |
| TreeEditorHelpers.Split | addons/web/static/tests/core/tree_editor/condition_tree_editor_test_helpers.js:126 | splitting on a one-character separator, the inverse that `SplitJoin` relates to `Join` |
| TreeEditorHelpers.SplitJoin | addons/web/static/tests/core/tree_editor/condition_tree_editor_test_helpers.js:126 | splitting a joined string on a one-character separator that no part contains gives the parts back |
| TreeEditorHelpers.TrimStartFrom | addons/web/static/tests/core/tree_editor/condition_tree_editor_test_helpers.js:162 | the start of the trimmed text: only whitespace is skipped, and it stops at the first other character |
| TreeEditorHelpers.TrimEndFrom | addons/web/static/tests/core/tree_editor/condition_tree_editor_test_helpers.js:162 | the end of the trimmed text: only whitespace is dropped, and it stops after the last other character |
| TreeEditorHelpers.Trim | addons/web/static/tests/core/tree_editor/condition_tree_editor_test_helpers.js:162 | `trim()` leaves no whitespace at either end and drops only whitespace, keeping the middle of the string as it was; only an all-whitespace string becomes empty |
| TreeEditorHelpers.Get | addons/web/static/tests/core/tree_editor/condition_tree_editor_test_helpers.js:87-89 | `.at(index)`: a non-negative index counts from the start, a negative one from the end, and an index out of range gives `undefined` |
| TreeEditorHelpers.GetNegative | addons/web/static/tests/core/tree_editor/condition_tree_editor_test_helpers.js:88 | index `i - length` names the same element as `i` |
| TreeEditorHelpers.GetValue | addons/web/static/tests/core/tree_editor/condition_tree_editor_test_helpers.js:91-103 | there is a value exactly when there is an editor |
| TreeEditorHelpers.GetCurrentPath | addons/web/static/tests/core/tree_editor/condition_tree_editor_test_helpers.js:105-113 | with a field selector, the chain parts joined by `" > "`; without one, the editor's text; `undefined` without a path editor |
| TreeEditorHelpers.GetCurrentOperator | addons/web/static/tests/core/tree_editor/condition_tree_editor_test_helpers.js:115-118 | there is an operator exactly when there is an operator editor |
| TreeEditorHelpers.GetCurrentValue | addons/web/static/tests/core/tree_editor/condition_tree_editor_test_helpers.js:120-134 | with tags: the tag texts joined by single spaces, then `" " + value` only if the value is not empty; without tags: the plain value; `undefined` without a value editor |
| TreeEditorHelpers.JoinSnoc | addons/web/static/tests/core/tree_editor/condition_tree_editor_test_helpers.js:126-128 | appending `" " + value` to the joined tags is joining the tags and the value |
| TreeEditorHelpers.CurrentValueRoundTrip | addons/web/static/tests/core/tree_editor/condition_tree_editor_test_helpers.js:120-134 | when neither the tags nor the value contain a space, the value text splits back into the tags followed by the value, if that is not empty |
| TreeEditorHelpers.GetCurrentComplexCondition | addons/web/static/tests/core/tree_editor/condition_tree_editor_test_helpers.js:152-155 | `undefined` exactly when the index is out of range; otherwise the value of the input it names, counting from the end when negative |
| TreeEditorHelpers.GetCurrentConnector | addons/web/static/tests/core/tree_editor/condition_tree_editor_test_helpers.js:180-187 | `"all"` exactly when the connector text contains "all"; otherwise the text itself; `undefined` without a connector |
| TreeEditorHelpers.HasSubstring | addons/web/static/tests/core/tree_editor/condition_tree_editor_test_helpers.js:72-74 | `String.prototype.includes`: some position of the text starts with the pattern |
| TreeEditorHelpers.GetCurrentCondition | addons/web/static/tests/core/tree_editor/condition_tree_editor_test_helpers.js:171-178 | `[path, operator]`, with the value as a third element exactly when a value editor exists |
| TreeEditorHelpers.NonBlankTrimmed | addons/web/static/tests/core/tree_editor/condition_tree_editor_test_helpers.js:160-166 | at most one collected text per child |
| TreeEditorHelpers.NonBlankTrimmedShape | addons/web/static/tests/core/tree_editor/condition_tree_editor_test_helpers.js:160-166 | every collected text is trimmed and not empty, and nothing is collected exactly when every child text is blank |
| TreeEditorHelpers.GetConditionText | addons/web/static/tests/core/tree_editor/condition_tree_editor_test_helpers.js:157-169 | the loop collects `NonBlankTrimmed` of the child texts and joins them with single spaces; `undefined` without a condition |
| TreeEditorHelpers.JoinTrimmed | addons/web/static/tests/core/tree_editor/condition_tree_editor_test_helpers.js:167 | joining non-empty trimmed parts gives a trimmed string, which is empty exactly when there are no parts |
| TreeEditorHelpers.ConditionTextShape | addons/web/static/tests/core/tree_editor/condition_tree_editor_test_helpers.js:157-169 | a condition text has no whitespace at either end, and it is empty exactly when every child text is blank |
| TreeEditorHelpers.EnclosingPrecedes | addons/web/static/tests/core/tree_editor/condition_tree_editor_test_helpers.js:66 | an enclosing tree node comes before the nodes it encloses in document order |
| TreeEditorHelpers.Level | addons/web/static/tests/core/tree_editor/condition_tree_editor_test_helpers.js:66-67 | the level of a tree node: 0 without an enclosing node, one more than the enclosing node's otherwise |
| TreeEditorHelpers.LevelCountsEnclosing | addons/web/static/tests/core/tree_editor/condition_tree_editor_test_helpers.js:66-67 | a node's level is the number of tree nodes enclosing it |
| TreeEditorHelpers.NodeValueOf | addons/web/static/tests/core/tree_editor/condition_tree_editor_test_helpers.js:70-78 | the connector extractor when the class of the node's first matching descendant (a connector, condition or complex condition, in document order) includes "connector"; otherwise the complex-condition extractor when it includes "complex_condition"; otherwise the condition extractor |
| TreeEditorHelpers.GetTreeEditorContent | addons/web/static/tests/core/tree_editor/condition_tree_editor_test_helpers.js:61-85 | one entry per tree node, in document order, each with its level (one more than its enclosing node's, 0 at the top), the value `NodeValueOf` chooses and, only when `options.node` is set, the node; the call throws exactly when some node has no connector, condition or complex-condition descendant |

## Left out

- **Imported mocks.** The mocks of other modules (cookie, history, location,
  storages, timers, `fetch`, workers, sockets, `navigator`, `Math`,
  `Notification`, `matchMedia`) are named values. Clearing them is a `Clear`
  effect. Their own behaviour is not part of this model.
- **Document patching.** `whenReady` scheduling is not modelled. The callback
  `patchWindow` hands to it is the separate method `OnDocumentReady`, which
  the caller invokes.
- **Native browser behaviour.** `Object.defineProperty` is a heap update. The
  native `addEventListener` and `removeEventListener` are effects. Native
  listener dispatch is not modelled.
- **The OWL regex.** `R_OWL_SYNTHETIC_LISTENER` is a flag carried by each
  listener, not a regular expression matched against the source text.
- **Window sizes.** `getCurrentDimensions` and the window-size fallbacks are
  computed getters named by `Computed`.
- **Descriptor copies.** The caller's descriptor objects are never mutated
  because descriptors are values here. The copy made with `{ ...rawDescriptor }`
  is therefore implicit.
- WindowMock.MockWindow.MockEventListeners: the mocked targets form a set, so
  mocking a target twice is the same as once. In the source a second call wraps
  the mocked functions again, and every layer records the listener; a `once`
  listener would then be recorded twice, under two different wrappers.
- **Registries.** Registry objects are identities (`RegistryId`) with their
  contents kept in one map. Sets are sequences in insertion order. A registry's
  keys are kept in insertion order, which is `Object.entries` order for every
  event type that is not an array index; `Object.entries` would list such
  integer-like keys first, and that reordering is not modelled.
- **DOM queries.** `isInDOM` is the set `inDom` handed to `cleanupWindow`.
  `getActiveElement` and the node `waitFor` resolves to are parameters. The
  results of `queryAll`, `querySelector`, `closest`, `innerText` and
  `textContent` are plain values. CSS selector matching is not modelled.
- **Timing.** `await`, promises and timing are not modelled.
  `advanceTime(20)` and `animationFrame` are trace events.
- **`editAce`.** It is a workaround for a third-party editor and is not part
  of this model.
- **Other tree-editor helpers.** `getOperatorOptions`, `getValueOptions`,
  `isNotSupportedPath`, `isNotSupportedOperator` and the interaction wrappers
  after them are not part of this model. They are selector queries and
  `contains` calls with no logic of their own.
- **Malformed editors.** `getValue` on an editor with no input, select or span
  throws in the source. An editor always has one of the three here.
- **Truthiness.** JavaScript truthiness of option values does not model `NaN`,
  which is falsy.
- WindowMock.Registered: a registry is a plain object `{}`, so an event type
  naming a property of `Object.prototype` (`"toString"`, `"constructor"`,
  `"hasOwnProperty"`, ...) finds an inherited function at `listeners[type]`, and
  the call to `.add` on it throws a TypeError. The model keeps the registry as
  a map of its own keys only, so such a type is registered like any other.
- WindowMock.Unregistered: for the same reason, `.delete` on an inherited
  `Object.prototype` member throws in the source; the model treats the type as
  absent and changes nothing.
- WindowMock.MockWindow.AddEventListener: with such an event type the source
  throws from `registerListener` before the native `addEventListener` is
  called; the model records the callback and calls the native add.
- WindowMock.MockWindow.RemoveEventListener: with such an event type the source
  throws from `unregisterListener` before the native `removeEventListener` is
  called; the model calls the native remove.
- WindowMock.PropertyWrite: a receiver made non-extensible, a proxy and other
  exotic objects are not modelled; an assignment that would create a property
  always succeeds.
- TreeEditorHelpers.GetValue: `queryOne` throws when more than one control
  matches, and a select with no option selected (`selectedIndex` of -1) makes
  reading `.label` of `undefined` throw; the model has one control per editor
  and a select always yields its label.
- TreeEditorHelpers.GetCurrentConnector: `search("all")` treats its argument as
  a regular expression; "all" has no special characters, so it is modelled as a
  substring test.
