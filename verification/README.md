# universal-model-vue core, modelled in Dafny

A verified functional model of the small state container
`universal-model-vue`. It covers the four pure pieces of the library:

- **Sub-state tagging** (`createSubState`). The input record is copied into a fresh object
  literal. The copy's first symbol property is a module-private symbol set to `true`.
- **Store construction** (`createStore`, `Store`). Every top-level value of the initial
  state must carry an own symbol key. The state and selectors are then held unchanged
  by a read-only `Store`.
- **Selector composition** (`combineSelectors`). An ordered array of selector maps is
  merged left to right into the first map. The merge aborts with
  `duplicate selector key: <k>` on the first key that the destination already holds.
- **The reactive projection's pure parts** (`getStateAndSelectors`). These are the mirror
  seeded from the current snapshot, one computed entry per selector key, and the
  per-key patch the subscriber applies on every emission.

## How JavaScript is represented

- `Objects.Value` is a JavaScript value: `undefined`, `null`, a boolean, a number, a
  string, or a reference `Ref(addr)` into a heap. `Objects.Heap` is a sequence of
  objects, and the address is the index. Dafny's `==` on `Value` is the source's strict
  equality `===`, so objects compare by reference.
- `Objects.Obj` holds an object's own enumerable properties. String keys and symbol keys
  are kept apart, each as an association list in property order (module `Props`):
  - a read finds the first pair with the key;
  - a write replaces a value in place or appends a new key;
  - `Props.Assign` is the left-to-right copy that object spread performs, and the loop
    that fills the computed selector entries one key at a time.
- Symbols are `SubStateMarker` (the private `isSubStateSymbol`) or `OtherSymbol(id)`.
- Thrown errors are the `Failure` side of `Results.Result`.

## Behaviour worth noting

The model follows the code. These are the places where the code's behaviour is easy to
misread, or where it differs from what the library's tests
(src/tests/createSubState.test.ts, src/tests/createStore.test.ts) expect:

- Re-tagging an already tagged sub-state is accepted. The result is an equal, freshly
  allocated object, so it is `!==` the input (`SubStates.TagIdempotent`,
  `SubStates.CreateSubState`). Rejecting the marker key is behaviour of another variant
  of the library, which used a string marker.
- A snapshot property whose value is `undefined` is never added to the mirror when the
  mirror lacks that key. The reason is that `undefined !== undefined` is false. So after
  a patch the mirror's keys are the old keys plus the snapshot keys that hold a value
  other than `undefined`. They are the plain union only when no snapshot value is
  `undefined` (`ReactiveProjection.PatchKeySet`, `PatchKeysUnion`, `UndefinedKeyNotAdded`).
- `createStore` reads only whether an own symbol exists, not which symbol, so any
  unrelated symbol passes.
- `createStore` throws the host's `TypeError`, not its own error, when the first failing
  value is `undefined` or `null`. This is modelled as `HostTypeError`.
- `combineSelectors` merges into `maps[0]` itself. On a throw, that map keeps the keys
  merged before the clash. The failure value carries the map as the throw leaves it.
- `getStateAndSelectors` calls `store.getObservableState()`, which the `Store` class in
  this version does not define. The current snapshot and each emitted snapshot are
  therefore parameters of the model.

## Model

| member | source | states |
|---|---|---|
| SubStates.Tag | src/createSubState.ts:4-7 | the copy keeps the input's string properties identically: same keys, same values, same order, nothing added; the marker is the first symbol key and reads `true` unless the input already held the marker; every other symbol property is copied unchanged; the keys stay distinct |
| SubStates.CreateSubState | src/createSubState.ts:3-8 | the result is a reference to a newly allocated object, not allocated before; every object already in the heap, the input included, is unchanged; there is no failure case |
| SubStates.TaggedMarkerIsTrue | src/createSubState.ts:1-5 | for any input that does not hold the private marker with another value, the tagged object carries the marker with value `true` |
| SubStates.TagIdempotent | src/createSubState.ts:4-7 | tagging a tagged object returns an equal object |
| Stores.GettersReturnConstructorArguments | src/Store.ts:17-28 | `getState` and `getSelectors` return exactly the constructor's arguments, including absent selectors; the constructor accepts any state |
| StoreFactory.OwnSymbolKeys | src/createStore.ts:9 | `Object.getOwnPropertySymbols` throws exactly for `undefined` and `null`; otherwise its list is non-empty iff the value is an object with an own symbol key, so `[0]` is truthy exactly then |
| StoreFactory.CheckSubStates | src/createStore.ts:8-14 | the per-entry check passes iff every top-level value is an object with at least one own symbol key; otherwise it reports the first failing value's error: `TypeError` for `undefined`/`null`, the createStore error for any other value |
| StoreFactory.CreateStore | src/createStore.ts:3-17 | succeeds iff every top-level value has an own symbol key; on success the store holds the given state reference and selectors unchanged; on failure the error is the one for the first failing value |
| StoreFactory.TaggedStateAccepted | src/createStore.ts:8-16 | a state whose values are all `createSubState` outputs is always accepted |
| StoreFactory.ForeignSymbolAccepted | src/createStore.ts:9 | an object carrying only an unrelated symbol passes the check |
| StoreFactory.EmptyStateAccepted | src/createStore.ts:8-16 | a state with no top-level values is accepted |
| StoreFactory.RejectionIndependentOfPosition | src/createStore.ts:8-13 | if no value is `undefined`/`null`, one failing value at any position makes the call fail, always with exactly the createStore message |
| StoreFactory.TaggedScenarioAccepted | src/tests/createStore.test.ts:5-20 | `createStore({ subState1: createSubState({ value: 0 }) }, s)` succeeds; the stored sub-state has the field `value: 0` and carries the marker |
| StoreFactory.UntaggedScenarioRejected | src/tests/createStore.test.ts:22-33 | `createStore({ subState1: { value: 0 } }, {})` fails with the exact createStore message |
| SelectorCombiner.CombineSelectors | src/combineSelectors.ts:4-15 | the combiner meets the reference definition `Expected` on all properties in scan order: an empty array gives an empty object; if no key repeats, it succeeds with all of them; otherwise it aborts at the first repeated key and leaves the destination holding the properties before that key |
| SelectorCombiner.MergeSource | src/combineSelectors.ts:7-13 | merging one source key by key, with the customizer throwing on a key the destination holds, equals the reference definition `Expected` on the destination's properties followed by the source's: it aborts at the first repeated key with the destination as the throw leaves it |
| SelectorCombiner.MergeSources | src/combineSelectors.ts:7-13 | merging the sources one after another, stopping at the first throw, equals the reference definition on the destination's properties followed by all the sources' properties in order |
| SelectorCombiner.CombineSucceedsIffDisjoint | src/combineSelectors.ts:7-14 | combining succeeds iff no two maps share a key, so a clash between two later maps also fails |
| SelectorCombiner.CombinedSelectorsAreTheOriginals | src/combineSelectors.ts:7-9 | on success the result starts with the first map; its keys are the union of all maps' keys; each key holds the selector of the map that defined it |
| SelectorCombiner.FailureNamesFirstCollision | src/combineSelectors.ts:11-13 | on failure the error names the first key, scanning maps left to right and keys in order, that repeats an earlier key; that key lies after the first map |
| SelectorCombiner.SingleMapUnchanged | src/combineSelectors.ts:7-9 | a one-element array returns its map unchanged |
| SelectorCombiner.DisjointScenario | src/tests/combineSelectors.test.ts:13-29 | `{selector1, selector2}` combined with `{selector3}` yields all three selectors in order |
| SelectorCombiner.OverlapScenario | src/tests/combineSelectors.test.ts:31-46 | a second map that repeats `selector1` fails with the message `duplicate selector key: selector1` |
| SelectorCombiner.LaterMapsOverlapScenario | src/combineSelectors.ts:8-12 | a key repeated between the second and third maps is rejected after the second map has merged |
| ReactiveProjection.Patch | src/getStateAndSelectors.ts:28-35 | the keys written are exactly the snapshot keys whose value differs from the mirror's, each written once and in the snapshot's key order (`Changed`, an in-order filter of the snapshot); a written key holds the snapshot's value; every other key is left as it was; the mirror's keys are its old keys in their order, followed by the newly added keys in write order; if nothing is written, the mirror is unchanged |
| ReactiveProjection.PatchSynchronises | src/getStateAndSelectors.ts:30-34 | after an emission, the mirror reads the snapshot's value at every snapshot key |
| ReactiveProjection.PatchKeepsOtherKeys | src/getStateAndSelectors.ts:30-34 | a key absent from the snapshot keeps its property, or its absence; nothing is deleted |
| ReactiveProjection.PatchKeySet | src/getStateAndSelectors.ts:30-34 | the mirror's keys after an emission are the old keys plus the snapshot keys whose value is not `undefined` |
| ReactiveProjection.PatchKeysUnion | src/getStateAndSelectors.ts:30-34 | without `undefined` values in the snapshot, the keys after an emission are the union of the old keys and the snapshot's keys |
| ReactiveProjection.UndefinedKeyNotAdded | src/getStateAndSelectors.ts:31 | patching an empty mirror with `{ a: undefined }` writes nothing and adds no key |
| ReactiveProjection.NewKeysInSnapshotOrder | src/getStateAndSelectors.ts:30-34 | an empty mirror receiving `{ a: 1, b: 2 }` gains `a` and then `b`, with the snapshot's values, and both writes are reported in that order |
| ReactiveProjection.PatchIdempotent | src/getStateAndSelectors.ts:30-34 | emitting the same snapshot twice gives the same mirror as once, and the second emission writes nothing |
| ReactiveProjection.SeededMirrorInSync | src/getStateAndSelectors.ts:12 | a mirror seeded from a snapshot is already in step with it: patching with that snapshot writes nothing |
| ReactiveProjection.PatchWf | src/getStateAndSelectors.ts:30-34 | patching keeps the mirror's keys distinct |
| ReactiveProjection.GetStateAndSelectors | src/getStateAndSelectors.ts:9-39 | the returned state is the snapshot it was seeded from; a key has a computed entry iff the store has a selector for it, and the entry evaluates that selector; with no selectors there are no entries |
| ReactiveProjection.Emit | src/getStateAndSelectors.ts:27-36 | after the subscriber runs on a snapshot, every snapshot key reads as in the snapshot, every other key keeps its property or its absence, and the computed entries are untouched |
| ReactiveProjection.ComputedSelectors | src/getStateAndSelectors.ts:14-25 | with no selectors the result is empty; otherwise it has exactly the selectors' keys, in order, and each entry evaluates the selector with the same key |
| ReactiveProjection.ProjectionStartsInSync | src/getStateAndSelectors.ts:9-38 | a fresh projection that receives the snapshot it was seeded from stays unchanged |

## Left out

- Vue's `reactive` and `computed` are an external framework capability: proxies,
  dependency tracking and memoisation. The mirror is modelled as the plain property list
  and a computed entry as the selector it evaluates. Selectors are an opaque type and are
  never evaluated.
- ReactiveProjection.Patch: the model treats the mirror as a value of its own. In the
  source, `reactive(x)` wraps the snapshot object without copying it, so each write at
  line 32 mutates that snapshot object in place. That object may be the very state the
  `Store` holds. This aliasing is not modelled. The comparison is also made on the plain
  property list, not on the proxy. Vue's deep proxy returns a proxy for an object-valued
  property, so in the source `newState[key] !== currentState[key]` holds for every
  object-valued key, tagged sub-states included. The assignment then runs on every
  emission. That write stores the same raw object and leaves the mirror's contents as the
  model describes, but `Patch`'s list of written keys, and the "writes nothing" of
  `PatchIdempotent` and `SeededMirrorInSync`, hold only for primitive-valued keys.
- ReactiveProjection.Patch: a missing property reads as `undefined` (`Objects.Read`). In
  the source, a key named after an `Object.prototype` member, such as `toString`, reads as
  that inherited member. A snapshot entry `toString: undefined` is therefore written there
  but not in the model.
- The observable subscription, `subscribe`/unsubscribe and fan-out to several
  subscribers are left out. The `Store` class in this version has no observable cell. The subscriber body
  is the pure function `Patch`.
- lodash internals behind `_.mergeWith` are left out: inherited enumerable keys, deep
  merging of plain-object values, and the case of an existing key whose value is
  `undefined`, which the customizer's `_.isUndefined` test lets through.
- SelectorCombiner.CombineSelectors: selector maps are values, not heap objects, so two
  lodash behaviours are not modelled. First, `baseMerge` returns at once when a source is
  the destination object itself, so `[m, m]` or `[m0, m1, m0]` succeeds in the source
  where the model reports the repeated keys. Second, the customizer receives
  `safeGet(object, key)`, which also reads inherited members. So a later map with a key
  such as `toString`, `valueOf` or `hasOwnProperty` throws in the source, while the model
  sees only own keys and accepts it. Third, from lodash 4.17.12 on, `safeGet` returns
  `undefined` for the key `__proto__`. It also does so for `constructor` when the value
  there is a function, which every selector is. A later map's `constructor` selector
  therefore reaches the customizer as `(undefined, undefined)` and does not throw.
  `assignMergeValue` then assigns nothing, because `constructor` is already present
  through the prototype. So `[{a: f}, {constructor: g}]` returns `{a: f}` without `g`.
  And `[{constructor: f}, {constructor: g}]` succeeds and keeps `f`, where the model
  appends `g` in the first case and reports a duplicate in the second. Before 4.17.12
  the first case throws, as for `toString`. The model's results hold only when the
  later maps have no `constructor` or `__proto__` key.
- SelectorCombiner.CombineSucceedsIffDisjoint: holds only for maps that are distinct
  objects and whose later maps have no key named after an `Object.prototype` member, for
  the two reasons above.
- SelectorCombiner.FailureNamesFirstCollision: holds under the same two conditions.
- SelectorCombiner.MergeSource: a key that the destination only inherits does not count as
  present. This is the second reason above. The source's silent skip of a `constructor`
  or `__proto__` key, the third reason above, is not modelled either. The contract holds
  only for sources without such keys.
- SelectorCombiner.MergeSources: holds only when no source has a key named after an
  `Object.prototype` member, `constructor` and `__proto__` included, and no source is the
  destination object itself, for the three reasons above.
- SelectorCombiner.CombinedSelectorsAreTheOriginals: the union-of-keys clause holds only
  when the later maps have no `constructor` or `__proto__` key. lodash 4.17.12 and later
  drops such a selector without error, as the third reason above says.
- Numbers are unbounded integers. Floating point is not modelled, and neither is `NaN`,
  whose `NaN !== NaN` would make the patch rewrite a `NaN` property on every emission.
- JavaScript puts integer-like string keys first, in ascending order. Property order here
  is insertion order for all keys.
- Only enumerable own properties are modelled. `Object.getOwnPropertySymbols` also sees
  non-enumerable symbols, which plain object literals do not have.
- `createSubState` is modelled for object arguments only, as its TypeScript signature
  demands. Spreading a primitive is not modelled.
- `createStore` requires the state's values to be allocated references or primitives,
  since a dangling reference cannot occur in JavaScript.
- `createStore` is modelled for an object `initialState` only, as its TypeScript
  signature demands. `Object.entries` throws a `TypeError` on `null` or `undefined`. On
  a primitive it gives `[]`, or the characters of a string, so `createStore(5, s)`
  returns a `Store`. Neither case is modelled.
- Behaviour that the tests assert but that the library's code does not implement is not modelled:
  - the string marker `__isSubState__`;
  - rejecting that reserved key;
  - rejecting forbidden value types such as `Date`;
  - reading `.value` on store selectors;
  - a named, variadic `combineSelectors` export.
- "State and selectors never change after construction" holds for what the `Store`
  holds: the state reference and the selectors. A `Store` is an immutable datatype with no
  update operation, so no separate lemma states it. The object behind the state
  reference can still change: `getStateAndSelectors` patches it in place, as the
  `ReactiveProjection.Patch` line above says. The heap contents are not part of the
  `Store`.
