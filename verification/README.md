# ivue-ui-plus: click-outside registry and table helpers in Dafny

This project models two pieces of the ivue-ui-plus Vue component library and
proves properties of them.

**The click-outside directive** (`src/utils/directives/click-outside.ts`)
keeps two module-level dictionaries, `captureInstances` and
`nonCaptureInstances`. Each maps an event name (`click`, `mousedown`,
`touchstart`) to the ordered list of `{el, binding}` registrations made for it.

- `inserted` checks that the bound value is a function and picks the event
  type from the modifiers. It normalises the `capture`/`prevent`/`stop`
  flags and appends the registration to the bucket of the chosen mode. It
  adds one document listener when that bucket goes from empty to one entry.
- `unbind` filters the element out of every bucket of both dictionaries. A
  bucket left empty is deleted and its listener removed.
- `commonHandler` dispatches an event for a mode. For every registration
  whose element neither is nor contains the event target, it calls
  `stopPropagation` if its `stop` flag is set, then `preventDefault` if its
  `prevent` flag is set, then the callback. A registration with neither flag
  only has its callback called.

The registry is the class `ClickOutsideRegistry.Registry`. Its fields are the
two dictionaries and the log of `addEventListener`/`removeEventListener`
calls made on the document. The pure rules it relies on are in module
`ClickOutside`. A dictionary is the value `Instances`: its keys in
`Object.keys` order, plus a map from key to bucket. A listener counts as
installed when the last add/remove call for its (event name, capture) pair
is an add, as for DOM listeners. DOM elements and callbacks are abstract
types, and `el.contains(target)` is a function parameter.

The class invariant `Valid` says two things:

- every dictionary lists each key once and holds no empty bucket;
- for each mode and event name, the listener is installed exactly when the
  bucket exists.

`inserted` and `unbind` keep `Valid`.

Dispatch does not look at the event's type. It walks every key of the
mode's dictionary (`click-outside.ts:46-50`), so within one mode a
`mousedown` registration is also evaluated on a `click` event, and fires
when the click is outside its element. A click reaches the mode's handler
only when that mode also holds a `click` bucket, since only then is its click
listener installed.
`ClickOutside.DispatchIgnoresEventType` and
`ClickOutside.MousedownRegistrationFiresOnClick` state this behaviour.

**The table helpers** (`src/components/ivue-table/config.ts`) are in module
`TableConfig`. They are:

- `mergeOptions`, modelled as a method with the source's two `for..in` loops,
  proved against the function `Merged`;
- right-to-left `compose`, proved equal to nested application;
- the index column's header and row numbers;
- the two flags of the selection column's header checkbox;
- `getDefaultClassName`.

A JavaScript object is a `JsObject`: its enumerable own and inherited
properties, with `None` for a slot holding `undefined`.

## Model

| member | source | states |
|---|---|---|
| ClickOutside.EventTypeOf | src/utils/directives/click-outside.ts:76-91 | the event type is one of click, mousedown, touchstart; it is the first of them, in that priority order, whose modifier is set, and `click` when none is set |
| ClickOutside.OnlyHigherPriorityFlagsConsulted | src/utils/directives/click-outside.ts:80-91 | once the modifier of rank k decides the event type, changing any lower-priority modifier does not change it |
| ClickOutside.NormaliseModifiers | src/utils/directives/click-outside.ts:97-113 | the normalised modifiers have capture, prevent and stop plus every supplied key; a supplied flag keeps its value and a missing default flag is false |
| ClickOutside.Assign | src/utils/directives/click-outside.ts:154 | `instances[k] = v` stores `v` under `k` and leaves every other bucket alone; an existing key keeps its place in `Object.keys` order and a new key goes last; storing a non-empty bucket keeps the dictionary well formed |
| ClickOutside.Delete | src/utils/directives/click-outside.ts:161 | `delete instances[k]` removes `k` from the map and from the key order and leaves every other key and bucket alone; the dictionary stays well formed |
| ClickOutside.Push | src/utils/directives/click-outside.ts:119-126 | the registration is appended at the end of the event's bucket, created empty if absent; a new key goes last in key order, other buckets are unchanged, and well-formedness is kept |
| ClickOutside.Without | src/utils/directives/click-outside.ts:151 | `filter(compareElements)` keeps no registration of the element and keeps every registration of another element |
| ClickOutside.WithoutKeepsOthers | src/utils/directives/click-outside.ts:136-138 | a registration of another element occurs in the filtered bucket exactly as often as before |
| ClickOutside.WithoutConcat | src/utils/directives/click-outside.ts:151 | filtering a concatenation filters each part, so survivors keep their relative order |
| ClickOutside.WithoutAbsent | src/utils/directives/click-outside.ts:151 | filtering out an element that has no registration in the bucket leaves the bucket as it was |
| ClickOutside.Unbound | src/utils/directives/click-outside.ts:140-168 | after unbinding, a key is present exactly when its bucket had something left once filtered, and the dictionary stays well formed |
| ClickOutside.UnboundHasNoElement | src/utils/directives/click-outside.ts:136-154 | after `unbind(el)` no bucket holds a registration of `el` |
| ClickOutside.UnboundKeepsOthers | src/utils/directives/click-outside.ts:151-154 | every registration of another element survives in its bucket, as many times as before, and the surviving bucket is the filtered one |
| ClickOutside.UnbindUnknownElement | src/utils/directives/click-outside.ts:145-166 | unbinding an element with no registration leaves the dictionary unchanged and removes no listener |
| ClickOutside.SurvivingKeysMember | src/utils/directives/click-outside.ts:153-154 | a key stays in `Object.keys` order exactly when its bucket is non-empty after filtering |
| ClickOutside.EmptiedKeysMember | src/utils/directives/click-outside.ts:155-161 | a listener removal is issued exactly for the keys whose bucket the filter empties |
| ClickOutside.EmptiedKeysDistinct | src/utils/directives/click-outside.ts:155-161 | each emptied bucket gets exactly one removal: the removed names are distinct |
| ClickOutside.InstalledAfterRemovals | src/utils/directives/click-outside.ts:156-159 | after removing the listeners of some names in one mode, exactly those (mode, name) pairs are uninstalled and all other pairs keep their state |
| ClickOutside.Outside | src/utils/directives/click-outside.ts:28 | an event whose target is the element itself, or inside it, is never outside; any other target is |
| ClickOutside.RegistrationEffects | src/utils/directives/click-outside.ts:28-42 | an event inside the element does nothing; one outside stops propagation exactly when `stop` is set, then prevents the default exactly when `prevent` is set, then calls the callback last; each of the three happens at most once |
| ClickOutside.FlattenVisitsEveryKey | src/utils/directives/click-outside.ts:46-50 | dispatch visits every registration in every bucket listed by `Object.keys` |
| ClickOutside.EffectsOfConcat | src/utils/directives/click-outside.ts:47 | the effects of walking two lists of registrations are the effects of the first followed by those of the second |
| ClickOutside.Dispatched | src/utils/directives/click-outside.ts:18-51 | the effects of one dispatch over a dictionary invoke exactly the callbacks of the registrations the event is outside of, in key order and then bucket order |
| ClickOutside.InvokesExactlyOutsideCallbacks | src/utils/directives/click-outside.ts:23-50 | the callbacks invoked in a dispatch are exactly those of the registrations the event is outside of, once each, in visiting order |
| ClickOutside.DispatchIgnoresEventType | src/utils/directives/click-outside.ts:46-50 | the event's type plays no part in dispatch: every key of the mode's dictionary is walked |
| ClickOutside.MousedownRegistrationFiresOnClick | src/utils/directives/click-outside.ts:46-50 | in a mode holding both a `click` and a `mousedown` bucket, a `click` event runs the click bucket's outside callbacks and then the callback of a `mousedown` registration it is outside of |
| ClickOutside.CommonHandler | src/utils/directives/click-outside.ts:18-51 | the nested `forEach` loops produce exactly the dispatch effects of the dictionary: bucket by bucket in key order, registration by registration |
| ClickOutsideRegistry.Registry.constructor | src/utils/directives/click-outside.ts:3-7 | both dictionaries start empty and no listener is installed; the registry invariant holds |
| ClickOutsideRegistry.Registry.Inserted | src/utils/directives/click-outside.ts:69-131 | a non-function value throws `TypeError('Binding value must be a function')` and changes nothing; otherwise the normalised registration is appended to the bucket of the resolved event type in the mode `arg` selects, the other dictionary is unchanged, and one listener is added exactly when the bucket was absent; the registry invariant is kept |
| ClickOutsideRegistry.Registry.Unbind | src/utils/directives/click-outside.ts:134-172 | both dictionaries, capture first, become their unbound form; the only listener calls are one removal per emptied bucket, capture mode first; the registry invariant, including "installed exactly when the bucket exists", is kept |
| ClickOutsideRegistry.Registry.UnbindInstances | src/utils/directives/click-outside.ts:140-168 | one dictionary becomes its unbound form, the other is untouched, and the log gains the removals of its emptied buckets in key order |
| ClickOutsideRegistry.UnbindDictionary | src/utils/directives/click-outside.ts:142-166 | the walk over `Object.keys` yields the unbound dictionary and one removal call per emptied bucket, in key order |
| ClickOutsideRegistry.UnbindKey | src/utils/directives/click-outside.ts:149-163 | handling the next key moves the walk on by exactly one key, keeping or deleting its bucket, and makes a removal call exactly when that bucket empties |
| ClickOutsideRegistry.Registry.HandleEvent | src/utils/directives/click-outside.ts:54-66 | the listener of a mode, run for an event type it has installed, dispatches over that mode's dictionary |
| ClickOutsideRegistry.AddKeepsListenerInvariant | src/utils/directives/click-outside.ts:119-130 | adding a listener only when a bucket is created keeps "installed exactly when the bucket exists" for that mode and leaves the other mode's listeners alone |
| TableConfig.Get | src/components/ivue-table/config.ts:54 | a property read finds the own value first, then the inherited one, else `undefined` |
| TableConfig.DefinedOwnKeys | src/components/ivue-table/config.ts:59-61 | the keys copied from the config are its own keys whose value is not `undefined` |
| TableConfig.Merged | src/components/ivue-table/config.ts:47-68 | the result's keys are the keys `for..in` finds on the defaults plus the config's own defined keys; each key holds the config's own defined value when there is one, else the default's value |
| TableConfig.MergeOptions | src/components/ivue-table/config.ts:47-68 | the two `for..in` loops build exactly `Merged(defaults, config)` |
| TableConfig.MergeEmptyConfig | src/components/ivue-table/config.ts:53-55 | with an empty config the result is a copy of what `for..in` sees on the defaults |
| TableConfig.MergeIgnoresInherited | src/components/ivue-table/config.ts:58-59 | properties the config only inherits never reach the result |
| TableConfig.MergeSkipsUndefined | src/components/ivue-table/config.ts:60-63 | own config properties holding `undefined` are skipped |
| TableConfig.MergeIdempotent | src/components/ivue-table/config.ts:47-68 | merging the same config into the result again changes nothing |
| TableConfig.Compose | src/components/ivue-table/config.ts:72-84 | `compose()` is the identity and `compose(f)` is `f` |
| TableConfig.Reduce | src/components/ivue-table/config.ts:79-83 | folding `(a, b) => x => a(b(x))` from accumulator `a` gives the function that applies the remaining functions last-first and then `a` |
| TableConfig.ComposeAppliesRightToLeft | src/components/ivue-table/config.ts:72-84 | `compose(f1, ..., fn)(x) == f1(f2(... fn(x)))` for every number of functions |
| TableConfig.ComposeConcat | src/components/ivue-table/config.ts:72-84 | composing a concatenation equals composing the two composites |
| TableConfig.IndexCell | src/components/ivue-table/config.ts:239-252 | the row number is `$index + offset` for a numeric `column.index`, `index($index)` for a function, and `$index + 1` otherwise |
| TableConfig.DefaultIndexIsOffsetOne | src/components/ivue-table/config.ts:239-246 | without a usable `column.index` numbering is the same as with offset 1, starting at 1 |
| TableConfig.IndexCellConsecutive | src/components/ivue-table/config.ts:239-246 | unless a function computes them, consecutive rows get consecutive numbers |
| TableConfig.IndexHeader | src/components/ivue-table/config.ts:231-233 | the header is never empty: the label when it is a non-empty string, else `#` |
| TableConfig.SelectionHeader | src/components/ivue-table/config.ts:187-197 | disabled exactly when the data list exists and is empty; checked exactly when all rows are selected; indeterminate exactly when the selection is non-empty and not all rows are selected |
| TableConfig.SelectionHeaderConsistent | src/components/ivue-table/config.ts:190-196 | the checkbox is never checked and indeterminate at once; an empty selection is not indeterminate; absent data does not disable it |
| TableConfig.GetDefaultClassNameAsWritten | src/components/ivue-table/config.ts:259-261 | the lookup gives the mapped class for `selection`/`expand`, an inherited `Object.prototype` member for its names, and `''` otherwise |
| TableConfig.PrototypeNameEscapesFallback | src/components/ivue-table/config.ts:12-15 | for the type `toString` the lookup as written yields no class-name string at all, unlike the intended `''` |
| TableConfig.GetDefaultClassName | src/components/ivue-table/config.ts:259-261 | `selection` gives `ivue-table-column--selection`, `expand` gives `ivue-table--expand-column`, every other type `''` |
| TableConfig.DefaultClassNameAgrees | src/components/ivue-table/config.ts:259-261 | for every type not named like an `Object.prototype` member, the code as written and the intended lookup agree |

## Left out

- DOM APIs are not modelled directly. `addEventListener`/`removeEventListener` become the registry's call log. `el.contains(target)` becomes a function parameter. `stopPropagation`/`preventDefault` and the callback call become a list of effects that `CommonHandler` returns.
- The `typeof document === 'object' && document` guards (click-outside.ts:127, 156) are taken as true.
- The log records the (event name, capture) pair of each listener call. It does not record the handler function, which is always `getEventHandler(useCapture)`, one per mode.
- The callback's `this` (`context`) and its event argument are not modelled.
- A callback that throws, and so stops the `forEach` walk, is not modelled.
- A callback that calls `inserted`/`unbind` during dispatch (re-entrancy) is not modelled.
- `binding.arg` is modelled by its truthiness. Modifiers are modelled as a map from name to truthiness.
- The binding's other fields, copied by `...binding`, are not carried into the registration.
- The Vue lifecycle export (click-outside.ts:174-177) is not modelled.
- The `Array.isArray` test (click-outside.ts:119) is read as "the key is present". The dictionaries are private to the module and only ever hold arrays.
- `Object.keys` puts integer-like keys first. Event names are never integer-like, so keys are kept in insertion order.
- ClickOutsideRegistry.Registry.UnbindInstances: the loop works on a value copy of the dictionary and a list of removal calls. It stores both when the loop ends. The source updates the object in place key by key. Nothing reads the dictionary or the listeners in between.
- TableConfig.MergeOptions: the order of keys in the resulting object is not modelled, because the result is a map.
- TableConfig.MergeOptions: symbol keys, getters and setters, non-enumerable own properties, and a `__proto__` key (which would reset the prototype) are not modelled.
- TableConfig.Compose: only functions of one argument are modelled. The spread `...args` passed to the innermost function is not.
- TableConfig.IndexCell: JavaScript numbers are modelled as integers. `NaN`, fractions and overflow to infinity are not modelled. A function `column.index` is modelled as returning an integer, whereas the source renders whatever value it returns.
- TableConfig.IndexHeader: the label is `undefined` or a string. The truthiness of labels of other types is not modelled.
- TableConfig.SelectionHeader: `null` data is treated like `undefined`. The `onUpdate:modelValue` callback and the `IvueCheckbox` virtual node are not modelled.
- Building virtual nodes is not modelled: `h`, `cellForced.selection.renderCell`, and the `sortable`/`resizable` flags.
- `cellStyles` is not modelled. It is a constant table that no operation reads.
- `defaultRenderCell` and `getProp` are not modelled. They depend on lodash `get`/`set` path semantics and on `toString`, and that code is not part of this model.
- `treeCellPrefix` is not modelled. Apart from the placeholder span, its branches are empty stubs.
- `src/utils/create-native-locale-formatter.ts` is not modelled. It wraps `Intl.DateTimeFormat` and an unseen `Pad` helper.

## Findings

| source | as written | input that shows it | evidently intended | confidence | as-written member | corrected member |
|---|---|---|---|---|---|---|
| src/components/ivue-table/config.ts:259-261 | `defaultClassNames[type] \|\| ''` reads from an ordinary object literal, which inherits `Object.prototype` | a column type `toString` (likewise `constructor`, `valueOf`, `__proto__`, ...) yields an inherited function or object, not `''` | the mapped class for `selection`/`expand` and `''` for every other type | low, not executed; real column types are `default`, `selection`, `index` and `expand` | TableConfig.GetDefaultClassNameAsWritten, TableConfig.PrototypeNameEscapesFallback | TableConfig.GetDefaultClassName |
