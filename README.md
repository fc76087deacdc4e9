# Visual JSON editor: the path-addressed tree edits

This project models the part of the visual JSON editor
(`components/visual-editor.tsx`) that changes the document. The component
keeps the parsed document in `jsonData`. Every control renders one node of
the tree and knows that node's path: the list of keys and array indexes
that leads from the root to it. A click or keystroke calls one of eight
edit helpers with the whole `jsonData`, a path and the action's arguments.
Each helper does the same three things:

1. it deep-copies the document;
2. it walks the copy along the path (`for (const key of path) target = target[key]`);
3. it changes the node it reached and installs the copy with `setJsonData`.

The helpers are `addKeyValue`, `removeKeyValue`, `updateKey`,
`updateValue`, `addArrayItem`, `removeArrayItem`, `moveArrayItemUp` and
`moveArrayItemDown`. `updateValue` carries the type-coercion switch, and
`getValueType` classifies a node for rendering and for the type selector.

## How the model is built

- `JsonValue.Value` is a JSON value. An object is its list of entries in
  insertion order, and an array is a sequence. A value is its own deep
  copy, so `JSON.parse(JSON.stringify(obj))` is the identity.
- `Paths.Lookup` and `Paths.Replace` say what reading and writing at a
  path mean. `Paths.Navigate` is the walk loop itself. As it goes down it
  records the containers it passes (a zipper), and it is proved to reach
  `Lookup(root, path)`. Writing through the recorded containers is proved
  to equal `Replace(root, path, n)`.
- Each helper has two parts:
  - a function saying what the helper yields (`KeyAdded`, `KeyRemoved`,
    `KeyRenamed`, `ValueUpdated`, `ItemAdded`, `ItemRemoved`,
    `ItemMovedUp`, `ItemMovedDown`);
  - a method that does it the way the component does (copy, `Navigate`,
    change the target, plug it back), proved to return exactly that.

  The lemmas then state what the helpers do, each read at the edited path.
- A JavaScript exception thrown by a helper is an `Err` result. Examples
  are reading a property of `undefined` during the walk, or
  `Object.keys(null)`. An exception leaves `jsonData` unchanged. So do the
  helpers' early `return`s, which yield the original document.
- `Editor.VisualEditor` is the component's state.
  - `Perform` runs one user action and installs every `Ok` result. The
    result of a helper's early `return` is the old document, so installing
    it changes nothing.
  - `Perform` and `Editor.KeysStayUnique` show that no run of actions ever
    gives an object two entries with the same key. This includes runs
    where some actions fail.
  - `Editor.EditIsLocal` shows that an edit changes nothing outside the
    path of the container it edits.

These behaviours of the component are reproduced as written, and lemmas
state them:

- `addKeyValue` names the new key after the key count of the root, not
  of the target. It silently overwrites a key that already has that name
  (`EditHelpers.AddKeyValueCountsRootKeys`).
- `updateKey` moves the renamed entry to the end of the object. Its
  collision check `target[newKey] !== undefined` also refuses the names
  every object inherits, such as `toString`.
- Retyping a node to boolean gives `true` only when the node's value is
  the string `"true"`, so retyping `true` to boolean gives `false`.
- `moveArrayItemUp` returns for index 0 before it walks the path.
  `moveArrayItemDown` returns for the last index only after the walk.
- `removeArrayItem` uses `splice`: a negative index counts from the end,
  and an index past the end removes nothing.

## Model

| member | source | states |
|---|---|---|
| `JsonValue.FindKey` | components/visual-editor.tsx:150 | the own property a key names is the first entry with that key; none when no entry has it |
| `JsonValue.KeyCount` | components/visual-editor.tsx:141 | `Object.keys(v).length` fails exactly on null and is the entry count on an object |
| `JsonValue.ValueType` | components/visual-editor.tsx:320-327 | getValueType is total and each of the six tags is given exactly to values of its own kind |
| `JsonValue.Get` | components/visual-editor.tsx:150 | definition: `target[k]` on an object is the value of the first entry with key k, and None when k is not an own key; for a name in `EditHelpers.InheritedNames` the component reads the Object.prototype member instead (see Left out) |
| `JsonValue.SetKey` | components/visual-editor.tsx:154 | definition: `target[k] = v` overwrites the entry of an existing own key in place and otherwise appends (k, v) after all other entries |
| `JsonValue.RemoveKey` | components/visual-editor.tsx:171 | definition: `delete target[k]` drops the entries whose key is k and keeps the rest in order |
| `JsonValue.HasKeyFindKey` | components/visual-editor.tsx:150 | a key is an own property exactly when the lookup finds an entry for it |
| `JsonValue.FindKeySameKeys` | components/visual-editor.tsx:245 | finding a property depends on the keys only, so overwriting a value keeps every property where it was |
| `JsonValue.GetCons` | components/visual-editor.tsx:150 | a property is read from the first entry or else from the rest |
| `JsonValue.SetKeyFacts` | components/visual-editor.tsx:245 | after `target[k] = v`, k answers v and every other key answers as before; an existing key keeps its place and a new key goes last; unique keys stay unique |
| `JsonValue.RemoveKeyContents` | components/visual-editor.tsx:171 | after `delete target[k]` the entries are exactly the old ones whose key is not k |
| `JsonValue.RemoveKeyAbsent` | components/visual-editor.tsx:171 | deleting a key that is not an own property changes nothing |
| `JsonValue.RemoveKeyAt` | components/visual-editor.tsx:171 | with unique keys, deleting the key of entry i cuts out exactly entry i and keeps the order of the rest |
| `JsonValue.RemoveKeyFacts` | components/visual-editor.tsx:171 | the deleted key is gone, every other key answers as before, and unique keys stay unique |
| `JsonValue.RemoveKeyOther` | components/visual-editor.tsx:202 | deleting one key leaves the answer for every other key alone |
| `JsonValue.RemoveKeyUnique` | components/visual-editor.tsx:202 | deleting a key never creates a duplicate key |
| `JsonValue.SetKeyWellFormed` | components/visual-editor.tsx:154 | storing a duplicate-free value into a duplicate-free object keeps it duplicate-free |
| `JsonValue.RemoveKeyWellFormed` | components/visual-editor.tsx:171 | deleting a key keeps a duplicate-free object duplicate-free |
| `JsonValue.GetWellFormed` | components/visual-editor.tsx:201 | a value read from a duplicate-free object is itself duplicate-free |
| `JsDecimal.IntToString` | components/visual-editor.tsx:223 | definition: `String(n)` of an integer: a minus sign for a negative number, then the decimal digits without leading zeros |
| `JsDecimal.StringToInt` | components/visual-editor.tsx:226 | definition: `Number(text)` after trimming JavaScript white space: 0 for empty text, the value of an optionally signed run of decimal digits, NaN (None) for any other text |
| `JsDecimal.ArrayIndex` | components/visual-editor.tsx:365 | definition: the array element a key names: a canonical decimal index (no sign, no leading zero), nothing for any other key |
| `JsDecimal.NatToString` | components/visual-editor.tsx:365 | `index.toString()` is a non-empty run of digits with no leading zero |
| `JsDecimal.DigitsValueOfNatToString` | components/visual-editor.tsx:365 | the digits `toString` writes read back as the same number |
| `JsDecimal.LeadingNonZeroPositive` | components/visual-editor.tsx:365 | digit text without a leading zero denotes a positive number |
| `JsDecimal.ArrayIndexCanonical` | components/visual-editor.tsx:365 | a key that names an array element is exactly the `toString` of its index |
| `JsDecimal.ArrayIndexRoundTrip` | components/visual-editor.tsx:365 | the step `index.toString()` names element `index`, and no other key names it |
| `JsDecimal.ArrayIndexInjective` | components/visual-editor.tsx:365 | two different keys never name the same array element |
| `JsDecimal.TrimDigitsNoOp` | components/visual-editor.tsx:226 | `Number()`'s white-space trim leaves text that starts and ends with other characters alone |
| `JsDecimal.StringToIntOfDigits` | components/visual-editor.tsx:226 | `Number()` of a run of decimal digits is the number they denote |
| `JsDecimal.StringToIntOfNegatedDigits` | components/visual-editor.tsx:226 | `Number()` of a minus sign followed by digits is the negated number |
| `JsDecimal.StringToIntOfIntToString` | components/visual-editor.tsx:226 | `Number(String(n))` is n for every integer |
| `Coercion.Convert` | components/visual-editor.tsx:219-242 | definition: the value the switch stores for each of the six tags: `String(value)`, `Number(value)` with NaN as null, `value === "true"`, `{}`, `[]` and null |
| `Coercion.JsString` | components/visual-editor.tsx:223 | definition: `String(value)`: a string itself, an integer's decimal form, "true"/"false", "null", "[object Object]" for every object, and an array's elements joined with commas, null elements as empty text |
| `Coercion.JsNumber` | components/visual-editor.tsx:226 | definition: `Number(value)`: a number itself, 1/0 for booleans, 0 for null, a string through `StringToInt`, an object or array through its `String` form; None is NaN |
| `Coercion.ConvertRules` | components/visual-editor.tsx:228-239 | object, array and null give `{}`, `[]` and null for any value; boolean gives true exactly for the string "true" |
| `Coercion.ConvertGivesRequestedType` | components/visual-editor.tsx:219-242 | the converted value has the requested type, except that text `Number()` cannot read becomes null |
| `Coercion.ConvertWellFormed` | components/visual-editor.tsx:219-242 | no conversion result holds a duplicate key |
| `Coercion.NumberThroughString` | components/visual-editor.tsx:222-227 | retyping a number to string and back to number restores it |
| `Coercion.BooleanThroughString` | components/visual-editor.tsx:222-230 | retyping a boolean to string and back to boolean restores it |
| `Coercion.RetypeToOwnType` | components/visual-editor.tsx:219-242 | retyping a string, number or null to its own type keeps it, but `true` retyped to boolean becomes false |
| `Coercion.JsNumberSamples` | components/visual-editor.tsx:226 | `Number("")` and `Number([])` are 0 and `Number({})` is NaN, stored as null |
| `Paths.Step` | components/visual-editor.tsx:150 | definition: one walk step `target[key]`: an object's own property, or the array element named by a canonical index; None where the component would read undefined, and also for an inherited Object.prototype name on an object (see Left out) |
| `Paths.StepReplace` | components/visual-editor.tsx:154 | definition: writing the existing child `key` of a container, leaving the container unchanged when no child has that name |
| `Paths.Lookup` | components/visual-editor.tsx:148-151 | definition: the walk `for (const key of path) target = target[key]`, which is also `path.reduce((acc, key) => acc[key], obj)` at :181; None once a step reads undefined |
| `Paths.Replace` | components/visual-editor.tsx:144-154 | definition: the document whose node at the path is replaced, which is what writing into the walked copy does to the root |
| `Paths.StepReplaceFacts` | components/visual-editor.tsx:150 | after writing child k, k reads the new child, other keys read as before, writing back the old child restores the container, and a second write overrides the first |
| `Paths.ObjectStepReplace` | components/visual-editor.tsx:150 | overwriting an own property keeps it at its index and leaves where every key is found unchanged; writing back the old value restores the entries |
| `Paths.StepWellFormed` | components/visual-editor.tsx:150 | a child of a duplicate-free container is duplicate-free, and so is the container after a duplicate-free child is written |
| `Paths.LookupSnoc` | components/visual-editor.tsx:149-151 | walking one step further reads that key of the node reached so far, and fails if the walk already failed |
| `Paths.ReplaceSnoc` | components/visual-editor.tsx:149-151 | writing at a path one step longer is writing the updated parent at the shorter path |
| `Paths.LookupReplaceSame` | components/visual-editor.tsx:148-154 | after writing a node at a path that resolves, that path reaches the new node |
| `Paths.LookupReplaceBelow` | components/visual-editor.tsx:148-154 | below the written path, one reads the new node's own structure |
| `Paths.ReplaceWithSelf` | components/visual-editor.tsx:148-154 | writing back the node already at the path leaves the tree unchanged |
| `Paths.ReplaceTwice` | components/visual-editor.tsx:148-154 | a second write at the same path overrides the first |
| `Paths.ReplaceIsLocal` | components/visual-editor.tsx:148-154 | a write changes no node whose path is neither above nor below the written path |
| `Paths.LookupWellFormed` | components/visual-editor.tsx:148-151 | the walk from a duplicate-free root reaches a duplicate-free node |
| `Paths.ReplaceWellFormed` | components/visual-editor.tsx:148-154 | writing a duplicate-free node into a duplicate-free tree keeps it duplicate-free |
| `Paths.Navigate` | components/visual-editor.tsx:148-151 | the walk loop succeeds exactly when the path resolves, stops at `Lookup(root, path)`, and writing through the containers it passed equals `Replace(root, path, n)` for every n |
| `Paths.LookupPrefixFails` | components/visual-editor.tsx:149-151 | once a step of the walk fails, the whole walk fails |
| `EditHelpers.NewKeyName` | components/visual-editor.tsx:141 | definition: the invented key `newKey${count + 1}` |
| `EditHelpers.AnswersLookup` | components/visual-editor.tsx:182 | definition: `target[newKey] !== undefined` on an object: newKey is an own key or a member inherited from Object.prototype |
| `EditHelpers.SpliceOne` | components/visual-editor.tsx:279 | definition: `items.splice(index, 1)`: the element at the clamped start is removed, or nothing when the start is past the end |
| `EditHelpers.KeyAdded` | components/visual-editor.tsx:140-157 | definition: what addKeyValue leaves in `jsonData`: `Object.keys(obj)` throws on a null root, the walk or the store fails on a missing path or a non-object target, otherwise the invented key is set to "" |
| `EditHelpers.KeyRemoved` | components/visual-editor.tsx:160-174 | definition: what removeKeyValue leaves: a missing path or non-object target is refused, otherwise the key is deleted from the target |
| `EditHelpers.KeyRenamed` | components/visual-editor.tsx:177-206 | definition: what updateKey leaves: nothing changes for an equal key; a missing path, a non-object target and a name that answers the lookup are refused; a missing old key leaves the document; otherwise the value moves to the new key, last |
| `EditHelpers.Stored` | components/visual-editor.tsx:245 | definition: `target[key] = c`: set on an object, written into an existing array element, refused for other keys and other targets |
| `EditHelpers.ValueUpdated` | components/visual-editor.tsx:209-248 | definition: what updateValue leaves: a missing path is refused, otherwise the converted value is stored into the target |
| `EditHelpers.ItemAdded` | components/visual-editor.tsx:251-265 | definition: what addArrayItem leaves: "" is pushed onto an array target; a missing path and a non-array target throw |
| `EditHelpers.ItemRemoved` | components/visual-editor.tsx:268-282 | definition: what removeArrayItem leaves: `splice(index, 1)` on an array target; a missing path and a non-array target throw |
| `EditHelpers.ItemMovedUp` | components/visual-editor.tsx:285-300 | definition: what moveArrayItemUp leaves: index 0 returns first; otherwise the element swaps with the one above it, and other targets and indexes are refused |
| `EditHelpers.ItemMovedDown` | components/visual-editor.tsx:303-317 | definition: what moveArrayItemDown leaves: after the walk the last index returns; otherwise the element swaps with the one below it, and other targets and indexes are refused |
| `EditHelpers.Swap` | components/visual-editor.tsx:297 | the destructuring swap exchanges the two elements and leaves every other element and the length alone |
| `EditHelpers.SpliceStart` | components/visual-editor.tsx:279 | splice's start position lies within the array |
| `EditHelpers.AddKeyValue` | components/visual-editor.tsx:140-157 | addKeyValue as visual-editor.tsx runs it: copy, walk, set the invented key to "" on the target; yields exactly `KeyAdded` |
| `EditHelpers.RemoveKeyValue` | components/visual-editor.tsx:160-174 | removeKeyValue as run: copy, walk, delete the key; yields exactly `KeyRemoved` |
| `EditHelpers.UpdateKey` | components/visual-editor.tsx:177-206 | updateKey as run: same-key return, collision check on the original via reduce, then copy, walk, move the value; yields exactly `KeyRenamed` |
| `EditHelpers.UpdateValue` | components/visual-editor.tsx:209-248 | updateValue as run: copy, walk, convert, store under the key of the target object or array; yields exactly `ValueUpdated` |
| `EditHelpers.AddArrayItem` | components/visual-editor.tsx:251-265 | addArrayItem as run: copy, walk, push ""; yields exactly `ItemAdded` |
| `EditHelpers.RemoveArrayItem` | components/visual-editor.tsx:268-282 | removeArrayItem as run: copy, walk, splice one element; yields exactly `ItemRemoved` |
| `EditHelpers.MoveArrayItemUp` | components/visual-editor.tsx:285-300 | moveArrayItemUp as run: index-0 return, copy, walk, swap with the element above; yields exactly `ItemMovedUp` |
| `EditHelpers.MoveArrayItemDown` | components/visual-editor.tsx:303-317 | moveArrayItemDown as run: copy, walk, last-index return, swap with the element below; yields exactly `ItemMovedDown` |
| `EditHelpers.AddKeyValueAddsEmptyString` | components/visual-editor.tsx:140-157 | on an object target, the invented key holds "", appended last when new and replaced in place otherwise, and every other key answers as before |
| `EditHelpers.AddKeyValueFailures` | components/visual-editor.tsx:141-154 | addKeyValue fails exactly when the root is null, the path leads nowhere, or the target is not an object |
| `EditHelpers.AddKeyValueCountsRootKeys` | components/visual-editor.tsx:141 | the key count is the root's: adding inside `{"a": {"newKey2": 5}}` at ["a"] overwrites "newKey2" with "" |
| `EditHelpers.AddKeyValueOnEmptyRoot` | components/visual-editor.tsx:536 | the top-level add button on an empty document gives `{"newKey1": ""}` |
| `EditHelpers.RemoveKeyValueDeletes` | components/visual-editor.tsx:160-174 | the key is gone from the target, other keys answer as before and keep their order, and removing a missing key changes nothing |
| `EditHelpers.UpdateKeySameKeyIsNoOp` | components/visual-editor.tsx:178 | renaming a key to itself returns the document unchanged, whatever the path |
| `EditHelpers.UpdateKeyCollision` | components/visual-editor.tsx:181-189 | a name that is an own key or an inherited member is refused; with a free name and a missing old key nothing changes |
| `EditHelpers.UpdateKeyRefusesInheritedName` | components/visual-editor.tsx:182 | renaming "a" of `{"a": 1}` to "toString" is refused although no such own key exists |
| `EditHelpers.UpdateKeyMovesEntryLast` | components/visual-editor.tsx:201-203 | with a free new name, the old entry is cut out and the value reappears under the new key as the last entry, other entries in order |
| `EditHelpers.UpdateKeyToExistingKey` | components/visual-editor.tsx:182-188 | renaming "a" of `{"a": 1, "b": 2}` to "b" is refused |
| `EditHelpers.StoredFacts` | components/visual-editor.tsx:245 | `target[key] = c` on an object keeps an existing property in place or appends a new one last; on an array it rewrites exactly the indexed element and keeps the length; the key reads `c` and every other key reads as before |
| `EditHelpers.UpdateValueStoresConversion` | components/visual-editor.tsx:209-248 | on an object or an existing array element, the node at the path becomes the target with the converted value stored under the key (an object through `target[key] = c`, an array with that one element replaced); the key reads the converted value and every other child reads as before |
| `EditHelpers.RetypeReplacesNode` | components/visual-editor.tsx:413 | the type selector on an existing node replaces that node by its own conversion |
| `EditHelpers.RetypeStringToNumber` | components/visual-editor.tsx:225-227 | `{"a": "5"}` retyped at ["a"] to number is `{"a": 5}` |
| `EditHelpers.AddArrayItemAppends` | components/visual-editor.tsx:262 | push adds one element "" after the unchanged old elements |
| `EditHelpers.RemoveArrayItemSplices` | components/visual-editor.tsx:279 | an index inside the array removes that element, a negative index counts from the end, one below minus the length clamps to 0 and removes the first element, and an index past the end changes nothing |
| `EditHelpers.RemoveArrayItemExample` | components/visual-editor.tsx:268-282 | removing index 1 of ["a"] in `{"a": [1, 2, 3]}` gives `{"a": [1, 3]}` |
| `EditHelpers.MoveUpAtTopIsNoOp` | components/visual-editor.tsx:286 | moving index 0 up changes nothing, whatever the path |
| `EditHelpers.MoveDownAtBottomIsNoOp` | components/visual-editor.tsx:313 | moving the last element down changes nothing |
| `EditHelpers.MoveUpSwaps` | components/visual-editor.tsx:297 | any other index in range trades places with the element above, and all other elements stay |
| `EditHelpers.MoveDownSwaps` | components/visual-editor.tsx:314 | an index below the last trades places with the element below, and all other elements stay |
| `EditHelpers.MoveDownThenUpRestores` | components/visual-editor.tsx:285-317 | moving an element down and then up again restores the document |
| `EditHelpers.MoveUpThenDownRestores` | components/visual-editor.tsx:285-317 | moving an element up and then down again restores the document |
| `EditHelpers.MoveUpExample` | components/visual-editor.tsx:286 | moving index 0 of ["a"] in `{"a": [1, 2]}` up leaves it unchanged |
| `Editor.Apply` | components/visual-editor.tsx:336-397 | definition: the dispatch from each button, input and selector of the renderer to the helper it calls |
| `Editor.EditIsLocal` | components/visual-editor.tsx:336-397 | every user action leaves alone every node whose path is neither above nor below the edited container |
| `Editor.AddKeyValueIsLocal` | components/visual-editor.tsx:140-157 | addKeyValue changes no node whose path is neither above nor below its target path |
| `Editor.RemoveKeyValueIsLocal` | components/visual-editor.tsx:160-174 | removeKeyValue changes no node whose path is neither above nor below its target path |
| `Editor.UpdateKeyIsLocal` | components/visual-editor.tsx:177-206 | updateKey changes no node whose path is neither above nor below its target path |
| `Editor.UpdateValueIsLocal` | components/visual-editor.tsx:209-248 | updateValue changes no node whose path is neither above nor below its target path |
| `Editor.AddArrayItemIsLocal` | components/visual-editor.tsx:251-265 | addArrayItem changes no node whose path is neither above nor below its target path |
| `Editor.RemoveArrayItemIsLocal` | components/visual-editor.tsx:268-282 | removeArrayItem changes no node whose path is neither above nor below its target path |
| `Editor.MoveItemUpIsLocal` | components/visual-editor.tsx:285-300 | moveArrayItemUp changes no node whose path is neither above nor below its target path |
| `Editor.MoveItemDownIsLocal` | components/visual-editor.tsx:303-317 | moveArrayItemDown changes no node whose path is neither above nor below its target path |
| `Editor.EditKeepsKeysUnique` | components/visual-editor.tsx:139-317 | every helper that succeeds on a duplicate-free document yields a duplicate-free document |
| `Editor.AddKeyValueKeepsKeysUnique` | components/visual-editor.tsx:140-157 | when addKeyValue succeeds on a document without duplicate keys, the result has none either |
| `Editor.RemoveKeyValueKeepsKeysUnique` | components/visual-editor.tsx:160-174 | when removeKeyValue succeeds on a document without duplicate keys, the result has none either |
| `Editor.UpdateKeyKeepsKeysUnique` | components/visual-editor.tsx:177-206 | when updateKey succeeds on a document without duplicate keys, the result has none either |
| `Editor.UpdateValueKeepsKeysUnique` | components/visual-editor.tsx:209-248 | when updateValue succeeds on a document without duplicate keys, the result has none either |
| `Editor.AddArrayItemKeepsKeysUnique` | components/visual-editor.tsx:251-265 | when addArrayItem succeeds on a document without duplicate keys, the result has none either |
| `Editor.RemoveArrayItemKeepsKeysUnique` | components/visual-editor.tsx:268-282 | when removeArrayItem succeeds on a document without duplicate keys, the result has none either |
| `Editor.MoveItemUpKeepsKeysUnique` | components/visual-editor.tsx:285-300 | when moveArrayItemUp succeeds on a document without duplicate keys, the result has none either |
| `Editor.MoveItemDownKeepsKeysUnique` | components/visual-editor.tsx:303-317 | when moveArrayItemDown succeeds on a document without duplicate keys, the result has none either |
| `Editor.SpliceSubset` | components/visual-editor.tsx:279 | every element left by splice was there before |
| `Editor.KeysStayUnique` | components/visual-editor.tsx:336-397 | any run of user actions, failing ones included, keeps the document free of duplicate keys |
| `Editor.FieldInputsStore` | components/visual-editor.tsx:429-451 | the string field stores the typed text, the number field stores the integer typed, and the boolean picker stores the choice |
| `Editor.VisualEditor.constructor` | components/visual-editor.tsx:30-33 | the state starts as the parsed document |
| `Editor.VisualEditor.Perform` | components/visual-editor.tsx:336-397 | an action's result is the helper's; `jsonData` becomes it when the helper succeeds and is unchanged otherwise; no duplicate key appears |
| `Editor.VisualEditor.Retype` | components/visual-editor.tsx:410-414 | the result is `updateValue` on the old document with the node's value, last step and parent path (or `PathNotFound` for a missing node); an existing node is replaced by its conversion; the new state is the result when it succeeds and the old state otherwise |

## Left out

- The React state machinery is not modelled: the effects that parse the
  `value` prop and report changes through `onChange`, including the
  parent-update flags (components/visual-editor.tsx:23-62).
  `jsonData` is a field that only `Perform` changes.
- AI generation (`generateJson`, :65-137), toasts, JSX layout and styling
  are not modelled. A refused rename is the `KeyExists` error; the toast is
  not modelled.
- `JSON.parse` and `JSON.stringify` are not modelled. The deep copy is
  value semantics, and the constructor requires a document without
  duplicate keys, which is what parsing produces.
- Numbers are integers of unbounded size. Fractions, exponents, hex,
  `Infinity` and the 2^53 precision limit of JavaScript numbers are left
  out. `Number()` of any text other than optionally signed decimal digits
  is NaN.
- Coercion.Convert: NaN is modelled as `Null`, but the component keeps the
  actual NaN in `jsonData` (:226, :245). Serialization writes NaN as null,
  and the next helper's deep copy does that. Until then the number NaN
  is on screen: `getValueType` classifies it as "number", not "null", and
  `String(NaN)` is "NaN". So `{"a": "abc"}` retyped to number and then
  straight to string gives `{"a": "NaN"}` in the component but
  `{"a": "null"}` in the model.
- JavaScript lists integer-like object keys before the other keys. The
  model keeps pure insertion order for every key, as if no key were an
  array index.
- `__proto__` as an edited key is not modelled. Setting or deleting it
  does not touch the prototype in the model. It is one of the inherited
  names the rename collision check refuses.
- `Number()` strips only ASCII white space and the common Unicode spaces
  (U+00A0, U+FEFF, U+2028, U+2029).
- Writes that the component makes without throwing through a target of
  the wrong kind are refused by the model. It reports `NotAnObject`,
  `NotAnArray` or `IndexOutOfRange` and changes nothing. Holes, and
  properties that are stored on an array but not serialized, have no
  counterpart in `Value`.
  (Pushing onto an object does throw a TypeError at
  components/visual-editor.tsx:262, so `NotAnArray` there is faithful.)
  The renderer does make such calls when the document root is an array.
  The root is always drawn by `renderObject` (:528-541), which lists the
  array's indexes as keys.
  - The trash button (:342) calls `removeKeyValue(jsonData, "0", [])`.
    The `delete` at :171 leaves a hole, so `[1, 2]` becomes `[null, 2]`
    once serialized.
  - The key input (:336) calls `updateKey` with an index as the old key.
    The `delete` at :202 leaves a hole in the same way.
  - "Add property" (:350) calls `addKeyValue`. It stores a property on the
    array that serialization drops.

  In these three cases the model reports `NotAnObject` and keeps the
  document. It reports `IndexOutOfRange` and keeps the document for
  `EditHelpers.UpdateValue` with a key that does not index into the
  array, and for `EditHelpers.MoveArrayItemUp` and
  `EditHelpers.MoveArrayItemDown` at indexes outside the array. The
  component writes a stray property or a hole there.
- EditHelpers.MoveArrayItemUp and EditHelpers.MoveArrayItemDown on an
  object target: the model reports `NotAnArray` and keeps the document.
  The component does not throw. `target.length` is undefined, so the
  last-index return at :313 is not taken, and the swap at :297 or :314
  exchanges the properties named by the two indexes. The renderer never
  makes this call, because the move buttons exist only in `renderArray`
  (:370, :379).
- EditHelpers.UpdateKey: a missing old key yields the document unchanged.
  The component stores `undefined` under the new key; that property exists in
  memory but serialization drops it. For an old key that is an inherited
  name such as "toString", `targetObj[oldKey]` (:201) reads the
  Object.prototype member, and :203 stores that function under the new
  key; the model yields the document unchanged there too.
- JsonValue.Get: a name in `EditHelpers.InheritedNames` that is not an own
  key counts as absent. The component's `target[k]` reads the inherited
  Object.prototype member instead. The renderer passes only own keys and
  array indexes, taken from `Object.keys` and `index.toString()`, so no
  edit it makes reaches this case.
- Paths.Step: a walk step on an inherited name of an object fails with
  `PathNotFound`. In the component (:150) it reads the built-in function
  and walks on from there. As for `JsonValue.Get`, the renderer never
  builds such a path.
- EditHelpers.UpdateValue: the switch's `default` branch is not modelled.
  The type argument is always one of the six tags, so it cannot be taken.
- Editor.VisualEditor.Retype: it requires a non-empty path. The renderer
  only calls it for nodes below the root object.
- The other components and pages are not part of this model: the code
  editor, the AI assistant, the chat route, the templates and the
  marketing and billing pages.
