/** The eight edit helpers of components/visual-editor.tsx:139-317.
    Each helper deep-copies the root, walks the copy along the path, makes
    one local change on the target and hands the copy back. For every
    helper there is a function saying what it yields (`KeyAdded`, ...)
    and a method doing it the way visual-editor.tsx does (`AddKeyValue`, ...)
    proved to yield exactly that; the lemmas state what the functions mean. */
module EditHelpers {
  import opened Outcomes
  import opened JsonValue
  import opened JsDecimal
  import opened Coercion
  import opened Paths

  /** The key `addKeyValue` invents from the key count of the value it was handed. */
  function NewKeyName(count: nat): string {
    "newKey" + NatToString(count + 1)
  }

  /** Names every object answers through Object.prototype. */
  const InheritedNames: set<string> := {
    "constructor", "hasOwnProperty", "isPrototypeOf", "propertyIsEnumerable",
    "toLocaleString", "toString", "valueOf", "__proto__",
    "__defineGetter__", "__defineSetter__", "__lookupGetter__", "__lookupSetter__"
  }

  /** `target[k] !== undefined` for an object: an own key or an inherited member. */
  predicate AnswersLookup(es: seq<Entry>, k: string) {
    HasKey(es, k) || k in InheritedNames
  }

  /** `[s[i], s[j]] = [s[j], s[i]]`. */
  function Swap(s: seq<Value>, i: nat, j: nat): (r: seq<Value>)
    requires i < |s| && j < |s|
    ensures |r| == |s| && r[i] == s[j] && r[j] == s[i]
    ensures forall m :: 0 <= m < |s| && m != i && m != j ==> r[m] == s[m]
  {
    s[i := s[j]][j := s[i]]
  }

  /** Where `splice(index, 1)` starts: a negative index counts from the end,
      and the start is clamped to the array. */
  function SpliceStart(len: nat, index: int): (start: nat)
    ensures start <= len
  {
    if index < 0 then (if len + index < 0 then 0 else len + index)
    else if index > len then len
    else index
  }

  /** `items.splice(index, 1)`: the array after removing at most one element. */
  function SpliceOne(items: seq<Value>, index: int): seq<Value> {
    var start := SpliceStart(|items|, index);
    if start < |items| then items[..start] + items[start + 1..] else items
  }

  // ---------------------------------------------------------------------
  // What each helper yields

  /** `addKeyValue(obj, path)`: the key count is that of `obj` itself. */
  function KeyAdded(obj: Value, path: Path): Result<Value> {
    match KeyCount(obj)
    case None => Err(NotAnObject)
    case Some(count) =>
      match Lookup(obj, path)
      case None => Err(PathNotFound)
      case Some(target) =>
        if target.Obj? then Ok(Replace(obj, path, Obj(SetKey(target.entries, NewKeyName(count), Str("")))))
        else Err(NotAnObject)
  }

  /** `removeKeyValue(obj, key, path)`. */
  function KeyRemoved(obj: Value, key: string, path: Path): Result<Value> {
    match Lookup(obj, path)
    case None => Err(PathNotFound)
    case Some(target) =>
      if target.Obj? then Ok(Replace(obj, path, Obj(RemoveKey(target.entries, key))))
      else Err(NotAnObject)
  }

  /** `updateKey(obj, oldKey, newKey, path)`. A missing `oldKey` leaves the
      JSON as it was: the component stores `undefined` under `newKey`, which
      serialization drops. */
  function KeyRenamed(obj: Value, oldKey: string, newKey: string, path: Path): Result<Value> {
    if oldKey == newKey then Ok(obj)
    else match Lookup(obj, path)
      case None => Err(PathNotFound)
      case Some(target) =>
        if !target.Obj? then Err(NotAnObject)
        else if AnswersLookup(target.entries, newKey) then Err(KeyExists)
        else match Get(target.entries, oldKey)
          case None => Ok(obj)
          case Some(v) => Ok(Replace(obj, path, Obj(SetKey(RemoveKey(target.entries, oldKey), newKey, v))))
  }

  /** `target[key] = c` as `updateValue` uses it: an object property, or
      the element of an array that `key` names. */
  function Stored(target: Value, key: string, c: Value): Result<Value> {
    match target
    case Obj(es) => Ok(Obj(SetKey(es, key, c)))
    case Arr(items) =>
      (match ArrayIndex(key)
       case Some(i) => if i < |items| then Ok(Arr(items[i := c])) else Err(IndexOutOfRange)
       case None => Err(IndexOutOfRange))
    case _ => Err(NotAnObject)
  }

  /** `updateValue(obj, key, value, type, path)`: the converted value is
      stored into the target. */
  function ValueUpdated(obj: Value, key: string, value: Value, t: JsonType, path: Path): Result<Value> {
    match Lookup(obj, path)
    case None => Err(PathNotFound)
    case Some(target) =>
      match Stored(target, key, Convert(value, t))
      case Ok(node) => Ok(Replace(obj, path, node))
      case Err(e) => Err(e)
  }

  /** `addArrayItem(obj, path)`. */
  function ItemAdded(obj: Value, path: Path): Result<Value> {
    match Lookup(obj, path)
    case None => Err(PathNotFound)
    case Some(target) =>
      if target.Arr? then Ok(Replace(obj, path, Arr(target.items + [Str("")])))
      else Err(NotAnArray)
  }

  /** `removeArrayItem(obj, index, path)`. */
  function ItemRemoved(obj: Value, index: int, path: Path): Result<Value> {
    match Lookup(obj, path)
    case None => Err(PathNotFound)
    case Some(target) =>
      if target.Arr? then Ok(Replace(obj, path, Arr(SpliceOne(target.items, index))))
      else Err(NotAnArray)
  }

  /** `moveArrayItemUp(obj, index, path)`: index 0 returns before the walk. */
  function ItemMovedUp(obj: Value, index: int, path: Path): Result<Value> {
    if index == 0 then Ok(obj)
    else match Lookup(obj, path)
      case None => Err(PathNotFound)
      case Some(target) =>
        if !target.Arr? then Err(NotAnArray)
        else if 1 <= index < |target.items| then
          Ok(Replace(obj, path, Arr(Swap(target.items, index, index - 1))))
        else Err(IndexOutOfRange)
  }

  /** `moveArrayItemDown(obj, index, path)`: the last index returns after the walk. */
  function ItemMovedDown(obj: Value, index: int, path: Path): Result<Value> {
    match Lookup(obj, path)
    case None => Err(PathNotFound)
    case Some(target) =>
      if !target.Arr? then Err(NotAnArray)
      else if index == |target.items| - 1 then Ok(obj)
      else if 0 <= index < |target.items| - 1 then
        Ok(Replace(obj, path, Arr(Swap(target.items, index, index + 1))))
      else Err(IndexOutOfRange)
  }

  // ---------------------------------------------------------------------
  // The helpers as visual-editor.tsx runs them: copy, walk, change the target.
  // A value is its own deep copy, so `newObj` is `obj`.

  method AddKeyValue(obj: Value, path: Path) returns (r: Result<Value>)
    ensures r == KeyAdded(obj, path)
  {
    var count := KeyCount(obj);
    if count.None? {
      return Err(NotAnObject);
    }
    var newKey := NewKeyName(count.value);
    var newObj := obj;
    var cursor := Navigate(newObj, path);
    if cursor.None? {
      return Err(PathNotFound);
    }
    var target := cursor.value.target;
    if !target.Obj? {
      return Err(NotAnObject);
    }
    r := Ok(Plug(cursor.value.frames, Obj(SetKey(target.entries, newKey, Str("")))));
  }

  method RemoveKeyValue(obj: Value, key: string, path: Path) returns (r: Result<Value>)
    ensures r == KeyRemoved(obj, key, path)
  {
    var newObj := obj;
    var cursor := Navigate(newObj, path);
    if cursor.None? {
      return Err(PathNotFound);
    }
    var target := cursor.value.target;
    if !target.Obj? {
      return Err(NotAnObject);
    }
    r := Ok(Plug(cursor.value.frames, Obj(RemoveKey(target.entries, key))));
  }

  method UpdateKey(obj: Value, oldKey: string, newKey: string, path: Path) returns (r: Result<Value>)
    ensures r == KeyRenamed(obj, oldKey, newKey, path)
  {
    if oldKey == newKey {
      return Ok(obj);
    }
    // the collision check reads the original through `path.reduce`
    var checked := Lookup(obj, path);
    if checked.None? {
      return Err(PathNotFound);
    }
    if !checked.value.Obj? {
      return Err(NotAnObject);
    }
    if AnswersLookup(checked.value.entries, newKey) {
      return Err(KeyExists);
    }
    var newObj := obj;
    var cursor := Navigate(newObj, path);
    var targetObj := cursor.value.target;
    var value := Get(targetObj.entries, oldKey);
    if value.None? {
      return Ok(obj);
    }
    var remaining := RemoveKey(targetObj.entries, oldKey);
    r := Ok(Plug(cursor.value.frames, Obj(SetKey(remaining, newKey, value.value))));
  }

  method UpdateValue(obj: Value, key: string, value: Value, t: JsonType, path: Path) returns (r: Result<Value>)
    ensures r == ValueUpdated(obj, key, value, t, path)
  {
    var newObj := obj;
    var cursor := Navigate(newObj, path);
    if cursor.None? {
      return Err(PathNotFound);
    }
    var convertedValue := Convert(value, t);
    var stored := Stored(cursor.value.target, key, convertedValue);
    if stored.Err? {
      return Err(stored.error);
    }
    r := Ok(Plug(cursor.value.frames, stored.value));
  }

  method AddArrayItem(obj: Value, path: Path) returns (r: Result<Value>)
    ensures r == ItemAdded(obj, path)
  {
    var newObj := obj;
    var cursor := Navigate(newObj, path);
    if cursor.None? {
      return Err(PathNotFound);
    }
    var target := cursor.value.target;
    if !target.Arr? {
      return Err(NotAnArray);
    }
    r := Ok(Plug(cursor.value.frames, Arr(target.items + [Str("")])));
  }

  method RemoveArrayItem(obj: Value, index: int, path: Path) returns (r: Result<Value>)
    ensures r == ItemRemoved(obj, index, path)
  {
    var newObj := obj;
    var cursor := Navigate(newObj, path);
    if cursor.None? {
      return Err(PathNotFound);
    }
    var target := cursor.value.target;
    if !target.Arr? {
      return Err(NotAnArray);
    }
    r := Ok(Plug(cursor.value.frames, Arr(SpliceOne(target.items, index))));
  }

  method MoveArrayItemUp(obj: Value, index: int, path: Path) returns (r: Result<Value>)
    ensures r == ItemMovedUp(obj, index, path)
  {
    if index == 0 {
      return Ok(obj);
    }
    var newObj := obj;
    var cursor := Navigate(newObj, path);
    if cursor.None? {
      return Err(PathNotFound);
    }
    var target := cursor.value.target;
    if !target.Arr? {
      return Err(NotAnArray);
    }
    if 1 <= index < |target.items| {
      r := Ok(Plug(cursor.value.frames, Arr(Swap(target.items, index, index - 1))));
    } else {
      r := Err(IndexOutOfRange);
    }
  }

  method MoveArrayItemDown(obj: Value, index: int, path: Path) returns (r: Result<Value>)
    ensures r == ItemMovedDown(obj, index, path)
  {
    var newObj := obj;
    var cursor := Navigate(newObj, path);
    if cursor.None? {
      return Err(PathNotFound);
    }
    var target := cursor.value.target;
    if !target.Arr? {
      return Err(NotAnArray);
    }
    if index == |target.items| - 1 {
      return Ok(obj);
    }
    if 0 <= index < |target.items| - 1 {
      r := Ok(Plug(cursor.value.frames, Arr(Swap(target.items, index, index + 1))));
    } else {
      r := Err(IndexOutOfRange);
    }
  }

  // ---------------------------------------------------------------------
  // addKeyValue

  /** On an object target the node gains the invented key with value "",
      appended last when the key was new and replacing only that value when
      it was already there; every other key answers as before. */
  lemma AddKeyValueAddsEmptyString(obj: Value, path: Path, es: seq<Entry>)
    requires !obj.Null? && Lookup(obj, path) == Some(Obj(es))
    ensures KeyAdded(obj, path).Ok?
    ensures var k := NewKeyName(KeyCount(obj).value);
      var node := Lookup(KeyAdded(obj, path).value, path);
      node.Some? && node.value.Obj? &&
      Get(node.value.entries, k) == Some(Str("")) &&
      (forall k' :: k' != k ==> Get(node.value.entries, k') == Get(es, k')) &&
      (!HasKey(es, k) ==> node.value.entries == es + [(k, Str(""))]) &&
      (HasKey(es, k) ==> (|node.value.entries| == |es| &&
        forall j :: 0 <= j < |es| && es[j].0 != k ==> node.value.entries[j] == es[j]))
  {
    var k := NewKeyName(KeyCount(obj).value);
    SetKeyFacts(es, k, Str(""));
    LookupReplaceSame(obj, path, Obj(SetKey(es, k, Str(""))));
  }

  /** addKeyValue fails exactly when the root is null, the path leads
      nowhere, or the target is not an object. */
  lemma AddKeyValueFailures(obj: Value, path: Path)
    ensures KeyAdded(obj, path).Err? <==>
      obj.Null? || Lookup(obj, path).None? || !Lookup(obj, path).value.Obj?
  {
  }

  /** The invented key counts the keys of the root, not of the target, and
      silently overwrites a key of that name: adding a property inside
      `{"a": {"newKey2": 5}}` at ["a"] empties the existing "newKey2". */
  lemma AddKeyValueCountsRootKeys()
    ensures KeyAdded(Obj([("a", Obj([("newKey2", Num(5))]))]), ["a"])
         == Ok(Obj([("a", Obj([("newKey2", Str(""))]))]))
  {
    var inner := Obj([("newKey2", Num(5))]);
    var root := Obj([("a", inner)]);
    assert KeyCount(root) == Some(1);
    assert DigitChar(2) == '2';
    assert NatToString(2) == "2";
    assert NewKeyName(1) == "newKey2";
    assert FindKey(root.entries, "a") == Some(0);
    assert Step(root, "a") == Some(inner);
    assert Lookup(root, ["a"]) == Some(inner) by { assert ["a"][1..] == []; }
    assert FindKey(inner.entries, "newKey2") == Some(0);
    var node := Obj([("newKey2", Str(""))]);
    assert SetKey(inner.entries, "newKey2", Str("")) == node.entries;
    assert Replace(inner, [], node) == node;
    assert Replace(root, ["a"], node) == StepReplace(root, "a", node) by { assert ["a"][1..] == []; }
    assert StepReplace(root, "a", node) == Obj([("a", node)]);
  }

  /** Adding to an empty root object gives `{"newKey1": ""}`. */
  lemma AddKeyValueOnEmptyRoot()
    ensures KeyAdded(Obj([]), []) == Ok(Obj([("newKey1", Str(""))]))
  {
    assert DigitChar(1) == '1';
    assert NatToString(1) == "1";
    assert NewKeyName(0) == "newKey1";
    assert SetKey([], "newKey1", Str("")) == [("newKey1", Str(""))];
    assert Lookup(Obj([]), []) == Some(Obj([]));
  }

  // ---------------------------------------------------------------------
  // removeKeyValue

  /** The key is gone from the target, every other key answers as before,
      with unique keys the remaining entries keep their order, and removing
      a key that is not there leaves the whole tree unchanged. */
  lemma RemoveKeyValueDeletes(obj: Value, key: string, path: Path, es: seq<Entry>)
    requires Lookup(obj, path) == Some(Obj(es))
    ensures KeyRemoved(obj, key, path).Ok?
    ensures var node := Lookup(KeyRemoved(obj, key, path).value, path);
      node.Some? && node.value.Obj? &&
      !HasKey(node.value.entries, key) &&
      (forall k' :: k' != key ==> Get(node.value.entries, k') == Get(es, k')) &&
      (UniqueKeys(es) && FindKey(es, key).Some? ==>
        var i := FindKey(es, key).value;
        node.value.entries == es[..i] + es[i + 1..])
    ensures !HasKey(es, key) ==> KeyRemoved(obj, key, path) == Ok(obj)
  {
    RemoveKeyFacts(es, key);
    LookupReplaceSame(obj, path, Obj(RemoveKey(es, key)));
    if UniqueKeys(es) && FindKey(es, key).Some? {
      RemoveKeyAt(es, key, FindKey(es, key).value);
    }
    if !HasKey(es, key) {
      RemoveKeyAbsent(es, key);
      ReplaceWithSelf(obj, path);
    }
  }

  // ---------------------------------------------------------------------
  // updateKey

  /** Renaming a key to itself returns before anything, for any path. */
  lemma UpdateKeySameKeyIsNoOp(obj: Value, key: string, path: Path)
    ensures KeyRenamed(obj, key, key, path) == Ok(obj)
  {
  }

  /** A name the target already answers to is refused, and a refused or
      skipped rename never leaves two entries with one key. */
  lemma UpdateKeyCollision(obj: Value, oldKey: string, newKey: string, path: Path, es: seq<Entry>)
    requires Lookup(obj, path) == Some(Obj(es))
    requires oldKey != newKey
    ensures HasKey(es, newKey) ==> KeyRenamed(obj, oldKey, newKey, path) == Err(KeyExists)
    ensures newKey in InheritedNames ==> KeyRenamed(obj, oldKey, newKey, path) == Err(KeyExists)
    ensures !AnswersLookup(es, newKey) && !HasKey(es, oldKey) ==> KeyRenamed(obj, oldKey, newKey, path) == Ok(obj)
  {
    HasKeyFindKey(es, oldKey);
  }

  /** The collision check also sees Object.prototype: renaming "a" of
      `{"a": 1}` to "toString" is refused although no such key exists. */
  lemma UpdateKeyRefusesInheritedName()
    ensures !HasKey([("a", Num(1))], "toString")
    ensures KeyRenamed(Obj([("a", Num(1))]), "a", "toString", []) == Err(KeyExists)
  {
  }

  /** With a free new name, the old key is gone, the new key holds the old
      value as the last entry, and all other entries keep value and order. */
  lemma UpdateKeyMovesEntryLast(obj: Value, oldKey: string, newKey: string, path: Path, es: seq<Entry>, i: nat)
    requires Lookup(obj, path) == Some(Obj(es)) && UniqueKeys(es)
    requires oldKey != newKey && !AnswersLookup(es, newKey)
    requires i < |es| && es[i].0 == oldKey
    ensures KeyRenamed(obj, oldKey, newKey, path).Ok?
    ensures Lookup(KeyRenamed(obj, oldKey, newKey, path).value, path)
         == Some(Obj(es[..i] + es[i + 1..] + [(newKey, es[i].1)]))
  {
    assert FindKey(es, oldKey) == Some(i);
    var rest := RemoveKey(es, oldKey);
    RemoveKeyAt(es, oldKey, i);
    RemoveKeyFacts(es, oldKey);
    assert !HasKey(rest, newKey) by {
      RemoveKeyContents(es, oldKey);
    }
    SetKeyFacts(rest, newKey, es[i].1);
    LookupReplaceSame(obj, path, Obj(SetKey(rest, newKey, es[i].1)));
  }

  /** `{"a": 1, "b": 2}`: renaming "a" to "b" is refused. */
  lemma UpdateKeyToExistingKey()
    ensures KeyRenamed(Obj([("a", Num(1)), ("b", Num(2))]), "a", "b", []) == Err(KeyExists)
  {
    assert [("a", Num(1)), ("b", Num(2))][1].0 == "b";
  }

  // ---------------------------------------------------------------------
  // updateValue

  /** `target[key] = c` on an object keeps an existing property in its place
      and appends a new one after all others; on an array it rewrites the
      one element `key` names and keeps the length. Either way the entry
      `key` reads `c` and every other entry reads as before. */
  lemma StoredFacts(target: Value, key: string, c: Value)
    requires target.Obj? || (target.Arr? && ArrayIndex(key).Some? && ArrayIndex(key).value < |target.items|)
    ensures Stored(target, key, c).Ok?
    ensures Step(Stored(target, key, c).value, key) == Some(c)
    ensures forall k' :: k' != key ==> Step(Stored(target, key, c).value, k') == Step(target, k')
    ensures target.Obj? ==> var es, es' := target.entries, Stored(target, key, c).value.entries;
      !HasKey(es, key) ==> es' == es + [(key, c)]
    ensures target.Obj? ==> var es, es' := target.entries, Stored(target, key, c).value.entries;
      HasKey(es, key) ==> (|es'| == |es| && es'[FindKey(es, key).value] == (key, c) &&
        forall j :: 0 <= j < |es| && j != FindKey(es, key).value ==> es'[j] == es[j])
    ensures target.Arr? ==> var i, items' := ArrayIndex(key).value, Stored(target, key, c).value.items;
      |items'| == |target.items| && items'[i] == c &&
      forall j :: 0 <= j < |items'| && j != i ==> items'[j] == target.items[j]
  {
    if target.Obj? {
      SetKeyFacts(target.entries, key, c);
      HasKeyFindKey(target.entries, key);
    } else {
      assert Stored(target, key, c).value == StepReplace(target, key, c);
      StepReplaceFacts(target, key, c);
    }
  }

  /** The node at `path` is the target with the converted value stored
      under `key`; the entry `key` of it now holds the converted value and
      every other entry reads as before. */
  lemma UpdateValueStoresConversion(obj: Value, key: string, value: Value, t: JsonType, path: Path)
    requires Lookup(obj, path).Some?
    requires var target := Lookup(obj, path).value;
      target.Obj? || (target.Arr? && ArrayIndex(key).Some? && ArrayIndex(key).value < |target.items|)
    ensures ValueUpdated(obj, key, value, t, path).Ok?
    ensures var target := Lookup(obj, path).value;
      Lookup(ValueUpdated(obj, key, value, t, path).value, path) ==
        Some(if target.Obj? then Obj(SetKey(target.entries, key, Convert(value, t)))
             else Arr(target.items[ArrayIndex(key).value := Convert(value, t)]))
    ensures Lookup(ValueUpdated(obj, key, value, t, path).value, path + [key]) == Some(Convert(value, t))
    ensures forall k' :: k' != key ==>
      Lookup(ValueUpdated(obj, key, value, t, path).value, path + [k']) == Lookup(obj, path + [k'])
  {
    var target := Lookup(obj, path).value;
    var c := Convert(value, t);
    StoredFacts(target, key, c);
    var node := Stored(target, key, c).value;
    var r := Replace(obj, path, node);
    assert ValueUpdated(obj, key, value, t, path) == Ok(r);
    LookupReplaceSame(obj, path, node);
    LookupReplaceBelow(obj, path, node, [key]);
    LookupSnoc(obj, path, key);
    assert Lookup(node, [key]) == Step(node, key) by { assert [key][1..] == []; }
    forall k' | k' != key ensures Lookup(r, path + [k']) == Lookup(obj, path + [k']) {
      LookupReplaceBelow(obj, path, node, [k']);
      LookupSnoc(obj, path, k');
      assert Lookup(node, [k']) == Step(node, k') by { assert [k'][1..] == []; }
    }
  }

  /** Retyping (visual-editor.tsx:413) passes the node's current value and
      the path split into its parent and last step: the node is replaced by
      its own conversion. With the coercion table this gives: "boolean"
      yields true exactly when the node was the string "true". */
  lemma RetypeReplacesNode(obj: Value, nodePath: Path, t: JsonType)
    requires |nodePath| > 0 && Lookup(obj, nodePath).Some?
    ensures var parent, last := nodePath[..|nodePath| - 1], nodePath[|nodePath| - 1];
      var r := ValueUpdated(obj, last, Lookup(obj, nodePath).value, t, parent);
      r.Ok? && Lookup(r.value, nodePath) == Some(Convert(Lookup(obj, nodePath).value, t))
  {
    var parent, last := nodePath[..|nodePath| - 1], nodePath[|nodePath| - 1];
    assert nodePath == parent + [last];
    LookupSnoc(obj, parent, last);
    UpdateValueStoresConversion(obj, last, Lookup(obj, nodePath).value, t, parent);
  }

  /** `{"a": "5"}` retyped at ["a"] to number gives `{"a": 5}`. */
  lemma RetypeStringToNumber()
    ensures ValueUpdated(Obj([("a", Str("5"))]), "a", Str("5"), NumberType, []) == Ok(Obj([("a", Num(5))]))
  {
    assert DigitValue('5') == 5;
    assert "5"[..0] == "";
    assert DigitsValue("5") == 5;
    assert TrimStart("5") == "5";
    assert TrimEnd("5") == "5";
    assert StringToInt("5") == Some(5);
    assert Convert(Str("5"), NumberType) == Num(5);
    var root := Obj([("a", Str("5"))]);
    assert FindKey(root.entries, "a") == Some(0);
    assert Lookup(root, []) == Some(root);
    assert SetKey(root.entries, "a", Num(5)) == [("a", Num(5))];
  }

  // ---------------------------------------------------------------------
  // addArrayItem / removeArrayItem

  /** Push: one more element, the old ones as prefix, "" at the end. */
  lemma AddArrayItemAppends(obj: Value, path: Path, items: seq<Value>)
    requires Lookup(obj, path) == Some(Arr(items))
    ensures ItemAdded(obj, path).Ok?
    ensures var node := Lookup(ItemAdded(obj, path).value, path);
      node.Some? && node.value.Arr? &&
      |node.value.items| == |items| + 1 &&
      node.value.items[..|items|] == items &&
      node.value.items[|items|] == Str("")
  {
    LookupReplaceSame(obj, path, Arr(items + [Str("")]));
  }

  /** Splice of one element: an index inside the array removes that element,
      a negative one counts from the end, one past the end changes nothing. */
  lemma RemoveArrayItemSplices(obj: Value, index: int, path: Path, items: seq<Value>)
    requires Lookup(obj, path) == Some(Arr(items))
    ensures ItemRemoved(obj, index, path).Ok?
    ensures 0 <= index < |items| ==>
      Lookup(ItemRemoved(obj, index, path).value, path) == Some(Arr(items[..index] + items[index + 1..])) &&
      |items[..index] + items[index + 1..]| == |items| - 1
    ensures -|items| <= index < 0 ==>
      var j := |items| + index;
      Lookup(ItemRemoved(obj, index, path).value, path) == Some(Arr(items[..j] + items[j + 1..]))
    ensures index < -|items| ==>
      Lookup(ItemRemoved(obj, index, path).value, path) == Some(Arr(if items == [] then [] else items[1..]))
    ensures index >= |items| ==> ItemRemoved(obj, index, path) == Ok(obj)
  {
    LookupReplaceSame(obj, path, Arr(SpliceOne(items, index)));
    if index < -|items| && items != [] {
      assert items[..0] + items[1..] == items[1..];
    }
    if index >= |items| {
      ReplaceWithSelf(obj, path);
    }
  }

  /** `{"a": [1, 2, 3]}` without index 1 of ["a"] is `{"a": [1, 3]}`. */
  lemma RemoveArrayItemExample()
    ensures ItemRemoved(Obj([("a", Arr([Num(1), Num(2), Num(3)]))]), 1, ["a"])
         == Ok(Obj([("a", Arr([Num(1), Num(3)]))]))
  {
    var arr := Arr([Num(1), Num(2), Num(3)]);
    var root := Obj([("a", arr)]);
    assert FindKey(root.entries, "a") == Some(0);
    assert Step(root, "a") == Some(arr);
    assert Lookup(root, ["a"]) == Some(arr) by { assert ["a"][1..] == []; }
    assert SpliceOne(arr.items, 1) == [Num(1), Num(3)];
    var node := Arr([Num(1), Num(3)]);
    assert Replace(arr, [], node) == node;
    assert Replace(root, ["a"], node) == StepReplace(root, "a", node) by { assert ["a"][1..] == []; }
    assert StepReplace(root, "a", node) == Obj([("a", node)]);
  }

  // ---------------------------------------------------------------------
  // moveArrayItemUp / moveArrayItemDown

  /** Moving the first element up returns before the walk: nothing changes. */
  lemma MoveUpAtTopIsNoOp(obj: Value, path: Path)
    ensures ItemMovedUp(obj, 0, path) == Ok(obj)
  {
  }

  /** Moving the last element down changes nothing. */
  lemma MoveDownAtBottomIsNoOp(obj: Value, path: Path, items: seq<Value>)
    requires Lookup(obj, path) == Some(Arr(items))
    ensures ItemMovedDown(obj, |items| - 1, path) == Ok(obj)
  {
  }

  /** Anywhere else the element trades places with the one above it. */
  lemma MoveUpSwaps(obj: Value, index: int, path: Path, items: seq<Value>)
    requires Lookup(obj, path) == Some(Arr(items)) && 1 <= index < |items|
    ensures ItemMovedUp(obj, index, path).Ok?
    ensures var node := Lookup(ItemMovedUp(obj, index, path).value, path);
      node.Some? && node.value.Arr? && |node.value.items| == |items| &&
      node.value.items[index] == items[index - 1] && node.value.items[index - 1] == items[index] &&
      forall m :: 0 <= m < |items| && m != index && m != index - 1 ==> node.value.items[m] == items[m]
  {
    LookupReplaceSame(obj, path, Arr(Swap(items, index, index - 1)));
  }

  /** ... or with the one below it. */
  lemma MoveDownSwaps(obj: Value, index: int, path: Path, items: seq<Value>)
    requires Lookup(obj, path) == Some(Arr(items)) && 0 <= index < |items| - 1
    ensures ItemMovedDown(obj, index, path).Ok?
    ensures var node := Lookup(ItemMovedDown(obj, index, path).value, path);
      node.Some? && node.value.Arr? && |node.value.items| == |items| &&
      node.value.items[index] == items[index + 1] && node.value.items[index + 1] == items[index] &&
      forall m :: 0 <= m < |items| && m != index && m != index + 1 ==> node.value.items[m] == items[m]
  {
    LookupReplaceSame(obj, path, Arr(Swap(items, index, index + 1)));
  }

  /** The swap is its own inverse: down then up (and up then down) restores the tree. */
  lemma MoveDownThenUpRestores(obj: Value, index: int, path: Path, items: seq<Value>)
    requires Lookup(obj, path) == Some(Arr(items)) && 0 <= index < |items| - 1
    ensures ItemMovedDown(obj, index, path).Ok?
    ensures ItemMovedUp(ItemMovedDown(obj, index, path).value, index + 1, path) == Ok(obj)
  {
    var swapped := Swap(items, index, index + 1);
    var mid := Replace(obj, path, Arr(swapped));
    LookupReplaceSame(obj, path, Arr(swapped));
    ReplaceTwice(obj, path, Arr(swapped), Arr(Swap(swapped, index + 1, index)));
    assert Swap(swapped, index + 1, index) == items;
    ReplaceWithSelf(obj, path);
  }

  lemma MoveUpThenDownRestores(obj: Value, index: int, path: Path, items: seq<Value>)
    requires Lookup(obj, path) == Some(Arr(items)) && 1 <= index < |items|
    ensures ItemMovedUp(obj, index, path).Ok?
    ensures ItemMovedDown(ItemMovedUp(obj, index, path).value, index - 1, path) == Ok(obj)
  {
    var swapped := Swap(items, index, index - 1);
    LookupReplaceSame(obj, path, Arr(swapped));
    ReplaceTwice(obj, path, Arr(swapped), Arr(Swap(swapped, index - 1, index)));
    assert Swap(swapped, index - 1, index) == items;
    ReplaceWithSelf(obj, path);
  }

  /** `{"a": [1, 2]}`: moving index 0 of ["a"] up leaves it unchanged. */
  lemma MoveUpExample()
    ensures ItemMovedUp(Obj([("a", Arr([Num(1), Num(2)]))]), 0, ["a"]) == Ok(Obj([("a", Arr([Num(1), Num(2)]))]))
  {
  }
}
