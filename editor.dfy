/** The editor's state `jsonData` and the user actions the renderer wires
    to the edit helpers (components/visual-editor.tsx:330-414, 536). Every
    action passes the whole `jsonData` as the helper's `obj`; a helper that
    returns a new root ends in `setJsonData`, and one that throws or returns
    early leaves `jsonData` as it was. */
module Editor {
  import opened Outcomes
  import opened JsonValue
  import opened JsDecimal
  import opened Coercion
  import opened Paths
  import opened EditHelpers

  /** One call of an edit helper, with the arguments the renderer passes
      (the helper's `obj` is always the current `jsonData`). */
  datatype Edit =
    | AddProperty(path: Path)                                        // addKeyValue, :350 and :536
    | RemoveProperty(path: Path, key: string)                        // removeKeyValue, :342
    | RenameProperty(path: Path, oldKey: string, newKey: string)     // updateKey, :336
    | UpdateProperty(path: Path, key: string, value: Value, t: JsonType) // updateValue, :413-450
    | AddItem(path: Path)                                            // addArrayItem, :397
    | RemoveItem(path: Path, index: int)                             // removeArrayItem, :388
    | MoveItemUp(path: Path, index: int)                             // moveArrayItemUp, :370
    | MoveItemDown(path: Path, index: int)                           // moveArrayItemDown, :379

  function Apply(root: Value, e: Edit): Result<Value> {
    match e
    case AddProperty(path) => KeyAdded(root, path)
    case RemoveProperty(path, key) => KeyRemoved(root, key, path)
    case RenameProperty(path, oldKey, newKey) => KeyRenamed(root, oldKey, newKey, path)
    case UpdateProperty(path, key, value, t) => ValueUpdated(root, key, value, t, path)
    case AddItem(path) => ItemAdded(root, path)
    case RemoveItem(path, index) => ItemRemoved(root, index, path)
    case MoveItemUp(path, index) => ItemMovedUp(root, index, path)
    case MoveItemDown(path, index) => ItemMovedDown(root, index, path)
  }

  /** The document after a run of actions; a failing action keeps the root. */
  function ApplyAll(root: Value, edits: seq<Edit>): Value
    decreases |edits|
  {
    if edits == [] then root
    else
      var next := match Apply(root, edits[0]) case Ok(r) => r case Err(_) => root;
      ApplyAll(next, edits[1..])
  }

  // ---------------------------------------------------------------------

  /** Every edit is local: a node whose path neither leads to the edited
      container nor lies below it reads the same in the new root. */
  lemma EditIsLocal(root: Value, e: Edit, q: Path)
    requires Apply(root, e).Ok?
    requires !IsPrefix(e.path, q) && !IsPrefix(q, e.path)
    ensures Lookup(Apply(root, e).value, q) == Lookup(root, q)
  {
    match e
    case AddProperty(p) => AddKeyValueIsLocal(root, p, q);
    case RemoveProperty(p, key) => RemoveKeyValueIsLocal(root, key, p, q);
    case RenameProperty(p, oldKey, newKey) => UpdateKeyIsLocal(root, oldKey, newKey, p, q);
    case UpdateProperty(p, key, value, t) => UpdateValueIsLocal(root, key, value, t, p, q);
    case AddItem(p) => AddArrayItemIsLocal(root, p, q);
    case RemoveItem(p, index) => RemoveArrayItemIsLocal(root, index, p, q);
    case MoveItemUp(p, index) => MoveItemUpIsLocal(root, index, p, q);
    case MoveItemDown(p, index) => MoveItemDownIsLocal(root, index, p, q);
  }

  lemma AddKeyValueIsLocal(root: Value, p: Path, q: Path)
    requires KeyAdded(root, p).Ok? && !IsPrefix(p, q) && !IsPrefix(q, p)
    ensures Lookup(KeyAdded(root, p).value, q) == Lookup(root, q)
  {
    var es := Lookup(root, p).value.entries;
    ReplaceIsLocal(root, p, q, Obj(SetKey(es, NewKeyName(KeyCount(root).value), Str(""))));
  }

  lemma RemoveKeyValueIsLocal(root: Value, key: string, p: Path, q: Path)
    requires KeyRemoved(root, key, p).Ok? && !IsPrefix(p, q) && !IsPrefix(q, p)
    ensures Lookup(KeyRemoved(root, key, p).value, q) == Lookup(root, q)
  {
    ReplaceIsLocal(root, p, q, Obj(RemoveKey(Lookup(root, p).value.entries, key)));
  }

  lemma UpdateKeyIsLocal(root: Value, oldKey: string, newKey: string, p: Path, q: Path)
    requires KeyRenamed(root, oldKey, newKey, p).Ok? && !IsPrefix(p, q) && !IsPrefix(q, p)
    ensures Lookup(KeyRenamed(root, oldKey, newKey, p).value, q) == Lookup(root, q)
  {
    if KeyRenamed(root, oldKey, newKey, p).value != root {
      var es := Lookup(root, p).value.entries;
      ReplaceIsLocal(root, p, q, Obj(SetKey(RemoveKey(es, oldKey), newKey, Get(es, oldKey).value)));
    }
  }

  lemma UpdateValueIsLocal(root: Value, key: string, value: Value, t: JsonType, p: Path, q: Path)
    requires ValueUpdated(root, key, value, t, p).Ok? && !IsPrefix(p, q) && !IsPrefix(q, p)
    ensures Lookup(ValueUpdated(root, key, value, t, p).value, q) == Lookup(root, q)
  {
    var target := Lookup(root, p).value;
    if target.Obj? {
      ReplaceIsLocal(root, p, q, Obj(SetKey(target.entries, key, Convert(value, t))));
    } else {
      ReplaceIsLocal(root, p, q, Arr(target.items[ArrayIndex(key).value := Convert(value, t)]));
    }
  }

  lemma AddArrayItemIsLocal(root: Value, p: Path, q: Path)
    requires ItemAdded(root, p).Ok? && !IsPrefix(p, q) && !IsPrefix(q, p)
    ensures Lookup(ItemAdded(root, p).value, q) == Lookup(root, q)
  {
    ReplaceIsLocal(root, p, q, Arr(Lookup(root, p).value.items + [Str("")]));
  }

  lemma RemoveArrayItemIsLocal(root: Value, index: int, p: Path, q: Path)
    requires ItemRemoved(root, index, p).Ok? && !IsPrefix(p, q) && !IsPrefix(q, p)
    ensures Lookup(ItemRemoved(root, index, p).value, q) == Lookup(root, q)
  {
    ReplaceIsLocal(root, p, q, Arr(SpliceOne(Lookup(root, p).value.items, index)));
  }

  lemma MoveItemUpIsLocal(root: Value, index: int, p: Path, q: Path)
    requires ItemMovedUp(root, index, p).Ok? && !IsPrefix(p, q) && !IsPrefix(q, p)
    ensures Lookup(ItemMovedUp(root, index, p).value, q) == Lookup(root, q)
  {
    if index != 0 {
      ReplaceIsLocal(root, p, q, Arr(Swap(Lookup(root, p).value.items, index, index - 1)));
    }
  }

  lemma MoveItemDownIsLocal(root: Value, index: int, p: Path, q: Path)
    requires ItemMovedDown(root, index, p).Ok? && !IsPrefix(p, q) && !IsPrefix(q, p)
    ensures Lookup(ItemMovedDown(root, index, p).value, q) == Lookup(root, q)
  {
    if ItemMovedDown(root, index, p).value != root {
      ReplaceIsLocal(root, p, q, Arr(Swap(Lookup(root, p).value.items, index, index + 1)));
    }
  }

  /** Every edit keeps keys unique (and the whole tree well formed). */
  lemma EditKeepsKeysUnique(root: Value, e: Edit)
    requires WellFormed(root)
    ensures Apply(root, e).Ok? ==> WellFormed(Apply(root, e).value)
  {
    match e
    case AddProperty(p) => AddKeyValueKeepsKeysUnique(root, p);
    case RemoveProperty(p, key) => RemoveKeyValueKeepsKeysUnique(root, key, p);
    case RenameProperty(p, oldKey, newKey) => UpdateKeyKeepsKeysUnique(root, oldKey, newKey, p);
    case UpdateProperty(p, key, value, t) => UpdateValueKeepsKeysUnique(root, key, value, t, p);
    case AddItem(p) => AddArrayItemKeepsKeysUnique(root, p);
    case RemoveItem(p, index) => RemoveArrayItemKeepsKeysUnique(root, index, p);
    case MoveItemUp(p, index) => MoveItemUpKeepsKeysUnique(root, index, p);
    case MoveItemDown(p, index) => MoveItemDownKeepsKeysUnique(root, index, p);
  }

  lemma AddKeyValueKeepsKeysUnique(root: Value, p: Path)
    requires WellFormed(root)
    ensures KeyAdded(root, p).Ok? ==> WellFormed(KeyAdded(root, p).value)
  {
    if KeyAdded(root, p).Ok? {
      var es := Lookup(root, p).value.entries;
      var k := NewKeyName(KeyCount(root).value);
      LookupWellFormed(root, p);
      SetKeyWellFormed(es, k, Str(""));
      ReplaceWellFormed(root, p, Obj(SetKey(es, k, Str(""))));
    }
  }

  lemma RemoveKeyValueKeepsKeysUnique(root: Value, key: string, p: Path)
    requires WellFormed(root)
    ensures KeyRemoved(root, key, p).Ok? ==> WellFormed(KeyRemoved(root, key, p).value)
  {
    if KeyRemoved(root, key, p).Ok? {
      var es := Lookup(root, p).value.entries;
      LookupWellFormed(root, p);
      RemoveKeyWellFormed(es, key);
      ReplaceWellFormed(root, p, Obj(RemoveKey(es, key)));
    }
  }

  lemma UpdateKeyKeepsKeysUnique(root: Value, oldKey: string, newKey: string, p: Path)
    requires WellFormed(root)
    ensures KeyRenamed(root, oldKey, newKey, p).Ok? ==> WellFormed(KeyRenamed(root, oldKey, newKey, p).value)
  {
    var r := KeyRenamed(root, oldKey, newKey, p);
    if r.Ok? && r.value != root {
      var es := Lookup(root, p).value.entries;
      var v := Get(es, oldKey).value;
      LookupWellFormed(root, p);
      GetWellFormed(es, oldKey);
      RemoveKeyWellFormed(es, oldKey);
      SetKeyWellFormed(RemoveKey(es, oldKey), newKey, v);
      ReplaceWellFormed(root, p, Obj(SetKey(RemoveKey(es, oldKey), newKey, v)));
    }
  }

  lemma UpdateValueKeepsKeysUnique(root: Value, key: string, value: Value, t: JsonType, p: Path)
    requires WellFormed(root)
    ensures ValueUpdated(root, key, value, t, p).Ok? ==> WellFormed(ValueUpdated(root, key, value, t, p).value)
  {
    if ValueUpdated(root, key, value, t, p).Ok? {
      var target := Lookup(root, p).value;
      var c := Convert(value, t);
      LookupWellFormed(root, p);
      ConvertWellFormed(value, t);
      if target.Obj? {
        SetKeyWellFormed(target.entries, key, c);
        ReplaceWellFormed(root, p, Obj(SetKey(target.entries, key, c)));
      } else {
        var items := target.items;
        var i := ArrayIndex(key).value;
        assert forall x | x in items[i := c] :: x == c || x in items;
        ReplaceWellFormed(root, p, Arr(items[i := c]));
      }
    }
  }

  lemma AddArrayItemKeepsKeysUnique(root: Value, p: Path)
    requires WellFormed(root)
    ensures ItemAdded(root, p).Ok? ==> WellFormed(ItemAdded(root, p).value)
  {
    if ItemAdded(root, p).Ok? {
      var items := Lookup(root, p).value.items;
      LookupWellFormed(root, p);
      assert forall x | x in items + [Str("")] :: x == Str("") || x in items;
      ReplaceWellFormed(root, p, Arr(items + [Str("")]));
    }
  }

  lemma RemoveArrayItemKeepsKeysUnique(root: Value, index: int, p: Path)
    requires WellFormed(root)
    ensures ItemRemoved(root, index, p).Ok? ==> WellFormed(ItemRemoved(root, index, p).value)
  {
    if ItemRemoved(root, index, p).Ok? {
      var items := Lookup(root, p).value.items;
      LookupWellFormed(root, p);
      SpliceSubset(items, index);
      ReplaceWellFormed(root, p, Arr(SpliceOne(items, index)));
    }
  }

  lemma MoveItemUpKeepsKeysUnique(root: Value, index: int, p: Path)
    requires WellFormed(root)
    ensures ItemMovedUp(root, index, p).Ok? ==> WellFormed(ItemMovedUp(root, index, p).value)
  {
    if ItemMovedUp(root, index, p).Ok? && index != 0 {
      var items := Lookup(root, p).value.items;
      LookupWellFormed(root, p);
      assert forall x | x in Swap(items, index, index - 1) :: x in items;
      ReplaceWellFormed(root, p, Arr(Swap(items, index, index - 1)));
    }
  }

  lemma MoveItemDownKeepsKeysUnique(root: Value, index: int, p: Path)
    requires WellFormed(root)
    ensures ItemMovedDown(root, index, p).Ok? ==> WellFormed(ItemMovedDown(root, index, p).value)
  {
    var r := ItemMovedDown(root, index, p);
    if r.Ok? && r.value != root {
      var items := Lookup(root, p).value.items;
      LookupWellFormed(root, p);
      assert forall x | x in Swap(items, index, index + 1) :: x in items;
      ReplaceWellFormed(root, p, Arr(Swap(items, index, index + 1)));
    }
  }

  /** Every element left by `splice` was an element before. */
  lemma SpliceSubset(items: seq<Value>, index: int)
    ensures forall x | x in SpliceOne(items, index) :: x in items
  {
    var start := SpliceStart(|items|, index);
    if start < |items| {
      assert items == items[..start] + items[start..];
    }
  }

  /** No sequence of actions, failing ones included, ever gives an object
      two entries with the same key. */
  lemma {:induction false} KeysStayUnique(root: Value, edits: seq<Edit>)
    requires WellFormed(root)
    ensures WellFormed(ApplyAll(root, edits))
    decreases |edits|
  {
    if edits != [] {
      EditKeepsKeysUnique(root, edits[0]);
      var next := match Apply(root, edits[0]) case Ok(r) => r case Err(_) => root;
      KeysStayUnique(next, edits[1..]);
    }
  }

  /** The three value fields of a node (:432, :441, :450) pass the text
      typed or picked: a string field stores the text, a number field given
      an integer's decimal text stores that integer, and the boolean picker
      stores the choice. */
  lemma FieldInputsStore(s: string, n: int, b: bool)
    ensures Convert(Str(s), StringType) == Str(s)
    ensures Convert(Str(IntToString(n)), NumberType) == Num(n)
    ensures Convert(Str(if b then "true" else "false"), BooleanType) == Bool(b)
  {
    StringToIntOfIntToString(n);
  }

  // ---------------------------------------------------------------------

  /** The component's `jsonData`. */
  class VisualEditor {
    var jsonData: Value

    ghost predicate Valid()
      reads this
    {
      WellFormed(jsonData)
    }

    /** A document built from parsed text; parsing keeps the last of
        repeated keys, so it holds each key once. */
    constructor (parsed: Value)
      requires WellFormed(parsed)
      ensures Valid() && jsonData == parsed
    {
      jsonData := parsed;
    }

    /** One user action: the helper is called with `jsonData` and, when it
        yields a new root, `setJsonData` installs it; otherwise nothing changes. */
    method Perform(e: Edit) returns (r: Result<Value>)
      requires Valid()
      modifies this
      ensures Valid()
      ensures r == Apply(old(jsonData), e)
      ensures jsonData == (if r.Ok? then r.value else old(jsonData))
    {
      match e {
        case AddProperty(path) => r := AddKeyValue(jsonData, path);
        case RemoveProperty(path, key) => r := RemoveKeyValue(jsonData, key, path);
        case RenameProperty(path, oldKey, newKey) => r := UpdateKey(jsonData, oldKey, newKey, path);
        case UpdateProperty(path, key, value, t) => r := UpdateValue(jsonData, key, value, t, path);
        case AddItem(path) => r := AddArrayItem(jsonData, path);
        case RemoveItem(path, index) => r := RemoveArrayItem(jsonData, index, path);
        case MoveItemUp(path, index) => r := MoveArrayItemUp(jsonData, index, path);
        case MoveItemDown(path, index) => r := MoveArrayItemDown(jsonData, index, path);
      }
      EditKeepsKeysUnique(jsonData, e);
      if r.Ok? {
        jsonData := r.value;
      }
    }

    /** The type selector of a rendered node (:410-414): `updateValue` with
        the node's current value, its last path step as key and the rest of
        its path as target. The node becomes its own conversion. */
    method Retype(nodePath: Path, t: JsonType) returns (r: Result<Value>)
      requires Valid() && |nodePath| > 0
      modifies this
      ensures Valid()
      ensures Lookup(old(jsonData), nodePath).Some? ==>
        r.Ok? && Lookup(jsonData, nodePath) == Some(Convert(Lookup(old(jsonData), nodePath).value, t))
      ensures r == (if Lookup(old(jsonData), nodePath).None? then Err(PathNotFound)
                    else ValueUpdated(old(jsonData), nodePath[|nodePath| - 1], Lookup(old(jsonData), nodePath).value,
                                      t, nodePath[..|nodePath| - 1]))
      ensures jsonData == (if r.Ok? then r.value else old(jsonData))
    {
      var value := Lookup(jsonData, nodePath);
      if value.None? {
        return Err(PathNotFound);
      }
      RetypeReplacesNode(jsonData, nodePath, t);
      r := Perform(UpdateProperty(nodePath[..|nodePath| - 1], nodePath[|nodePath| - 1], value.value, t));
    }
  }
}
