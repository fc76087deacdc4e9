/** The JSON values the visual editor works on, the own-property
    operations on an object's insertion-ordered entries, and the
    classifier `getValueType` of components/visual-editor.tsx. */
module JsonValue {
  import opened Outcomes

  /** A JSON value. Objects are association lists in insertion order;
      numbers are integers (see README). */
  datatype Value =
    | Str(s: string)
    | Num(n: int)
    | Bool(b: bool)
    | Null
    | Obj(entries: seq<(string, Value)>)
    | Arr(items: seq<Value>)

  type Entry = (string, Value)

  /** Index of the own property `k` (the first entry with that key). */
  function FindKey(es: seq<Entry>, k: string): (r: Option<nat>)
    ensures r.Some? ==> r.value < |es| && es[r.value].0 == k
    ensures r.Some? ==> forall j :: 0 <= j < r.value ==> es[j].0 != k
    ensures r.None? ==> forall j :: 0 <= j < |es| ==> es[j].0 != k
  {
    if es == [] then None
    else if es[0].0 == k then Some(0)
    else match FindKey(es[1..], k)
      case None => None
      case Some(i) => Some(i + 1)
  }

  predicate HasKey(es: seq<Entry>, k: string) {
    exists j :: 0 <= j < |es| && es[j].0 == k
  }

  /** `target[k]` for an own property, None when `k` is not an own key. */
  function Get(es: seq<Entry>, k: string): Option<Value> {
    match FindKey(es, k)
    case Some(i) => Some(es[i].1)
    case None => None
  }

  /** `target[k] = v`: an existing own property keeps its place and gets the
      new value; a new property is added after all others. */
  function SetKey(es: seq<Entry>, k: string, v: Value): seq<Entry> {
    match FindKey(es, k)
    case Some(i) => es[i := (k, v)]
    case None => es + [(k, v)]
  }

  /** `delete target[k]`. */
  function RemoveKey(es: seq<Entry>, k: string): seq<Entry> {
    if es == [] then []
    else (if es[0].0 == k then [] else [es[0]]) + RemoveKey(es[1..], k)
  }

  predicate UniqueKeys(es: seq<Entry>) {
    forall i, j :: 0 <= i < j < |es| ==> es[i].0 != es[j].0
  }

  /** What `JSON.parse` can produce: no object holds a key twice. */
  predicate WellFormed(v: Value) {
    match v
    case Obj(es) => UniqueKeys(es) && forall e | e in es :: WellFormed(e.1)
    case Arr(items) => forall x | x in items :: WellFormed(x)
    case _ => true
  }

  /** `Object.keys(v).length`; `Object.keys(null)` throws. A string has one
      key per UTF-16 code unit (here: per `char`), a number or boolean none. */
  function KeyCount(v: Value): (r: Option<nat>)
    ensures r.None? <==> v.Null?
    ensures v.Obj? ==> r == Some(|v.entries|)
  {
    match v
    case Obj(es) => Some(|es|)
    case Arr(items) => Some(|items|)
    case Str(s) => Some(|s|)
    case Num(_) => Some(0)
    case Bool(_) => Some(0)
    case Null => None
  }

  // ---------------------------------------------------------------------
  // Classification

  datatype JsonType = StringType | NumberType | BooleanType | ObjectType | ArrayType | NullType

  /** JavaScript's `typeof` on a JSON value: null and arrays are "object". */
  function TypeOf(v: Value): string {
    match v
    case Str(_) => "string"
    case Num(_) => "number"
    case Bool(_) => "boolean"
    case _ => "object"
  }

  /** `getValueType`, with its checks in the order visual-editor.tsx makes
      them. Since `typeof null` is "object", the null test has to come
      first: with the object test ahead of it, null would be classified as
      an object. */
  function ValueType(v: Value): (t: JsonType)
    ensures t == NullType <==> v.Null?
    ensures t == ArrayType <==> v.Arr?
    ensures t == ObjectType <==> v.Obj?
    ensures t == BooleanType <==> v.Bool?
    ensures t == NumberType <==> v.Num?
    ensures t == StringType <==> v.Str?
  {
    if v == Null then NullType
    else if v.Arr? then ArrayType
    else if TypeOf(v) == "object" then ObjectType
    else if TypeOf(v) == "boolean" then BooleanType
    else if TypeOf(v) == "number" then NumberType
    else StringType
  }

  // ---------------------------------------------------------------------
  // Facts about the entry operations

  lemma HasKeyFindKey(es: seq<Entry>, k: string)
    ensures HasKey(es, k) <==> FindKey(es, k).Some?
  {
    if FindKey(es, k).Some? {
      assert es[FindKey(es, k).value].0 == k;
    }
  }

  /** FindKey looks at keys only. */
  lemma FindKeySameKeys(es: seq<Entry>, es': seq<Entry>, k: string)
    requires |es| == |es'|
    requires forall j :: 0 <= j < |es| ==> es[j].0 == es'[j].0
    ensures FindKey(es, k) == FindKey(es', k)
  {
  }

  /** Looking a key up in a non-empty entry list: the head, or the tail. */
  lemma GetCons(es: seq<Entry>, k: string)
    requires es != []
    ensures Get(es, k) == if es[0].0 == k then Some(es[0].1) else Get(es[1..], k)
  {
    if es[0].0 != k {
      match FindKey(es[1..], k)
      case None =>
      case Some(i) => assert es[i + 1] == es[1..][i];
    }
  }

  /** Setting a key makes it answer with the new value, leaves every other
      key's answer alone, and either replaces the entry in place or appends. */
  lemma SetKeyFacts(es: seq<Entry>, k: string, v: Value)
    ensures Get(SetKey(es, k, v), k) == Some(v)
    ensures forall k' :: k' != k ==> Get(SetKey(es, k, v), k') == Get(es, k')
    ensures !HasKey(es, k) ==> SetKey(es, k, v) == es + [(k, v)]
    ensures HasKey(es, k) ==> |SetKey(es, k, v)| == |es|
    ensures HasKey(es, k) ==> forall j :: 0 <= j < |es| && es[j].0 != k ==> SetKey(es, k, v)[j] == es[j]
    ensures UniqueKeys(es) ==> UniqueKeys(SetKey(es, k, v))
  {
    HasKeyFindKey(es, k);
    var r := SetKey(es, k, v);
    match FindKey(es, k)
    case Some(i) =>
      FindKeySameKeys(es, r, k);
      forall k' | k' != k ensures Get(r, k') == Get(es, k') {
        FindKeySameKeys(es, r, k');
      }
    case None =>
      assert r[|es|] == (k, v);
      assert forall j :: 0 <= j < |es| ==> r[j] == es[j];
      forall k' | k' != k ensures Get(r, k') == Get(es, k') {
        assert r[..|es|] == es;
        match FindKey(es, k')
        case Some(i) =>
        case None =>
      }
  }

  lemma RemoveKeyContents(es: seq<Entry>, k: string)
    ensures forall e :: e in RemoveKey(es, k) <==> e in es && e.0 != k
    ensures |RemoveKey(es, k)| <= |es|
  {
    if es != [] {
      RemoveKeyContents(es[1..], k);
      assert es == [es[0]] + es[1..];
    }
  }

  /** Deleting a key that is not an own property changes nothing. */
  lemma {:induction false} RemoveKeyAbsent(es: seq<Entry>, k: string)
    requires !HasKey(es, k)
    ensures RemoveKey(es, k) == es
  {
    if es != [] {
      assert !HasKey(es[1..], k) by {
        forall j | 0 <= j < |es[1..]| ensures es[1..][j].0 != k { assert es[1..][j] == es[j + 1]; }
      }
      RemoveKeyAbsent(es[1..], k);
      assert es[0].0 != k;
      assert es == [es[0]] + es[1..];
    }
  }

  /** With unique keys, deleting the key at index i is cutting out that entry. */
  lemma {:induction false} RemoveKeyAt(es: seq<Entry>, k: string, i: nat)
    requires UniqueKeys(es) && i < |es| && es[i].0 == k
    ensures RemoveKey(es, k) == es[..i] + es[i + 1..]
  {
    if i == 0 {
      assert !HasKey(es[1..], k) by {
        forall j | 0 <= j < |es[1..]| ensures es[1..][j].0 != k { assert es[1..][j] == es[j + 1]; }
      }
      RemoveKeyAbsent(es[1..], k);
    } else {
      assert es[0].0 != k;
      RemoveKeyAt(es[1..], k, i - 1);
      assert es[1..][..i - 1] == es[1..i];
      assert es[1..][i..] == es[i + 1..];
      assert [es[0]] + es[1..i] == es[..i];
    }
  }

  /** Deleting a key: the key is gone, every other key answers as before,
      and no key appears twice if none did before. */
  lemma RemoveKeyFacts(es: seq<Entry>, k: string)
    ensures !HasKey(RemoveKey(es, k), k)
    ensures forall k' :: k' != k ==> Get(RemoveKey(es, k), k') == Get(es, k')
    ensures UniqueKeys(es) ==> UniqueKeys(RemoveKey(es, k))
  {
    RemoveKeyContents(es, k);
    var r := RemoveKey(es, k);
    forall k' | k' != k ensures Get(r, k') == Get(es, k') {
      RemoveKeyOther(es, k, k');
    }
    if UniqueKeys(es) {
      RemoveKeyUnique(es, k);
    }
  }

  lemma {:induction false} RemoveKeyOther(es: seq<Entry>, k: string, k': string)
    requires k' != k
    ensures Get(RemoveKey(es, k), k') == Get(es, k')
  {
    if es != [] {
      RemoveKeyOther(es[1..], k, k');
      var rest := RemoveKey(es[1..], k);
      GetCons(es, k');
      var r := RemoveKey(es, k);
      if es[0].0 != k {
        assert r == [es[0]] + rest;
        GetCons(r, k');
        assert r[1..] == rest;
      } else {
        assert r == [] + rest;
        assert r == rest;
        assert Get(es, k') == Get(es[1..], k');
        assert Get(r, k') == Get(rest, k');
      }
    }
  }

  lemma {:induction false} RemoveKeyUnique(es: seq<Entry>, k: string)
    requires UniqueKeys(es)
    ensures UniqueKeys(RemoveKey(es, k))
  {
    if es != [] {
      var r := RemoveKey(es, k);
      var rest := RemoveKey(es[1..], k);
      assert UniqueKeys(es[1..]) by {
        forall i, j | 0 <= i < j < |es[1..]| ensures es[1..][i].0 != es[1..][j].0 {
          assert es[1..][i] == es[i + 1] && es[1..][j] == es[j + 1];
        }
      }
      RemoveKeyUnique(es[1..], k);
      if es[0].0 != k {
        RemoveKeyContents(es[1..], k);
        forall j | 0 <= j < |rest| ensures rest[j].0 != es[0].0 {
          assert rest[j] in rest;
          var m :| 0 <= m < |es[1..]| && es[1..][m] == rest[j];
          assert es[m + 1] == rest[j];
        }
        assert r == [es[0]] + rest;
        forall i, j | 0 <= i < j < |r| ensures r[i].0 != r[j].0 {
          if i > 0 { assert r[i] == rest[i - 1] && r[j] == rest[j - 1]; }
          else { assert r[j] == rest[j - 1]; }
        }
      }
    }
  }

  /** Setting a well-formed value in a well-formed object keeps it well formed. */
  lemma SetKeyWellFormed(es: seq<Entry>, k: string, v: Value)
    requires WellFormed(Obj(es)) && WellFormed(v)
    ensures WellFormed(Obj(SetKey(es, k, v)))
  {
    SetKeyFacts(es, k, v);
    var r := SetKey(es, k, v);
    forall e | e in r ensures WellFormed(e.1) {
      var j :| 0 <= j < |r| && r[j] == e;
      if j < |es| && r[j] == es[j] { assert es[j] in es; }
    }
  }

  /** Deleting a key from a well-formed object keeps it well formed. */
  lemma RemoveKeyWellFormed(es: seq<Entry>, k: string)
    requires WellFormed(Obj(es))
    ensures WellFormed(Obj(RemoveKey(es, k)))
  {
    RemoveKeyContents(es, k);
    RemoveKeyUnique(es, k);
  }

  /** In a well-formed object every value an own key answers with is well formed. */
  lemma GetWellFormed(es: seq<Entry>, k: string)
    requires WellFormed(Obj(es)) && Get(es, k).Some?
    ensures WellFormed(Get(es, k).value)
  {
    assert es[FindKey(es, k).value] in es;
  }
}
