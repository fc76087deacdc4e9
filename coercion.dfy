/** The type-coercion `switch` of `updateValue`
    (components/visual-editor.tsx:219-242) with the JavaScript conversions
    `String(value)` and `Number(value)` it calls. */
module Coercion {
  import opened Outcomes
  import opened JsonValue
  import opened JsDecimal

  /** `parts.join(",")`. */
  function JoinComma(parts: seq<string>): string {
    if |parts| == 0 then ""
    else if |parts| == 1 then parts[0]
    else JoinComma(parts[..|parts| - 1]) + "," + parts[|parts| - 1]
  }

  /** `String(value)`. An array is joined with commas, a null element
      contributing the empty string; every object is "[object Object]". */
  function JsString(v: Value): string {
    match v
    case Str(s) => s
    case Num(n) => IntToString(n)
    case Bool(b) => if b then "true" else "false"
    case Null => "null"
    case Obj(_) => "[object Object]"
    case Arr(items) =>
      JoinComma(seq(|items|, i requires 0 <= i < |items| =>
        if items[i].Null? then "" else JsString(items[i])))
  }

  /** `Number(value)`; None is NaN. A non-primitive goes through its
      string form, as JavaScript's ToPrimitive does. */
  function JsNumber(v: Value): Option<int> {
    match v
    case Num(n) => Some(n)
    case Bool(b) => Some(if b then 1 else 0)
    case Null => Some(0)
    case Str(s) => StringToInt(s)
    case Obj(_) => StringToInt(JsString(v))
    case Arr(_) => StringToInt(JsString(v))
  }

  /** The converted value `updateValue` stores for the requested type.
      NaN is stored as null, JSON's rendering of it. */
  function Convert(value: Value, t: JsonType): Value {
    match t
    case StringType => Str(JsString(value))
    case NumberType => (match JsNumber(value) case Some(n) => Num(n) case None => Null)
    case BooleanType => Bool(value == Str("true"))
    case ObjectType => Obj([])
    case ArrayType => Arr([])
    case NullType => Null
  }

  // ---------------------------------------------------------------------

  /** The coercion table for the four target types whose result does not
      depend on a library conversion. */
  lemma ConvertRules(v: Value)
    ensures Convert(v, ObjectType) == Obj([])
    ensures Convert(v, ArrayType) == Arr([])
    ensures Convert(v, NullType) == Null
    ensures Convert(v, BooleanType) == Bool(true) <==> v == Str("true")
    ensures Convert(v, BooleanType) == Bool(false) <==> v != Str("true")
  {
  }

  /** The node gets the requested type tag, except that a value `Number()`
      cannot read becomes null. */
  lemma ConvertGivesRequestedType(v: Value, t: JsonType)
    ensures t != NumberType ==> ValueType(Convert(v, t)) == t
    ensures t == NumberType ==>
      ValueType(Convert(v, t)) == (if JsNumber(v).Some? then NumberType else NullType)
  {
  }

  /** A converted value never holds a duplicate key. */
  lemma ConvertWellFormed(v: Value, t: JsonType)
    ensures WellFormed(Convert(v, t))
  {
  }

  /** Retyping a number to string and back yields the number. */
  lemma NumberThroughString(n: int)
    ensures Convert(Convert(Num(n), StringType), NumberType) == Num(n)
  {
    StringToIntOfIntToString(n);
  }

  /** Retyping a boolean to string and back yields the boolean. */
  lemma BooleanThroughString(b: bool)
    ensures Convert(Convert(Bool(b), StringType), BooleanType) == Bool(b)
  {
  }

  /** Retyping keeps a string, a number and null as they are, but a boolean
      is compared with the string "true", so `true` becomes `false`. */
  lemma RetypeToOwnType(v: Value)
    ensures v.Str? || v.Num? || v.Null? ==> Convert(v, ValueType(v)) == v
    ensures Convert(Bool(true), BooleanType) == Bool(false)
  {
  }

  /** Three of JavaScript's `Number()` answers the editor meets when a
      node is retyped to number: an empty string and an empty array are 0,
      an object is NaN (stored as null). */
  lemma JsNumberSamples()
    ensures Convert(Str(""), NumberType) == Num(0)
    ensures Convert(Arr([]), NumberType) == Num(0)
    ensures Convert(Obj([]), NumberType) == Null
  {
    assert JsString(Arr([])) == "";
    var o := "[object Object]";
    assert JsString(Obj([])) == o;
    assert TrimStart(o) == o && TrimEnd(o) == o;
    assert !AllDigits(o) by { assert !IsDigit(o[0]); }
  }
}
