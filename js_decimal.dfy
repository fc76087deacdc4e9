/** Decimal text <-> integer, as far as the editor relies on JavaScript's
    conversions: `index.toString()` for array path steps, an array's
    canonical index keys, and `Number(text)` restricted to integers. */
module JsDecimal {
  import opened Outcomes

  predicate IsDigit(c: char) { '0' <= c <= '9' }

  predicate AllDigits(s: string) {
    forall i :: 0 <= i < |s| ==> IsDigit(s[i])
  }

  function DigitChar(d: nat): (c: char)
    requires d < 10
    ensures IsDigit(c)
  {
    "0123456789"[d]
  }

  function DigitValue(c: char): (d: nat)
    requires IsDigit(c)
    ensures d < 10 && DigitChar(d) == c
  {
    (c as int - '0' as int) as nat
  }

  /** The value of a string of decimal digits, most significant first. */
  function DigitsValue(s: string): nat
    requires AllDigits(s)
  {
    if s == [] then 0
    else DigitsValue(s[..|s| - 1]) * 10 + DigitValue(s[|s| - 1])
  }

  /** `n.toString()` for a non-negative integer. */
  function NatToString(n: nat): (s: string)
    ensures |s| > 0 && AllDigits(s)
    ensures |s| > 1 ==> s[0] != '0'
  {
    if n < 10 then [DigitChar(n)]
    else NatToString(n / 10) + [DigitChar(n % 10)]
  }

  /** `n.toString()` / `String(n)` for an integer. */
  function IntToString(n: int): string {
    if n < 0 then "-" + NatToString(-n) else NatToString(n)
  }

  /** The integer an array index key denotes, when it is canonical
      (the form `index.toString()` produces); otherwise None, so that
      such a key names no element. */
  function ArrayIndex(k: string): Option<nat> {
    if |k| > 0 && AllDigits(k) && (|k| == 1 || k[0] != '0') then Some(DigitsValue(k))
    else None
  }

  /** The white space `Number()` strips from both ends of its argument
      (the ASCII ones plus the common Unicode ones). */
  predicate IsJsWhitespace(c: char) {
    c == ' ' || c == '\t' || c == '\n' || c == '\r' || c == '\U{000B}' || c == '\U{000C}'
    || c == '\U{00A0}' || c == '\U{FEFF}' || c == '\U{2028}' || c == '\U{2029}'
  }

  function TrimStart(s: string): (r: string)
    ensures |r| <= |s|
    ensures r != [] ==> !IsJsWhitespace(r[0])
  {
    if s != [] && IsJsWhitespace(s[0]) then TrimStart(s[1..]) else s
  }

  function TrimEnd(s: string): (r: string)
    ensures |r| <= |s|
    ensures r != [] ==> !IsJsWhitespace(r[|r| - 1])
  {
    if s != [] && IsJsWhitespace(s[|s| - 1]) then TrimEnd(s[..|s| - 1]) else s
  }

  /** `Number(text)` when the trimmed text is empty (0) or an optionally
      signed run of decimal digits; None stands for every other text,
      NaN included (see README for the notations left out). */
  function StringToInt(text: string): Option<int> {
    var t := TrimEnd(TrimStart(text));
    if t == [] then Some(0)
    else if t[0] == '-' && |t| > 1 && AllDigits(t[1..]) then Some(-(DigitsValue(t[1..]) as int))
    else if t[0] == '+' && |t| > 1 && AllDigits(t[1..]) then Some(DigitsValue(t[1..]))
    else if AllDigits(t) then Some(DigitsValue(t))
    else None
  }

  // ---------------------------------------------------------------------

  /** Reading back what `toString` wrote gives the number again. */
  lemma {:induction false} DigitsValueOfNatToString(n: nat)
    ensures DigitsValue(NatToString(n)) == n
  {
    var s := NatToString(n);
    if n >= 10 {
      DigitsValueOfNatToString(n / 10);
      assert s[..|s| - 1] == NatToString(n / 10);
    }
  }

  lemma {:induction false} LeadingNonZeroPositive(s: string)
    requires |s| > 0 && AllDigits(s) && s[0] != '0'
    ensures DigitsValue(s) >= 1
  {
    if |s| > 1 {
      LeadingNonZeroPositive(s[..|s| - 1]);
    }
  }

  /** Canonical index keys are exactly the strings `toString` writes. */
  lemma {:induction false} ArrayIndexCanonical(k: string)
    requires ArrayIndex(k).Some?
    ensures NatToString(ArrayIndex(k).value) == k
  {
    var n := DigitsValue(k);
    var init := k[..|k| - 1];
    if |k| > 1 {
      LeadingNonZeroPositive(init);
      assert ArrayIndex(init) == Some(DigitsValue(init));
      ArrayIndexCanonical(init);
      assert n / 10 == DigitsValue(init) && n % 10 == DigitValue(k[|k| - 1]);
      assert k == init + [k[|k| - 1]];
    } else {
      assert init == [];
      assert DigitsValue(init) == 0;
      assert n == DigitsValue(init) * 10 + DigitValue(k[|k| - 1]);
      assert k == [k[0]];
    }
  }

  /** A path step built by `index.toString()` (visual-editor.tsx:365) names
      element `index`, and no other key names it. */
  lemma ArrayIndexRoundTrip(i: nat, k: string)
    ensures ArrayIndex(NatToString(i)) == Some(i)
    ensures ArrayIndex(k) == Some(i) ==> k == NatToString(i)
  {
    DigitsValueOfNatToString(i);
    if ArrayIndex(k).Some? {
      ArrayIndexCanonical(k);
    }
  }

  /** Two different keys never name the same array element. */
  lemma ArrayIndexInjective(k: string)
    requires ArrayIndex(k).Some?
    ensures forall k' :: k' != k && ArrayIndex(k').Some? ==> ArrayIndex(k').value != ArrayIndex(k).value
  {
    forall k' | k' != k && ArrayIndex(k').Some?
      ensures ArrayIndex(k').value != ArrayIndex(k).value
    {
      ArrayIndexRoundTrip(ArrayIndex(k).value, k);
      ArrayIndexRoundTrip(ArrayIndex(k').value, k');
    }
  }

  lemma TrimDigitsNoOp(s: string)
    requires |s| > 0 && !IsJsWhitespace(s[0]) && !IsJsWhitespace(s[|s| - 1])
    ensures TrimEnd(TrimStart(s)) == s
  {
  }

  /** `Number()` reads a run of digits. */
  lemma StringToIntOfDigits(d: string)
    requires |d| > 0 && AllDigits(d)
    ensures StringToInt(d) == Some(DigitsValue(d) as int)
  {
    assert IsDigit(d[0]) && IsDigit(d[|d| - 1]);
    TrimDigitsNoOp(d);
    assert TrimEnd(TrimStart(d)) == d;
    assert d[0] != '-' && d[0] != '+';
  }

  /** `Number()` reads a minus sign before a run of digits. */
  lemma StringToIntOfNegatedDigits(m: string)
    requires |m| > 1 && m[0] == '-' && AllDigits(m[1..])
    ensures StringToInt(m) == Some(-(DigitsValue(m[1..]) as int))
  {
    assert IsDigit(m[1..][|m| - 2]);
    TrimDigitsNoOp(m);
  }

  /** `Number(String(n))` is `n` for every integer. */
  lemma StringToIntOfIntToString(n: int)
    ensures StringToInt(IntToString(n)) == Some(n)
  {
    var d := NatToString(if n < 0 then -n else n);
    DigitsValueOfNatToString(if n < 0 then -n else n);
    if n < 0 {
      assert IntToString(n)[1..] == d;
      StringToIntOfNegatedDigits(IntToString(n));
    } else {
      StringToIntOfDigits(d);
    }
  }
}
