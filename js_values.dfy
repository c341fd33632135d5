/** JavaScript values and built-ins that the journal code relies on, stated exactly:
    optional values, what `JSON.parse` can hand back where an array is expected,
    `String.prototype.trim`, and `Math.round` on a non-negative ratio. */
module JsValues {

  datatype Option<T> = None | Some(value: T)

  /** A field the code expects to hold an array: an array; `null`, which
      `JSON.stringify` writes as the text `null`; `undefined`, a field that is
      missing, which binds as SQL NULL; or some other non-array value such as
      `{}` (truthy, no `length`, no array methods). `null` and `undefined` are
      both falsy. */
  datatype JsList<T> = List(elems: seq<T>) | Null | Undefined | NonList
  {
    /** `null` or `undefined`: the falsy values `?.` and `||` step over. */
    predicate Nullish() {
      Null? || Undefined?
    }
  }

  // ---------------------------------------------------------------------------
  // String.prototype.trim
  // ---------------------------------------------------------------------------

  /** The characters `trim` removes: ECMAScript WhiteSpace (TAB, VT, FF, SP,
      NBSP, ZWNBSP and the Unicode "Zs" category) and LineTerminator (LF, CR,
      LS, PS). */
  predicate IsJsWhitespace(c: char) {
    || c == '\U{9}' || c == '\U{B}' || c == '\U{C}' || c == ' '
    || c == '\U{A0}' || c == '\U{FEFF}' || c == '\U{1680}'
    || ('\U{2000}' <= c <= '\U{200A}') || c == '\U{202F}' || c == '\U{205F}' || c == '\U{3000}'
    || c == '\U{A}' || c == '\U{D}' || c == '\U{2028}' || c == '\U{2029}'
  }

  /** Drops the leading whitespace of `s`. */
  function TrimStart(s: string): (r: string)
    ensures |r| <= |s| && r == s[|s| - |r|..]
    ensures forall i :: 0 <= i < |s| - |r| ==> IsJsWhitespace(s[i])
    ensures r != [] ==> !IsJsWhitespace(r[0])
  {
    if s != [] && IsJsWhitespace(s[0]) then TrimStart(s[1..]) else s
  }

  /** Drops the trailing whitespace of `s`. */
  function TrimEnd(s: string): (r: string)
    ensures |r| <= |s| && r == s[..|r|]
    ensures forall i :: |r| <= i < |s| ==> IsJsWhitespace(s[i])
    ensures r != [] ==> !IsJsWhitespace(r[|r| - 1])
  {
    if s != [] && IsJsWhitespace(s[|s| - 1]) then TrimEnd(s[..|s| - 1]) else s
  }

  /** `trim`: whitespace dropped from both ends. */
  function Trim(s: string): string {
    TrimEnd(TrimStart(s))
  }

  /** Nothing is left once the string is trimmed: the test every "has
      content" check in the app uses. */
  predicate IsBlank(s: string) {
    Trim(s) == ""
  }

  /** A string trims to the empty string exactly when every character of it is
      whitespace. */
  lemma {:induction false} BlankIffAllWhitespace(s: string)
    ensures IsBlank(s) <==> forall i :: 0 <= i < |s| ==> IsJsWhitespace(s[i])
  {
    var t := TrimStart(s);
    if t == [] {
      assert Trim(s) == "";
    } else {
      assert !IsJsWhitespace(t[0]);
      assert s[|s| - |t|] == t[0];
      assert TrimEnd(t) != [];
    }
  }

  /** The empty string is blank; a string with a non-whitespace character is not. */
  lemma NonWhitespaceIsNotBlank(s: string, i: nat)
    requires i < |s| && !IsJsWhitespace(s[i])
    ensures !IsBlank(s) && s != ""
  {
    BlankIffAllWhitespace(s);
  }

  // ---------------------------------------------------------------------------
  // Math.round
  // ---------------------------------------------------------------------------

  /** `Math.round(num / den)` for a non-negative ratio: the nearest integer, a
      tie (exact half) rounded upward. */
  function RoundHalfUp(num: nat, den: nat): (r: nat)
    requires den > 0
    ensures 2 * r * den <= 2 * num + den < 2 * (r + 1) * den
  {
    var q := (2 * num + den) / (2 * den);
    assert (2 * num + den) == (2 * den) * q + (2 * num + den) % (2 * den);
    q
  }

  /** `whole > 0 ? Math.round(part / whole * 100) : 0`, the percentage every
      completion rate of the app is written as. */
  function Percent(part: nat, whole: nat): (r: nat)
    ensures whole == 0 ==> r == 0
    ensures whole > 0 ==> 2 * r * whole <= 200 * part + whole < 2 * (r + 1) * whole
  {
    if whole == 0 then 0 else RoundHalfUp(100 * part, whole)
  }

  /** A share never rounds above 100 percent, and it shows exactly 100 when
      at least 99.5 percent of the whole is done. */
  lemma PercentBounds(part: nat, whole: nat)
    requires part <= whole
    ensures Percent(part, whole) <= 100
    ensures whole > 0 ==> (Percent(part, whole) == 100 <==> 200 * part >= 199 * whole)
  {
    var r := Percent(part, whole);
    if whole > 0 {
      assert (2 * r) * whole <= 201 * whole;
      CancelFactor(2 * r, 201, whole);
      if 200 * part >= 199 * whole {
        assert 200 * whole < (2 * (r + 1)) * whole;
        CancelFactorStrict(200, 2 * (r + 1), whole);
      }
    }
  }

  /** Nothing done is 0 percent and everything done is 100 percent. */
  lemma PercentExtremes(whole: nat)
    requires whole > 0
    ensures Percent(0, whole) == 0 && Percent(whole, whole) == 100
  {
    var r := Percent(0, whole);
    assert (2 * r) * whole <= 1 * whole;
    CancelFactor(2 * r, 1, whole);
    PercentBounds(whole, whole);
  }

  lemma CancelFactor(a: int, b: int, c: int)
    requires c > 0 && a * c <= b * c
    ensures a <= b
  {
  }

  lemma CancelFactorStrict(a: int, b: int, c: int)
    requires c > 0 && a * c < b * c
    ensures a < b
  {
  }
}
