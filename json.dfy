/** JSON values as the request decoder hands them to the validator, tagged with
    the Python type each one becomes (None, bool, int, float, str, list, dict). */
module Json {

  /** A Python float. The decoder accepts the literals NaN, Infinity and
      -Infinity, so the non-finite values are kept apart from the finite ones;
      finite values are exact reals (no rounding is modelled). */
  datatype FloatValue = Finite(value: real) | Infinity(negative: bool) | NaN

  datatype JValue =
    | JNull
    | JBool(b: bool)
    | JInt(i: int)
    | JFloat(f: FloatValue)
    | JStr(s: string)
    | JArray(items: seq<JValue>)
    | JObject(fields: map<string, JValue>)

  /** `type(v).__name__` of the Python value a JSON value decodes to. */
  function TypeName(v: JValue): (name: string)
    ensures name == "int" <==> v.JInt?
    ensures name == "float" <==> v.JFloat?
    ensures name == "bool" <==> v.JBool?
  {
    match v
    case JNull => "NoneType"
    case JBool(_) => "bool"
    case JInt(_) => "int"
    case JFloat(_) => "float"
    case JStr(_) => "str"
    case JArray(_) => "list"
    case JObject(_) => "dict"
  }

  /** `f.is_integer()`: a finite float with no fractional part, that is, one
      whose floor and ceiling coincide. */
  predicate IsInteger(f: FloatValue)
    ensures IsInteger(f) <==> f.Finite? && f.value.Floor == -((-f.value).Floor)
  {
    f.Finite? && f.value == f.value.Floor as real
  }

  /** `(4.0).is_integer()` holds; `(4.5).is_integer()`, NaN and the
      infinities do not. */
  lemma IsIntegerExamples(negative: bool)
    ensures IsInteger(Finite(4.0))
    ensures !IsInteger(Finite(4.5)) && !IsInteger(NaN) && !IsInteger(Infinity(negative))
  {
  }

  /** Python truthiness (`bool(v)`): None, False, zero, and empty strings,
      lists and dicts are false; everything else, NaN included, is true. */
  predicate Truthy(v: JValue)
    ensures !Truthy(v) <==>
              v in {JNull, JBool(false), JInt(0), JFloat(Finite(0.0)), JStr(""), JArray([]), JObject(map[])}
  {
    match v
    case JNull => false
    case JBool(b) => b
    case JInt(i) => i != 0
    case JFloat(f) => f != Finite(0.0)
    case JStr(s) => s != []
    case JArray(items) => items != []
    case JObject(fields) => fields != map[]
  }

  /** Python's `needle in haystack` for two strings: substring containment. */
  predicate IsSubstring(needle: string, haystack: string)
    ensures IsSubstring(needle, haystack) ==> |needle| <= |haystack|
    ensures needle == [] || needle == haystack ==> IsSubstring(needle, haystack)
  {
    assert needle == [] || needle == haystack ==> OccursAt(needle, haystack, 0);
    exists k | 0 <= k <= |haystack| - |needle| :: OccursAt(needle, haystack, k)
  }

  /** A string occurs in any string built around it. */
  lemma SubstringOfConcat(a: string, needle: string, b: string)
    ensures IsSubstring(needle, a + needle + b)
  {
    assert OccursAt(needle, a + needle + b, |a|);
  }

  /** `needle` starts at offset `k` of `haystack`. */
  predicate OccursAt(needle: string, haystack: string, k: nat)
    requires k + |needle| <= |haystack|
  {
    haystack[k..k + |needle|] == needle
  }
}
