/**
 * The Laravel validation rules the request handlers apply to PHP values
 * decoded from a JSON body.
 */
module Rules {
  import opened Wrappers
  import opened PhpValue
  import Text

  /** A string that trim() empties. The validator checks such a value
      against `required` and the other implicit rules only: `string`,
      `integer`, `numeric`, `array`, `boolean`, `in`, `url`, `min` and `max`
      all let it through. */
  predicate Blank(v: Value) {
    v.Str? && Trim(v.s) == ""
  }

  /** The blank strings are exactly the strings of spaces, tabs, line
      breaks, NULs and vertical tabs, the empty string included. */
  lemma BlankStrings(s: string)
    ensures Blank(Str(s)) <==> forall k :: 0 <= k < |s| ==> IsTrimChar(s[k])
    ensures Blank(Str("")) && Blank(Str(" "))
    ensures s != [] && !IsTrimChar(s[0]) ==> !Blank(Str(s))
  {
    TrimEmpty(s);
    TrimEmpty(" ");
  }

  /** `required`: not null, not a blank string, not an empty array. */
  predicate Required(v: Value) {
    !v.Null? && !Blank(v) && !(v.List? && v.items == [])
  }

  /** `integer`, and the integer it reads: an int, or a string that is the
      decimal text of an int. */
  function IntegerRule(v: Value): (r: Option<int>)
    ensures v.Int? ==> r == Some(v.i)
    ensures r.Some? ==> IsNumeric(v) && IntVal(v) == r.value
    ensures v.Str? && r.Some? ==> v.s == Text.IntToString(r.value)
    ensures v.Null? || v.Bool? || v.List? ==> r.None?
  {
    match v
    case Int(n) => IntValOfInt(n); Some(n)
    case Str(s) => if IsNumeric(v) && s == Text.IntToString(IntVal(v)) then Some(IntVal(v)) else None
    case _ => None
  }

  /** `integer|min:1`. */
  predicate PositiveInteger(v: Value) {
    IntegerRule(v).Some? && IntegerRule(v).value >= 1
  }

  /** No blank string passes `integer`: the text of an integer starts with a
      digit or a minus sign. */
  lemma IntegerNotBlank(v: Value)
    ensures IntegerRule(v).Some? ==> !Blank(v)
  {
    if v.Str? && IntegerRule(v).Some? {
      BlankStrings(v.s);
    }
  }

  /** The integer an integer column gives back after the handler wrote a
      value that passed `integer` (or was skipped as blank): the integer the
      rule read, and for a blank string the 0 that the model's `integer`
      cast makes of it. */
  function StoredInteger(v: Value): (r: int)
    requires Blank(v) || IntegerRule(v).Some?
    ensures IntegerRule(v).Some? ==> r == IntegerRule(v).value
    ensures Blank(v) ==> r == 0
  {
    IntegerNotBlank(v);
    if Blank(v) then 0 else IntegerRule(v).value
  }

  /** `boolean`: strictly one of true, false, 0, 1, "0" and "1". */
  predicate BooleanRule(v: Value) {
    v == Bool(true) || v == Bool(false) || v == Int(0) || v == Int(1) || v == Str("0") || v == Str("1")
  }

  /** `$request->boolean(key, false)` for an absent key or a value that passed
      `boolean` or was skipped as blank: FILTER_VALIDATE_BOOLEAN reads true,
      1 and "1" as true and a blank string as false, so the flag is PHP's
      truthiness of a value that is not blank. */
  function RequestBoolean(v: Option<Value>): (r: bool)
    requires v.None? || BooleanRule(v.value) || Blank(v.value)
    ensures r <==> v.Some? && !Blank(v.value) && ToBool(v.value)
  {
    v == Some(Bool(true)) || v == Some(Int(1)) || v == Some(Str("1"))
  }
}
