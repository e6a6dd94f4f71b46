/**
 * The PHP 8 values that reach the quiz engine from JSON request bodies and
 * from JSON columns cast to arrays, and the PHP operations the engine applies
 * to them: is_array, is_string, is_numeric, intval, (string), trim, the
 * offset-or-null idiom `$v[0] ?? null`, strict `===` and loose `==`.
 *
 * Strict identity `===` on these values is Dafny's structural equality `==`.
 */
module PhpValue {
  import opened Wrappers
  import Text

  datatype Value =
    | Null
    | Bool(b: bool)
    | Int(i: int)
    | Str(s: string)
    | List(items: seq<Value>)

  predicate IsArray(v: Value) { v.List? }

  predicate IsString(v: Value) { v.Str? }

  // ---------------------------------------------------------------------
  // Numeric strings (PHP 8): WS* [+-]? (DIGITS ('.' DIGITS*)? | '.' DIGITS)
  //                          ([eE] [+-]? DIGITS)? WS*

  /** The whitespace PHP skips around a numeric string: space, \t, \n, \r, \v, \f. */
  predicate IsNumericSpace(c: char) {
    c == ' ' || c == '\t' || c == '\n' || c == '\r' || c == 11 as char || c == 12 as char
  }

  /** An exact decimal number: (-1)^negative * digits * 10^exponent. */
  datatype Decimal = Decimal(negative: bool, digits: nat, exponent: int)

  /** Where the scanner is in a numeric string. */
  datatype Phase =
    | Leading     // leading whitespace, before any sign or digit
    | AfterSign   // a sign was read, a digit or '.' must follow
    | IntDigits   // inside the integer digits
    | AfterDot    // a '.' with no digits before it; a digit must follow
    | FracDigits  // after a '.' that follows or precedes digits
    | ExpMark     // after 'e' or 'E'
    | ExpSign     // after the exponent's sign
    | ExpDigits   // inside the exponent digits
    | Trailing    // trailing whitespace

  /** What the scanner has read so far. */
  datatype Acc = Acc(negative: bool, mantissa: nat, fraction: nat, expNegative: bool, exponent: nat)

  const Start := Acc(false, 0, 0, false, 0)

  function DigitOf(c: char): nat
    requires Text.IsDigit(c)
  {
    c as int - '0' as int
  }

  function AddDigit(acc: Acc, c: char): Acc
    requires Text.IsDigit(c)
  {
    acc.(mantissa := acc.mantissa * 10 + DigitOf(c))
  }

  predicate Accepting(phase: Phase) {
    phase == IntDigits || phase == FracDigits || phase == ExpDigits || phase == Trailing
  }

  function Finish(acc: Acc): Decimal {
    var magnitude: int := acc.exponent;
    var e := if acc.expNegative then -magnitude else magnitude;
    Decimal(acc.negative, acc.mantissa, e - acc.fraction)
  }

  /** PHP 8's numeric-string grammar,
        WS* [+-]? (DIGITS ('.' DIGITS*)? | '.' DIGITS) ([eE] [+-]? DIGITS)? WS*,
      read one character at a time. */
  function Scan(s: string, phase: Phase, acc: Acc): Option<Decimal>
    decreases |s|
  {
    if s == [] then (if Accepting(phase) then Some(Finish(acc)) else None)
    else
      var c := s[0];
      var rest := s[1..];
      match phase
      case Leading =>
        if IsNumericSpace(c) then Scan(rest, Leading, acc)
        else if c == '-' || c == '+' then Scan(rest, AfterSign, acc.(negative := c == '-'))
        else if Text.IsDigit(c) then Scan(rest, IntDigits, AddDigit(acc, c))
        else if c == '.' then Scan(rest, AfterDot, acc)
        else None
      case AfterSign =>
        if Text.IsDigit(c) then Scan(rest, IntDigits, AddDigit(acc, c))
        else if c == '.' then Scan(rest, AfterDot, acc)
        else None
      case IntDigits =>
        if Text.IsDigit(c) then Scan(rest, IntDigits, AddDigit(acc, c))
        else if c == '.' then Scan(rest, FracDigits, acc)
        else if c == 'e' || c == 'E' then Scan(rest, ExpMark, acc)
        else if IsNumericSpace(c) then Scan(rest, Trailing, acc)
        else None
      case AfterDot =>
        if Text.IsDigit(c) then Scan(rest, FracDigits, AddDigit(acc, c).(fraction := acc.fraction + 1))
        else None
      case FracDigits =>
        if Text.IsDigit(c) then Scan(rest, FracDigits, AddDigit(acc, c).(fraction := acc.fraction + 1))
        else if c == 'e' || c == 'E' then Scan(rest, ExpMark, acc)
        else if IsNumericSpace(c) then Scan(rest, Trailing, acc)
        else None
      case ExpMark =>
        if c == '-' || c == '+' then Scan(rest, ExpSign, acc.(expNegative := c == '-'))
        else if Text.IsDigit(c) then Scan(rest, ExpDigits, acc.(exponent := DigitOf(c)))
        else None
      case ExpSign =>
        if Text.IsDigit(c) then Scan(rest, ExpDigits, acc.(exponent := DigitOf(c)))
        else None
      case ExpDigits =>
        if Text.IsDigit(c) then Scan(rest, ExpDigits, acc.(exponent := acc.exponent * 10 + DigitOf(c)))
        else if IsNumericSpace(c) then Scan(rest, Trailing, acc)
        else None
      case Trailing =>
        if IsNumericSpace(c) then Scan(rest, Trailing, acc)
        else None
  }

  /** The number a numeric string denotes, or None when the string is not numeric. */
  function ParseNumeric(s: string): Option<Decimal> {
    Scan(s, Leading, Start)
  }

  function IntDecimal(i: int): Decimal {
    Decimal(i < 0, if i < 0 then -i else i, 0)
  }

  /** The number a value denotes when PHP treats it as numeric: ints and numeric strings. */
  function NumberOf(v: Value): Option<Decimal> {
    match v
    case Int(i) => Some(IntDecimal(i))
    case Str(s) => ParseNumeric(s)
    case _ => None
  }

  /** is_numeric (floats are not part of this model). */
  predicate IsNumeric(v: Value) {
    NumberOf(v).Some?
  }

  function Pow10(k: nat): (p: nat)
    ensures p >= 1
  {
    if k == 0 then 1 else 10 * Pow10(k - 1)
  }

  /** The signed integer d * 10^(exponent - m), for a common exponent m. */
  function Scaled(d: Decimal, m: int): int
    requires m <= d.exponent
  {
    (if d.negative then -1 else 1) * d.digits * Pow10(d.exponent - m)
  }

  /** Two decimals denote the same number (so -0 equals 0, and 1.0 equals 1). */
  predicate SameNumber(x: Decimal, y: Decimal) {
    var m := if x.exponent <= y.exponent then x.exponent else y.exponent;
    Scaled(x, m) == Scaled(y, m)
  }

  /** Conversion of a number to int, truncating toward zero. */
  function Truncate(d: Decimal): int {
    var magnitude := if d.exponent >= 0 then d.digits * Pow10(d.exponent) else d.digits / Pow10(-d.exponent);
    if d.negative then -magnitude else magnitude
  }

  /** intval on a numeric value: the number truncated toward zero. */
  function IntVal(v: Value): int
    requires IsNumeric(v)
  {
    Truncate(NumberOf(v).value)
  }

  /** intval leaves ints alone. */
  lemma IntValOfInt(i: int)
    ensures IsNumeric(Int(i)) && IntVal(Int(i)) == i
  {
  }

  /** (string)$i is a numeric string, and reading it back gives i: PHP's int-string round trip. */
  lemma IntToStringIsNumeric(i: int)
    ensures ParseNumeric(Text.IntToString(i)) == Some(IntDecimal(i))
    ensures IsNumeric(Str(Text.IntToString(i))) && IntVal(Str(Text.IntToString(i))) == i
  {
    var n: nat := if i < 0 then -i else i;
    var ds := Text.NatToString(n);
    Text.NatToStringRoundTrip(n);
    ScanDigits(ds, [], Start.(negative := i < 0));
    assert ds + [] == ds;
    if i < 0 {
      var s := "-" + ds;
      assert Text.IntToString(i) == s;
      assert s[0] == '-' && s[1..] == ds;
      assert Scan(s, Leading, Start) == Scan(ds, AfterSign, Start.(negative := true));
      assert Scan(ds, AfterSign, Start.(negative := true)) == Scan(ds, IntDigits, Start.(negative := true));
    } else {
      assert Text.IntToString(i) == ds;
      assert Scan(ds, Leading, Start) == Scan(ds, IntDigits, Start);
    }
    assert Pow10(0) == 1;
  }

  /** One more digit in the integer part is shifted into the mantissa. */
  lemma ScanDigitStep(c: char, rest: string, acc: Acc)
    requires Text.IsDigit(c)
    ensures Scan([c] + rest, IntDigits, acc) == Scan(rest, IntDigits, AddDigit(acc, c))
  {
    assert ([c] + rest)[0] == c && ([c] + rest)[1..] == rest;
  }

  /** Shifting the mantissa by all digits of `p` but the last, then by the last, is shifting it by `p`. */
  lemma MantissaShift(m0: int, p: string)
    requires p != [] && Text.AllDigits(p)
    ensures Text.AllDigits(p[..|p| - 1]) && Text.IsDigit(p[|p| - 1])
    ensures (m0 * Pow10(|p| - 1) + Text.DigitsValue(p[..|p| - 1])) * 10 + DigitOf(p[|p| - 1])
         == m0 * Pow10(|p|) + Text.DigitsValue(p)
  {
    var init := p[..|p| - 1];
    assert Text.AllDigits(init) by {
      forall i | 0 <= i < |init| ensures Text.IsDigit(init[i]) {
        assert init[i] == p[i];
      }
    }
    var pw, dv, d := Pow10(|init|), Text.DigitsValue(init), DigitOf(p[|p| - 1]);
    assert Text.DigitsValue(p) == 10 * dv + d;
    assert Pow10(|p|) == 10 * pw;
    ShiftByTen(m0, pw);
  }

  lemma ShiftByTen(m: int, p: int)
    ensures m * (10 * p) == (m * p) * 10
  {
  }

  /** Reading a run of digits inside the integer part shifts them into the mantissa. */
  lemma {:induction false} ScanDigits(p: string, rest: string, acc: Acc)
    requires Text.AllDigits(p)
    ensures Scan(p + rest, IntDigits, acc) ==
      Scan(rest, IntDigits, acc.(mantissa := acc.mantissa * Pow10(|p|) + Text.DigitsValue(p)))
  {
    if p == [] {
      assert p + rest == rest;
    } else {
      var init := p[..|p| - 1];
      var c := p[|p| - 1];
      assert p == init + [c];
      assert p + rest == init + ([c] + rest);
      MantissaShift(acc.mantissa, p);
      ScanDigits(init, [c] + rest, acc);
      var m := acc.mantissa * Pow10(|init|) + Text.DigitsValue(init);
      assert AddDigit(acc.(mantissa := m), c)
          == acc.(mantissa := acc.mantissa * Pow10(|p|) + Text.DigitsValue(p));
      ScanDigitStep(c, rest, acc.(mantissa := m));
    }
  }

  /** A leading digit starts the integer part, whatever precedes it. */
  lemma LeadingDigitParse(s: string, acc: Acc)
    requires s != [] && Text.IsDigit(s[0]) && acc.mantissa == 0
    ensures Scan(s, Leading, acc) == Scan(s, IntDigits, acc)
    ensures Scan(s, AfterSign, acc) == Scan(s, IntDigits, acc)
  {
  }

  /** Leading whitespace does not change whether, or what, a string is as a number. */
  lemma LeadingSpaceParse(s: string)
    requires s != [] && IsNumericSpace(s[0])
    ensures ParseNumeric(s) == ParseNumeric(s[1..])
  {
  }

  // ---------------------------------------------------------------------
  // Conversions

  /** Boolean conversion, used by `==` against bool and null. */
  function ToBool(v: Value): bool {
    match v
    case Null => false
    case Bool(b) => b
    case Int(i) => i != 0
    case Str(s) => s != "" && s != "0"
    case List(xs) => |xs| > 0
  }

  /** The (string) cast; an array becomes "Array" (PHP 8 only warns). */
  function ToPhpString(v: Value): string {
    match v
    case Null => ""
    case Bool(b) => if b then "1" else ""
    case Int(i) => Text.IntToString(i)
    case Str(s) => s
    case List(_) => "Array"
  }

  /** The characters trim() removes by default: space, \t, \n, \r, \0 and \v. */
  predicate IsTrimChar(c: char) {
    c == ' ' || c == '\t' || c == '\n' || c == '\r' || c == '\0' || c == 11 as char
  }

  function TrimLeft(s: string): string {
    if s != [] && IsTrimChar(s[0]) then TrimLeft(s[1..]) else s
  }

  function TrimRight(s: string): string {
    if s != [] && IsTrimChar(s[|s| - 1]) then TrimRight(s[..|s| - 1]) else s
  }

  /** trim($s) with the default character list. */
  function Trim(s: string): (r: string)
    ensures r == [] || (!IsTrimChar(r[0]) && !IsTrimChar(r[|r| - 1]))
  {
    TrimEnds(s);
    TrimEnds(TrimLeft(s));
    TrimRightKeepsFront(TrimLeft(s));
    TrimRight(TrimLeft(s))
  }

  lemma {:induction false} TrimEnds(s: string)
    ensures TrimLeft(s) == [] || !IsTrimChar(TrimLeft(s)[0])
    ensures TrimRight(s) == [] || !IsTrimChar(TrimRight(s)[|TrimRight(s)| - 1])
  {
    if s != [] && IsTrimChar(s[0]) {
      TrimEnds(s[1..]);
    }
    if s != [] && IsTrimChar(s[|s| - 1]) {
      TrimEnds(s[..|s| - 1]);
    }
  }

  lemma {:induction false} TrimRightKeepsFront(s: string)
    ensures TrimRight(s) == [] || TrimRight(s)[0] == s[0]
  {
    if s != [] && IsTrimChar(s[|s| - 1]) {
      TrimRightKeepsFront(s[..|s| - 1]);
    }
  }

  lemma {:induction false} TrimLeftEmpty(s: string)
    ensures TrimLeft(s) == [] <==> forall k :: 0 <= k < |s| ==> IsTrimChar(s[k])
  {
    if s != [] && IsTrimChar(s[0]) {
      TrimLeftEmpty(s[1..]);
      assert forall k :: 1 <= k < |s| ==> s[k] == s[1..][k - 1];
    }
  }

  lemma {:induction false} TrimRightEmptyFront(s: string)
    requires s != [] && TrimRight(s) == []
    ensures IsTrimChar(s[0])
  {
    if s[..|s| - 1] != [] {
      TrimRightEmptyFront(s[..|s| - 1]);
    }
  }

  /** trim() empties exactly the strings made only of trimmed characters. */
  lemma TrimEmpty(s: string)
    ensures Trim(s) == "" <==> forall k :: 0 <= k < |s| ==> IsTrimChar(s[k])
  {
    TrimLeftEmpty(s);
    if TrimLeft(s) != [] {
      TrimEnds(s);
      if TrimRight(TrimLeft(s)) == [] {
        TrimRightEmptyFront(TrimLeft(s));
      }
    }
  }

  // ---------------------------------------------------------------------
  // Offsets

  /** `$v[0] ?? null`: the first element of an array, the first character of a
      string (string offset), and null for anything else or when absent. */
  function Offset0(v: Value): Value {
    match v
    case List(xs) => if |xs| > 0 then xs[0] else Null
    case Str(s) => if |s| > 0 then Str([s[0]]) else Null
    case _ => Null
  }

  /** `is_array($v) ? ($v[0] ?? null) : $v`: one level of unwrapping. */
  function Unwrap(v: Value): (r: Value)
    ensures !v.List? ==> r == v
  {
    if v.List? then Offset0(v) else v
  }

  /** isset($v[$k]) for an integer key. Negative string offsets count from the end. */
  predicate Isset(v: Value, k: int) {
    match v
    case List(xs) => 0 <= k < |xs| && xs[k] != Null
    case Str(s) => -|s| <= k < |s|
    case _ => false
  }

  /** $v[$k] where isset($v[$k]) holds. */
  function At(v: Value, k: int): Value
    requires Isset(v, k)
  {
    match v
    case List(xs) => xs[k]
    case Str(s) => Str([if k >= 0 then s[k] else s[|s| + k]])
  }

  // ---------------------------------------------------------------------
  // Loose comparison `==` (PHP 8 rules)

  /** `$a == $b`. Against a bool or null both sides are compared as bools
      (except that null equals a string only when the string is empty); arrays
      equal only arrays, element by element; two numeric operands compare as
      numbers, and otherwise both sides compare as strings. */
  function LooseEq(a: Value, b: Value): bool
    decreases a, b
  {
    if a.Bool? then a.b == ToBool(b)
    else if b.Bool? then ToBool(a) == b.b
    else if a.Null? then (if b.Str? then b.s == "" else !ToBool(b))
    else if b.Null? then (if a.Str? then a.s == "" else !ToBool(a))
    else if a.List? || b.List? then
      a.List? && b.List? && |a.items| == |b.items| &&
      forall i :: 0 <= i < |a.items| ==> LooseEq(a.items[i], b.items[i])
    else if IsNumeric(a) && IsNumeric(b) then SameNumber(NumberOf(a).value, NumberOf(b).value)
    else ToPhpString(a) == ToPhpString(b)
  }

  /** Between two ints `==` is numeric equality. */
  lemma LooseEqInts(x: int, y: int)
    ensures LooseEq(Int(x), Int(y)) <==> x == y
  {
  }

  /** `==` does not depend on the order of its operands. */
  lemma {:induction false} LooseEqSymmetric(a: Value, b: Value)
    ensures LooseEq(a, b) == LooseEq(b, a)
    decreases a, b
  {
    if a.List? && b.List? && |a.items| == |b.items| {
      forall i | 0 <= i < |a.items|
        ensures LooseEq(a.items[i], b.items[i]) == LooseEq(b.items[i], a.items[i])
      {
        LooseEqSymmetric(a.items[i], b.items[i]);
      }
    }
  }

  /** Every value is loosely equal to itself, so `===` implies `==`. */
  lemma {:induction false} LooseEqReflexive(a: Value)
    ensures LooseEq(a, a)
    decreases a
  {
    if a.List? {
      forall i | 0 <= i < |a.items|
        ensures LooseEq(a.items[i], a.items[i])
      {
        LooseEqReflexive(a.items[i]);
      }
    }
  }

  /** `==` is not transitive: null equals 0 and "", but 0 does not equal "". */
  lemma LooseEqNotTransitive()
    ensures LooseEq(Int(0), Null) && LooseEq(Null, Str(""))
    ensures !LooseEq(Int(0), Str(""))
  {
    assert ParseNumeric("") == None;
    assert Text.IntToString(0) == "0";
  }

  // ---------------------------------------------------------------------
  // Concrete numeric strings

  lemma DecimalStringExample()
    ensures IsNumeric(Str("2.5")) && IntVal(Str("2.5")) == 2
  {
    assert ParseNumeric("2.5") == Some(Decimal(false, 25, -1));
    assert Pow10(1) == 10;
  }

  lemma PaddedStringExample()
    ensures IsNumeric(Str(" 7")) && IntVal(Str(" 7")) == 7
  {
    assert ParseNumeric(" 7") == Some(Decimal(false, 7, 0));
    assert Pow10(0) == 1;
  }

  lemma ExponentStringExample()
    ensures IsNumeric(Str("1e3")) && IntVal(Str("1e3")) == 1000
  {
    assert ParseNumeric("1e3") == Some(Decimal(false, 1, 3));
    assert Pow10(3) == 1000;
  }

  /** Two numeric strings compare as numbers: "10" == "1e1" although the strings differ. */
  lemma NumericStringsLooseEqual(x: string, y: string)
    requires x == "10" && y == "1e1"
    ensures LooseEq(Str(x), Str(y)) && x != y
  {
    assert ParseNumeric("10") == Some(Decimal(false, 10, 0));
    assert ParseNumeric("1e1") == Some(Decimal(false, 1, 1));
    assert Pow10(1) == 10 && Pow10(0) == 1;
    assert SameNumber(Decimal(false, 10, 0), Decimal(false, 1, 1));
    assert NumberOf(Str(x)) == Some(Decimal(false, 10, 0));
    assert NumberOf(Str(y)) == Some(Decimal(false, 1, 1));
    assert x[1] != y[1];
  }

  /** A string that starts with anything but whitespace, a sign, a digit or a dot is not numeric. */
  lemma NotNumericStart(s: string)
    requires s != [] && !IsNumericSpace(s[0]) && !Text.IsDigit(s[0])
    requires s[0] != '-' && s[0] != '+' && s[0] != '.'
    ensures !IsNumeric(Str(s))
  {
  }

  lemma NotNumericWord()
    ensures !IsNumeric(Str("abc"))
  {
    NotNumericStart("abc");
  }

  lemma NotNumericEmptyOrDot()
    ensures !IsNumeric(Str("")) && !IsNumeric(Str(".")) && !IsNumeric(Str("1e"))
  {
    assert ParseNumeric("1e") == None;
  }

  /** "1.0" == 1 holds numerically. */
  lemma NumericStringEqualsInt()
    ensures LooseEq(Str("1.0"), Int(1))
  {
    assert ParseNumeric("1.0") == Some(Decimal(false, 10, -1));
    assert Pow10(1) == 10 && Pow10(0) == 1;
    assert SameNumber(Decimal(false, 10, -1), IntDecimal(1));
  }

  /** "abc" == 0 is false in PHP 8: the int is compared as the string "0". */
  lemma WordNotEqualZero()
    ensures !LooseEq(Str("abc"), Int(0))
  {
    NotNumericWord();
    assert Text.IntToString(0) == "0";
  }
}
