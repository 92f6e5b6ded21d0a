/**
  The slice of JavaScript's value semantics the module depends on.

  Numbers are exact rationals extended with NaN and the two infinities;
  rounding to binary64 and the sign of zero are not modelled. `Value` is the
  union of the values a parameter or an action option can carry.
 */
module Js {
  import opened Wrappers
  import Text

  datatype Num = Finite(r: real) | NaN | Inf(positive: bool)

  datatype Value = Number(n: Num) | Str(s: string) | Bool(b: bool)

  /** `Number(undefined)` and every comparison against `undefined` behave like NaN. */
  function OrNaN(n: Option<Num>): Num {
    match n
    case Some(x) => x
    case None => NaN
  }

  /** `if (x)` on a number: false for 0 and NaN and for a missing field. */
  predicate Truthy(n: Option<Num>) {
    n.Some? && match n.value
      case Finite(r) => r != 0.0
      case NaN => false
      case Inf(_) => true
  }

  /** `a < b` on numbers; every comparison with NaN is false. */
  predicate Less(a: Num, b: Num) {
    match (a, b)
    case (Finite(x), Finite(y)) => x < y
    case (Inf(p), Inf(q)) => !p && q
    case (Inf(p), Finite(_)) => !p
    case (Finite(_), Inf(q)) => q
    case _ => false
  }

  /** `a > b` on numbers. */
  predicate Greater(a: Num, b: Num) {
    Less(b, a)
  }

  /** `a === b` on numbers: NaN equals nothing, not even itself. */
  predicate SameNumber(a: Num, b: Num) {
    !a.NaN? && !b.NaN? && a == b
  }

  /** `<` is a strict order: irreflexive and asymmetric, NaN included. */
  lemma LessAsymmetric(a: Num, b: Num)
    ensures !(Less(a, b) && Less(b, a))
    ensures SameNumber(a, b) ==> !Less(a, b) && !Less(b, a)
  {
  }

  /** Over finite numbers, `Less` is the order of the rationals. */
  lemma LessOnFinite(x: real, y: real)
    ensures Less(Finite(x), Finite(y)) <==> x < y
  {
  }

  function Negate(a: Num): Num {
    match a
    case Finite(x) => Finite(-x)
    case NaN => NaN
    case Inf(p) => Inf(!p)
  }

  /** `a + b` on numbers */
  function Add(a: Num, b: Num): Num {
    match (a, b)
    case (Finite(x), Finite(y)) => Finite(x + y)
    case (Inf(p), Inf(q)) => if p == q then Inf(p) else NaN
    case (Inf(p), Finite(_)) => Inf(p)
    case (Finite(_), Inf(q)) => Inf(q)
    case _ => NaN
  }

  /** `a - b` on numbers */
  function Subtract(a: Num, b: Num): Num {
    Add(a, Negate(b))
  }

  /** `a / b` on numbers (an unsigned zero divisor) */
  function Divide(a: Num, b: Num): Num {
    match (a, b)
    case (Finite(x), Finite(y)) =>
      if y != 0.0 then Finite(x / y)
      else if x > 0.0 then Inf(true)
      else if x < 0.0 then Inf(false)
      else NaN
    case (Inf(p), Finite(y)) => if y < 0.0 then Inf(!p) else Inf(p)
    case (Finite(_), Inf(_)) => Finite(0.0)
    case _ => NaN
  }

  predicate IsDigit(c: char) {
    '0' <= c <= '9'
  }

  predicate AllDigits(s: string) {
    forall k :: 0 <= k < |s| ==> IsDigit(s[k])
  }

  /** The value of a string of decimal digits, most significant first. */
  function DigitsValue(s: string): nat
    requires AllDigits(s)
    decreases |s|
  {
    if |s| == 0 then 0
    else DigitsValue(s[..|s| - 1]) * 10 + (s[|s| - 1] as int - '0' as int)
  }

  function Pow10(n: nat): (p: nat)
    ensures p >= 1
  {
    if n == 0 then 1 else 10 * Pow10(n - 1)
  }

  /** An unsigned numeral: `Infinity`, or digits with at most one `.` and at least one digit. */
  function UnsignedToNumber(s: string): Num {
    if s == "Infinity" then Inf(true)
    else
      var parts := Text.Split(s, '.');
      if |parts| == 1 && parts[0] != "" && AllDigits(parts[0]) then
        Finite(DigitsValue(parts[0]) as real)
      else if |parts| == 2 && parts[0] + parts[1] != "" && AllDigits(parts[0]) && AllDigits(parts[1]) then
        Finite(DigitsValue(parts[0]) as real + DigitsValue(parts[1]) as real / Pow10(|parts[1]|) as real)
      else NaN
  }

  /** `Number(s)` for a string: empty is 0, an optional sign before an unsigned numeral, anything else NaN. */
  function StringToNumber(s: string): Num {
    if s == "" then Finite(0.0)
    else if s[0] == '-' then Negate(UnsignedToNumber(s[1..]))
    else if s[0] == '+' then UnsignedToNumber(s[1..])
    else UnsignedToNumber(s)
  }

  /** `Number(v)` */
  function ToNumber(v: Value): Num {
    match v
    case Number(n) => n
    case Str(s) => StringToNumber(s)
    case Bool(b) => Finite(if b then 1.0 else 0.0)
  }

  /** `Number(v)` for a field that may be `undefined` */
  function ToNumberOrNaN(v: Option<Value>): Num {
    match v
    case Some(x) => ToNumber(x)
    case None => NaN
  }

  /** `a == b`: same kinds compare directly, mixed kinds compare as numbers. */
  predicate LooseEquals(a: Value, b: Value) {
    match (a, b)
    case (Number(x), Number(y)) => SameNumber(x, y)
    case (Str(x), Str(y)) => x == y
    case (Bool(x), Bool(y)) => x == y
    case _ => SameNumber(ToNumber(a), ToNumber(b))
  }

  /** Loose equality is symmetric. */
  lemma LooseEqualsSymmetric(a: Value, b: Value)
    ensures LooseEquals(a, b) <==> LooseEquals(b, a)
  {
  }

  /** The decimal text of a natural number, as `String(n)` writes it. */
  function DecimalText(n: nat): (s: string)
    ensures |s| >= 1 && AllDigits(s)
  {
    if n < 10 then [('0' as int + n) as char]
    else DecimalText(n / 10) + [('0' as int + n % 10) as char]
  }

  lemma {:induction false} DigitsValueOfDecimalText(n: nat)
    ensures DigitsValue(DecimalText(n)) == n
  {
    var s := DecimalText(n);
    if n >= 10 {
      DigitsValueOfDecimalText(n / 10);
      assert s[..|s| - 1] == DecimalText(n / 10);
    }
  }

  /** `Number(String(n))` gives `n` back for a natural number. */
  lemma NumberOfDecimalText(n: nat)
    ensures StringToNumber(DecimalText(n)) == Finite(n as real)
  {
    var s := DecimalText(n);
    assert '.' !in s by {
      forall k | 0 <= k < |s| ensures s[k] != '.' { assert IsDigit(s[k]); }
    }
    Text.SplitWithoutSeparator(s, '.');
    DigitsValueOfDecimalText(n);
    assert s != "Infinity" by { assert IsDigit(s[0]); }
    assert s[0] != '-' && s[0] != '+' by { assert IsDigit(s[0]); }
  }

  /** ECMAScript's ToIntegerOrInfinity on a finite number: truncation toward zero. */
  function Truncate(r: real): int {
    if r >= 0.0 then r.Floor else -((-r).Floor)
  }

  /** `items[k]` for `at(k)`: a negative k counts from the end. */
  function ItemAt(items: seq<string>, k: int): Option<string> {
    var j := if k >= 0 then k else |items| + k;
    if 0 <= j < |items| then Some(items[j]) else None
  }

  /** `items.at(index)`: NaN selects the first item, an infinity nothing, a fraction is truncated. */
  function ArrayAt(items: seq<string>, index: Num): (r: Option<string>)
    ensures r.Some? ==> r.value in items
  {
    match index
    case NaN => ItemAt(items, 0)
    case Inf(_) => None
    case Finite(x) => ItemAt(items, Truncate(x))
  }
}
