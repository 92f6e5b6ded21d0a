/**
  The feedback callbacks: each compares the variable value cached under the
  chosen label with the configured option. A label with no cached value
  reads as `undefined`, which equals no number, boolean or text and compares
  false both ways.
 */
module Feedback {
  import opened Js

  /** `Parameter Equals`: `value == option` with the option a number. */
  function ParameterEquals(vars: map<string, Value>, key: string, v: Num): (b: bool)
    ensures b ==> key in vars
  {
    key in vars && LooseEquals(vars[key], Number(v))
  }

  /** `Bool Parameter Equals`: `value == option` with the option a checkbox. */
  function BoolEqual(vars: map<string, Value>, key: string, v: bool): (b: bool)
    ensures b ==> key in vars
  {
    key in vars && LooseEquals(vars[key], Bool(v))
  }

  /** `Enum Parameter Equals`: `value == option` with the option text. */
  function EnumEqual(vars: map<string, Value>, key: string, text: string): (b: bool)
    ensures b ==> key in vars
  {
    key in vars && LooseEquals(vars[key], Str(text))
  }

  /** `Parameter hit Threshold`: `value > threshold`. */
  function HitThreshold(vars: map<string, Value>, key: string, threshold: Num): (b: bool)
    ensures b ==> key in vars && !ToNumber(vars[key]).NaN?
  {
    key in vars && Greater(ToNumber(vars[key]), threshold)
  }

  /** `Parameter below Threshold`: `value < threshold`. */
  function BelowThreshold(vars: map<string, Value>, key: string, threshold: Num): (b: bool)
    ensures b ==> key in vars && !ToNumber(vars[key]).NaN?
  {
    key in vars && Less(ToNumber(vars[key]), threshold)
  }

  /** The two threshold feedbacks are never true together, and both are false at the threshold. */
  lemma ThresholdsExclusive(vars: map<string, Value>, key: string, t: Num)
    ensures !(HitThreshold(vars, key, t) && BelowThreshold(vars, key, t))
    ensures key in vars && SameNumber(ToNumber(vars[key]), t) ==>
      !HitThreshold(vars, key, t) && !BelowThreshold(vars, key, t)
  {
    if key in vars {
      LessAsymmetric(ToNumber(vars[key]), t);
    }
  }

  /**
    A finite cached number against a finite threshold: exactly one of
    above, below and equal holds.
   */
  lemma ThresholdsTrichotomy(vars: map<string, Value>, key: string, x: real, t: real)
    requires key in vars && vars[key] == Number(Finite(x))
    ensures HitThreshold(vars, key, Finite(t)) <==> x > t
    ensures BelowThreshold(vars, key, Finite(t)) <==> x < t
    ensures ParameterEquals(vars, key, Finite(t)) <==> x == t
    ensures HitThreshold(vars, key, Finite(t)) || BelowThreshold(vars, key, Finite(t)) ||
      ParameterEquals(vars, key, Finite(t))
  {
    LessOnFinite(x, t);
    LessOnFinite(t, x);
  }

  /** A label with no cached value makes every feedback false. */
  lemma MissingLabelIsFalse(vars: map<string, Value>, key: string, n: Num, v: bool, text: string)
    requires key !in vars
    ensures !ParameterEquals(vars, key, n) && !BoolEqual(vars, key, v) && !EnumEqual(vars, key, text)
    ensures !HitThreshold(vars, key, n) && !BelowThreshold(vars, key, n)
  {
  }

  /** A NaN cached number (an enumeration index that was not a number, say) is neither above nor below. */
  lemma NaNIsNeitherAboveNorBelow(vars: map<string, Value>, key: string, t: Num)
    requires key in vars && vars[key] == Number(NaN)
    ensures !HitThreshold(vars, key, t) && !BelowThreshold(vars, key, t)
    ensures !ParameterEquals(vars, key, t)
  {
  }

  /** Numeric equality per cached kind: a number as itself, text through `Number(text)`, a boolean as 1 or 0. */
  lemma ParameterEqualsByKind(vars: map<string, Value>, key: string, y: real)
    requires key in vars
    ensures vars[key].Number? ==>
      (ParameterEquals(vars, key, Finite(y)) <==> vars[key].n == Finite(y))
    ensures vars[key].Str? ==>
      (ParameterEquals(vars, key, Finite(y)) <==> StringToNumber(vars[key].s) == Finite(y))
    ensures vars[key].Bool? ==>
      (ParameterEquals(vars, key, Finite(y)) <==> y == if vars[key].b then 1.0 else 0.0)
  {
  }

  /** A cached boolean equals the checkbox exactly when they agree; text equals it when it reads as 1 or 0. */
  lemma BoolEqualByKind(vars: map<string, Value>, key: string, v: bool)
    requires key in vars
    ensures vars[key].Bool? ==> (BoolEqual(vars, key, v) <==> vars[key].b == v)
    ensures vars[key].Str? ==>
      (BoolEqual(vars, key, v) <==> StringToNumber(vars[key].s) == Finite(if v then 1.0 else 0.0))
  {
  }

  /** A cached enumeration entry equals the configured text exactly when the two are the same text. */
  lemma EnumEqualOnText(vars: map<string, Value>, key: string, s: string, text: string)
    requires key in vars && vars[key] == Str(s)
    ensures EnumEqual(vars, key, text) <==> s == text
  {
  }

  /** Cached 7 is above threshold 5 and not below it. */
  lemma ThresholdExample(vars: map<string, Value>)
    requires "gain" in vars && vars["gain"] == Number(Finite(7.0))
    ensures HitThreshold(vars, "gain", Finite(5.0)) && !BelowThreshold(vars, "gain", Finite(5.0))
  {
  }
}
