/**
  The action callbacks. Each resolves the selected path to a parameter and
  then decides between one `setValueAsync` (recorded as a `Write` of a value
  with a type tag) and a warning.
 */
module Actions {
  import opened Wrappers
  import opened Js
  import opened EmberTree
  import opened PathResolver

  /**
    What one action invocation does. `LookupFailed` is a rejected parent
    lookup: the callback's promise rejects and nothing is written or logged.
   */
  datatype Outcome =
    | Write(value: Value, tag: ParameterType)
    | WarnWrongType
    | WarnNotFound
    | LookupFailed

  /** The `use_select`, `varPath` and `path` options every action carries. */
  datatype PathOptions = PathOptions(useSelect: bool, varPath: string, path: string)

  function SelectedPath(o: PathOptions): string {
    if o.useSelect then o.varPath else o.path
  }

  /** `path` resolves to an element that is a parameter. */
  predicate IsParameterAt(root: TreeNode, path: string) {
    Resolve(root, path).Found? && Resolve(root, path).element.kind == Parameter
  }

  /** The resolved parameter, or the outcome that ends the action before any decision. */
  function Target(root: TreeNode, path: string): Result<TreeNode, Outcome> {
    match Resolve(root, path)
    case ParentNotFound => Failure(LookupFailed)
    case ChildNotFound => Failure(WarnNotFound)
    case Found(e) => if e.kind == Parameter then Success(e) else Failure(WarnNotFound)
  }

  /** An outcome of a decision on a resolved parameter. */
  predicate Decided(o: Outcome) {
    o.Write? || o == WarnWrongType
  }

  /** The failure outcomes are exactly the lookup failures; a found parameter reaches the decision. */
  lemma TargetOutcomes(root: TreeNode, path: string)
    ensures Target(root, path).Success? <==> IsParameterAt(root, path)
    ensures Target(root, path).Success? ==> Target(root, path).value == Resolve(root, path).element
    ensures Target(root, path) == Failure(LookupFailed) <==> Resolve(root, path).ParentNotFound?
    ensures Target(root, path) == Failure(WarnNotFound) <==>
      !Resolve(root, path).ParentNotFound? && !IsParameterAt(root, path)
  {
  }

  /**
    The min/max check: on a non-enumerated parameter a value above the
    maximum becomes the maximum, else one below the minimum becomes the
    minimum; a missing bound never triggers.
   */
  function ClampToBounds(p: TreeNode, v: Value): (r: Value)
    ensures p.enumeration.Some? ==> r == v
    ensures ToNumber(v).NaN? ==> r == v
    ensures r == v || (p.maximum.Some? && r == Number(p.maximum.value)) || (p.minimum.Some? && r == Number(p.minimum.value))
  {
    if p.enumeration.None? && Greater(ToNumber(v), OrNaN(p.maximum)) then Number(OrNaN(p.maximum))
    else if p.enumeration.None? && Less(ToNumber(v), OrNaN(p.minimum)) then Number(OrNaN(p.minimum))
    else v
  }

  /**
    Between finite bounds, any non-NaN value lands in range: one above the
    maximum becomes the maximum, one below the minimum the minimum, and an
    in-range one is kept.
   */
  lemma ClampWithinBounds(p: TreeNode, v: Value, lo: real, hi: real)
    requires p.enumeration.None? && p.minimum == Some(Finite(lo)) && p.maximum == Some(Finite(hi))
    requires lo <= hi && !ToNumber(v).NaN?
    ensures ToNumber(ClampToBounds(p, v)).Finite?
    ensures lo <= ToNumber(ClampToBounds(p, v)).r <= hi
    ensures ToNumber(v).Finite? && ToNumber(v).r > hi ==> ClampToBounds(p, v) == Number(Finite(hi))
    ensures ToNumber(v).Finite? && ToNumber(v).r < lo ==> ClampToBounds(p, v) == Number(Finite(lo))
    ensures ToNumber(v).Finite? && lo <= ToNumber(v).r <= hi ==> ClampToBounds(p, v) == v
  {
  }

  /**
    The clamped value of a finite number for any finite bounds, in either
    order: the maximum check comes first, so with inverted bounds a value
    above the maximum still becomes the maximum.
   */
  lemma ClampExact(p: TreeNode, v: Value, x: real, lo: real, hi: real)
    requires p.enumeration.None? && p.minimum == Some(Finite(lo)) && p.maximum == Some(Finite(hi))
    requires ToNumber(v) == Finite(x)
    ensures ClampToBounds(p, v) ==
      if x > hi then Number(Finite(hi)) else if x < lo then Number(Finite(lo)) else v
  {
  }

  /** With minimum 10 and maximum 5, the value 7 is above the maximum and becomes 5. */
  lemma ClampInvertedExample(p: TreeNode)
    requires p.enumeration.None? && p.minimum == Some(Finite(10.0)) && p.maximum == Some(Finite(5.0))
    ensures ClampToBounds(p, Number(Finite(7.0))) == Number(Finite(5.0))
  {
  }

  /**
    `setValue(type)` on a resolved parameter: clamp only for the integer
    action on a parameter with a truthy maximum; the boolean action always
    writes; otherwise a truthy maximum or a value that reads as a number is
    written with the integer tag; else a string is written only to a
    parameter whose type is "string".
   */
  function DecideSetValue(p: TreeNode, t: ParameterType, v: Value): (o: Outcome)
    ensures Decided(o)
    ensures t == Boolean ==> o == Write(v, Boolean)
    ensures o.Write? ==> (o.tag == Boolean <==> t == Boolean)
    ensures o.Write? ==> o.tag == Boolean || o.tag == Integer || o.tag == String
    ensures o.Write? && o.tag == String ==> t == String && p.typeName == Some(TypeName(String))
    ensures o.Write? && t != Integer ==> o.value == v
  {
    var value := if t == Integer && Truthy(p.maximum) then ClampToBounds(p, v) else v;
    if t == Boolean then Write(value, Boolean)
    else if Truthy(p.maximum) || !ToNumber(value).NaN? then Write(value, Integer)
    else if t == String && p.typeName == Some(TypeName(String)) then Write(value, String)
    else WarnWrongType
  }

  /** Apart from the boolean action, the integer tag is used exactly when the maximum is truthy or the value reads as a number. */
  lemma SetValueRouting(p: TreeNode, t: ParameterType, v: Value)
    requires t != Boolean
    ensures (DecideSetValue(p, t, v).Write? && DecideSetValue(p, t, v).tag == Integer) <==>
      (Truthy(p.maximum) || !ToNumber(v).NaN?)
  {
  }

  /** The string tag is used exactly for a value that is not a number, sent by the string action to a "string" parameter without truthy maximum. */
  lemma SetValueStringTag(p: TreeNode, t: ParameterType, v: Value)
    ensures (DecideSetValue(p, t, v).Write? && DecideSetValue(p, t, v).tag == String) <==>
      (t == String && !Truthy(p.maximum) && ToNumber(v).NaN? && p.typeName == Some(TypeName(String)))
    ensures DecideSetValue(p, t, v) == WarnWrongType <==>
      (t != Boolean && !Truthy(p.maximum) && ToNumber(v).NaN? &&
       !(t == String && p.typeName == Some(TypeName(String))))
  {
  }

  /** Text that reads as a number is sent with the integer tag even by the string action. */
  lemma SetValueNumericTextIsInteger(p: TreeNode)
    ensures DecideSetValue(p, String, Str("")) == Write(Str(""), Integer)
  {
  }

  /** The integer action on a non-enumerated parameter with finite bounds writes a number within them. */
  lemma SetIntegerWithinBounds(p: TreeNode, x: real, lo: real, hi: real)
    requires p.enumeration.None? && p.minimum == Some(Finite(lo)) && p.maximum == Some(Finite(hi))
    requires lo <= hi && hi != 0.0
    ensures var o := DecideSetValue(p, Integer, Number(Finite(x)));
      o.Write? && o.tag == Integer && o.value.Number? && o.value.n.Finite? &&
      lo <= o.value.n.r <= hi &&
      o.value == Number(Finite(if x > hi then hi else if x < lo then lo else x))
  {
    ClampWithinBounds(p, Number(Finite(x)), lo, hi);
  }

  /** With bounds 0..10, the integer action sends 10 for 15 and 0 for -3. */
  lemma SetIntegerExample(p: TreeNode)
    requires p.enumeration.None? && p.minimum == Some(Finite(0.0)) && p.maximum == Some(Finite(10.0))
    ensures DecideSetValue(p, Integer, Number(Finite(15.0))) == Write(Number(Finite(10.0)), Integer)
    ensures DecideSetValue(p, Integer, Number(Finite(-3.0))) == Write(Number(Finite(0.0)), Integer)
  {
  }

  /** Only the integer action clamps: the real and enumeration actions, or an enumerated parameter, send the value as given. */
  lemma SetValueNotClamped(p: TreeNode, t: ParameterType, v: Value)
    requires t != Boolean && !ToNumber(v).NaN?
    requires t != Integer || p.enumeration.Some?
    ensures DecideSetValue(p, t, v) == Write(v, Integer)
  {
  }

  /** `setValue(type)`: resolve the selected path, then decide. */
  function SetValue(root: TreeNode, o: PathOptions, t: ParameterType, v: Value): (r: Outcome)
    ensures r == LookupFailed <==> Resolve(root, SelectedPath(o)).ParentNotFound?
    ensures r == WarnNotFound <==>
      !Resolve(root, SelectedPath(o)).ParentNotFound? && !IsParameterAt(root, SelectedPath(o))
    ensures IsParameterAt(root, SelectedPath(o)) ==>
      r == DecideSetValue(Resolve(root, SelectedPath(o)).element, t, v)
  {
    match Target(root, SelectedPath(o))
    case Failure(e) => e
    case Success(p) => DecideSetValue(p, t, v)
  }

  /**
    `setValueExpression` on a resolved parameter: with a truthy maximum the
    expanded text is clamped like a value and written as `Number(...)` with
    the integer tag; otherwise a warning.
   */
  function DecideExpression(p: TreeNode, text: string): (o: Outcome)
    ensures Decided(o)
    ensures o.Write? <==> Truthy(p.maximum)
    ensures o.Write? ==> o.tag == Integer && o.value.Number?
  {
    if Truthy(p.maximum) then Write(Number(ToNumber(ClampToBounds(p, Str(text)))), Integer)
    else WarnWrongType
  }

  /** Text reading as a number is written clamped into finite bounds, unchanged when in range. */
  lemma ExpressionWithinBounds(p: TreeNode, text: string, lo: real, hi: real)
    requires p.enumeration.None? && p.minimum == Some(Finite(lo)) && p.maximum == Some(Finite(hi))
    requires lo <= hi && hi != 0.0 && !StringToNumber(text).NaN?
    ensures var o := DecideExpression(p, text);
      o.Write? && o.value.n.Finite? && lo <= o.value.n.r <= hi &&
      (StringToNumber(text).Finite? ==>
        var y := StringToNumber(text).r;
        o.value == Number(Finite(if y > hi then hi else if y < lo then lo else y)))
  {
    ClampWithinBounds(p, Str(text), lo, hi);
  }

  /** Text that does not read as a number passes both bound checks and is written as NaN. */
  lemma ExpressionNotANumber(p: TreeNode, text: string)
    requires Truthy(p.maximum) && StringToNumber(text).NaN?
    ensures DecideExpression(p, text) == Write(Number(NaN), Integer)
  {
  }

  /** "42" against bounds 0..10 is written as 10. */
  lemma ExpressionExample(p: TreeNode)
    requires p.enumeration.None? && p.minimum == Some(Finite(0.0)) && p.maximum == Some(Finite(10.0))
    ensures DecideExpression(p, "42") == Write(Number(Finite(10.0)), Integer)
  {
    assert DecimalText(42) == "42";
    NumberOfDecimalText(42);
  }

  /** `setValueExpression`: resolve the selected path, then decide on the expanded text. */
  function SetValueExpression(root: TreeNode, o: PathOptions, text: string): (r: Outcome)
    ensures r == LookupFailed <==> Resolve(root, SelectedPath(o)).ParentNotFound?
    ensures r == WarnNotFound <==>
      !Resolve(root, SelectedPath(o)).ParentNotFound? && !IsParameterAt(root, SelectedPath(o))
    ensures IsParameterAt(root, SelectedPath(o)) ==>
      r == DecideExpression(Resolve(root, SelectedPath(o)).element, text)
  {
    match Target(root, SelectedPath(o))
    case Failure(e) => e
    case Success(p) => DecideExpression(p, text)
  }

  /**
    `setIncrementDecrement(type)` on a resolved parameter with truthy
    maximum: "increment" adds `delta` to `Number(value)` and saturates at the
    maximum; any other type subtracts it and saturates at the minimum; an
    enumerated parameter never saturates.
   */
  function DecideStep(p: TreeNode, direction: string, delta: Num): (o: Outcome)
    ensures Decided(o)
    ensures o.Write? <==> Truthy(p.maximum)
    ensures o.Write? ==> o.tag == Integer && o.value.Number?
  {
    var current := ToNumberOrNaN(p.value);
    if !Truthy(p.maximum) then WarnWrongType
    else if direction == "increment" then
      if p.enumeration.None? && Greater(Add(current, delta), OrNaN(p.maximum))
      then Write(Number(OrNaN(p.maximum)), Integer)
      else Write(Number(Add(current, delta)), Integer)
    else
      if p.enumeration.None? && Less(Subtract(current, delta), OrNaN(p.minimum))
      then Write(Number(OrNaN(p.minimum)), Integer)
      else Write(Number(Subtract(current, delta)), Integer)
  }

  /** An increment writes the sum, or the maximum in its place when the sum exceeds it; never more than the maximum. */
  lemma IncrementSaturates(p: TreeNode, c: real, d: real, hi: real)
    requires p.enumeration.None? && p.maximum == Some(Finite(hi)) && hi != 0.0
    requires ToNumberOrNaN(p.value) == Finite(c)
    ensures DecideStep(p, "increment", Finite(d)) ==
      Write(Number(Finite(if c + d > hi then hi else c + d)), Integer)
    ensures DecideStep(p, "increment", Finite(d)).value.n.r <= hi
  {
  }

  /** A decrement writes the difference, or the minimum in its place when the difference falls below it. */
  lemma DecrementSaturates(p: TreeNode, direction: string, c: real, d: real, lo: real)
    requires direction != "increment" && Truthy(p.maximum)
    requires p.enumeration.None? && p.minimum == Some(Finite(lo))
    requires ToNumberOrNaN(p.value) == Finite(c)
    ensures DecideStep(p, direction, Finite(d)) ==
      Write(Number(Finite(if c - d < lo then lo else c - d)), Integer)
    ensures DecideStep(p, direction, Finite(d)).value.n.r >= lo
  {
  }

  /** Without a minimum a decrement is never floored. */
  lemma DecrementWithoutMinimum(p: TreeNode, c: real, d: real)
    requires Truthy(p.maximum) && p.minimum.None? && ToNumberOrNaN(p.value) == Finite(c)
    ensures DecideStep(p, "decrement", Finite(d)) == Write(Number(Finite(c - d)), Integer)
  {
  }

  /** On an enumerated parameter the step is written without saturation. */
  lemma EnumeratedStepNotSaturated(p: TreeNode, direction: string, c: real, d: real)
    requires Truthy(p.maximum) && p.enumeration.Some? && ToNumberOrNaN(p.value) == Finite(c)
    ensures DecideStep(p, direction, Finite(d)) ==
      Write(Number(Finite(if direction == "increment" then c + d else c - d)), Integer)
  {
  }

  /** Value 8, increment 5, maximum 10: the maximum 10 is written. */
  lemma IncrementExample(p: TreeNode)
    requires p.enumeration.None? && p.maximum == Some(Finite(10.0))
    requires p.value == Some(Number(Finite(8.0)))
    ensures DecideStep(p, "increment", Finite(5.0)) == Write(Number(Finite(10.0)), Integer)
  {
  }

  /** `setIncrementDecrement(type)`: resolve the selected path, then decide on the step. */
  function SetIncrementDecrement(root: TreeNode, o: PathOptions, direction: string, delta: Num): (r: Outcome)
    ensures r == LookupFailed <==> Resolve(root, SelectedPath(o)).ParentNotFound?
    ensures r == WarnNotFound <==>
      !Resolve(root, SelectedPath(o)).ParentNotFound? && !IsParameterAt(root, SelectedPath(o))
    ensures IsParameterAt(root, SelectedPath(o)) ==>
      r == DecideStep(Resolve(root, SelectedPath(o)).element, direction, delta)
  {
    match Target(root, SelectedPath(o))
    case Failure(e) => e
    case Success(p) => DecideStep(p, direction, delta)
  }

  /** `setToggle` on a resolved parameter: a value that is strictly `true` or `false` is written negated. */
  function DecideToggle(p: TreeNode): (o: Outcome)
    ensures Decided(o)
    ensures o.Write? <==> p.value.Some? && p.value.value.Bool?
    ensures o.Write? ==> o.tag == Boolean && o.value.Bool? && o.value.b != p.value.value.b
  {
    match p.value
    case Some(Bool(b)) => Write(Bool(!b), Boolean)
    case _ => WarnWrongType
  }

  /** Toggling the written value again restores the original. */
  lemma ToggleTwiceRestores(p: TreeNode)
    requires p.value.Some? && p.value.value.Bool?
    ensures var o := DecideToggle(p);
      o.Write? && DecideToggle(p.(value := Some(o.value))) == Write(p.value.value, Boolean)
  {
  }

  /** `setToggle`: resolve the selected path, then decide. */
  function SetToggle(root: TreeNode, o: PathOptions): (r: Outcome)
    ensures r == LookupFailed <==> Resolve(root, SelectedPath(o)).ParentNotFound?
    ensures r == WarnNotFound <==>
      !Resolve(root, SelectedPath(o)).ParentNotFound? && !IsParameterAt(root, SelectedPath(o))
    ensures IsParameterAt(root, SelectedPath(o)) ==>
      r == DecideToggle(Resolve(root, SelectedPath(o)).element)
  {
    match Target(root, SelectedPath(o))
    case Failure(e) => e
    case Success(p) => DecideToggle(p)
  }

  /** No action writes unless the selected path resolves to a parameter. */
  lemma NoWriteWithoutParameter(root: TreeNode, o: PathOptions, t: ParameterType, v: Value,
                                text: string, direction: string, delta: Num)
    requires !IsParameterAt(root, SelectedPath(o))
    ensures !SetValue(root, o, t, v).Write?
    ensures !SetValueExpression(root, o, text).Write?
    ensures !SetIncrementDecrement(root, o, direction, delta).Write?
    ensures !SetToggle(root, o).Write?
  {
  }
}
