/**
  The value `handleChangedValue` caches for a parameter: the enumeration
  entry its value selects, else the value divided by the factor, else the raw
  value.
 */
module ValueNormalizer {
  import opened Wrappers
  import opened Js
  import opened EmberTree
  import Text

  /** The enumeration text's entries, one per line. */
  function EnumerationEntries(text: string): seq<string> {
    Text.Split(text, '\n')
  }

  /**
    The cached value. In the factor branch the source caches the quotient's
    `toString()` text; the model keeps the quotient itself.
   */
  function Normalize(p: TreeNode): Value {
    match p.enumeration
    case Some(text) => Str(ArrayAt(EnumerationEntries(text), ToNumberOrNaN(p.value)).GetOr(""))
    case None =>
      match p.factor
      case Some(f) => Number(Divide(ToNumberOrNaN(p.value), f))
      case None => p.value.GetOr(Str(""))
  }

  /** An enumerated parameter caches text, `''` or one of its entries; a factor yields a number. */
  lemma NormalizeKinds(p: TreeNode)
    ensures p.enumeration.Some? ==>
      Normalize(p).Str? && (Normalize(p).s == "" || Normalize(p).s in EnumerationEntries(p.enumeration.value))
    ensures p.enumeration.None? && p.factor.Some? ==> Normalize(p).Number?
  {
  }

  /** An in-range integer value selects its entry; a negative one counts from the end. */
  lemma NormalizeEnumerationIndex(p: TreeNode, k: int)
    requires p.enumeration.Some? && p.value == Some(Number(Finite(k as real)))
    ensures var items := EnumerationEntries(p.enumeration.value);
      Normalize(p) == Str(
        if 0 <= k < |items| then items[k]
        else if -|items| <= k < 0 then items[|items| + k]
        else "")
  {
    assert Truncate(k as real) == k;
  }

  /** The factor is never applied to an enumerated parameter. */
  lemma NormalizeIgnoresFactor(p: TreeNode, f: Option<Num>)
    requires p.enumeration.Some?
    ensures Normalize(p.(factor := f)) == Normalize(p)
  {
  }

  /** Without an enumeration, a nonzero factor divides the value exactly. */
  lemma NormalizeScales(p: TreeNode, x: real, f: real)
    requires p.enumeration.None? && p.factor == Some(Finite(f)) && f != 0.0
    requires p.value == Some(Number(Finite(x)))
    ensures Normalize(p) == Number(Finite(x / f))
  {
  }

  /** Without enumeration and factor the raw value passes through; a missing one becomes `''`. */
  lemma NormalizePassesThrough(p: TreeNode)
    requires p.enumeration.None? && p.factor.None?
    ensures p.value.Some? ==> Normalize(p) == p.value.value
    ensures p.value.None? ==> Normalize(p) == Str("")
  {
  }

  lemma SplitOffOn()
    ensures EnumerationEntries("Off\nOn") == ["Off", "On"]
  {
    assert Text.Join(["Off", "On"], '\n') == "Off\nOn" by {
      assert ["Off", "On"][1..] == ["On"];
    }
    assert forall k :: 0 <= k < 2 ==> '\n' !in ["Off", "On"][k];
    Text.SplitJoin(["Off", "On"], '\n');
  }

  /** "Off\nOn" with value 1 caches "On"; value 5 is out of range and caches "". */
  lemma NormalizeOffOnExample(p: TreeNode)
    requires p.enumeration == Some("Off\nOn")
    ensures Normalize(p.(value := Some(Number(Finite(1.0))))) == Str("On")
    ensures Normalize(p.(value := Some(Number(Finite(5.0))))) == Str("")
  {
    SplitOffOn();
    NormalizeEnumerationIndex(p.(value := Some(Number(Finite(1.0)))), 1);
    NormalizeEnumerationIndex(p.(value := Some(Number(Finite(5.0)))), 5);
  }

  /** Raw value 1500 with factor 100 caches 15. */
  lemma NormalizeFactorExample(p: TreeNode)
    requires p.enumeration.None? && p.factor == Some(Finite(100.0))
    ensures Normalize(p.(value := Some(Number(Finite(1500.0))))) == Number(Finite(15.0))
  {
  }
}
