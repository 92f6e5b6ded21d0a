/**
  The two-step lookup that both the explicit registration and every action
  perform: split the dotted path, fetch the parent by the address made of all
  segments but the last, then select the child whose number is the last
  segment.
 */
module PathResolver {
  import opened Wrappers
  import opened Js
  import opened EmberTree
  import Text

  /** The selected path cut at its last `.`: the parent's segments and the child's number. */
  datatype SplitPath = SplitPath(parent: seq<string>, last: string)

  function SplitSelected(path: string): (sp: SplitPath)
    ensures Text.Join(sp.parent + [sp.last], '.') == path
    ensures '.' !in sp.last
    ensures forall k :: 0 <= k < |sp.parent| ==> '.' !in sp.parent[k]
  {
    var segments := Text.Split(path, '.');
    Text.JoinSplit(path, '.');
    assert segments[..|segments| - 1] + [segments[|segments| - 1]] == segments;
    SplitPath(segments[..|segments| - 1], segments[|segments| - 1])
  }

  /** The address handed to the parent lookup, re-joined with the last segment, is the path. */
  lemma ParentAddressRejoins(path: string)
    ensures var sp := SplitSelected(path);
      if sp.parent == [] then sp.last == path
      else Text.Join(sp.parent, '.') + "." + sp.last == path
  {
    var sp := SplitSelected(path);
    JoinAppend(sp.parent, sp.last);
  }

  lemma {:induction false} JoinAppend(parts: seq<string>, last: string)
    ensures Text.Join(parts + [last], '.') ==
      if parts == [] then last else Text.Join(parts, '.') + "." + last
    decreases |parts|
  {
    if |parts| >= 1 {
      assert (parts + [last])[1..] == parts[1..] + [last];
      JoinAppend(parts[1..], last);
      if |parts| == 1 {
        assert parts[1..] == [];
      }
    }
  }

  datatype Resolution = ParentNotFound | ChildNotFound | Found(element: TreeNode)

  /** `getElementByPathAsync(parent)` then `getElementByNumber(Number(last))`. */
  function Resolve(root: TreeNode, path: string): Resolution {
    var sp := SplitSelected(path);
    match ElementByAddress(root, Text.Join(sp.parent, '.'))
    case None => ParentNotFound
    case Some(parent) =>
      match ChildByNumber(parent, StringToNumber(sp.last))
      case None => ChildNotFound
      case Some(c) => Found(c)
  }

  /**
    A path is found exactly when its parent address is found and that
    element has a child numbered `Number(last)`; the element found is such
    a child. The parent lookup fails exactly when the address is rejected.
   */
  lemma ResolveFound(root: TreeNode, path: string)
    ensures var sp := SplitSelected(path);
      var parent := ElementByAddress(root, Text.Join(sp.parent, '.'));
      (Resolve(root, path).ParentNotFound? <==> parent.None?) &&
      (Resolve(root, path).Found? <==>
        parent.Some? && exists c :: c in parent.value.children && StringToNumber(sp.last) == Finite(c.number as real)) &&
      (Resolve(root, path).Found? ==>
        Resolve(root, path).element in parent.value.children &&
        StringToNumber(sp.last) == Finite(Resolve(root, path).element.number as real))
  {
  }

  /** A one-segment path `String(n)` selects the root's first child numbered `n`. */
  lemma ResolveTopLevel(root: TreeNode, k: nat)
    requires k < |root.children| && root.children[k].number >= 0
    requires forall j :: 0 <= j < k ==> root.children[j].number != root.children[k].number
    ensures Resolve(root, DecimalText(root.children[k].number)) == Found(root.children[k])
  {
    var c := root.children[k];
    var s := DecimalText(c.number);
    assert '.' !in s by {
      forall i | 0 <= i < |s| ensures s[i] != '.' { assert IsDigit(s[i]); }
    }
    Text.SplitWithoutSeparator(s, '.');
    NumberOfDecimalText(c.number);
    var sp := SplitSelected(s);
    assert sp.parent == [] && sp.last == s;
    var r := FirstWithNumber(root.children, StringToNumber(s));
    assert r.Some?;
    var i :| FirstNumbered(root.children, StringToNumber(s), i) && root.children[i] == r.value;
    assert FirstNumbered(root.children, StringToNumber(s), k);
    assert i == k;
  }
}
