/**
  The provider tree as the Ember+ client library hands it over, after its
  directory has been fetched: every element with its JSON content and its
  children in `getChildren()` order.
 */
module EmberTree {
  import opened Wrappers
  import opened Js
  import Text

  /** `isRoot()`, `isNode()`, `isParameter()`; `Other` stands for matrices and functions. */
  datatype ElementKind = Root | Node | Parameter | Other

  /**
    One element. `isOnline` is the truthiness of the content's `isOnline`
    field (a missing field reads as false); `typeName` is the content's
    `type` field.
   */
  datatype TreeNode = TreeNode(
    kind: ElementKind,
    number: int,
    identifier: Option<string>,
    isOnline: bool,
    path: string,
    value: Option<Value>,
    minimum: Option<Num>,
    maximum: Option<Num>,
    enumeration: Option<string>,
    factor: Option<Num>,
    typeName: Option<string>,
    children: seq<TreeNode>)

  /** The library's ParameterType values that the actions use. */
  datatype ParameterType = Integer | Real | String | Boolean | Enum

  /** `parameterTypeToString`: the names of the library's ParameterType enumeration. */
  function TypeName(t: ParameterType): string {
    match t
    case Integer => "integer"
    case Real => "real"
    case String => "string"
    case Boolean => "boolean"
    case Enum => "enum"
  }

  /** `element.getElementByNumber(n)`: the first child whose number is `n`. */
  function ChildByNumber(parent: TreeNode, n: Num): (r: Option<TreeNode>)
    ensures r.Some? ==> r.value in parent.children && n == Finite(r.value.number as real)
    ensures r.None? <==> forall c :: c in parent.children ==> n != Finite(c.number as real)
  {
    FirstWithNumber(parent.children, n)
  }

  /** `cs[k]` is the first of `cs` numbered `n`. */
  predicate FirstNumbered(cs: seq<TreeNode>, n: Num, k: int) {
    0 <= k < |cs| && n == Finite(cs[k].number as real) &&
    forall j :: 0 <= j < k ==> n != Finite(cs[j].number as real)
  }

  function FirstWithNumber(cs: seq<TreeNode>, n: Num): (r: Option<TreeNode>)
    ensures r.Some? ==> r.value in cs && n == Finite(r.value.number as real)
    ensures r.Some? ==> exists k :: FirstNumbered(cs, n, k) && cs[k] == r.value
    ensures r.None? <==> forall c :: c in cs ==> n != Finite(c.number as real)
    decreases |cs|
  {
    if |cs| == 0 then None
    else if n == Finite(cs[0].number as real) then Some(cs[0])
    else
      var r := FirstWithNumber(cs[1..], n);
      assert forall c :: c in cs ==> c == cs[0] || c in cs[1..];
      assert r.Some? ==> exists k :: FirstNumbered(cs, n, k) && cs[k] == r.value by {
        if r.Some? {
          var k :| FirstNumbered(cs[1..], n, k) && cs[1..][k] == r.value;
          assert cs[k + 1] == r.value;
          forall j | 0 <= j < k + 1 ensures n != Finite(cs[j].number as real) {
            if j > 0 { assert cs[j] == cs[1..][j - 1]; }
          }
          assert FirstNumbered(cs, n, k + 1);
        }
      }
      r
  }

  /** Walk down from `node`, one child lookup per path segment. */
  function Descend(node: TreeNode, segments: seq<string>): Option<TreeNode>
    decreases |segments|
  {
    if |segments| == 0 then Some(node)
    else
      match ChildByNumber(node, StringToNumber(segments[0]))
      case None => None
      case Some(c) => Descend(c, segments[1..])
  }

  /**
    The client's `getElementByPathAsync(address)` for a dotted numeric
    address: the empty address is the root, otherwise one child lookup per
    segment; `None` is a rejected lookup.
   */
  function ElementByAddress(root: TreeNode, address: string): Option<TreeNode> {
    if address == "" then Some(root) else Descend(root, Text.Split(address, '.'))
  }
}
