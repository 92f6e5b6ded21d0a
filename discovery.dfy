/**
  What discovery and explicit registration register, as functions of the tree
  and the configuration. The class in module Instance performs the walk
  step by step and is proved to append exactly these registrations.
 */
module Discovery {
  import opened Wrappers
  import opened Js
  import opened EmberTree
  import opened ValueNormalizer
  import opened PathResolver
  import Text

  /** Discovery never registers when this many entries are monitored. */
  const MaxMonitored: nat := 2048

  /** A configured scope: its dotted path and that path's segments. */
  datatype ParsingPath = ParsingPath(path: string, elements: seq<string>)

  /** An entry of the monitored list: the parameter's path and its variable label (`label` in the source, a reserved word in Dafny). */
  datatype MonitoredParameter = MonitoredParameter(id: string, name: string)

  /** What the walk reads of the configuration: scopes, and each filter as string and as list. */
  datatype Filters = Filters(
    scopes: seq<ParsingPath>,
    nodeFilterString: string,
    nodeFilter: seq<string>,
    paramFilterString: string,
    paramFilter: seq<string>)

  /** An entry pushed on the monitored list with the element whose value is cached under its label. */
  datatype Registration = Registration(entry: MonitoredParameter, element: TreeNode)

  predicate IsContainer(n: TreeNode) {
    n.kind == Root || n.kind == Node
  }

  /** Only containers are skipped for being offline; parameters never are. */
  predicate SkippedOffline(c: TreeNode) {
    c.kind == Node && !c.isOnline
  }

  /** The two-branch scope test, on plain string prefixes. */
  predicate ScopeAdmits(scope: ParsingPath, childPath: string, depth: nat) {
    (depth >= |scope.elements| && scope.path <= childPath) ||
    (depth < |scope.elements| && childPath <= scope.path)
  }

  /** With no scopes every child is entered; otherwise some scope must admit it. */
  predicate Descends(scopes: seq<ParsingPath>, c: TreeNode, depth: nat) {
    |scopes| == 0 || exists k :: 0 <= k < |scopes| && ScopeAdmits(scopes[k], c.path, depth)
  }

  /** The identifier with its first `#` removed. */
  function StrippedIdentifier(c: TreeNode): Option<string> {
    match c.identifier
    case Some(id) => Some(Text.ReplaceFirst(id, '#'))
    case None => None
  }

  /**
    The label passed down to a child. Under an empty label a missing
    identifier gives `''`; under a non-empty one the concatenation turns it
    into the text `undefined`.
   */
  function ChildLabel(identifiers: string, c: TreeNode): string {
    if identifiers == "" then StrippedIdentifier(c).GetOr("")
    else identifiers + "." + StrippedIdentifier(c).GetOr("undefined")
  }

  predicate MatchesNodeFilter(f: Filters, identifiers: string) {
    exists k :: 0 <= k < |f.nodeFilter| && Text.Contains(identifiers, f.nodeFilter[k])
  }

  /** Exact match of the raw (unstripped) identifier. */
  predicate MatchesParamFilter(f: Filters, leaf: TreeNode) {
    exists k :: 0 <= k < |f.paramFilter| && leaf.identifier == Some(f.paramFilter[k])
  }

  /** Whether a parameter reached under `identifiers` is registered. */
  predicate LeafQualifies(f: Filters, leaf: TreeNode, identifiers: string) {
    if f.nodeFilterString != "" then
      MatchesNodeFilter(f, identifiers) && (|f.paramFilter| == 0 || MatchesParamFilter(f, leaf))
    else if f.paramFilterString != "" then
      MatchesParamFilter(f, leaf)
    else
      true
  }

  /**
    The registrations discovery makes below `n`, reached under `identifiers` at
    `depth`, when `count` entries are already monitored.
   */
  function WalkNode(f: Filters, n: TreeNode, identifiers: string, depth: nat, count: nat): seq<Registration>
    decreases n, 1
  {
    if IsContainer(n) && count < MaxMonitored then
      WalkChildren(f, n, 0, identifiers, depth, count)
    else if n.kind == Parameter && count < MaxMonitored && LeafQualifies(f, n, identifiers) then
      [Registration(MonitoredParameter(n.path, identifiers), n)]
    else
      []
  }

  /** What one child contributes: nothing if skipped or out of scope, else its own walk. */
  function WalkChild(f: Filters, c: TreeNode, identifiers: string, depth: nat, count: nat): seq<Registration>
    decreases c, 2
  {
    if SkippedOffline(c) || !Descends(f.scopes, c, depth) then []
    else WalkNode(f, c, ChildLabel(identifiers, c), depth + 1, count)
  }

  /** The children from index `i` on, in order, each seeing the entries its elder siblings added. */
  function WalkChildren(f: Filters, parent: TreeNode, i: nat, identifiers: string, depth: nat, count: nat): seq<Registration>
    requires i <= |parent.children|
    decreases parent, 0, |parent.children| - i
  {
    if i == |parent.children| then []
    else
      var here := WalkChild(f, parent.children[i], identifiers, depth, count);
      here + WalkChildren(f, parent, i + 1, identifiers, depth, count + |here|)
  }

  /**
    One step of the children loop on the walk: with `done` taken from the
    walk before child `i`, taking that child's walk as well leaves the walk
    of the younger siblings, started from the new count.
   */
  lemma WalkStep(f: Filters, parent: TreeNode, i: nat, identifiers: string, depth: nat,
                 regs: seq<Registration>, done: seq<Registration>, count: nat, count1: nat)
    requires i < |parent.children|
    requires regs == done + WalkChildren(f, parent, i, identifiers, depth, count)
    requires count1 == count + |WalkChild(f, parent.children[i], identifiers, depth, count)|
    ensures regs == (done + WalkChild(f, parent.children[i], identifiers, depth, count)) +
      WalkChildren(f, parent, i + 1, identifiers, depth, count1)
  {
    WalkChildrenUnfold(f, parent, i, identifiers, depth, count);
    var here := WalkChild(f, parent.children[i], identifiers, depth, count);
    var rest := WalkChildren(f, parent, i + 1, identifiers, depth, count1);
    assert done + (here + rest) == (done + here) + rest;
  }

  /**
    One step of the children loop on the state: registering `done` and then
    `here` leaves the list and the cache that registering `done + here`
    does, and the list grows by `|here|`.
   */
  lemma RegisterInTurn(done: seq<Registration>, here: seq<Registration>,
                       m0: seq<MonitoredParameter>, p0: map<string, Value>,
                       m: seq<MonitoredParameter>, p: map<string, Value>,
                       m1: seq<MonitoredParameter>, p1: map<string, Value>)
    requires m == m0 + Entries(done) && p == ApplyRegistrations(p0, done)
    requires m1 == m + Entries(here) && p1 == ApplyRegistrations(p, here)
    ensures |m1| == |m| + |here|
    ensures m1 == m0 + Entries(done + here) && p1 == ApplyRegistrations(p0, done + here)
  {
    assert |Entries(here)| == |here|;
    EntriesAppend(done, here);
    ApplyAppend(p0, done, here);
  }

  /** The walk from child `i` is that child's walk followed by the walk of its younger siblings. */
  lemma WalkChildrenUnfold(f: Filters, parent: TreeNode, i: nat, identifiers: string, depth: nat, count: nat)
    requires i < |parent.children|
    ensures WalkChildren(f, parent, i, identifiers, depth, count) ==
      WalkChild(f, parent.children[i], identifiers, depth, count) +
      WalkChildren(f, parent, i + 1, identifiers, depth,
        count + |WalkChild(f, parent.children[i], identifiers, depth, count)|)
  {
  }

  /** The monitored entries of a list of registrations. */
  function Entries(rs: seq<Registration>): seq<MonitoredParameter> {
    seq(|rs|, k requires 0 <= k < |rs| => rs[k].entry)
  }

  lemma EntriesAppend(a: seq<Registration>, b: seq<Registration>)
    ensures Entries(a + b) == Entries(a) + Entries(b)
  {
  }


  /** `handleChangedValue`: a parameter's normalized value is cached under the label. */
  function Cache(m: map<string, Value>, key: string, e: TreeNode): map<string, Value> {
    if e.kind == Parameter then m[key := Normalize(e)] else m
  }

  /** The parameter map after each registration, in order, has cached its value. */
  function ApplyRegistrations(m: map<string, Value>, rs: seq<Registration>): map<string, Value>
    decreases |rs|
  {
    if |rs| == 0 then m
    else ApplyRegistrations(Cache(m, rs[0].entry.name, rs[0].element), rs[1..])
  }

  lemma {:induction false} ApplyAppend(m: map<string, Value>, a: seq<Registration>, b: seq<Registration>)
    ensures ApplyRegistrations(m, a + b) == ApplyRegistrations(ApplyRegistrations(m, a), b)
    decreases |a|
  {
    if |a| > 0 {
      assert (a + b)[0] == a[0] && (a + b)[1..] == a[1..] + b;
      ApplyAppend(Cache(m, a[0].entry.name, a[0].element), a[1..], b);
    } else {
      assert a + b == b;
    }
  }

  /** Applying registrations keeps every label it does not register. */
  lemma {:induction false} ApplyKeepsOthers(m: map<string, Value>, rs: seq<Registration>, key: string)
    requires forall k :: 0 <= k < |rs| ==> rs[k].entry.name != key
    ensures key in m ==> key in ApplyRegistrations(m, rs) && ApplyRegistrations(m, rs)[key] == m[key]
    ensures key !in m ==> key !in ApplyRegistrations(m, rs)
    decreases |rs|
  {
    if |rs| > 0 {
      ApplyKeepsOthers(Cache(m, rs[0].entry.name, rs[0].element), rs[1..], key);
    }
  }

  /** The 2048 bound: discovery started at or below it never exceeds it. */
  lemma {:induction false} WalkNodeBound(f: Filters, n: TreeNode, identifiers: string, depth: nat, count: nat)
    requires count <= MaxMonitored
    ensures count + |WalkNode(f, n, identifiers, depth, count)| <= MaxMonitored
    decreases n, 1
  {
    if IsContainer(n) && count < MaxMonitored {
      WalkChildrenBound(f, n, 0, identifiers, depth, count);
    }
  }

  lemma {:induction false} WalkChildBound(f: Filters, c: TreeNode, identifiers: string, depth: nat, count: nat)
    requires count <= MaxMonitored
    ensures count + |WalkChild(f, c, identifiers, depth, count)| <= MaxMonitored
    decreases c, 2
  {
    if !(SkippedOffline(c) || !Descends(f.scopes, c, depth)) {
      WalkNodeBound(f, c, ChildLabel(identifiers, c), depth + 1, count);
    }
  }

  lemma {:induction false} WalkChildrenBound(f: Filters, parent: TreeNode, i: nat, identifiers: string, depth: nat, count: nat)
    requires i <= |parent.children| && count <= MaxMonitored
    ensures count + |WalkChildren(f, parent, i, identifiers, depth, count)| <= MaxMonitored
    decreases parent, 0, |parent.children| - i
  {
    if i < |parent.children| {
      var here := WalkChild(f, parent.children[i], identifiers, depth, count);
      WalkChildBound(f, parent.children[i], identifiers, depth, count);
      WalkChildrenBound(f, parent, i + 1, identifiers, depth, count + |here|);
    }
  }

  /** A registration as discovery makes it: a qualifying parameter under a label extending `identifiers`. */
  predicate SoundRegistration(f: Filters, identifiers: string, r: Registration) {
    r.element.kind == Parameter &&
    r.entry.id == r.element.path &&
    LeafQualifies(f, r.element, r.entry.name) &&
    identifiers <= r.entry.name
  }

  lemma PrefixTransitive(a: string, b: string, c: string)
    requires a <= b && b <= c
    ensures a <= c
  {
    assert c[..|a|] == b[..|a|];
  }

  /** Every registration discovery makes is sound: filters hold and labels extend the parent's. */
  lemma {:induction false} WalkNodeSound(f: Filters, n: TreeNode, identifiers: string, depth: nat, count: nat)
    ensures forall r :: r in WalkNode(f, n, identifiers, depth, count) ==> SoundRegistration(f, identifiers, r)
    decreases n, 1
  {
    if IsContainer(n) && count < MaxMonitored {
      WalkChildrenSound(f, n, 0, identifiers, depth, count);
    }
  }

  lemma {:induction false} WalkChildSound(f: Filters, c: TreeNode, identifiers: string, depth: nat, count: nat)
    ensures forall r :: r in WalkChild(f, c, identifiers, depth, count) ==> SoundRegistration(f, identifiers, r)
    decreases c, 2
  {
    if !(SkippedOffline(c) || !Descends(f.scopes, c, depth)) {
      var cl := ChildLabel(identifiers, c);
      WalkNodeSound(f, c, cl, depth + 1, count);
      assert identifiers <= cl;
      forall r | r in WalkChild(f, c, identifiers, depth, count) ensures SoundRegistration(f, identifiers, r) {
        assert r in WalkNode(f, c, cl, depth + 1, count);
        assert SoundRegistration(f, cl, r);
        PrefixTransitive(identifiers, cl, r.entry.name);
      }
    }
  }

  lemma {:induction false} WalkChildrenSound(f: Filters, parent: TreeNode, i: nat, identifiers: string, depth: nat, count: nat)
    requires i <= |parent.children|
    ensures forall r :: r in WalkChildren(f, parent, i, identifiers, depth, count) ==> SoundRegistration(f, identifiers, r)
    decreases parent, 0, |parent.children| - i
  {
    if i < |parent.children| {
      var here := WalkChild(f, parent.children[i], identifiers, depth, count);
      WalkChildSound(f, parent.children[i], identifiers, depth, count);
      WalkChildrenSound(f, parent, i + 1, identifiers, depth, count + |here|);
    }
  }

  /** A parameter child is registered whether or not it is online. */
  lemma OfflineParameterRegistered(f: Filters, parent: TreeNode, i: nat, identifiers: string, depth: nat, count: nat)
    requires i < |parent.children| && count < MaxMonitored
    requires parent.children[i].kind == Parameter && !parent.children[i].isOnline
    requires Descends(f.scopes, parent.children[i], depth)
    requires LeafQualifies(f, parent.children[i], ChildLabel(identifiers, parent.children[i]))
    ensures var c := parent.children[i];
      WalkChildren(f, parent, i, identifiers, depth, count) ==
        [Registration(MonitoredParameter(c.path, ChildLabel(identifiers, c)), c)] +
        WalkChildren(f, parent, i + 1, identifiers, depth, count + 1)
  {
    var c := parent.children[i];
    assert WalkChild(f, c, identifiers, depth, count) ==
      [Registration(MonitoredParameter(c.path, ChildLabel(identifiers, c)), c)];
  }

  /** An offline container child contributes nothing, whatever lies below it. */
  lemma OfflineNodeSkipped(f: Filters, parent: TreeNode, i: nat, identifiers: string, depth: nat, count: nat)
    requires i < |parent.children| && SkippedOffline(parent.children[i])
    ensures WalkChildren(f, parent, i, identifiers, depth, count) == WalkChildren(f, parent, i + 1, identifiers, depth, count)
  {
  }

  /** With no scopes, every child that is not an offline container is walked one level deeper under its label. */
  lemma NoScopesWalksEveryRetainedChild(f: Filters, c: TreeNode, identifiers: string, depth: nat, count: nat)
    requires |f.scopes| == 0 && !SkippedOffline(c)
    ensures WalkChild(f, c, identifiers, depth, count) == WalkNode(f, c, ChildLabel(identifiers, c), depth + 1, count)
  {
  }

  /** Under the empty label a child's label is its identifier without the first `#`, or `''` when it has none. */
  lemma TopLevelLabelExample(c: TreeNode)
    ensures ChildLabel("", c.(identifier := Some("#Gain"))) == "Gain"
    ensures ChildLabel("", c.(identifier := None)) == ""
  {
    assert '#' in "#Gain" && Text.FirstIndex("#Gain", '#') == 0;
    assert "#Gain"[1..] == "Gain";
  }

  /**
    Under a non-empty label a child's label is the parent's, a `.`, and the
    identifier without its first `#`; `undefined` stands for a missing one.
   */
  lemma NestedLabelExample(c: TreeNode)
    ensures ChildLabel("Main", c.(identifier := Some("Level#1#"))) == "Main.Level1#"
    ensures ChildLabel("Main", c.(identifier := None)) == "Main.undefined"
  {
    var id := "Level#1#";
    assert id[5] == '#' && id[..5] == "Level" && '#' !in id[..5];
    assert Text.FirstIndex(id, '#') == 5;
    assert id[6..] == "1#";
  }

  /** No text contains a longer one. */
  lemma {:induction false} ContainsLonger(s: string, sub: string)
    requires |sub| > |s|
    ensures !Text.Contains(s, sub)
    decreases |s|
  {
    if |s| > 0 {
      ContainsLonger(s[1..], sub);
    }
  }

  /** With no filter, or with a node filter only, on a parameter "Gain" reached under the label "Main.Gain". */
  lemma NodeFilterExample(leaf: TreeNode)
    requires leaf.identifier == Some("Gain")
    ensures LeafQualifies(Filters([], "", [], "", []), leaf, "Main.Gain")
    ensures LeafQualifies(Filters([], "Main", ["Main"], "", []), leaf, "Main.Gain")
    ensures !LeafQualifies(Filters([], "Main.Gain.Aux", ["Main.Gain.Aux"], "", []), leaf, "Main.Gain")
  {
    assert "Main" <= "Main.Gain";
    var f := Filters([], "Main", ["Main"], "", []);
    assert Text.Contains("Main.Gain", f.nodeFilter[0]);
    ContainsLonger("Main.Gain", "Main.Gain.Aux");
  }

  /** A parameter filter, with and without a node filter, on a parameter "Gain" reached under "Main.Gain". */
  lemma ParamFilterExample(leaf: TreeNode)
    requires leaf.identifier == Some("Gain")
    ensures LeafQualifies(Filters([], "Main", ["Main"], "Mute,Gain", ["Mute", "Gain"]), leaf, "Main.Gain")
    ensures !LeafQualifies(Filters([], "Main", ["Main"], "Mute", ["Mute"]), leaf, "Main.Gain")
    ensures !LeafQualifies(Filters([], "", [], "Mute", ["Mute"]), leaf, "Main.Gain")
  {
    assert "Main" <= "Main.Gain";
    var g := Filters([], "Main", ["Main"], "Mute,Gain", ["Mute", "Gain"]);
    assert Text.Contains("Main.Gain", g.nodeFilter[0]) && leaf.identifier == Some(g.paramFilter[1]);
  }

  /** A leaf reached at depth 2 as "1.2.3" is admitted by scope "1.2" but not by scope "1.5". */
  lemma ScopeExample()
    ensures ScopeAdmits(ParsingPath("1.2", ["1", "2"]), "1.2.3", 2)
    ensures !ScopeAdmits(ParsingPath("1.5", ["1", "5"]), "1.2.3", 2)
    ensures ScopeAdmits(ParsingPath("1.2", ["1", "2"]), "1", 0)
  {
    assert "1.2.3"[..3] == "1.2";
    assert "1.2.3"[..3] != "1.5";
    assert "1.2"[..1] == "1";
  }

  /** The prefix test is on text, not on segments: scope "1.2" also admits "1.20". */
  lemma ScopeIsTextPrefix()
    ensures ScopeAdmits(ParsingPath("1.2", ["1", "2"]), "1.20", 2)
  {
    assert "1.20"[..3] == "1.2";
  }

  /** Explicit registration: each configured path whose child resolves, in order. */
  function ExplicitRegistrations(root: TreeNode, params: seq<MonitoredParameter>): seq<Registration>
    decreases |params|
  {
    if |params| == 0 then []
    else
      var init := ExplicitRegistrations(root, params[..|params| - 1]);
      var p := params[|params| - 1];
      match Resolve(root, p.id)
      case Found(e) => init + [Registration(p, e)]
      case _ => init
  }

  /** Explicit registration appends at most one entry per configured path. */
  lemma {:induction false} ExplicitRegistrationsBound(root: TreeNode, params: seq<MonitoredParameter>)
    ensures |ExplicitRegistrations(root, params)| <= |params|
    decreases |params|
  {
    if |params| > 0 {
      ExplicitRegistrationsBound(root, params[..|params| - 1]);
    }
  }

  /** Every explicit registration is a configured entry whose path resolves to the registered element. */
  lemma {:induction false} ExplicitRegistrationsSound(root: TreeNode, params: seq<MonitoredParameter>)
    ensures forall r :: r in ExplicitRegistrations(root, params) ==>
      r.entry in params && Resolve(root, r.entry.id) == Found(r.element)
    decreases |params|
  {
    if |params| > 0 {
      var init := params[..|params| - 1];
      ExplicitRegistrationsSound(root, init);
      assert forall p :: p in init ==> p in params;
    }
  }

  /** When every configured path resolves, the appended entries are exactly the configured ones, in order. */
  lemma {:induction false} ExplicitRegistrationsComplete(root: TreeNode, params: seq<MonitoredParameter>)
    requires forall k :: 0 <= k < |params| ==> Resolve(root, params[k].id).Found?
    ensures Entries(ExplicitRegistrations(root, params)) == params
    decreases |params|
  {
    if |params| > 0 {
      var init := params[..|params| - 1];
      var p := params[|params| - 1];
      forall k | 0 <= k < |init| ensures Resolve(root, init[k].id).Found? {
        assert init[k] == params[k];
      }
      ExplicitRegistrationsComplete(root, init);
      EntriesSnoc(ExplicitRegistrations(root, init), Registration(p, Resolve(root, p.id).element), init);
      LastRejoins(params);
    }
  }

  /** Appending a registration for `p` to registrations whose entries are `es` gives entries `es + [p]`. */
  lemma EntriesSnoc(regs: seq<Registration>, r: Registration, es: seq<MonitoredParameter>)
    requires Entries(regs) == es
    ensures Entries(regs + [r]) == es + [r.entry]
  {
    EntriesAppend(regs, [r]);
    assert Entries([r]) == [r.entry];
  }

  /**
    A non-empty list is its prefix and its last item. Stated on its own so
    that the step of `ExplicitRegistrationsComplete` proves it away from the
    resolution terms, which make the inline assertion far costlier.
   */
  lemma LastRejoins(s: seq<MonitoredParameter>)
    requires |s| > 0
    ensures s[..|s| - 1] + [s[|s| - 1]] == s
  {
  }
}
