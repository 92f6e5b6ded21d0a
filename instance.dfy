/**
  The module instance: its derived configuration lists, the monitored list
  and the map of cached parameter values, updated in place by the setup
  steps, the tree walk, explicit registration and value-change
  notifications. The client's tree is passed in as `root`.
 */
module Instance {
  import opened Wrappers
  import opened Js
  import opened EmberTree
  import opened PathResolver
  import opened ValueNormalizer
  import opened Discovery
  import Text

  /** The configuration as entered; an empty string is an unset (falsy) field. */
  datatype EmberPlusConfig = EmberPlusConfig(
    autoParse: bool,
    autoParsePathsString: string,
    parseNodeFilterString: string,
    parseParamFilterString: string,
    monitoredParametersString: string)

  /** The comma-separated items of a configured string; none when it is unset. */
  function CommaItems(s: string): seq<string> {
    if s == "" then [] else Text.Split(s, ',')
  }

  /** A configured string is exactly its items joined by commas, and no item holds a comma. */
  lemma CommaItemsRejoin(s: string)
    ensures Text.Join(CommaItems(s), ',') == s
    ensures forall k :: 0 <= k < |CommaItems(s)| ==> ',' !in CommaItems(s)[k]
  {
    if s != "" {
      Text.JoinSplit(s, ',');
    }
  }

  /** Each scope item with its `.`-separated segments. */
  function ScopesOf(items: seq<string>): seq<ParsingPath> {
    seq(|items|, k requires 0 <= k < |items| => ParsingPath(items[k], Text.Split(items[k], '.')))
  }

  /** Every scope keeps its item as path, and its segments re-join to that path. */
  lemma ScopesRejoin(items: seq<string>)
    ensures |ScopesOf(items)| == |items|
    ensures forall k :: 0 <= k < |items| ==>
      ScopesOf(items)[k].path == items[k] && Text.Join(ScopesOf(items)[k].elements, '.') == items[k]
  {
    forall k | 0 <= k < |items|
      ensures Text.Join(ScopesOf(items)[k].elements, '.') == items[k]
    {
      Text.JoinSplit(items[k], '.');
    }
  }

  /** Each monitored-path item as an entry whose path and label are both the item. */
  function ExplicitEntriesOf(items: seq<string>): (es: seq<MonitoredParameter>)
    ensures |es| == |items|
    ensures forall k :: 0 <= k < |items| ==> es[k].id == items[k] && es[k].name == items[k]
  {
    seq(|items|, k requires 0 <= k < |items| => MonitoredParameter(items[k], items[k]))
  }

  /** The paths of a list of entries. */
  function Ids(es: seq<MonitoredParameter>): seq<string> {
    seq(|es|, k requires 0 <= k < |es| => es[k].id)
  }

  /** The labels of a list of entries. */
  function Labels(es: seq<MonitoredParameter>): seq<string> {
    seq(|es|, k requires 0 <= k < |es| => es[k].name)
  }

  /**
    The entries configured from a monitored-paths string give the string
    back: their paths, and likewise their labels, joined by commas.
   */
  lemma ExplicitEntriesRejoin(s: string)
    ensures Text.Join(Ids(ExplicitEntriesOf(CommaItems(s))), ',') == s
    ensures Text.Join(Labels(ExplicitEntriesOf(CommaItems(s))), ',') == s
  {
    var items := CommaItems(s);
    assert Ids(ExplicitEntriesOf(items)) == items;
    assert Labels(ExplicitEntriesOf(items)) == items;
    CommaItemsRejoin(s);
  }

  class EmberPlusInstance {
    var config: EmberPlusConfig
    var autoParsePaths: seq<ParsingPath>
    var parseNodeFilter: seq<string>
    var parseParamFilter: seq<string>
    var parseParameterPaths: seq<MonitoredParameter>
    var monitoredParameters: seq<MonitoredParameter>
    var parameters: map<string, Value>

    /** The part of the configuration the tree walk reads. */
    function CurrentFilters(): Filters
      reads this`config, this`autoParsePaths, this`parseNodeFilter, this`parseParamFilter
    {
      Filters(autoParsePaths, config.parseNodeFilterString, parseNodeFilter,
              config.parseParamFilterString, parseParamFilter)
    }

    /** `init`: store the configuration, then derive the filter and path lists. */
    constructor (config: EmberPlusConfig)
      ensures this.config == config
      ensures autoParsePaths == ScopesOf(CommaItems(config.autoParsePathsString))
      ensures parseNodeFilter == CommaItems(config.parseNodeFilterString)
      ensures parseParamFilter == CommaItems(config.parseParamFilterString)
      ensures parseParameterPaths == ExplicitEntriesOf(CommaItems(config.monitoredParametersString))
      ensures monitoredParameters == [] && parameters == map[]
    {
      this.config := config;
      autoParsePaths, parseNodeFilter, parseParamFilter := [], [], [];
      parseParameterPaths, monitoredParameters := [], [];
      parameters := map[];
      new;
      SetupParseFilters();
      SetupMonitoredParams();
    }

    /** `configUpdated`: re-derive the lists; the cached values are kept. */
    method ConfigUpdated(config: EmberPlusConfig)
      modifies this`config, this`autoParsePaths, this`parseNodeFilter, this`parseParamFilter,
        this`parseParameterPaths, this`monitoredParameters
      ensures this.config == config
      ensures autoParsePaths == ScopesOf(CommaItems(config.autoParsePathsString))
      ensures parseNodeFilter == CommaItems(config.parseNodeFilterString)
      ensures parseParamFilter == CommaItems(config.parseParamFilterString)
      ensures parseParameterPaths == ExplicitEntriesOf(CommaItems(config.monitoredParametersString))
      ensures monitoredParameters == [] && parameters == old(parameters)
    {
      this.config := config;
      SetupParseFilters();
      SetupMonitoredParams();
    }

    /** `setupParseFilters`: reset the three lists, then split each set string. */
    method SetupParseFilters()
      modifies this`autoParsePaths, this`parseNodeFilter, this`parseParamFilter
      ensures autoParsePaths == ScopesOf(CommaItems(config.autoParsePathsString))
      ensures parseNodeFilter == CommaItems(config.parseNodeFilterString)
      ensures parseParamFilter == CommaItems(config.parseParamFilterString)
    {
      parseNodeFilter := [];
      parseParamFilter := [];
      autoParsePaths := [];
      if config.autoParsePathsString != "" {
        autoParsePaths := ScopesOf(Text.Split(config.autoParsePathsString, ','));
      }
      if config.parseNodeFilterString != "" {
        parseNodeFilter := Text.Split(config.parseNodeFilterString, ',');
      }
      if config.parseParamFilterString != "" {
        parseParamFilter := Text.Split(config.parseParamFilterString, ',');
      }
    }

    /** `setupMonitoredParams`: empty the monitored list; push one entry per configured path. */
    method SetupMonitoredParams()
      modifies this`monitoredParameters, this`parseParameterPaths
      ensures monitoredParameters == []
      ensures parseParameterPaths == ExplicitEntriesOf(CommaItems(config.monitoredParametersString))
    {
      monitoredParameters := [];
      parseParameterPaths := [];
      if config.monitoredParametersString != "" {
        var params := Text.Split(config.monitoredParametersString, ',');
        for i := 0 to |params|
          invariant monitoredParameters == []
          invariant parseParameterPaths == ExplicitEntriesOf(params[..i])
        {
          parseParameterPaths := parseParameterPaths + [MonitoredParameter(params[i], params[i])];
        }
        assert params[..|params|] == params;
      }
    }

    /** `handleChangedValue`: cache the normalized value of a parameter under `key`. */
    method HandleChangedValue(key: string, node: TreeNode)
      modifies this`parameters
      ensures parameters == Cache(old(parameters), key, node)
      ensures node.kind == Parameter ==> key in parameters && parameters[key] == Normalize(node)
    {
      if node.kind == Parameter {
        parameters := parameters[key := Normalize(node)];
      }
    }

    /** `_addMonitoredParameter`: push the entry, then cache the current value. */
    method AddMonitoredParameter(paramNode: TreeNode, identifiers: string)
      modifies this`monitoredParameters, this`parameters
      ensures monitoredParameters == old(monitoredParameters) + [MonitoredParameter(paramNode.path, identifiers)]
      ensures parameters == Cache(old(parameters), identifiers, paramNode)
    {
      monitoredParameters := monitoredParameters + [MonitoredParameter(paramNode.path, identifiers)];
      HandleChangedValue(identifiers, paramNode);
    }

    /** The scope loop: the index of the first scope admitting `path` at `depth`, or -1. */
    method FirstAdmittingScope(path: string, depth: nat) returns (k: int)
      ensures -1 <= k < |autoParsePaths|
      ensures k >= 0 ==> ScopeAdmits(autoParsePaths[k], path, depth)
      ensures forall j :: 0 <= j < (if k >= 0 then k else |autoParsePaths|) ==>
        !ScopeAdmits(autoParsePaths[j], path, depth)
    {
      var j := 0;
      while j < |autoParsePaths|
        invariant 0 <= j <= |autoParsePaths|
        invariant forall i :: 0 <= i < j ==> !ScopeAdmits(autoParsePaths[i], path, depth)
      {
        if ScopeAdmits(autoParsePaths[j], path, depth) {
          return j;
        }
        j := j + 1;
      }
      return -1;
    }

    /** The filter loops of the leaf branch: does the parameter reached under `identifiers` qualify? */
    method QualifiesForRegistration(leaf: TreeNode, identifiers: string) returns (b: bool)
      ensures b == LeafQualifies(CurrentFilters(), leaf, identifiers)
    {
      if config.parseNodeFilterString != "" {
        var i := 0;
        while i < |parseNodeFilter|
          invariant 0 <= i <= |parseNodeFilter|
          invariant forall k :: 0 <= k < i ==>
            (!Text.Contains(identifiers, parseNodeFilter[k]) ||
             (|parseParamFilter| > 0 && !MatchesParamFilter(CurrentFilters(), leaf)))
        {
          if Text.Contains(identifiers, parseNodeFilter[i]) {
            if |parseParamFilter| > 0 {
              var j := 0;
              while j < |parseParamFilter|
                invariant 0 <= j <= |parseParamFilter|
                invariant forall k :: 0 <= k < j ==> leaf.identifier != Some(parseParamFilter[k])
              {
                if leaf.identifier == Some(parseParamFilter[j]) {
                  return true;
                }
                j := j + 1;
              }
            } else {
              return true;
            }
          }
          i := i + 1;
        }
        return false;
      } else if config.parseParamFilterString != "" {
        var j := 0;
        while j < |parseParamFilter|
          invariant 0 <= j <= |parseParamFilter|
          invariant forall k :: 0 <= k < j ==> leaf.identifier != Some(parseParamFilter[k])
        {
          if leaf.identifier == Some(parseParamFilter[j]) {
            return true;
          }
          j := j + 1;
        }
        return false;
      } else {
        return true;
      }
    }

    /**
      `handleEmberTreeParsing`: walk the tree below `node`, children in order,
      and register the qualifying parameters, never past 2048 entries.
     */
    method HandleEmberTreeParsing(node: TreeNode, identifiers: string, depth: nat)
      modifies this`monitoredParameters, this`parameters
      ensures monitoredParameters == old(monitoredParameters) +
        Entries(WalkNode(CurrentFilters(), node, identifiers, depth, old(|monitoredParameters|)))
      ensures parameters == ApplyRegistrations(old(parameters),
        WalkNode(CurrentFilters(), node, identifiers, depth, old(|monitoredParameters|)))
      ensures old(|monitoredParameters|) <= MaxMonitored ==> |monitoredParameters| <= MaxMonitored
      decreases node, 1
    {
      if |monitoredParameters| <= MaxMonitored {
        WalkNodeBound(CurrentFilters(), node, identifiers, depth, |monitoredParameters|);
      }
      if IsContainer(node) && |monitoredParameters| < MaxMonitored {
        ParseChildren(node, identifiers, depth);
      } else if node.kind == Parameter && |monitoredParameters| < MaxMonitored {
        var qualifies := QualifiesForRegistration(node, identifiers);
        if qualifies {
          AddMonitoredParameter(node, identifiers);
        }
      }
    }

    /** The children loop of a container: each child in order, each seeing what its elder siblings added. */
    method ParseChildren(node: TreeNode, identifiers: string, depth: nat)
      modifies this`monitoredParameters, this`parameters
      ensures monitoredParameters == old(monitoredParameters) +
        Entries(WalkChildren(CurrentFilters(), node, 0, identifiers, depth, old(|monitoredParameters|)))
      ensures parameters == ApplyRegistrations(old(parameters),
        WalkChildren(CurrentFilters(), node, 0, identifiers, depth, old(|monitoredParameters|)))
      decreases node, 0
    {
      ghost var f := CurrentFilters();
      ghost var m0, p0 := monitoredParameters, parameters;
      ghost var regs := WalkChildren(f, node, 0, identifiers, depth, |m0|);
      ghost var done: seq<Registration> := [];
      var i := 0;
      while i < |node.children|
        invariant 0 <= i <= |node.children|
        invariant regs == done + WalkChildren(f, node, i, identifiers, depth, |monitoredParameters|)
        invariant monitoredParameters == m0 + Entries(done)
        invariant parameters == ApplyRegistrations(p0, done)
      {
        ghost var m, p := monitoredParameters, parameters;
        ghost var here := WalkChild(f, node.children[i], identifiers, depth, |m|);
        ParseChild(node.children[i], identifiers, depth);
        RegisterInTurn(done, here, m0, p0, m, p, monitoredParameters, parameters);
        WalkStep(f, node, i, identifiers, depth, regs, done, |m|, |monitoredParameters|);
        done := done + here;
        i := i + 1;
      }
      assert done + [] == done;
    }

    /** One child of the walk: skip an offline node or one outside every scope, else descend. */
    method ParseChild(child: TreeNode, identifiers: string, depth: nat)
      modifies this`monitoredParameters, this`parameters
      ensures monitoredParameters == old(monitoredParameters) +
        Entries(WalkChild(CurrentFilters(), child, identifiers, depth, old(|monitoredParameters|)))
      ensures parameters == ApplyRegistrations(old(parameters),
        WalkChild(CurrentFilters(), child, identifiers, depth, old(|monitoredParameters|)))
      decreases child, 2
    {
      if !(child.kind == Node && !child.isOnline) {
        var descend := true;
        if |autoParsePaths| > 0 {
          var k := FirstAdmittingScope(child.path, depth);
          descend := k >= 0;
        }
        assert descend == Descends(CurrentFilters().scopes, child, depth);
        if descend {
          HandleEmberTreeParsing(child, ChildLabel(identifiers, child), depth + 1);
        }
      }
    }

    /**
      `registerParameters`: for each configured path, resolve the parent and
      the child; a failing path is skipped, a resolved one is pushed (with no
      2048 check) and its value cached.
     */
    method RegisterParameters(root: TreeNode)
      modifies this`monitoredParameters, this`parameters
      ensures monitoredParameters == old(monitoredParameters) +
        Entries(ExplicitRegistrations(root, parseParameterPaths))
      ensures parameters == ApplyRegistrations(old(parameters), ExplicitRegistrations(root, parseParameterPaths))
    {
      for i := 0 to |parseParameterPaths|
        invariant monitoredParameters == old(monitoredParameters) +
          Entries(ExplicitRegistrations(root, parseParameterPaths[..i]))
        invariant parameters == ApplyRegistrations(old(parameters), ExplicitRegistrations(root, parseParameterPaths[..i]))
      {
        var param := parseParameterPaths[i];
        ghost var done := ExplicitRegistrations(root, parseParameterPaths[..i]);
        assert parseParameterPaths[..i + 1][..i] == parseParameterPaths[..i];
        var resolved := Resolve(root, param.id);
        if resolved.Found? {
          ghost var r := Registration(param, resolved.element);
          assert ExplicitRegistrations(root, parseParameterPaths[..i + 1]) == done + [r];
          monitoredParameters := monitoredParameters + [param];
          HandleChangedValue(param.name, resolved.element);
          EntriesAppend(done, [r]);
          ApplyAppend(old(parameters), done, [r]);
        }
      }
      assert parseParameterPaths[..|parseParameterPaths|] == parseParameterPaths;
    }

    /** The `connected` handler once the root directory is in: auto-parse if enabled, then explicit paths. */
    method OnConnected(root: TreeNode)
      modifies this`monitoredParameters, this`parameters
      ensures var walk := if config.autoParse
          then WalkNode(CurrentFilters(), root, "", 0, old(|monitoredParameters|)) else [];
        var explicit := ExplicitRegistrations(root, parseParameterPaths);
        monitoredParameters == old(monitoredParameters) + Entries(walk) + Entries(explicit) &&
        parameters == ApplyRegistrations(ApplyRegistrations(old(parameters), walk), explicit)
    {
      if config.autoParse {
        HandleEmberTreeParsing(root, "", 0);
      }
      RegisterParameters(root);
    }
  }
}
