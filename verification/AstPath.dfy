/** Parsed paths and their resolution (src/ast_path.hpp, src/ast_path.cpp, src/ast_values.hpp).

    dataPath_ and schemaPath_ are copied by value everywhere in the source, so they are values
    here; the loops that resolve one path against another are methods proved against Resolve. */
module AstPath {
  import opened Wrappers

  /** leaf_data_: the value of a leaf. Foreign stands for the alternatives whose parsers are not
      modelled (numbers, decimals, binary, instance identifiers); shown is what printing gives. */
  datatype LeafData =
    | Str(text: string)
    | Enum(name: string)
    | Bits(bits: seq<string>)
    | Identity(mod: Option<string>, name: string)
    | Foreign(kind: string, shown: string)

  type ListInstance = map<string, LeafData>

  datatype Suffix =
    | Container(name: string)
    | ListElement(name: string, keys: ListInstance)
    | NodeUp
    | Leaf(name: string)
    | LeafListElement(name: string, value: LeafData)
    | LeafList(name: string)
    | List(name: string)
    | Rpc(name: string)
    | Action(name: string)

  datatype DataNode = DataNode(prefix: Option<string>, suffix: Suffix)

  datatype Scope = Absolute | Relative

  datatype DataPath = DataPath(scope: Scope, nodes: seq<DataNode>)

  // ---- which sequences of nodes the constructors accept ----

  /** Nodes after which validatePathNodes<dataNode_> allows nothing. */
  predicate EndsDataPath(n: DataNode) {
    n.suffix.Leaf? || n.suffix.LeafList? || n.suffix.LeafListElement? || n.suffix.List?
  }

  /** Nodes after which validatePathNodes<schemaNode_> allows nothing. */
  predicate EndsSchemaPath(n: DataNode) {
    n.suffix.Leaf? || n.suffix.LeafList?
  }

  predicate ValidDataNodes(nodes: seq<DataNode>) {
    forall i :: 0 <= i < |nodes| - 1 ==> !EndsDataPath(nodes[i])
  }

  predicate ValidSchemaNodes(nodes: seq<DataNode>) {
    forall i :: 0 <= i < |nodes| - 1 ==> !EndsSchemaPath(nodes[i])
  }

  // ---- pushing fragments ----

  /** impl_pushFragment: going up from the root stays at the root. */
  function Push(nodes: seq<DataNode>, fragment: DataNode): seq<DataNode> {
    if fragment.suffix.NodeUp? then
      if nodes == [] then [] else nodes[..|nodes| - 1]
    else nodes + [fragment]
  }

  /** dataPath_::pushFragment; None is the std::logic_error of validatePathNodes. */
  function PushFragment(nodes: seq<DataNode>, fragment: DataNode): Option<seq<DataNode>> {
    var pushed := Push(nodes, fragment);
    if ValidDataNodes(pushed) then Some(pushed) else None
  }

  function PushSchemaFragment(nodes: seq<DataNode>, fragment: DataNode): Option<seq<DataNode>> {
    var pushed := Push(nodes, fragment);
    if ValidSchemaNodes(pushed) then Some(pushed) else None
  }

  /** The effect of pushing all fragments in turn, or None when a push throws. */
  function Resolve(start: seq<DataNode>, fragments: seq<DataNode>): Option<seq<DataNode>>
    decreases |fragments|
  {
    if fragments == [] then Some(start)
    else
      match PushFragment(start, fragments[0])
      case None => None
      case Some(next) => Resolve(next, fragments[1..])
  }

  function ResolveSchema(start: seq<DataNode>, fragments: seq<DataNode>): Option<seq<DataNode>>
    decreases |fragments|
  {
    if fragments == [] then Some(start)
    else
      match PushSchemaFragment(start, fragments[0])
      case None => None
      case Some(next) => ResolveSchema(next, fragments[1..])
  }

  /** realPath: an absolute path is returned as it is. */
  function RealPath(cwd: DataPath, newPath: DataPath): Option<DataPath> {
    if newPath.scope.Absolute? then Some(newPath)
    else
      match Resolve(cwd.nodes, newPath.nodes)
      case None => None
      case Some(nodes) => Some(DataPath(cwd.scope, nodes))
  }

  /** impl_toCanonicalPath: an absolute path is resolved from the root. */
  function CanonicalPath(cwd: DataPath, path: DataPath): Option<DataPath> {
    var start := if path.scope.Absolute? then DataPath(Absolute, []) else cwd;
    match Resolve(start.nodes, path.nodes)
    case None => None
    case Some(nodes) => Some(DataPath(start.scope, nodes))
  }

  method ComputeRealPath(cwd: DataPath, newPath: DataPath) returns (r: Option<DataPath>)
    ensures r == RealPath(cwd, newPath)
  {
    if newPath.scope.Absolute? {
      return Some(newPath);
    }
    r := ComputePushAll(cwd, newPath.nodes);
  }

  method ComputeCanonicalPath(cwd: DataPath, path: DataPath) returns (r: Option<DataPath>)
    ensures r == CanonicalPath(cwd, path)
  {
    var res := cwd;
    if path.scope.Absolute? {
      res := DataPath(Absolute, []);
    }
    r := ComputePushAll(res, path.nodes);
  }

  /** The loop shared by realPath and impl_toCanonicalPath. */
  method ComputePushAll(start: DataPath, fragments: seq<DataNode>) returns (r: Option<DataPath>)
    ensures r == match Resolve(start.nodes, fragments)
                 case None => None
                 case Some(nodes) => Some(DataPath(start.scope, nodes))
  {
    var res := start;
    for i := 0 to |fragments|
      invariant res.scope == start.scope
      invariant Resolve(res.nodes, fragments[i..]) == Resolve(start.nodes, fragments)
    {
      assert fragments[i..][1..] == fragments[i + 1..];
      var pushed := PushFragment(res.nodes, fragments[i]);
      if pushed.None? {
        return None;
      }
      res := res.(nodes := pushed.value);
    }
    return Some(res);
  }

  // ---- schema paths ----

  /** dataNodeToSchemaNode: schema nodes share the suffix types, without element values. */
  function ToSchemaNode(n: DataNode): DataNode {
    match n.suffix
    case ListElement(name, _) => DataNode(n.prefix, List(name))
    case LeafListElement(name, _) => DataNode(n.prefix, LeafList(name))
    case _ => n
  }

  /** dataPathToSchemaPath, on the nodes. */
  function ToSchemaNodes(nodes: seq<DataNode>): (r: seq<DataNode>)
    ensures |r| == |nodes|
    ensures forall i :: 0 <= i < |nodes| ==> r[i] == ToSchemaNode(nodes[i])
  {
    seq(|nodes|, i requires 0 <= i < |nodes| => ToSchemaNode(nodes[i]))
  }

  // ---- laws of resolution ----

  predicate HasNodeUp(nodes: seq<DataNode>) {
    exists i :: 0 <= i < |nodes| && nodes[i].suffix.NodeUp?
  }

  /** Resolving p and then q is resolving p followed by q, exceptions included. */
  lemma {:induction false} ResolveConcat(start: seq<DataNode>, p: seq<DataNode>, q: seq<DataNode>)
    ensures Resolve(start, p + q) == match Resolve(start, p)
                                     case None => None
                                     case Some(mid) => Resolve(mid, q)
    decreases |p|
  {
    if p == [] {
      assert p + q == q;
    } else {
      assert (p + q)[1..] == p[1..] + q;
      match PushFragment(start, p[0])
      case None =>
      case Some(next) => ResolveConcat(next, p[1..], q);
    }
  }

  /** One more fragment, on an action that climbs some levels and then appends nodes. */
  function Extend(action: (nat, seq<DataNode>), last: DataNode): (nat, seq<DataNode>) {
    if !last.suffix.NodeUp? then (action.0, action.1 + [last])
    else if action.1 == [] then (action.0 + 1, [])
    else (action.0, action.1[..|action.1| - 1])
  }

  /** The action of a path on any start: how many levels it climbs, then what it appends. */
  function Climb(fragments: seq<DataNode>): (action: (nat, seq<DataNode>))
    ensures !HasNodeUp(action.1)
  {
    if fragments == [] then (0, [])
    else
      Extend(Climb(fragments[..|fragments| - 1]), fragments[|fragments| - 1])
  }

  function Act(start: seq<DataNode>, action: (nat, seq<DataNode>)): seq<DataNode> {
    (if action.0 <= |start| then start[..|start| - action.0] else []) + action.1
  }

  /** Where no push throws, a path acts on every start by climbing (and saturating at the root)
      and then appending. */
  lemma {:induction false} ResolveIsSaturatingAction(start: seq<DataNode>, fragments: seq<DataNode>)
    requires Resolve(start, fragments).Some?
    ensures Resolve(start, fragments).value == Act(start, Climb(fragments))
    decreases |fragments|
  {
    if fragments != [] {
      var front, last := fragments[..|fragments| - 1], fragments[|fragments| - 1];
      assert front + [last] == fragments;
      ResolveConcat(start, front, [last]);
      ResolveIsSaturatingAction(start, front);
      assert Resolve(start, fragments).value == Push(Act(start, Climb(front)), last);
      PushActs(start, Climb(front), last);
    }
  }

  lemma PushActs(start: seq<DataNode>, action: (nat, seq<DataNode>), last: DataNode)
    ensures Push(Act(start, action), last) == Act(start, Extend(action, last))
  {
    var kept := if action.0 <= |start| then start[..|start| - action.0] else [];
    if last.suffix.NodeUp? {
      if action.1 == [] {
        assert kept + action.1 == kept;
      } else {
        assert (kept + action.1)[..|kept + action.1| - 1] == kept + action.1[..|action.1| - 1];
      }
    } else {
      assert kept + action.1 + [last] == kept + (action.1 + [last]);
    }
  }

  /** Resolution from a start without ".." leaves no "..". */
  lemma {:induction false} ResolveHasNoNodeUp(start: seq<DataNode>, fragments: seq<DataNode>)
    requires !HasNodeUp(start)
    requires Resolve(start, fragments).Some?
    ensures !HasNodeUp(Resolve(start, fragments).value)
    decreases |fragments|
  {
    if fragments != [] {
      ResolveHasNoNodeUp(Push(start, fragments[0]), fragments[1..]);
    }
  }

  /** One fragment is pushed onto a valid path unless it goes down from a leaf, a leaf-list, an
      element of one or a list without keys; every other node may have nodes below it. */
  lemma PushSucceedsIff(nodes: seq<DataNode>, fragment: DataNode)
    requires ValidDataNodes(nodes)
    ensures PushFragment(nodes, fragment).Some?
       <==> || fragment.suffix.NodeUp? || nodes == []
            || (var last := nodes[|nodes| - 1].suffix;
                last.Container? || last.ListElement? || last.Rpc? || last.Action? || last.NodeUp?)
    ensures PushFragment(nodes, fragment).Some? ==>
              PushFragment(nodes, fragment).value
              == if !fragment.suffix.NodeUp? then nodes + [fragment]
                 else if nodes == [] then [] else nodes[..|nodes| - 1]
  {
    if !fragment.suffix.NodeUp? && nodes != [] {
      var pushed := nodes + [fragment];
      assert pushed[|pushed| - 2] == nodes[|nodes| - 1];
    }
  }

  /** The same on schema paths, where a list may have nodes below it. */
  lemma PushSchemaSucceedsIff(nodes: seq<DataNode>, fragment: DataNode)
    requires ValidSchemaNodes(nodes)
    ensures PushSchemaFragment(nodes, fragment).Some?
       <==> || fragment.suffix.NodeUp? || nodes == []
            || !(nodes[|nodes| - 1].suffix.Leaf? || nodes[|nodes| - 1].suffix.LeafList?)
    ensures PushSchemaFragment(nodes, fragment).Some? ==>
              PushSchemaFragment(nodes, fragment).value
              == if !fragment.suffix.NodeUp? then nodes + [fragment]
                 else if nodes == [] then [] else nodes[..|nodes| - 1]
  {
    if !fragment.suffix.NodeUp? && nodes != [] {
      var pushed := nodes + [fragment];
      assert pushed[|pushed| - 2] == nodes[|nodes| - 1];
    }
  }

  /** Leaves, leaf-lists, their elements and key-less lists only ever end a resolved path. */
  lemma {:induction false} ResolveIsValid(start: seq<DataNode>, fragments: seq<DataNode>)
    requires ValidDataNodes(start)
    requires Resolve(start, fragments).Some?
    ensures var nodes := Resolve(start, fragments).value;
            forall i :: 0 <= i < |nodes| - 1 ==>
              var n := nodes[i].suffix;
              n.Container? || n.ListElement? || n.Rpc? || n.Action? || n.NodeUp?
    decreases |fragments|
  {
    if fragments != [] {
      ResolveIsValid(Push(start, fragments[0]), fragments[1..]);
    }
  }

  /** A path without ".." resolves from the root if and only if nothing follows a leaf, a leaf-list,
      an element of one or a list without keys; and then to itself. */
  lemma ResolveFromRootIff(p: seq<DataNode>)
    requires !HasNodeUp(p)
    ensures Resolve([], p).Some?
       <==> forall i :: 0 <= i < |p| - 1 ==>
              var n := p[i].suffix;
              !(n.Leaf? || n.LeafList? || n.LeafListElement? || n.List?)
    ensures Resolve([], p).Some? ==> Resolve([], p).value == p
  {
    ResolveDotFree([], p);
    assert [] + p == p;
    if Resolve([], p).Some? {
      ResolveIsValid([], p);
    }
  }

  lemma {:induction false} ResolveSchemaDotFree(start: seq<DataNode>, fragments: seq<DataNode>)
    requires ValidSchemaNodes(start) && !HasNodeUp(fragments)
    ensures ResolveSchema(start, fragments).Some? <==> ValidSchemaNodes(start + fragments)
    ensures ResolveSchema(start, fragments).Some? ==> ResolveSchema(start, fragments).value == start + fragments
    decreases |fragments|
  {
    if fragments == [] {
      assert start + fragments == start;
    } else {
      var next := start + [fragments[0]];
      assert next == Push(start, fragments[0]);
      assert next + fragments[1..] == start + fragments;
      if ValidSchemaNodes(next) {
        ResolveSchemaDotFree(next, fragments[1..]);
      } else {
        var i :| 0 <= i < |next| - 1 && EndsSchemaPath(next[i]);
        assert (start + fragments)[i] == next[i];
      }
    }
  }

  /** On schema paths nothing follows a leaf or a leaf-list. */
  lemma ResolveSchemaFromRootIff(p: seq<DataNode>)
    requires !HasNodeUp(p)
    ensures ResolveSchema([], p).Some?
       <==> forall i :: 0 <= i < |p| - 1 ==> !(p[i].suffix.Leaf? || p[i].suffix.LeafList?)
    ensures ResolveSchema([], p).Some? ==> ResolveSchema([], p).value == p
  {
    ResolveSchemaDotFree([], p);
    assert [] + p == p;
  }

  /** A path without ".." whose nodes are valid after the start is simply appended. */
  lemma {:induction false} ResolveDotFree(start: seq<DataNode>, fragments: seq<DataNode>)
    requires !HasNodeUp(fragments)
    ensures Resolve(start, fragments).Some? ==> Resolve(start, fragments).value == start + fragments
    ensures ValidDataNodes(start + fragments) ==> Resolve(start, fragments).Some?
    decreases |fragments|
  {
    if fragments == [] {
      assert start + fragments == start;
    } else {
      var next := start + [fragments[0]];
      assert next == Push(start, fragments[0]);
      assert next + fragments[1..] == start + fragments;
      assert forall i :: 0 <= i < |next| ==> next[i] == (start + fragments)[i];
      ResolveDotFree(next, fragments[1..]);
    }
  }

  /** Two data nodes are the same schema node exactly when they differ in keys or values alone. */
  lemma SameSchemaNodeIff(a: DataNode, b: DataNode)
    ensures var (x, y) := (a.suffix, b.suffix);
            var alike :=
              && a.prefix == b.prefix && !x.NodeUp? && !y.NodeUp? && x.name == y.name
              && (x.ListElement? || x.List? ==> y.ListElement? || y.List?)
              && (x.LeafListElement? || x.LeafList? ==> y.LeafListElement? || y.LeafList?)
              && (x.ListElement? || x.List? || x.LeafListElement? || x.LeafList?);
            ToSchemaNode(a) == ToSchemaNode(b) <==> a == b || alike
  {
  }

  /** dataPathToSchemaPath commutes with resolution by pushFragment. */
  lemma {:induction false} ToSchemaCommutesWithResolve(start: seq<DataNode>, fragments: seq<DataNode>)
    requires Resolve(start, fragments).Some?
    ensures ResolveSchema(ToSchemaNodes(start), ToSchemaNodes(fragments))
         == Some(ToSchemaNodes(Resolve(start, fragments).value))
    decreases |fragments|
  {
    if fragments != [] {
      var next := Push(start, fragments[0]);
      assert ToSchemaNodes(next) == Push(ToSchemaNodes(start), ToSchemaNode(fragments[0]));
      assert ToSchemaNodes(fragments[1..]) == ToSchemaNodes(fragments)[1..];
      ToSchemaCommutesWithResolve(next, fragments[1..]);
    }
  }

  /** The interpreter's two resolvers agree on relative paths and on paths without ".."; for an
      absolute path that resolves without an exception they agree exactly when it has no "..". */
  lemma RealPathVersusCanonical(cwd: DataPath, path: DataPath)
    requires CanonicalPath(cwd, path).Some?
    ensures RealPath(cwd, path) == CanonicalPath(cwd, path)
       <==> path.scope.Relative? || !HasNodeUp(path.nodes)
  {
    if path.scope.Absolute? {
      if HasNodeUp(path.nodes) {
        ResolveHasNoNodeUp([], path.nodes);
      } else {
        ResolveDotFree([], path.nodes);
        assert [] + path.nodes == path.nodes;
      }
    }
  }
}
