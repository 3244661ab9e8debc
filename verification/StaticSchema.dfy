/** The schema as a flat index from location strings to children (src/static_schema.cpp,
    fullNodeName of src/utils.cpp). */
module StaticSchema {
  import opened Wrappers
  import opened Text
  import opened AstPath
  import opened PathPrinter
  import opened LeafParsers
  import opened Identities

  datatype NodeKind =
    | ContainerKind(presence: bool)
    | ListKind(keys: set<string>)
    | LeafKind(leafType: LeafType)
    | LeafListKind(leafType: LeafType)
    | RpcKind
    | ActionKind

  datatype NodeInfo = NodeInfo(kind: NodeKind, writable: bool)

  type Children = map<string, NodeInfo>
  type Index = map<string, Children>

  /** ModuleNodePair: an optional module and a local name. */
  datatype NodePair = NodePair(mod: Option<string>, name: string)

  // ---- the index stands for a tree ----

  predicate IsChild(index: Index, location: string, name: string) {
    location in index && name in index[location]
  }

  /** Every location is a root or absolute path, every child name is module-qualified, and every
      child has a location entry of its own. */
  ghost predicate IsTree(index: Index) {
    && "/" in index
    && (forall l :: l in index ==> IsLocation(l))
    && (forall l, n :: IsChild(index, l, n) ==> IsQualified(n) && JoinPaths(l, n) in index)
  }

  /** m_nodes.at(location).emplace(name, info) and then emplace for each new location; an entry
      that exists already is kept. None is the std::out_of_range of an unknown location. */
  function AddNode(index: Index, location: string, name: string, info: NodeInfo, extra: seq<string>): Option<Index> {
    if location !in index then None
    else Some(WithLocations(WithChild(index, location, name, info), [JoinPaths(location, name)] + extra))
  }

  function WithChild(index: Index, location: string, name: string, info: NodeInfo): Index
    requires location in index
  {
    index[location := if name in index[location] then index[location] else index[location][name := info]]
  }

  function WithLocation(index: Index, l: string): Index {
    if l in index then index else index[l := map[]]
  }

  function WithLocations(index: Index, locations: seq<string>): Index
    decreases |locations|
  {
    if locations == [] then index
    else WithLocations(WithLocation(index, locations[0]), locations[1..])
  }

  lemma {:induction false} WithLocationsContents(index: Index, locations: seq<string>)
    ensures var r := WithLocations(index, locations);
            && (forall l :: l in r <==> l in index || l in locations)
            && (forall l :: l in r ==> r[l] == if l in index then index[l] else map[])
    decreases |locations|
  {
    if locations != [] {
      WithLocationsContents(WithLocation(index, locations[0]), locations[1..]);
      assert locations == [locations[0]] + locations[1..];
    }
  }

  lemma WithLocationsStep(index: Index, l: string, more: seq<string>)
    ensures WithLocations(index, [l] + more) == WithLocations(WithLocation(index, l), more)
  {
    assert ([l] + more)[1..] == more;
  }

  lemma WithThreeLocations(index: Index, a: string, b: string, c: string)
    ensures WithLocations(index, [a] + [b, c]) == WithLocation(WithLocation(WithLocation(index, a), b), c)
  {
    WithLocationsStep(index, a, [b, c]);
    assert [b, c] == [b] + [c] && [c] == [c] + [];
    WithLocationsStep(WithLocation(index, a), b, [c]);
    WithLocationsStep(WithLocation(WithLocation(index, a), b), c, []);
  }

  /** One builder call adds exactly the new child and its locations, and leaves every other entry alone. */
  lemma AddNodeContents(index: Index, location: string, name: string, info: NodeInfo, extra: seq<string>)
    requires location in index
    ensures var r := AddNode(index, location, name, info, extra).value;
            && (forall l :: l in r <==> l in index || l == JoinPaths(location, name) || l in extra)
            && (forall l :: l in index && l != location ==> r[l] == index[l])
            && (forall l :: l in r && l !in index ==> r[l] == map[])
            && r[location] == if name in index[location] then index[location] else index[location][name := info]
  {
    var key := JoinPaths(location, name);
    assert forall l :: l in [key] + extra <==> l == key || l in extra;
    WithLocationsContents(WithChild(index, location, name, info), [key] + extra);
  }

  /** ... and keeps the tree. */
  lemma AddNodeKeepsTree(index: Index, location: string, name: string, info: NodeInfo, extra: seq<string>)
    requires IsTree(index) && IsQualified(name) && location in index
    requires forall l :: l in extra ==> IsLocation(l)
    ensures var r := AddNode(index, location, name, info, extra).value;
            && IsTree(r)
            && (forall l, n :: IsChild(r, l, n) <==> IsChild(index, l, n) || (l == location && n == name))
            && (forall l, n :: IsChild(index, l, n) ==> r[l][n] == index[l][n])
            && (!IsChild(index, location, name) ==> r[location][name] == info)
  {
    var r := AddNode(index, location, name, info, extra).value;
    AddNodeContents(index, location, name, info, extra);
    QualifiedIsSlashFree(name);
    JoinedPathSplits(location, name);
    ContentsKeepTree(index, r, location, name, info, extra);
  }

  lemma ContentsKeepTree(index: Index, r: Index, location: string, name: string, info: NodeInfo, extra: seq<string>)
    requires IsTree(index) && IsQualified(name) && location in index && location in r
    requires IsLocation(JoinPaths(location, name)) && forall l :: l in extra ==> IsLocation(l)
    requires forall l :: l in r <==> l in index || l == JoinPaths(location, name) || l in extra
    requires forall l :: l in index && l != location ==> r[l] == index[l]
    requires forall l :: l in r && l !in index ==> r[l] == map[]
    requires r[location] == if name in index[location] then index[location] else index[location][name := info]
    ensures IsTree(r)
    ensures forall l, n :: IsChild(r, l, n) <==> IsChild(index, l, n) || (l == location && n == name)
    ensures forall l, n :: IsChild(index, l, n) ==> r[l][n] == index[l][n]
    ensures !IsChild(index, location, name) ==> r[location][name] == info
  {
    forall l, n
      ensures IsChild(r, l, n) <==> IsChild(index, l, n) || (l == location && n == name)
    {
    }
  }

  /** Distinct (location, name) pairs have distinct keys, so no entry is shared by two children. */
  lemma ChildKeysAreDistinct(index: Index, l: string, n: string, l': string, n': string)
    requires IsTree(index) && IsChild(index, l, n) && IsChild(index, l', n')
    requires JoinPaths(l, n) == JoinPaths(l', n')
    ensures l == l' && n == n'
  {
    QualifiedIsSlashFree(n);
    QualifiedIsSlashFree(n');
    JoinedPathInjective(l, n, l', n');
  }

  // ---- lookups ----

  /** fullNodeName(schemaPath_, ModuleNodePair); None is the failed .value() of a missing prefix. */
  function FullNodeName(location: seq<DataNode>, node: NodePair): Option<string> {
    if node.mod.Some? then Some(node.mod.value + ":" + node.name)
    else if FirstPrefix(location).Some? then Some(FirstPrefix(location).value + ":" + node.name)
    else None
  }

  /** fullNodeName(string, string): the module is cut out of the location string. */
  function FullNodeNameFromString(location: string, node: string): Option<string> {
    if ':' in node then Some(node)
    else
      match ModuleOfLocation(location)
      case None => None
      case Some(mod) => Some(mod + ":" + node)
  }

  function LeadingSlashes(s: string): (n: nat)
    ensures n <= |s|
  {
    if s == "" || s[0] != '/' then 0 else 1 + LeadingSlashes(s[1..])
  }

  /** substr(find_first_not_of('/'), find_first_of(':') - 1), with the wrap-around of npos and of
      0 - 1 read as "to the end". */
  function ModuleOfLocation(location: string): Option<string> {
    var start, colon := LeadingSlashes(location), Find(location, ':');
    if start == |location| then None
    else if colon == |location| || colon == 0 || start + (colon - 1) > |location| then Some(location[start..])
    else Some(location[start..start + (colon - 1)])
  }

  function Lookup(index: Index, location: string, name: Option<string>): Option<NodeInfo> {
    if name.Some? && location in index && name.value in index[location]
    then Some(index[location][name.value]) else None
  }

  /** nodeType(location, node) and leafType(location, node). */
  function InfoByNode(index: Index, location: seq<DataNode>, node: NodePair): Option<NodeInfo> {
    Lookup(index, Location(location), FullNodeName(location, node))
  }

  /** nodeType(path) and isConfig(path). */
  function InfoByString(index: Index, path: string): Option<NodeInfo> {
    var location := StripLastNode(path);
    Lookup(index, location, FullNodeNameFromString(location, LastNode(path)))
  }

  /** listKeys: the string route without fullNodeName; None when the lookup or std::get throws. */
  function ListKeys(index: Index, listPath: seq<DataNode>): Option<set<string>> {
    var path := Location(listPath);
    match Lookup(index, StripLastNode(path), Some(LastNode(path)))
    case Some(NodeInfo(ListKind(keys), _)) => Some(keys)
    case _ => None
  }

  /** leafType(location, node). */
  function LeafTypeAt(index: Index, location: seq<DataNode>, node: NodePair): Option<LeafType> {
    match InfoByNode(index, location, node)
    case Some(NodeInfo(LeafKind(t), _)) => Some(t)
    case Some(NodeInfo(LeafListKind(t), _)) => Some(t)
    case _ => None
  }

  /** How availableNodes lists a child: without its module when that is the top-level one. */
  function ListedAs(location: seq<DataNode>, child: string): NodePair
    requires ':' in child
  {
    if FirstPrefix(location) == Some(ModuleOf(child)) then NodePair(None, LocalNameOf(child))
    else NodePair(Some(ModuleOf(child)), LocalNameOf(child))
  }

  /** How NodeParser spells a listed child. */
  function Spelled(node: NodePair): string {
    (if node.mod.Some? then node.mod.value + ":" else "") + node.name
  }

  // ---- schema paths and their location strings ----

  /** Paths of the tree: identifiers throughout, and a module on the first node. */
  predicate IsSchemaPath(nodes: seq<DataNode>) {
    && (forall n :: n in nodes ==> IsSchemaNode(n))
    && (nodes != [] ==> nodes[0].prefix.Some?)
  }

  predicate IsSchemaNode(n: DataNode) {
    && !n.suffix.NodeUp? && IsIdentifier(n.suffix.name)
    && (n.prefix.Some? ==> IsIdentifier(n.prefix.value))
  }

  /** Adding a node to a path joins its qualified name to the location string. */
  lemma LocationOfChild(nodes: seq<DataNode>, n: DataNode)
    requires nodes != [] || n.prefix.Some?
    ensures Location(nodes + [n]) == JoinPaths(Location(nodes), SchemaPiece(FirstPrefix(nodes + [n]), n, Always))
  {
    var first := FirstPrefix(nodes + [n]);
    var pieces, last := SchemaPieces(first, nodes, Always), SchemaPiece(first, n, Always);
    assert SchemaPieces(first, nodes + [n], Always) == pieces + [last];
    JoinAllConcat("/", pieces, [last]);
    if nodes == [] {
      assert pieces == [];
    } else {
      assert first == FirstPrefix(nodes);
    }
  }

  /** A location string is a location and, below the root, starts with the top-level module. */
  lemma {:induction false} LocationShape(nodes: seq<DataNode>)
    requires IsSchemaPath(nodes)
    ensures IsLocation(Location(nodes))
    ensures nodes != [] ==> StartsWithModule(Location(nodes), nodes[0].prefix.value)
    decreases |nodes|
  {
    if nodes == [] {
      assert Location(nodes) == "/";
    } else {
      var front, last := nodes[..|nodes| - 1], nodes[|nodes| - 1];
      assert nodes == front + [last];
      assert nodes[0] in nodes && last in nodes;
      var piece := SchemaPiece(FirstPrefix(nodes), last, Always);
      LocationOfChild(front, last);
      LocationShape(front);
      PieceIsQualified(FirstPrefix(nodes), last);
      ChildIsLocation(Location(front), piece);
      if front == [] {
        RootChildShape(nodes[0].prefix.value, last.suffix.name);
      } else {
        JoinExtends(Location(front), piece);
      }
    }
  }

  lemma RootChildShape(mod: string, name: string)
    requires IsIdentifier(mod)
    ensures StartsWithModule(JoinPaths("/", mod + ":" + name), mod)
  {
    assert JoinPaths("/", mod + ":" + name) == ("/" + mod + ":") + name;
  }

  lemma JoinExtends(location: string, name: string)
    requires IsLocation(location) && location != "/" && name != ""
    ensures location <= JoinPaths(location, name)
  {
  }

  predicate StartsWithModule(location: string, mod: string) {
    "/" + mod + ":" <= location
  }

  lemma PieceIsQualified(first: Option<string>, n: DataNode)
    requires IsSchemaNode(n) && (n.prefix.Some? || (first.Some? && IsIdentifier(first.value)))
    ensures IsQualified(SchemaPiece(first, n, Always)) && SlashFree(SchemaPiece(first, n, Always))
    ensures ModuleOf(SchemaPiece(first, n, Always)) == if n.prefix.Some? then n.prefix.value else first.value
    ensures LocalNameOf(SchemaPiece(first, n, Always)) == n.suffix.name
  {
    QualifiedNameSplits(if n.prefix.Some? then n.prefix.value else first.value, n.suffix.name);
    QualifiedIsSlashFree(SchemaPiece(first, n, Always));
  }

  lemma ModuleIsCutOut(location: string, mod: string)
    requires IsIdentifier(mod) && StartsWithModule(location, mod)
    ensures ModuleOfLocation(location) == Some(mod)
  {
    var head := "/" + mod + ":";
    assert forall i :: 0 <= i < |mod| ==> head[i + 1] == mod[i];
    assert forall i :: 0 <= i < |head| ==> location[i] == head[i];
    assert location[1..][0] == mod[0];
    assert LeadingSlashes(location[1..]) == 0;
    assert forall i :: 0 < i <= |mod| ==> location[i] == mod[i - 1] != ':';
    assert location[|mod| + 1] == ':';
    assert Find(location, ':') == |mod| + 1;
    assert location[1..|mod| + 1] == mod;
  }

  // ---- the two lookup routes agree ----

  /** For every child listed at a location, the string lookup used by the filters and the
      (location, node) lookup used by the type switch find the entry of that child, with or
      without the same-module prefix written. */
  lemma LookupRoutesAgree(index: Index, location: seq<DataNode>, child: string)
    requires IsTree(index) && IsSchemaPath(location)
    requires IsChild(index, Location(location), child)
    ensures var at, node := Location(location), ListedAs(location, child);
            && InfoByNode(index, location, node) == Some(index[at][child])
            && InfoByString(index, JoinPaths(at, Spelled(node))) == Some(index[at][child])
            && InfoByString(index, JoinPaths(at, child)) == Some(index[at][child])
  {
    var at, node := Location(location), ListedAs(location, child);
    QualifiedNameJoins(child);
    LocationShape(location);
    QualifiedIsSlashFree(child);
    StringRouteFinds(index, at, child, child);
    if node.mod.None? {
      var first := location[0];
      assert first in location;
      ModuleIsCutOut(at, ModuleOf(child));
      assert Spelled(node) == LocalNameOf(child);
      IdentifierHasNoColon(LocalNameOf(child));
    } else {
      assert Spelled(node) == child;
    }
    StringRouteFinds(index, at, Spelled(node), child);
  }

  /** The string route, for a spelling that completes to the child's name. */
  lemma StringRouteFinds(index: Index, at: string, spelling: string, child: string)
    requires IsTree(index) && IsChild(index, at, child) && SlashFree(spelling)
    requires FullNodeNameFromString(at, spelling) == Some(child)
    ensures InfoByString(index, JoinPaths(at, spelling)) == Some(index[at][child])
  {
    JoinedPathSplits(at, spelling);
  }

  /** listKeys finds the keys of a list, whichever way its prefix was written, and throws for every
      other child. */
  lemma ListKeysOfChild(index: Index, location: seq<DataNode>, child: string, n: DataNode)
    requires IsTree(index) && IsSchemaPath(location) && IsChild(index, Location(location), child)
    requires IsSchemaNode(n) && SpellsChild(location, n, child)
    ensures var kind := index[Location(location)][child].kind;
            ListKeys(index, location + [n]) == if kind.ListKind? then Some(kind.keys) else None
    ensures Location(location + [n]) == JoinPaths(Location(location), child)
  {
    ChildLocation(location, n, child);
    LocationShape(location);
    JoinedChildSplits(Location(location), child);
  }

  /** leafType finds the type of a leaf and of a leaf-list, with or without the same-module prefix, and
      throws for every other child. */
  lemma LeafTypeOfChild(index: Index, location: seq<DataNode>, child: string, n: DataNode)
    requires IsTree(index) && IsChild(index, Location(location), child)
    requires !n.suffix.NodeUp? && SpellsChild(location, n, child)
    ensures var kind := index[Location(location)][child].kind;
            LeafTypeAt(index, location, NodePair(n.prefix, n.suffix.name))
              == if kind.LeafKind? || kind.LeafListKind? then Some(kind.leafType) else None
  {
    hide Location;
  }

  /** The two overloads of fullNodeName complete a bare name in the same way, and fail for the same
      location, the root. */
  lemma FullNodeNamesAgree(location: seq<DataNode>, name: string)
    requires IsSchemaPath(location) && ':' !in name
    ensures FullNodeNameFromString(Location(location), name) == FullNodeName(location, NodePair(None, name))
    ensures FullNodeName(location, NodePair(None, name)).None? <==> location == []
  {
    LocationShape(location);
    if location != [] {
      assert location[0] in location;
      ModuleIsCutOut(Location(location), location[0].prefix.value);
    } else {
      assert LeadingSlashes("/") == 1 by { assert "/"[1..] == ""; }
    }
  }

  lemma JoinedChildSplits(location: string, child: string)
    requires IsLocation(location) && IsQualified(child)
    ensures StripLastNode(JoinPaths(location, child)) == location
    ensures LastNode(JoinPaths(location, child)) == child
  {
    QualifiedIsSlashFree(child);
    JoinedPathSplits(location, child);
  }

  /** A node that names the child, with its module written or, when it is the top-level one, left out. */
  predicate SpellsChild(location: seq<DataNode>, n: DataNode, child: string) {
    && !n.suffix.NodeUp?
    && ((n.prefix.Some? && child == n.prefix.value + ":" + n.suffix.name)
        || (&& n.prefix.None? && FirstPrefix(location).Some?
            && child == FirstPrefix(location).value + ":" + n.suffix.name))
  }

  lemma ChildLocation(location: seq<DataNode>, n: DataNode, child: string)
    requires SpellsChild(location, n, child)
    ensures Location(location + [n]) == JoinPaths(Location(location), child)
  {
    LocationOfChild(location, n);
    assert FirstPrefix(location + [n]) == if location == [] then n.prefix else FirstPrefix(location);
    assert SchemaPiece(FirstPrefix(location + [n]), n, Always) == child;
  }

  function InputAndOutput(key: string): seq<string> {
    [JoinPaths(key, "input"), JoinPaths(key, "output")]
  }

  lemma InputAndOutputAreLocations(location: string, name: string)
    requires IsLocation(location) && IsQualified(name)
    ensures var key := JoinPaths(location, name);
            IsLocation(JoinPaths(key, "input")) && IsLocation(JoinPaths(key, "output"))
  {
    WordsAreSlashFree();
    var key := JoinPaths(location, name);
    ChildIsLocation(location, name);
    WordIsLocation(key, "input");
    WordIsLocation(key, "output");
  }

  lemma InputAndOutputAdded(index: Index, location: string, name: string, info: NodeInfo)
    requires location in index
    ensures var key, added := JoinPaths(location, name), AddNode(index, location, name, info, []).value;
            AddNode(index, location, name, info, InputAndOutput(key)) ==
            Some(WithLocation(WithLocation(added, JoinPaths(key, "input")), JoinPaths(key, "output")))
  {
    var key, added := JoinPaths(location, name), WithChild(index, location, name, info);
    WithThreeLocations(added, key, JoinPaths(key, "input"), JoinPaths(key, "output"));
    WithLocationsStep(added, key, []);
  }

  lemma AddRpcContents(index: Index, location: string, name: string)
    requires location in index
    ensures var key := JoinPaths(location, name);
            var r := AddNode(index, location, name, NodeInfo(RpcKind, true), InputAndOutput(key)).value;
            && (name !in index[location] ==> IsChild(r, location, name) && r[location][name].kind.RpcKind?)
            && key in r && JoinPaths(key, "input") in r && JoinPaths(key, "output") in r
  {
    AddNodeContents(index, location, name, NodeInfo(RpcKind, true), InputAndOutput(JoinPaths(location, name)));
  }

  lemma LocationKeepsTree(index: Index, key: string)
    requires IsTree(index) && IsLocation(key)
    ensures IsTree(WithLocation(index, key))
  {
    var r := WithLocation(index, key);
    assert forall l, n :: IsChild(r, l, n) <==> IsChild(index, l, n);
  }

  lemma WordsAreSlashFree()
    ensures SlashFree("input") && SlashFree("output")
  {
  }

  lemma WordIsLocation(key: string, word: string)
    requires IsLocation(key) && SlashFree(word)
    ensures IsLocation(JoinPaths(key, word))
  {
    JoinedPathSplits(key, word);
  }

  lemma ChildIsLocation(location: string, name: string)
    requires IsLocation(location) && IsQualified(name)
    ensures IsLocation(JoinPaths(location, name))
  {
    QualifiedIsSlashFree(name);
    JoinedPathSplits(location, name);
  }

  // ---- the builder ----

  class StaticSchema {
    var nodes: Index
    var modules: set<string>
    var identities: Graph

    ghost predicate Valid()
      reads this
    {
      IsTree(nodes) && IsClosed(identities)
    }

    constructor ()
      ensures Valid()
      ensures nodes == map["/" := map[]] && modules == {} && identities == map[]
    {
      nodes := map["/" := map[]];
      modules := {};
      identities := map[];
    }

    /** addContainer, addList, addLeaf, addLeafList and addAction: the same steps with different
        node information. Returns false for an unknown location, and then changes nothing. Any name
        is taken; a qualified one keeps the index a tree. */
    method AddPlainNode(location: string, name: string, info: NodeInfo) returns (ok: bool)
      modifies `nodes
      ensures ok <==> location in old(nodes)
      ensures AddNode(old(nodes), location, name, info, []) == if ok then Some(nodes) else None
      ensures !ok ==> nodes == old(nodes)
      ensures old(Valid()) && IsQualified(name) ==> Valid()
    {
      if location !in nodes {
        return false;
      }
      if IsTree(nodes) && IsQualified(name) {
        AddNodeKeepsTree(nodes, location, name, info, []);
      }
      var children := nodes[location];
      if name !in children {
        children := children[name := info];
      }
      nodes := nodes[location := children];
      var key := JoinPaths(location, name);
      WithLocationsStep(nodes, key, []);
      if key !in nodes {
        nodes := nodes[key := map[]];
      }
      return true;
    }

    /** An RPC also brings the locations of its input and output. */
    method AddRpc(location: string, name: string) returns (ok: bool)
      modifies `nodes
      ensures ok <==> location in old(nodes)
      ensures AddNode(old(nodes), location, name, NodeInfo(RpcKind, true), InputAndOutput(JoinPaths(location, name)))
           == if ok then Some(nodes) else None
      ensures !ok ==> nodes == old(nodes)
      ensures ok && name !in old(nodes)[location] ==>
                IsChild(nodes, location, name) && nodes[location][name].kind.RpcKind?
      ensures ok ==> var key := JoinPaths(location, name);
                     key in nodes && JoinPaths(key, "input") in nodes && JoinPaths(key, "output") in nodes
      ensures old(Valid()) && IsQualified(name) ==> Valid()
    {
      if location in nodes {
        AddRpcContents(nodes, location, name);
      }
      ok := AddPlainNode(location, name, NodeInfo(RpcKind, true));
      if ok {
        var key := JoinPaths(location, name);
        if old(Valid()) && IsQualified(name) {
          InputAndOutputAreLocations(location, name);
        }
        AddLocation(JoinPaths(key, "input"));
        AddLocation(JoinPaths(key, "output"));
        InputAndOutputAdded(old(nodes), location, name, NodeInfo(RpcKind, true));
      }
    }

    /** m_nodes.emplace(key, {}) */
    method AddLocation(key: string)
      modifies `nodes
      ensures nodes == WithLocation(old(nodes), key)
      ensures old(Valid()) && IsLocation(key) ==> Valid()
    {
      if IsTree(nodes) && IsLocation(key) {
        LocationKeepsTree(nodes, key);
      }
      if key !in nodes {
        nodes := nodes[key := map[]];
      }
    }

    method AddModule(name: string)
      modifies `modules
      ensures old(Valid()) ==> Valid()
      ensures modules == old(modules) + {name}
    {
      modules := modules + {name};
    }

    /** Returns false when the base is unknown. Whether derivation stays acyclic can be told before
        the call: the base must not be derived from the name. */
    method AddIdentity(base: Option<Ident>, name: Ident) returns (ok: bool)
      requires IsClosed(identities)
      modifies `identities
      ensures IsClosed(identities) && (old(Valid()) ==> Valid())
      ensures Identities.AddIdentity(old(identities), base, name) == if ok then Some(identities) else None
      ensures !ok ==> identities == old(identities)
      ensures IsAcyclic(old(identities)) && ok ==>
                (IsAcyclic(identities) <==> base.None? || !Derives(old(identities), name, base.value))
    {
      var added := Identities.AddIdentity(identities, base, name);
      if added.None? {
        return false;
      }
      AddIdentityKeepsClosed(identities, base, name);
      if IsAcyclic(identities) {
        if base.Some? {
          AddedBaseKeepsAcyclicIff(identities, base.value, name);
        } else {
          AddedRootKeepsAcyclic(identities, name);
        }
      }
      identities := added.value;
      return true;
    }

    /** The identities based on the argument; .at throws for an unknown one, which is None here. */
    method ValidIdentitiesOf(base: Ident) returns (r: Option<set<Ident>>)
      requires IsClosed(identities) && IsAcyclic(identities)
      ensures r.Some? <==> base in identities
      ensures r.Some? ==> forall x :: x in r.value <==> Derives(identities, base, x)
    {
      if base !in identities {
        return None;
      }
      var found := ValidIdentities(identities, base);
      return Some(found);
    }
  }
}
