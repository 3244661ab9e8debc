/** NodeParser and PathParser as they work on a ParserContext (src/path_parser.hpp:80-371), proved
    against the functions of PathParser. */
module NodeParser {
  import opened Wrappers
  import opened Text
  import opened AstPath
  import opened PathPrinter
  import opened LeafParsers
  import opened StaticSchema
  import opened ListSuffix
  import opened KeyOffers
  import opened PathParser
  import opened ParserContext

  function EnvOf(context: ParserContext, filter: string -> bool): Env {
    Env(context.index, filter, context.foreign)
  }

  /** Stored instances carry every key of their list, as the completion of key values expects. */
  ghost predicate InstancesAreComplete(context: ParserContext) {
    context.completing ==>
      forall p, i :: p != [] && i in context.storedInstances(p) && SpecOf(context.index, p).Some? ==>
        SpecOf(context.index, p).value.needed <= i.Keys
  }

  // ---- filling the symbol table ----

  /** x3::symbols::add: a symbol that is already there is kept. */
  function AddSymbol(table: SymbolTable, symbol: string, node: DataNode): SymbolTable {
    if symbol in table then table else table[symbol := node]
  }

  lemma DotsAreNoSymbol(env: Env, cur: seq<DataNode>, among: set<string>)
    requires IsTree(env.index) && Location(cur) in env.index
    ensures ".." !in Symbols(env, cur, among)
  {
    ShortSymbolsContents(env, cur, among);
    KeysOfQualified(env, cur, among);
    hide QualifiedSymbols, ShortSymbols, Location;
    assert ':' !in ".." && !IsIdentifier("..");
  }

  /** One more child brings one qualified symbol, if the filter lets it through. */
  lemma QualifiedWithChild(env: Env, cur: seq<DataNode>, done: set<string>, k: string)
    requires Location(cur) in env.index && k in env.index[Location(cur)] && ':' in k
    ensures var before, more := QualifiedSymbols(env, cur, done), QualifiedSymbols(env, cur, done + {k});
            var symbol := DataNode(Some(ModuleOf(k)), Template(env.index[Location(cur)][k].kind, LocalNameOf(k)));
            more == if Passes(env, cur, k) then before[k := symbol] else before
  {
    hide Template, Passes;
  }

  lemma ListedSpelling(cur: seq<DataNode>, k: string)
    requires IsQualified(k)
    ensures var node := ListedAs(cur, k);
            && node.name == LocalNameOf(k) && k == ModuleOf(k) + ":" + LocalNameOf(k)
            && (node.mod.Some? ==> node.mod == Some(ModuleOf(k)) && Spelled(node) == k)
            && (node.mod.None? ==> FirstPrefix(cur) == Some(ModuleOf(k)) && Spelled(node) == node.name)
            && ':' !in node.name && (node.mod.None? ==> Qualified(cur, node.name) == k)
  {
    QualifiedNameJoins(k);
    IdentifierHasNoColon(LocalNameOf(k));
  }

  lemma OfferedWithChild(env: Env, cur: seq<DataNode>, done: set<string>, k: string)
    requires Location(cur) in env.index && k in env.index[Location(cur)] && ':' in k
    ensures OfferedChildren(env, cur, done + {k})
         == OfferedChildren(env, cur, done) + if Passes(env, cur, k) then {k} else {}
  {
    hide Passes;
  }

  lemma ShortNamesWithChild(cur: seq<DataNode>, offered: set<string>, k: string)
    requires ':' in k
    ensures ShortNames(cur, offered + {k})
         == ShortNames(cur, offered) + if ListedAs(cur, k).mod.None? then {LocalNameOf(k)} else {}
  {
    hide ListedAs;
  }

  lemma BareSymbolsWithName(children: map<string, NodeInfo>, cur: seq<DataNode>, names: set<string>, n: string)
    requires Qualified(cur, n) in children
    ensures BareSymbols(children, cur, names + {n})
         == BareSymbols(children, cur, names)[n := DataNode(None, Template(children[Qualified(cur, n)].kind, n))]
  {
    hide Template, Qualified;
  }

  /** And one bare symbol, if moreover it belongs to the top-level module. */
  lemma ShortWithChild(env: Env, cur: seq<DataNode>, done: set<string>, k: string)
    requires Location(cur) in env.index && k in env.index[Location(cur)] && IsQualified(k)
    ensures var before, more := ShortSymbols(env, cur, done), ShortSymbols(env, cur, done + {k});
            var symbol := DataNode(None, Template(env.index[Location(cur)][k].kind, LocalNameOf(k)));
            var short := Passes(env, cur, k) && ListedAs(cur, k).mod.None?;
            more == if short then before[LocalNameOf(k) := symbol] else before
  {
    hide Template, Passes, Location, IsQualified, ListedAs, OfferedChildren, ShortNames, BareSymbols;
    hide Qualified, LocalNameOf;
    ListedSpelling(cur, k);
    OfferedWithChild(env, cur, done, k);
    var offered := OfferedChildren(env, cur, done);
    assert offered + {} == offered;
    ShortNamesWithChild(cur, offered, k);
    var names := ShortNames(cur, offered);
    assert names + {} == names;
    if ListedAs(cur, k).mod.None? {
      BareSymbolsWithName(env.index[Location(cur)], cur, names, LocalNameOf(k));
    }
  }

  lemma InsertBoth(q: SymbolTable, s: SymbolTable, k: string, e: DataNode, n: string, d: DataNode)
    requires k !in s && n !in q && n != k
    ensures (q + s)[n := d][k := e] == q[k := e] + s[n := d]
  {
  }

  /** The symbols of one more child: what the loop body adds to the table. */
  function WithChild(env: Env, cur: seq<DataNode>, before: SymbolTable, k: string): SymbolTable
    requires Location(cur) in env.index && k in env.index[Location(cur)] && ':' in k
  {
    var mod, name := ModuleOf(k), LocalNameOf(k);
    var attr := Template(env.index[Location(cur)][k].kind, name);
    if !Passes(env, cur, k) then before
    else if ListedAs(cur, k).mod.Some? then before[k := DataNode(Some(mod), attr)]
    else before[name := DataNode(None, attr)][k := DataNode(Some(mod), attr)]
  }

  lemma SymbolsWithChild(env: Env, cur: seq<DataNode>, done: set<string>, k: string)
    requires IsTree(env.index) && Location(cur) in env.index
    requires k in env.index[Location(cur)] && IsQualified(k) && k !in done
    ensures var before := Symbols(env, cur, done);
            && Symbols(env, cur, done + {k}) == WithChild(env, cur, before, k)
            && k !in before && (ListedAs(cur, k).mod.None? ==> LocalNameOf(k) !in before)
  {
    QualifiedNameJoins(k);
    IdentifierHasNoColon(LocalNameOf(k));
    ShortSymbolsContents(env, cur, done);
    QualifiedWithChild(env, cur, done, k);
    ShortWithChild(env, cur, done, k);
    hide Template, Passes, QualifiedSymbols, ShortSymbols;
    var q, s := QualifiedSymbols(env, cur, done), ShortSymbols(env, cur, done);
    var name, attr := LocalNameOf(k), Template(env.index[Location(cur)][k].kind, LocalNameOf(k));
    KeysOfQualified(env, cur, done);
    if ListedAs(cur, k).mod.None? {
      assert Qualified(cur, name) == k;
      InsertBoth(q, s, k, DataNode(Some(ModuleOf(k)), attr), name, DataNode(None, attr));
    } else {
      InsertLeft(q, s, k, DataNode(Some(ModuleOf(k)), attr));
    }
  }

  lemma InsertLeft(q: SymbolTable, s: SymbolTable, k: string, e: DataNode)
    requires k !in s
    ensures (q + s)[k := e] == q[k := e] + s
  {
  }

  /** The loop of NodeParser::parse over the available nodes, and the symbol for going up; None is
      the exception of an unknown location. */
  method BuildTable(context: ParserContext, filter: string -> bool) returns (r: Option<SymbolTable>)
    requires IsTree(context.index)
    ensures r == Table(EnvOf(context, filter), context.curPath.nodes)
  {
    hide Symbols, OfferedChildren;
    var cur := context.curPath.nodes;
    ghost var env := EnvOf(context, filter);
    var at := Location(cur);
    if at !in context.index {
      return None;
    }
    var children := context.index[at];
    var table: SymbolTable := map[];
    var left := children.Keys;
    ghost var done: set<string> := {};
    NoSymbols(env, cur);
    while left != {}
      invariant left !! done && done + left == children.Keys
      invariant table == Symbols(env, cur, done)
      decreases left
    {
      var k :| k in left;
      assert IsChild(context.index, at, k);
      table := AddChild(context, filter, k, table, done);
      left, done := left - {k}, done + {k};
    }
    assert done == children.Keys;
    DotsAreNoSymbol(env, cur, done);
    return Some(AddSymbol(table, "..", NodeUpNode()));
  }

  lemma NoSymbols(env: Env, cur: seq<DataNode>)
    requires Location(cur) in env.index
    ensures Symbols(env, cur, {}) == map[]
  {
  }

  /** The body of that loop, for one child. */
  method AddChild(context: ParserContext, filter: string -> bool, k: string, before: SymbolTable,
                  ghost done: set<string>)
    returns (table: SymbolTable)
    requires IsTree(context.index) && Location(context.curPath.nodes) in context.index
    requires k in context.index[Location(context.curPath.nodes)] && IsQualified(k) && k !in done
    requires before == Symbols(EnvOf(context, filter), context.curPath.nodes, done)
    ensures table == Symbols(EnvOf(context, filter), context.curPath.nodes, done + {k})
  {
    var cur := context.curPath.nodes;
    ghost var env := EnvOf(context, filter);
    hide Symbols, Template, Location, JoinPaths, IsTree, ListedAs, Spelled, IsQualified, LocalNameOf, ModuleOf;
    SymbolsWithChild(env, cur, done, k);
    ListedSpelling(cur, k);
    var at, node := Location(cur), ListedAs(cur, k);
    var parseString := Spelled(node);
    table := before;
    if filter(JoinPaths(at, parseString)) {
      var info := InfoByNode(context.index, cur, node);
      assert info == Some(context.index[at][k]);
      var attr := Template(info.value.kind, node.name);
      table := AddSymbol(table, parseString, DataNode(node.mod, attr));
      if node.mod.None? {
        var symbol := FirstPrefix(cur).value + ":" + parseString;
        table := AddSymbol(table, symbol, DataNode(FirstPrefix(cur), attr));
      }
    }
  }

  // ---- one node ----

  /** The keys of a list element or the value of a leaf-list element, read through the handlers. */
  method ParseElement(context: ParserContext, ghost filter: string -> bool, attr: DataNode, s: string)
    returns (r: ElementResult)
    requires context.tmpListKeys == map[] && InstancesAreComplete(context)
    modifies context
    ensures context.curPath == old(context.curPath)
    ensures r == PathParser.ParseElement(EnvOf(context, filter), context.curPath.nodes, attr, s)
    ensures r.Element? ==> context.tmpListKeys == map[]
  {
    var cur := context.curPath.nodes;
    r := Element(attr, s);
    match attr.suffix {
      case Leaf(name) =>
        context.tmpLeafLocation, context.tmpLeafNode := cur, NodePair(attr.prefix, name);
      case ListElement(name, _) =>
        context.tmpListPath := ListPath(cur, attr);
        ghost var spec, before := SpecOf(context.index, context.tmpListPath), context.suggestions;
        if spec.Some? {
          CompletingReadsTheSame(context.foreign, spec.value, context.Query(), map[], s, before);
        }
        var suffix := context.ParseListSuffix(s);
        match suffix {
          case Accepted(keys, rest) => r := Element(DataNode(attr.prefix, ListElement(name, keys)), rest);
          case Rejected(_) => r := ElementFail;
          case Aborted => r := ElementThrow;
        }
      case LeafListElement(name, _) =>
        context.tmpLeafLocation, context.tmpLeafNode := cur, NodePair(attr.prefix, name);
        r := ParseLeafListValue(context, attr, s);
      case _ =>
    }
  }

  /** leafListValue */
  method ParseLeafListValue(context: ParserContext, attr: DataNode, s: string) returns (r: ElementResult)
    requires attr.suffix.LeafListElement? && context.tmpLeafLocation == context.curPath.nodes
    requires context.tmpLeafNode == NodePair(attr.prefix, attr.suffix.name)
    modifies context`suggestions
    ensures var env := Env(context.index, _ => true, context.foreign);
            r == PathParser.ParseElement(env, context.curPath.nodes, attr, s)
  {
    if s == "" || s[0] != '[' {
      return ElementFail;
    }
    if LeafTypeAt(context.index, context.tmpLeafLocation, context.tmpLeafNode).None? {
      return ElementThrow;
    }
    var value := context.ParseLeafData(s[1..]);
    if value.None? {
      return ElementFail;
    }
    context.suggestions := {"]"};
    var (v, rest) := value.value;
    if rest == "" || rest[0] != ']' {
      return ElementFail;
    }
    return Element(DataNode(attr.prefix, LeafListElement(attr.suffix.name, v)), rest[1..]);
  }

  /** NodeParser::parse in mode CompleteDataNode. A match leaves the context path on the node read
      and no key pending; a failure leaves the context path alone. */
  method ParseNode(context: ParserContext, filter: string -> bool, s: string) returns (r: NodeResult)
    requires IsTree(context.index) && context.tmpListKeys == map[] && InstancesAreComplete(context)
    modifies context
    ensures r == PathParser.ParseNode(EnvOf(context, filter), old(context.curPath.nodes), s)
    ensures r.NodeMatch? ==>
              context.curPath == DataPath(old(context.curPath.scope), r.cur) && context.tmpListKeys == map[]
    ensures r.NodeFail? ==> context.curPath == old(context.curPath)
  {
    hide Table, PathParser.ParseElement, PushFragment;
    context.suggestions := {};
    var cur := context.curPath.nodes;
    var table := BuildTable(context, filter);
    if table.None? {
      return NodeThrow;
    }
    var n := LongestSymbol(table.value.Keys, s);
    if n == 0 {
      return NodeFail;
    }
    var element := ParseElement(context, filter, table.value[s[..n]], s[n..]);
    if !element.Element? {
      return if element.ElementFail? then NodeFail else NodeThrow;
    }
    if !PathFollows(element.rest) {
      return NodeFail;
    }
    var ok := context.PushPathFragment(element.node);
    PushIsFragment(cur, element.node);
    return if ok then NodeMatch(element.node, element.rest, context.curPath.nodes) else NodeThrow;
  }

  lemma PushIsFragment(cur: seq<DataNode>, node: DataNode)
    ensures PushFragment(cur, node).Some? ==> PushFragment(cur, node) == Some(Push(cur, node))
  {
  }

  // ---- the path ----

  /** A result with nodes read before it. */
  ghost function Behind(done: seq<DataNode>, r: NodesResult): NodesResult {
    match r
    case NodesThrow => NodesThrow
    case Nodes(more, rest, cur) => Nodes(done + more, rest, cur)
  }

  lemma BehindOneMore(done: seq<DataNode>, node: DataNode, r: NodesResult)
    ensures Behind(done, Behind([node], r)) == Behind(done + [node], r)
  {
    if r.Nodes? {
      assert done + ([node] + r.nodes) == done + [node] + r.nodes;
    }
  }

  /** PathParser::parse in mode DataPath. On a match the context path is the node that the cursor of
      the specification ends on. */
  method ParsePath(context: ParserContext, filter: string -> bool, s: string) returns (r: PathResult)
    requires IsTree(context.index) && InstancesAreComplete(context)
    modifies context
    ensures r == PathParser.ParsePath(EnvOf(context, filter), context.curPathOrig.nodes, s)
    ensures r.PathMatch? ==> context.curPath.nodes == r.cur
    ensures r.PathMatch? ==>
              context.curPath.scope == if s != "" && s[0] == '/' then Absolute else context.curPathOrig.scope
  {
    hide PathParser.ParseNode;
    ghost var env := EnvOf(context, filter);
    context.InitializePath();
    var scope, body := Relative, s;
    if s != "" && s[0] == '/' {
      scope, body := Absolute, s[1..];
      context.ClearPath();
    }
    var first := ParseNode(context, filter, body);
    if first.NodeThrow? {
      return PathThrow;
    }
    if first.NodeFail? {
      return if AtPathEnd(body) then PathMatch(DataPath(scope, []), body, context.curPath.nodes) else PathFail;
    }
    var nodes, rest := [first.node], first.rest;
    ghost var tail := ParseTail(env, first.cur, first.rest);
    var more := true;
    while more && rest != "" && rest[0] == '/'
      invariant more ==> context.tmpListKeys == map[]
      invariant context.curPath.scope == if s != "" && s[0] == '/' then Absolute else context.curPathOrig.scope
      invariant more ==> Behind(nodes, ParseTail(env, context.curPath.nodes, rest)) == Behind([first.node], tail)
      invariant !more ==> Nodes(nodes, rest, context.curPath.nodes) == Behind([first.node], tail)
      decreases |rest|, more
    {
      var next := ParseNode(context, filter, rest[1..]);
      if next.NodeThrow? {
        return PathThrow;
      }
      if next.NodeFail? {
        more := false;
      } else {
        BehindOneMore(nodes, next.node, ParseTail(env, next.cur, next.rest));
        nodes, rest := nodes + [next.node], next.rest;
      }
    }
    return PathMatch(DataPath(scope, nodes), DropSlash(rest), context.curPath.nodes);
  }
}
