/** The data path grammar as functions of the unread input (src/path_parser.hpp:80-371, in mode
    DataPath with complete data nodes). A symbol table is built from the schema at every node, the
    longest symbol is taken, and the context path follows the nodes read. */
module PathParser {
  import opened Wrappers
  import opened Text
  import opened AstPath
  import opened PathPrinter
  import opened LeafParsers
  import opened StaticSchema
  import opened ListSuffix

  /** What a parse depends on besides its input: the schema, the filter on schema path strings of
      the command being parsed, and the leaf parsers that are not modelled. */
  datatype Env = Env(index: Index, filter: string -> bool, foreign: ForeignParser)

  // ---- the symbol table ----

  type SymbolTable = map<string, DataNode>

  /** The node a symbol of this kind stands for, before any keys or value are read. */
  function Template(kind: NodeKind, name: string): Suffix {
    match kind
    case ContainerKind(_) => Container(name)
    case LeafKind(_) => Leaf(name)
    case ListKind(_) => ListElement(name, map[])
    case LeafListKind(_) => LeafListElement(name, Enum(""))
    case RpcKind => Rpc(name)
    case ActionKind => Action(name)
  }

  function NodeUpNode(): DataNode {
    DataNode(None, NodeUp)
  }

  predicate Passes(env: Env, cur: seq<DataNode>, child: string)
    requires ':' in child
  {
    env.filter(JoinPaths(Location(cur), Spelled(ListedAs(cur, child))))
  }

  /** The children of a location that are qualified, listed and let through by the filter. */
  function OfferedChildren(env: Env, cur: seq<DataNode>, among: set<string>): set<string>
    requires Location(cur) in env.index
  {
    set k | k in among && k in env.index[Location(cur)] && ':' in k && Passes(env, cur, k)
  }

  function ShortNames(cur: seq<DataNode>, offered: set<string>): set<string> {
    set k | k in offered && ':' in k && ListedAs(cur, k).mod.None? :: LocalNameOf(k)
  }

  function Qualified(cur: seq<DataNode>, name: string): string {
    (if FirstPrefix(cur).Some? then FirstPrefix(cur).value else "") + ":" + name
  }

  /** Each offered child under its qualified name. */
  function QualifiedSymbols(env: Env, cur: seq<DataNode>, among: set<string>): SymbolTable
    requires Location(cur) in env.index
  {
    map k | k in OfferedChildren(env, cur, among) ::
      DataNode(Some(ModuleOf(k)), Template(env.index[Location(cur)][k].kind, LocalNameOf(k)))
  }

  function BareSymbols(children: map<string, NodeInfo>, cur: seq<DataNode>, names: set<string>): SymbolTable {
    map n | n in names && Qualified(cur, n) in children ::
      DataNode(None, Template(children[Qualified(cur, n)].kind, n))
  }

  /** A child of the top-level module also under its bare name. */
  function ShortSymbols(env: Env, cur: seq<DataNode>, among: set<string>): SymbolTable
    requires Location(cur) in env.index
  {
    BareSymbols(env.index[Location(cur)], cur, ShortNames(cur, OfferedChildren(env, cur, among)))
  }

  function Symbols(env: Env, cur: seq<DataNode>, among: set<string>): SymbolTable
    requires Location(cur) in env.index
  {
    QualifiedSymbols(env, cur, among) + ShortSymbols(env, cur, among)
  }

  /** Bare names are identifiers, and tell their child. */
  lemma ShortNameIsIdentifier(env: Env, cur: seq<DataNode>, among: set<string>, n: string)
    requires IsTree(env.index) && Location(cur) in env.index
    requires n in ShortNames(cur, OfferedChildren(env, cur, among))
    ensures IsIdentifier(n) && ':' !in n
    ensures Qualified(cur, n) in OfferedChildren(env, cur, among)
  {
    var offered := OfferedChildren(env, cur, among);
    var k :| k in offered && ':' in k && ListedAs(cur, k).mod.None? && n == LocalNameOf(k);
    assert IsChild(env.index, Location(cur), k);
    QualifiedNameJoins(k);
    IdentifierHasNoColon(n);
  }

  /** Bare symbols are identifiers of offered children; qualified ones hold a colon. */
  lemma ShortSymbolsContents(env: Env, cur: seq<DataNode>, among: set<string>)
    requires IsTree(env.index) && Location(cur) in env.index
    ensures forall n :: n in ShortSymbols(env, cur, among) ==> IsIdentifier(n) && ':' !in n
    ensures forall n :: n in ShortSymbols(env, cur, among) ==> Qualified(cur, n) in among
  {
    forall n | n in ShortSymbols(env, cur, among)
      ensures IsIdentifier(n) && ':' !in n && Qualified(cur, n) in among
    {
      ShortNameIsIdentifier(env, cur, among, n);
    }
  }

  lemma KeysOfQualified(env: Env, cur: seq<DataNode>, among: set<string>)
    requires Location(cur) in env.index
    ensures forall k :: k in QualifiedSymbols(env, cur, among) ==> k in among && ':' in k
  {
  }

  /** None is the exception of a location that is not in the schema. */
  function Table(env: Env, cur: seq<DataNode>): Option<SymbolTable> {
    if Location(cur) !in env.index then None
    else Some(Symbols(env, cur, env.index[Location(cur)].Keys)[".." := NodeUpNode()])
  }

  // ---- one node ----

  /** Match gives the value, what is left unread and the new context path; Fail restores the input;
      Throw is a failed expectation or an exception, which ends the command. */
  datatype NodeResult = NodeMatch(node: DataNode, rest: string, cur: seq<DataNode>) | NodeFail | NodeThrow

  datatype ElementResult = Element(node: DataNode, rest: string) | ElementFail | ElementThrow

  /** After a node only the end, a space or a slash may follow. */
  predicate PathFollows(s: string) {
    s == "" || IsSpace(s[0]) || s[0] == '/'
  }

  predicate AtPathEnd(s: string) {
    s == "" || IsSpace(s[0])
  }

  /** The list node whose keys are being read: m_tmpListPath. */
  function ListPath(cur: seq<DataNode>, attr: DataNode): seq<DataNode>
    requires attr.suffix.ListElement?
  {
    cur + [DataNode(attr.prefix, List(attr.suffix.name))]
  }

  /** The keys of a list element or the value of a leaf-list element; other nodes are complete. */
  function ParseElement(env: Env, cur: seq<DataNode>, attr: DataNode, s: string): (r: ElementResult)
    ensures r.Element? ==> |r.rest| <= |s|
  {
    match attr.suffix
    case ListElement(name, _) =>
      (match SpecOf(env.index, ListPath(cur, attr))
       case None => ElementThrow
       case Some(spec) =>
         KeyLoopShrinks(env.foreign, spec, map[], s);
         match ParseListSuffix(env.foreign, spec, map[], s)
         case Accepted(keys, rest) => Element(DataNode(attr.prefix, ListElement(name, keys)), rest)
         case Rejected(_) => ElementFail
         case Aborted => ElementThrow)
    case LeafListElement(name, _) =>
      if s == "" || s[0] != '[' then ElementFail
      else
        (match LeafTypeAt(env.index, cur, NodePair(attr.prefix, name))
         case None => ElementThrow
         case Some(t) =>
           match ParseLeaf(env.foreign, t, s[1..])
           case None => ElementFail
           case Some((v, rest)) =>
             if rest == "" || rest[0] != ']' then ElementFail
             else Element(DataNode(attr.prefix, LeafListElement(name, v)), rest[1..]))
    case _ => Element(attr, s)
  }

  /** NodeParser::parse. */
  function ParseNode(env: Env, cur: seq<DataNode>, s: string): (r: NodeResult)
    ensures r.NodeMatch? ==> |r.rest| < |s|
  {
    match Table(env, cur)
    case None => NodeThrow
    case Some(table) =>
      var n := LongestSymbol(table.Keys, s);
      if n == 0 then NodeFail
      else
        match ParseElement(env, cur, table[s[..n]], s[n..])
        case ElementFail => NodeFail
        case ElementThrow => NodeThrow
        case Element(node, rest) =>
          if !PathFollows(rest) then NodeFail
          else
            match PushFragment(cur, node)
            case None => NodeThrow
            case Some(next) => NodeMatch(node, rest, next)
  }

  // ---- the path ----

  datatype NodesResult = Nodes(nodes: seq<DataNode>, rest: string, cur: seq<DataNode>) | NodesThrow

  /** The repetition of dataNode % '/': a slash not followed by a node is given back. */
  function ParseTail(env: Env, cur: seq<DataNode>, s: string): NodesResult
    decreases |s|
  {
    if s == "" || s[0] != '/' then Nodes([], s, cur)
    else
      match ParseNode(env, cur, s[1..])
      case NodeThrow => NodesThrow
      case NodeFail => Nodes([], s, cur)
      case NodeMatch(node, rest, next) =>
        match ParseTail(env, next, rest)
        case NodesThrow => NodesThrow
        case Nodes(more, rest', cur') => Nodes([node] + more, rest', cur')
  }

  datatype PathResult = PathMatch(path: DataPath, rest: string, cur: seq<DataNode>) | PathFail | PathThrow

  function DropSlash(s: string): string {
    if s != "" && s[0] == '/' then s[1..] else s
  }

  function ScopeOf(s: string): Scope {
    if s != "" && s[0] == '/' then Absolute else Relative
  }

  /** Where the context path starts: at the root after a leading slash, else at the working directory. */
  function Start(cwd: seq<DataNode>, scope: Scope): seq<DataNode> {
    if scope.Absolute? then [] else cwd
  }

  /** PathParser::parse: an optional leading slash, nodes or the end of the path, and an optional
      trailing slash. */
  function ParsePath(env: Env, cwd: seq<DataNode>, s: string): PathResult {
    var scope, body := ScopeOf(s), DropSlash(s);
    match ParseNode(env, Start(cwd, scope), body)
    case NodeThrow => PathThrow
    case NodeFail =>
      if AtPathEnd(body) then PathMatch(DataPath(scope, []), body, Start(cwd, scope)) else PathFail
    case NodeMatch(node, rest, next) =>
      match ParseTail(env, next, rest)
      case NodesThrow => PathThrow
      case Nodes(more, rest', cur) => PathMatch(DataPath(scope, [node] + more), DropSlash(rest'), cur)
  }
}
