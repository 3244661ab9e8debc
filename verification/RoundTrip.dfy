/** The path parser and the path printer undo each other, and the parser's context path is the
    path the interpreter resolves. */
module RoundTrip {
  import opened Wrappers
  import opened Text
  import opened Ordering
  import opened AstPath
  import opened PathPrinter
  import opened UniqueReadability
  import opened LeafParsers
  import opened StaticSchema
  import opened ListSuffix
  import opened PathParser

  // ---- schema-valid data paths ----

  /** The symbol a node is written with. */
  function SymbolOf(n: DataNode): string {
    WrittenPrefix(None, n.prefix, WhenNeeded) + NodeToSchemaString(n.suffix)
  }

  /** The node without keys or value, as its symbol stands for it. */
  function Blank(n: DataNode): DataNode {
    match n.suffix
    case ListElement(name, _) => DataNode(n.prefix, ListElement(name, map[]))
    case LeafListElement(name, _) => DataNode(n.prefix, LeafListElement(name, Enum("")))
    case _ => n
  }

  /** A list whose keys are strings, of which there is at least one. */
  predicate IsStringKeyedList(env: Env, listPath: seq<DataNode>)
    requires listPath != []
  {
    var spec := SpecOf(env.index, listPath);
    spec.Some? && spec.value.needed != {} && IsStringKeyed(spec.value)
  }

  /** Keys as the schema wants them, with values that can be quoted. */
  predicate HasListKeys(env: Env, cur: seq<DataNode>, n: DataNode)
    requires n.suffix.ListElement?
  {
    && IsStringKeyedList(env, ListPath(cur, n))
    && n.suffix.keys.Keys == SpecOf(env.index, ListPath(cur, n)).value.needed
    && forall k :: k in n.suffix.keys ==> IsPrintableValue(n.suffix.keys[k])
  }

  /** The path string that a filter sees: the location, then the child with its module, unless that is
      the top-level one. */
  function AskedAbout(cur: seq<DataNode>, child: string): string
    requires ':' in child
  {
    JoinPaths(Location(cur), if FirstPrefix(cur) == Some(ModuleOf(child)) then LocalNameOf(child) else child)
  }

  lemma PassesWhenAsked(env: Env, cur: seq<DataNode>, child: string)
    requires ':' in child
    ensures Passes(env, cur, child) <==> env.filter(AskedAbout(cur, child))
  {
    QualifiedNameJoins(child);
    hide Location, JoinPaths;
    assert Spelled(ListedAs(cur, child))
        == if FirstPrefix(cur) == Some(ModuleOf(child)) then LocalNameOf(child) else child;
  }

  /** The node is what the schema says the child is; data nodes of lists and leaf-lists are their
      elements. */
  predicate HasKind(n: DataNode, kind: NodeKind) {
    && (n.suffix.Container? <==> kind.ContainerKind?)
    && (n.suffix.Leaf? <==> kind.LeafKind?)
    && (n.suffix.ListElement? <==> kind.ListKind?)
    && (n.suffix.LeafListElement? <==> kind.LeafListKind?)
    && (n.suffix.Rpc? <==> kind.RpcKind?)
    && (n.suffix.Action? <==> kind.ActionKind?)
  }

  /** "..", or a node of the schema: the child of the current location with this module and name
      (the top-level module may be left out), of the kind that the child is, and let through by the
      filter of the command. */
  predicate IsOffered(env: Env, cur: seq<DataNode>, n: DataNode) {
    n == NodeUpNode()
    || (&& !n.suffix.NodeUp?
        && var child := FullNodeName(cur, NodePair(n.prefix, n.suffix.name));
           && child.Some? && ':' in child.value
           && IsChild(env.index, Location(cur), child.value)
           && env.filter(AskedAbout(cur, child.value))
           && HasKind(n, env.index[Location(cur)][child.value].kind))
  }

  /** A node the schema has here (containers, leaves, RPCs, actions, "..", string-keyed list
      elements) and that may be pushed onto the context path. */
  predicate IsValidNode(env: Env, cur: seq<DataNode>, n: DataNode) {
    && Location(cur) in env.index
    && IsOffered(env, cur, n)
    && (n.suffix.ListElement? ==> HasListKeys(env, cur, n))
    && !n.suffix.LeafListElement?
    && PushFragment(cur, n).Some?
  }

  predicate AreValidNodes(env: Env, cur: seq<DataNode>, nodes: seq<DataNode>)
    decreases |nodes|
  {
    nodes == [] || (IsValidNode(env, cur, nodes[0]) && AreValidNodes(env, Push(cur, nodes[0]), nodes[1..]))
  }

  predicate IsValidPath(env: Env, cwd: seq<DataNode>, p: DataPath) {
    Location(Start(cwd, p.scope)) in env.index && AreValidNodes(env, Start(cwd, p.scope), p.nodes)
  }

  // ---- symbols ----

  predicate IsSymbolText(s: string) {
    s != "" && forall i :: 0 <= i < |s| ==> s[i] != '/' && s[i] != '[' && !IsSpace(s[i])
  }

  lemma IdentifierIsSymbolText(s: string)
    requires IsIdentifier(s)
    ensures IsSymbolText(s)
  {
  }

  lemma QualifiedIsSymbolText(s: string)
    requires IsQualified(s)
    ensures IsSymbolText(s) && IsSymbolText(LocalNameOf(s))
  {
    QualifiedNameJoins(s);
    IdentifierIsSymbolText(ModuleOf(s));
    IdentifierIsSymbolText(LocalNameOf(s));
  }

  /** In a schema tree no symbol holds a slash, a bracket or a space. */
  lemma SymbolsAreText(env: Env, cur: seq<DataNode>, symbol: string)
    requires IsTree(env.index) && Table(env, cur).Some?
    requires symbol in Table(env, cur).value
    ensures IsSymbolText(symbol)
  {
    var at := Location(cur);
    if symbol != ".." {
      var offered := OfferedChildren(env, cur, env.index[at].Keys);
      var k :| k in offered && (symbol == k || symbol == LocalNameOf(k));
      assert IsChild(env.index, at, k);
      QualifiedIsSymbolText(k);
    }
  }

  /** The symbol table offers exactly the nodes of the schema: what is written as a symbol stands for
      a node with that module and name if and only if the schema has such a child. */
  lemma OfferedIffSymbol(env: Env, cur: seq<DataNode>, n: DataNode)
    requires IsTree(env.index) && Location(cur) in env.index
    ensures IsOffered(env, cur, n)
       <==> SymbolOf(n) in Table(env, cur).value && Table(env, cur).value[SymbolOf(n)] == Blank(n)
  {
    if IsOffered(env, cur, n) {
      OfferedHasSymbol(env, cur, n);
    }
    var table := Table(env, cur).value;
    if SymbolOf(n) in table && table[SymbolOf(n)] == Blank(n) {
      SymbolIsOffered(env, cur, n);
    }
  }

  /** The entry of a qualified name. */
  lemma QualifiedEntry(env: Env, cur: seq<DataNode>, child: string)
    requires IsTree(env.index) && IsChild(env.index, Location(cur), child) && IsQualified(child)
    requires Passes(env, cur, child)
    ensures var table := Table(env, cur).value;
            var kind := env.index[Location(cur)][child].kind;
            child in table && table[child] == DataNode(Some(ModuleOf(child)), Template(kind, LocalNameOf(child)))
  {
    hide Template, Passes, Location, IsTree, IsIdentifier;
    ShortSymbolsContents(env, cur, env.index[Location(cur)].Keys);
    assert ':' !in "..";
  }

  /** The entry of a bare name. */
  lemma ShortEntry(env: Env, cur: seq<DataNode>, name: string)
    requires IsTree(env.index) && IsIdentifier(name) && FirstPrefix(cur).Some?
    requires IsChild(env.index, Location(cur), Qualified(cur, name)) && IsQualified(Qualified(cur, name))
    requires ':' in Qualified(cur, name) && Passes(env, cur, Qualified(cur, name))
    ensures var table := Table(env, cur).value;
            var kind := env.index[Location(cur)][Qualified(cur, name)].kind;
            name in table && table[name] == DataNode(None, Template(kind, name))
  {
    var child := Qualified(cur, name);
    QualifiedNameParts(FirstPrefix(cur).value, name);
    DotsAreNoName(name);
    hide Template, Passes, Location, IsTree, IsIdentifier, IsQualified, Qualified, ModuleOf, LocalNameOf;
    assert child in OfferedChildren(env, cur, env.index[Location(cur)].Keys);
    assert name in ShortNames(cur, OfferedChildren(env, cur, env.index[Location(cur)].Keys));
  }

  lemma DotsAreNoName(symbol: string)
    requires IsIdentifier(symbol) || ':' in symbol
    ensures symbol != ".."
  {
  }

  /** Every symbol but ".." is the qualified or the bare name of a child that the filter lets through. */
  lemma SymbolNamesChild(env: Env, cur: seq<DataNode>, symbol: string) returns (child: string)
    requires IsTree(env.index) && Table(env, cur).Some?
    requires symbol in Table(env, cur).value && symbol != ".."
    ensures IsChild(env.index, Location(cur), child) && IsQualified(child) && Passes(env, cur, child)
    ensures var kind := env.index[Location(cur)][child].kind;
            Table(env, cur).value[symbol]
              == if ':' in symbol then DataNode(Some(ModuleOf(child)), Template(kind, LocalNameOf(child)))
                 else DataNode(None, Template(kind, symbol))
    ensures ':' in symbol ==> child == symbol
    ensures ':' !in symbol ==> IsIdentifier(symbol) && FirstPrefix(cur).Some? && child == Qualified(cur, symbol)
  {
    hide Template, Passes, Location;
    var among := env.index[Location(cur)].Keys;
    ShortSymbolsContents(env, cur, among);
    if symbol in ShortNames(cur, OfferedChildren(env, cur, among)) {
      ShortNameIsIdentifier(env, cur, among, symbol);
      ShortNeedsModule(env, cur, among, symbol);
      child := Qualified(cur, symbol);
    } else {
      child := symbol;
    }
    assert IsChild(env.index, Location(cur), child);
  }

  lemma ShortNeedsModule(env: Env, cur: seq<DataNode>, among: set<string>, name: string)
    requires Location(cur) in env.index && name in ShortNames(cur, OfferedChildren(env, cur, among))
    ensures FirstPrefix(cur).Some?
  {
  }

  /** The one child that a node can name. */
  lemma NamedChild(cur: seq<DataNode>, n: DataNode, child: string)
    requires !n.suffix.NodeUp? && IsQualified(child)
    requires FullNodeName(cur, NodePair(n.prefix, n.suffix.name)) == Some(child)
    ensures n.prefix.Some? ==>
              SymbolOf(n) == child && Some(ModuleOf(child)) == n.prefix && LocalNameOf(child) == n.suffix.name
    ensures n.prefix.None? ==> FirstPrefix(cur).Some? && child == Qualified(cur, n.suffix.name)
    ensures n.prefix.None? ==> SymbolOf(n) == n.suffix.name && IsIdentifier(n.suffix.name)
  {
    var mod := if n.prefix.Some? then n.prefix.value else FirstPrefix(cur).value;
    QualifiedNameParts(mod, n.suffix.name);
    assert "" + n.suffix.name == n.suffix.name;
  }

  lemma OfferedHasSymbol(env: Env, cur: seq<DataNode>, n: DataNode)
    requires IsTree(env.index) && Location(cur) in env.index && IsOffered(env, cur, n)
    ensures SymbolOf(n) in Table(env, cur).value && Table(env, cur).value[SymbolOf(n)] == Blank(n)
  {
    if n == NodeUpNode() {
      assert SymbolOf(n) == "..";
    } else {
      var child := FullNodeName(cur, NodePair(n.prefix, n.suffix.name)).value;
      BlankKeepsPrefix(n);
      NamedChild(cur, n, child);
      KindIsTemplate(n, env.index[Location(cur)][child].kind);
      PassesWhenAsked(env, cur, child);
      hide Template, Passes, Location, Table, IsIdentifier, IsQualified, SymbolOf, FullNodeName, Qualified, HasKind;
      hide AskedAbout, Blank, ModuleOf, LocalNameOf;
      if n.prefix.Some? {
        QualifiedEntry(env, cur, child);
      } else {
        ShortEntry(env, cur, n.suffix.name);
      }
    }
  }

  lemma BlankKeepsPrefix(n: DataNode)
    ensures Blank(n) == DataNode(n.prefix, Blank(n).suffix)
    ensures Blank(n).suffix.NodeUp? <==> n.suffix.NodeUp?
    ensures !n.suffix.NodeUp? ==> Blank(n).suffix.name == n.suffix.name
  {
  }

  lemma SymbolIsOffered(env: Env, cur: seq<DataNode>, n: DataNode)
    requires IsTree(env.index) && Location(cur) in env.index
    requires SymbolOf(n) in Table(env, cur).value && Table(env, cur).value[SymbolOf(n)] == Blank(n)
    ensures IsOffered(env, cur, n)
  {
    BlankKeepsPrefix(n);
    if SymbolOf(n) != ".." {
      var child := SymbolNamesChild(env, cur, SymbolOf(n));
      QualifiedNameJoins(child);
      var kind := env.index[Location(cur)][child].kind;
      TemplateName(kind, if n.prefix.Some? then LocalNameOf(child) else SymbolOf(n));
      KindIsTemplate(n, kind);
      PassesWhenAsked(env, cur, child);
      hide AskedAbout;
      hide Template, Passes, Location, Table, SymbolOf, Blank, IsQualified, IsTree, ModuleOf, LocalNameOf, IsIdentifier;
      hide HasKind;
      assert FullNodeName(cur, NodePair(n.prefix, n.suffix.name)) == Some(child);
    } else {
      hide Location, Symbols;
      assert Blank(n) == NodeUpNode();
    }
  }

  lemma KindIsTemplate(n: DataNode, kind: NodeKind)
    requires !n.suffix.NodeUp?
    ensures HasKind(n, kind) <==> Blank(n).suffix == Template(kind, n.suffix.name)
  {
  }

  lemma TemplateName(kind: NodeKind, name: string)
    ensures !Template(kind, name).NodeUp? && Template(kind, name).name == name
  {
  }

  lemma SymbolIsFound(env: Env, cur: seq<DataNode>, symbol: string, after: string)
    requires IsTree(env.index) && Table(env, cur).Some?
    requires symbol in Table(env, cur).value
    requires after == "" || after[0] in {'/', '['} || IsSpace(after[0])
    ensures LongestSymbol(Table(env, cur).value.Keys, symbol + after) == |symbol|
  {
    var table := Table(env, cur).value;
    forall x | x in table
      ensures IsSymbolText(x)
    {
      SymbolsAreText(env, cur, x);
    }
    assert after != "" ==> forall x :: x in table.Keys ==> IsSymbolText(x) && after[0] !in x;
    LongestSymbolIs(table.Keys, symbol, after);
  }

  // ---- printed keys are read back ----

  function KeyTextsOf(order: seq<string>, keys: ListInstance): (ts: seq<KeyText>)
    requires forall k :: k in order ==> k in keys
    ensures |ts| == |order|
  {
    seq(|order|, i requires 0 <= i < |order| => KeyTextOf(order[i], keys[order[i]]))
  }

  /** The printed keys, with brackets, are the keys written in sorted order. */
  lemma {:induction false} KeysTextIsWritten(order: seq<string>, keys: ListInstance, after: string)
    requires order != [] && forall k :: k in order ==> k in keys
    ensures "[" + KeysText(order, keys, after) == Written(KeyTextsOf(order, keys)) + after
    decreases |order|
  {
    var t, ts := KeyTextOf(order[0], keys[order[0]]), KeyTextsOf(order, keys);
    assert ts[1..] == KeyTextsOf(order[1..], keys);
    if |order| > 1 {
      KeysTextIsWritten(order[1..], keys, after);
      WrittenMore(t, KeysText(order[1..], keys, after), Written(ts[1..]), after);
    } else {
      WrittenLast(t, after);
    }
  }

  lemma WrittenMore(t: KeyText, more: string, written: string, after: string)
    requires "[" + more == written + after
    ensures "[" + (t.key + "=" + ([t.quote] + t.text + [t.quote]) + ("][" + more))
         == ("[" + t.key + "=" + ([t.quote] + t.text + [t.quote] + "]" + written)) + after
  {
    assert "][" + more == "]" + ("[" + more);
    assert "]" + (written + after) == "]" + written + after;
  }

  lemma WrittenLast(t: KeyText, after: string)
    ensures "[" + (t.key + "=" + ([t.quote] + t.text + [t.quote]) + ("]" + after))
         == ("[" + t.key + "=" + ([t.quote] + t.text + [t.quote] + "]" + "")) + after
  {
  }

  lemma KeysRoundTrip(foreign: ForeignParser, spec: ListSpec, keys: ListInstance, rest: string)
    requires ReadsQuotedKeys(foreign, spec) && keys.Keys == spec.needed
    requires forall k :: k in keys ==> IsPrintableValue(keys[k])
    requires rest == "" || rest[0] != '['
    ensures ParseListSuffix(foreign, spec, map[], Written(KeyTextsOf(SortedKeys(keys.Keys), keys)) + rest)
         == Accepted(keys, rest)
  {
    hide ParseListSuffix, KeyTextsOf, EntriesOf, Along, ToMap, Written, ReadsQuotedKeys;
    var order := SortedKeys(keys.Keys);
    var ts := KeyTextsOf(order, keys);
    SortedKeysAreDistinct(keys.Keys);
    AlongGivesKeys(order, keys);
    KeyTextsAreWritable(order, keys);
    WrittenKeysAreAccepted(foreign, spec, ts, rest);
  }

  lemma KeyTextsAreWritable(order: seq<string>, keys: ListInstance)
    requires forall k :: k in order ==> k in keys && IsPrintableValue(keys[k])
    ensures EntriesOf(KeyTextsOf(order, keys)) == Along(order, keys)
    ensures forall t :: t in KeyTextsOf(order, keys) ==> IsWritable(t)
  {
    var ts := KeyTextsOf(order, keys);
    assert forall i :: 0 <= i < |ts| ==> keys[order[i]].Str? && IsWritable(ts[i]);
  }

  lemma SortedKeysAreDistinct(s: set<string>)
    ensures NoDuplicates(SortedKeys(s))
  {
    var order := SortedKeys(s);
    forall i, j | 0 <= i < j < |order|
      ensures order[i] != order[j]
    {
      SortedKeysIncrease(s, i, j);
      LessTrichotomy(order[i], order[j]);
    }
  }

  // ---- one node ----

  /** What follows the symbol in a node's text. */
  ghost function ElementText(n: DataNode): string {
    if n.suffix.ListElement? then Written(KeyTextsOf(SortedKeys(n.suffix.keys.Keys), n.suffix.keys)) else ""
  }

  lemma NodeTextSplits(env: Env, cur: seq<DataNode>, n: DataNode)
    requires IsValidNode(env, cur, n)
    ensures NodeText(n) == SymbolOf(n) + ElementText(n)
    ensures n.suffix.ListElement? ==> ElementText(n) != "" && ElementText(n)[0] == '['
  {
    if n.suffix.ListElement? {
      var keys := n.suffix.keys;
      var order := SortedKeys(keys.Keys);
      assert |order| > 0;
      KeysTextIsJoined(order, keys, "");
      KeysTextIsWritten(order, keys, "");
      BracketsSplit(WrittenPrefix(None, n.prefix, WhenNeeded), n.suffix.name, Joined(KeyPieces(order, keys), "]["),
                    ElementText(n));
    }
  }

  lemma BracketsSplit(prefix: string, name: string, body: string, element: string)
    requires "[" + (body + ("]" + "")) == element + ""
    ensures prefix + (name + "[" + body + "]") == (prefix + name) + element
    ensures element != "" && element[0] == '['
  {
    assert element + "" == element;
    assert "[" + (body + ("]" + "")) == "[" + body + "]";
    assert prefix + (name + "[" + body + "]") == (prefix + name) + ("[" + body + "]");
  }

  lemma ElementRoundTrip(env: Env, cur: seq<DataNode>, n: DataNode, rest: string)
    requires IsValidNode(env, cur, n) && PathFollows(rest)
    ensures ParseElement(env, cur, Blank(n), ElementText(n) + rest) == Element(n, rest)
  {
    if n.suffix.ListElement? {
      var spec := SpecOf(env.index, ListPath(cur, n)).value;
      assert ListPath(cur, Blank(n)) == ListPath(cur, n);
      StringKeysAreRead(env.foreign, spec);
      KeysRoundTrip(env.foreign, spec, n.suffix.keys, rest);
    } else {
      assert "" + rest == rest;
    }
  }

  /** A valid node followed by the end, a space or a slash is read back and pushed. */
  lemma NodeRoundTrip(env: Env, cur: seq<DataNode>, n: DataNode, rest: string)
    requires IsTree(env.index) && IsValidNode(env, cur, n)
    requires rest == "" || IsSpace(rest[0]) || rest[0] == '/'
    ensures ParseNode(env, cur, NodeText(n) + rest) == NodeMatch(n, rest, Push(cur, n))
  {
    OfferedHasSymbol(env, cur, n);
    hide ParseElement, Table, NodeText, IsOffered, HasListKeys, Blank;
    var symbol, after := SymbolOf(n), ElementText(n) + rest;
    NodeTextSplits(env, cur, n);
    ConcatAssociative(symbol, ElementText(n), rest);
    SymbolIsFound(env, cur, symbol, after);
    assert (symbol + after)[..|symbol|] == symbol && (symbol + after)[|symbol|..] == after;
    SymbolsAreText(env, cur, symbol);
    ElementRoundTrip(env, cur, n, rest);
  }

  lemma {:induction false} TailRoundTrip(env: Env, cur: seq<DataNode>, nodes: seq<DataNode>, rest: string)
    requires IsTree(env.index) && AreValidNodes(env, cur, nodes) && AtPathEnd(rest)
    ensures Resolve(cur, nodes).Some?
    ensures ParseTail(env, cur, Slashed(nodes) + rest) == Nodes(nodes, rest, Resolve(cur, nodes).value)
    decreases |nodes|
  {
    hide ParseNode, IsValidNode, NodeText;
    if nodes == [] {
      assert "" + rest == rest;
    } else {
      var n, more := nodes[0], nodes[1..];
      var after := Slashed(more) + rest;
      SlashAlgebra(NodeText(n), Slashed(more), rest);
      NodeRoundTrip(env, cur, n, after);
      ValidNodeIsPushed(env, cur, n);
      TailRoundTrip(env, Push(cur, n), more, rest);
      assert nodes == [n] + more;
    }
  }

  lemma ValidNodeIsPushed(env: Env, cur: seq<DataNode>, n: DataNode)
    requires IsValidNode(env, cur, n)
    ensures PushFragment(cur, n) == Some(Push(cur, n))
  {
  }

  // ---- whole paths ----

  lemma TemplateEntry(prefix: Option<string>, kind: NodeKind, name: string)
    requires IsIdentifier(name)
    ensures var n := DataNode(prefix, Template(kind, name));
            && SymbolOf(n) == WrittenPrefix(None, prefix, WhenNeeded) + name && Blank(n) == n
            && !n.suffix.NodeUp? && IsIdentifier(n.suffix.name)
            && (n.suffix.ListElement? ==> n.suffix.keys == map[])
  {
  }

  lemma TableEntry(env: Env, cur: seq<DataNode>, symbol: string)
    requires IsTree(env.index) && Table(env, cur).Some?
    requires symbol in Table(env, cur).value
    ensures var n := Table(env, cur).value[symbol];
            && SymbolOf(n) == symbol && Blank(n) == n
            && (n.prefix.Some? ==> IsIdentifier(n.prefix.value))
            && (!n.suffix.NodeUp? ==> IsIdentifier(n.suffix.name))
            && (n.suffix.ListElement? ==> n.suffix.keys == map[])
  {
    if symbol != ".." {
      hide Table, SymbolOf, Blank, Template, IsIdentifier, Passes;
      var child := SymbolNamesChild(env, cur, symbol);
      var kind := env.index[Location(cur)][child].kind;
      if ':' in symbol {
        QualifiedNameJoins(symbol);
        TemplateEntry(Some(ModuleOf(symbol)), kind, LocalNameOf(symbol));
      } else {
        TemplateEntry(None, kind, symbol);
        assert "" + symbol == symbol;
      }
    }
  }

  lemma ValidNodeIsPrintable(env: Env, cur: seq<DataNode>, n: DataNode)
    requires IsTree(env.index) && IsValidNode(env, cur, n)
    ensures IsPrintable(n)
  {
    OfferedHasSymbol(env, cur, n);
    hide Table, SymbolOf, Blank, Template, IsOffered;
    BlankKeepsPrefix(n);
    TableEntry(env, cur, SymbolOf(n));
  }

  lemma {:induction false} ValidNodesArePrintable(env: Env, cur: seq<DataNode>, nodes: seq<DataNode>)
    requires IsTree(env.index) && AreValidNodes(env, cur, nodes)
    ensures forall n :: n in nodes ==> IsPrintable(n)
    decreases |nodes|
  {
    hide IsValidNode, IsPrintable;
    if nodes != [] {
      ValidNodeIsPrintable(env, cur, nodes[0]);
      ValidNodesArePrintable(env, Push(cur, nodes[0]), nodes[1..]);
      assert nodes == [nodes[0]] + nodes[1..];
    }
  }

  lemma NothingToRead(env: Env, cur: seq<DataNode>, rest: string)
    requires IsTree(env.index) && Table(env, cur).Some? && AtPathEnd(rest)
    ensures ParseNode(env, cur, rest) == NodeFail
  {
    var table := Table(env, cur).value;
    var n := LongestSymbol(table.Keys, rest);
    if n > 0 {
      SymbolsAreText(env, cur, rest[..n]);
      FirstIsIn(rest, n);
    }
  }

  /** Parse undoes print: a schema-valid path followed by the end or a space is read back whole,
      from its printed form, as the same path, whatever its key values contain and even when
      sibling names are prefixes of one another. */
  lemma ParseUndoesPrint(env: Env, cwd: seq<DataNode>, p: DataPath, rest: string)
    requires IsTree(env.index) && IsValidPath(env, cwd, p) && (rest == "" || IsSpace(rest[0]))
    ensures Resolve(Start(cwd, p.scope), p.nodes).Some?
    ensures ParsePath(env, cwd, DataString(p, WhenNeeded) + rest)
         == PathMatch(p, rest, Resolve(Start(cwd, p.scope), p.nodes).value)
  {
    TableNeedsLocation(env, Start(cwd, p.scope));
    hide ParsePath, ParseNode, ParseTail, IsValidNode, IsPrintable, NodeText, Table, DataString, Slashed, IsTree;
    var start, text := Start(cwd, p.scope), DataString(p, WhenNeeded);
    ValidNodesArePrintable(env, start, p.nodes);
    PrintedForms(p.nodes);
    if p.nodes == [] {
      EmptyPathRoundTrip(env, cwd, p.scope, rest);
    } else {
      var n, more := p.nodes[0], p.nodes[1..];
      var after := Slashed(more) + rest;
      assert [n] + more == p.nodes;
      BodyOfPrinted(p.scope, n, more, rest);
      NodeRoundTrip(env, start, n, after) by {
        AfterIsFollowing(more, rest);
      }
      ValidNodeIsPushed(env, start, n);
      TailRoundTrip(env, Push(start, n), more, rest);
      PathOfNodes(env, cwd, text + rest, after, Push(start, n));
      NoSlashHere(rest);
    }
  }

  lemma PathOfNodes(env: Env, cwd: seq<DataNode>, s: string, after: string, next: seq<DataNode>)
    requires var first := ParseNode(env, Start(cwd, ScopeOf(s)), DropSlash(s));
             first.NodeMatch? && first.rest == after && first.cur == next
    requires ParseTail(env, next, after).Nodes?
    ensures var tail := ParseTail(env, next, after);
            var n := ParseNode(env, Start(cwd, ScopeOf(s)), DropSlash(s)).node;
            ParsePath(env, cwd, s) == PathMatch(DataPath(ScopeOf(s), [n] + tail.nodes), DropSlash(tail.rest), tail.cur)
  {
    hide ParseNode, ParseTail, DropSlash;
  }

  lemma NoSlashHere(rest: string)
    requires AtPathEnd(rest)
    ensures DropSlash(rest) == rest
  {
  }

  lemma PrintedAloneIsReadBack(env: Env, cwd: seq<DataNode>, p: DataPath)
    requires IsTree(env.index) && IsValidPath(env, cwd, p)
    ensures Resolve(Start(cwd, p.scope), p.nodes).Some?
    ensures ParsePath(env, cwd, DataString(p, WhenNeeded))
         == PathMatch(p, "", Resolve(Start(cwd, p.scope), p.nodes).value)
  {
    hide ParsePath, IsValidPath, DataString, Resolve, IsTree;
    ParseUndoesPrint(env, cwd, p, "");
    assert DataString(p, WhenNeeded) + "" == DataString(p, WhenNeeded);
  }

  lemma EmptyPathRoundTrip(env: Env, cwd: seq<DataNode>, scope: Scope, rest: string)
    requires IsTree(env.index) && Table(env, Start(cwd, scope)).Some? && AtPathEnd(rest)
    ensures ParsePath(env, cwd, Lead(scope) + rest) == PathMatch(DataPath(scope, []), rest, Start(cwd, scope))
  {
    hide ParseNode, ParseTail, Table;
    NothingToRead(env, Start(cwd, scope), rest);
    assert DropSlash("/" + rest) == rest;
    assert "" + rest == rest;
  }

  lemma AfterIsFollowing(nodes: seq<DataNode>, rest: string)
    requires AtPathEnd(rest)
    ensures PathFollows(Slashed(nodes) + rest)
  {
  }

  lemma BodyOfPrinted(scope: Scope, n: DataNode, more: seq<DataNode>, rest: string)
    requires IsPrintable(n)
    ensures var text := if scope.Absolute? then Slashed([n] + more) else NodeText(n) + Slashed(more);
            && ScopeOf(text + rest) == scope
            && DropSlash(text + rest) == NodeText(n) + (Slashed(more) + rest)
  {
    PrintableIsPlain(n);
    assert ([n] + more)[1..] == more;
    if scope.Absolute? {
      SlashAlgebra(NodeText(n), Slashed(more), rest);
    } else {
      ConcatAssociative(NodeText(n), Slashed(more), rest);
    }
  }

  // ---- what was parsed is valid ----

  /** Every list on the way has string keys, at least one, and no element of a leaf-list is taken. */
  predicate OnlyStringKeys(env: Env, cur: seq<DataNode>, nodes: seq<DataNode>)
    decreases |nodes|
  {
    nodes == []
    || (&& (nodes[0].suffix.ListElement? ==> IsStringKeyedList(env, ListPath(cur, nodes[0])))
        && !nodes[0].suffix.LeafListElement?
        && OnlyStringKeys(env, Push(cur, nodes[0]), nodes[1..]))
  }

  lemma ParsedElement(env: Env, cur: seq<DataNode>, attr: DataNode, s: string)
    requires ParseElement(env, cur, attr, s).Element?
    ensures var n := ParseElement(env, cur, attr, s).node;
            && n.prefix == attr.prefix && SymbolOf(n) == SymbolOf(attr) && Blank(n) == Blank(attr)
            && (n.suffix.ListElement? && IsStringKeyedList(env, ListPath(cur, n)) ==> HasListKeys(env, cur, n))
  {
    if attr.suffix.ListElement? {
      var n := ParseElement(env, cur, attr, s).node;
      var spec := SpecOf(env.index, ListPath(cur, attr)).value;
      assert ListPath(cur, n) == ListPath(cur, attr);
      if IsStringKeyed(spec) {
        AcceptedKeysArePrintable(env.foreign, spec, s);
      }
    }
  }

  lemma AcceptedKeysArePrintable(foreign: ForeignParser, spec: ListSpec, s: string)
    requires IsStringKeyed(spec) && ParseListSuffix(foreign, spec, map[], s).Accepted?
    ensures var keys := ParseListSuffix(foreign, spec, map[], s).keys;
            keys.Keys == spec.needed && forall k :: k in keys ==> IsPrintableValue(keys[k])
  {
    AcceptedValuesArePrintable(foreign, spec, map[], s);
  }

  lemma ParsedNodeIsValid(env: Env, cur: seq<DataNode>, s: string)
    requires IsTree(env.index) && ParseNode(env, cur, s).NodeMatch?
    requires OnlyStringKeys(env, cur, [ParseNode(env, cur, s).node])
    ensures IsValidNode(env, cur, ParseNode(env, cur, s).node)
  {
    var table, n := Table(env, cur).value, ParseNode(env, cur, s).node;
    var k := LongestSymbol(table.Keys, s);
    ParsedElement(env, cur, table[s[..k]], s[k..]);
    ParsedNodeIsOffered(env, cur, s);
    hide Table, Blank, SymbolOf, IsOffered, Location;
  }

  /** Whatever is read is a child of the current location that the filter lets through, of the kind
      that the schema gives it. */
  lemma ParsedNodeIsOffered(env: Env, cur: seq<DataNode>, s: string)
    requires IsTree(env.index) && ParseNode(env, cur, s).NodeMatch?
    ensures Location(cur) in env.index && IsOffered(env, cur, ParseNode(env, cur, s).node)
  {
    var table, n := Table(env, cur).value, ParseNode(env, cur, s).node;
    var k := LongestSymbol(table.Keys, s);
    TableEntry(env, cur, s[..k]);
    ParsedElement(env, cur, table[s[..k]], s[k..]);
    hide Table, Blank, SymbolOf, IsOffered;
    TableNeedsLocation(env, cur);
    SymbolIsOffered(env, cur, n);
  }

  /** A node read as a leaf is a leaf of the schema, one read as a container a container, and so on:
      what a command asks of the kind of its path, it asks of the schema. */
  lemma ParsedKindIsSchemaKind(env: Env, cur: seq<DataNode>, s: string)
    requires IsTree(env.index) && ParseNode(env, cur, s).NodeMatch? && ParseNode(env, cur, s).node != NodeUpNode()
    ensures var n := ParseNode(env, cur, s).node.suffix;
            && !n.NodeUp?
            && var info := InfoByNode(env.index, cur, NodePair(ParseNode(env, cur, s).node.prefix, n.name));
               && info.Some?
               && (n.Container? <==> info.value.kind.ContainerKind?)
               && (n.Leaf? <==> info.value.kind.LeafKind?)
               && (n.ListElement? <==> info.value.kind.ListKind?)
               && (n.LeafListElement? <==> info.value.kind.LeafListKind?)
               && (n.Rpc? <==> info.value.kind.RpcKind?)
               && (n.Action? <==> info.value.kind.ActionKind?)
  {
    ParsedNodeIsOffered(env, cur, s);
    hide ParseNode, Location, FullNodeName;
  }

  /** Whatever is read was let through: the filter was asked about a path string under which the schema
      finds the very child that was read. */
  lemma ParsedNodePassedTheFilter(env: Env, cur: seq<DataNode>, s: string)
    requires IsTree(env.index) && IsSchemaPath(cur)
    requires ParseNode(env, cur, s).NodeMatch? && ParseNode(env, cur, s).node != NodeUpNode()
    ensures var n := ParseNode(env, cur, s).node;
            && !n.suffix.NodeUp?
            && var info := InfoByNode(env.index, cur, NodePair(n.prefix, n.suffix.name));
               && info.Some?
               && exists path :: env.filter(path) && InfoByString(env.index, path) == info
  {
    ParsedNodeIsOffered(env, cur, s);
    var n := ParseNode(env, cur, s).node;
    var child := FullNodeName(cur, NodePair(n.prefix, n.suffix.name)).value;
    LookupRoutesAgree(env.index, cur, child);
    QualifiedNameJoins(child);
    hide ParseNode, Location, FullNodeName, InfoByString, IsTree, IsSchemaPath, JoinPaths;
    assert Spelled(ListedAs(cur, child))
        == if FirstPrefix(cur) == Some(ModuleOf(child)) then LocalNameOf(child) else child;
    assert env.filter(AskedAbout(cur, child));
  }

  lemma TableNeedsLocation(env: Env, cur: seq<DataNode>)
    ensures Table(env, cur).Some? <==> Location(cur) in env.index
  {
  }

  /** A parsed node is the one pushed onto the context path. */
  lemma ParsedNodeIsPushed(env: Env, cur: seq<DataNode>, s: string)
    requires ParseNode(env, cur, s).NodeMatch?
    ensures var r := ParseNode(env, cur, s);
            PushFragment(cur, r.node) == Some(r.cur) && r.cur == Push(cur, r.node)
  {
  }

  lemma {:induction false} ParsedTailIsValid(env: Env, cur: seq<DataNode>, s: string)
    requires IsTree(env.index) && ParseTail(env, cur, s).Nodes?
    requires OnlyStringKeys(env, cur, ParseTail(env, cur, s).nodes)
    ensures AreValidNodes(env, cur, ParseTail(env, cur, s).nodes)
    decreases |s|
  {
    hide ParseNode, IsValidNode;
    if s != "" && s[0] == '/' && ParseNode(env, cur, s[1..]).NodeMatch? {
      var r := ParseNode(env, cur, s[1..]);
      var nodes := ParseTail(env, cur, s).nodes;
      assert nodes[0] == r.node && nodes[1..] == ParseTail(env, r.cur, r.rest).nodes;
      ParsedNodeIsPushed(env, cur, s[1..]);
      ParsedNodeIsValid(env, cur, s[1..]);
      ParsedTailIsValid(env, r.cur, r.rest);
    }
  }

  lemma ParsedPathIsValid(env: Env, cwd: seq<DataNode>, s: string)
    requires IsTree(env.index) && ParsePath(env, cwd, s).PathMatch?
    requires var p := ParsePath(env, cwd, s).path; OnlyStringKeys(env, Start(cwd, p.scope), p.nodes)
    ensures IsValidPath(env, cwd, ParsePath(env, cwd, s).path)
  {
    hide IsValidNode, Table;
    var p := ParsePath(env, cwd, s).path;
    var start, body := Start(cwd, p.scope), DropSlash(s);
    TableWasBuilt(env, start, body);
    TableNeedsLocation(env, start);
    var r := ParseNode(env, start, body);
    if r.NodeMatch? {
      assert p.nodes[0] == r.node && p.nodes[1..] == ParseTail(env, r.cur, r.rest).nodes;
      ParsedNodeIsPushed(env, start, body);
      ParsedNodeIsValid(env, start, body);
      ParsedTailIsValid(env, r.cur, r.rest);
    }
  }

  lemma TableWasBuilt(env: Env, cur: seq<DataNode>, s: string)
    requires !ParseNode(env, cur, s).NodeThrow?
    ensures Table(env, cur).Some?
  {
  }

  // ---- the context path ----

  lemma {:induction false} TailResolves(env: Env, cur: seq<DataNode>, s: string)
    requires ParseTail(env, cur, s).Nodes?
    ensures Resolve(cur, ParseTail(env, cur, s).nodes) == Some(ParseTail(env, cur, s).cur)
    decreases |s|
  {
    hide ParseNode;
    if s != "" && s[0] == '/' && ParseNode(env, cur, s[1..]).NodeMatch? {
      var r := ParseNode(env, cur, s[1..]);
      var nodes := ParseTail(env, cur, s).nodes;
      assert nodes[0] == r.node && nodes[1..] == ParseTail(env, r.cur, r.rest).nodes;
      ParsedNodeIsPushed(env, cur, s[1..]);
      TailResolves(env, r.cur, r.rest);
    }
  }

  /** After any accepted parse, from any working directory, the context path built node by node is
      the canonical path the interpreter computes; and it is also realPath's answer exactly when the
      path is relative or has no "..". */
  lemma ParserAndInterpreterAgree(env: Env, cwd: seq<DataNode>, s: string)
    requires ParsePath(env, cwd, s).PathMatch?
    ensures var r, here := ParsePath(env, cwd, s), DataPath(Absolute, cwd);
            && CanonicalPath(here, r.path) == Some(DataPath(Absolute, r.cur))
            && (RealPath(here, r.path) == Some(DataPath(Absolute, r.cur)) <==>
                r.path.scope.Relative? || !HasNodeUp(r.path.nodes))
  {
    hide ParseNode;
    var r, here := ParsePath(env, cwd, s), DataPath(Absolute, cwd);
    var start, body := Start(cwd, r.path.scope), DropSlash(s);
    var first := ParseNode(env, start, body);
    if first.NodeMatch? {
      assert r.path.nodes[0] == first.node && r.path.nodes[1..] == ParseTail(env, first.cur, first.rest).nodes;
      ParsedNodeIsPushed(env, start, body);
      TailResolves(env, first.cur, first.rest);
    }
    assert Resolve(start, r.path.nodes) == Some(r.cur);
    RealPathVersusCanonical(here, r.path);
  }

  /** Normalisation is stable: whatever string was accepted (keys in any order, either quote style,
      with or without a trailing slash), printing the result and parsing it again from the same
      working directory consumes everything and gives the same path and the same context path. */
  lemma NormalisationIsStable(env: Env, cwd: seq<DataNode>, s: string)
    requires IsTree(env.index) && ParsePath(env, cwd, s).PathMatch?
    requires var p := ParsePath(env, cwd, s).path; OnlyStringKeys(env, Start(cwd, p.scope), p.nodes)
    ensures var r := ParsePath(env, cwd, s);
            ParsePath(env, cwd, DataString(r.path, WhenNeeded)) == PathMatch(r.path, "", r.cur)
  {
    hide ParsePath, IsValidPath;
    var r := ParsePath(env, cwd, s);
    ParsedPathIsValid(env, cwd, s);
    ParserAndInterpreterAgree(env, cwd, s);
    PrintedAloneIsReadBack(env, cwd, r.path);
  }
}
