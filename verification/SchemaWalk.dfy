/** The working directory and the parser's context path stay in the schema: the parser only offers
    nodes that have a location of their own, so no accepted path leads to an unknown one
    (src/path_parser.hpp:92-247, src/static_schema.cpp:154-200, src/interpreter.cpp:124-128). */
module SchemaWalk {
  import opened Wrappers
  import opened Text
  import opened AstPath
  import opened PathPrinter
  import opened StaticSchema
  import opened PathParser
  import opened RoundTrip
  import PathEnds
  import opened InputMode
  import InputRuns
  import LeafParsers

  /** Every node on the way is in the schema. */
  ghost predicate IsInSchema(index: Index, nodes: seq<DataNode>) {
    IsSchemaPath(nodes) && forall i :: 0 <= i <= |nodes| ==> Location(nodes[..i]) in index
  }

  lemma RootIsInSchema(index: Index)
    requires IsTree(index)
    ensures IsInSchema(index, [])
  {
  }

  lemma LocationIsKnown(index: Index, nodes: seq<DataNode>)
    requires IsInSchema(index, nodes)
    ensures Location(nodes) in index
  {
    assert nodes[..|nodes|] == nodes;
  }

  /** A symbol other than ".." spells a child of the current location. */
  lemma SymbolSpellsChild(env: Env, cur: seq<DataNode>, symbol: string) returns (child: string)
    requires IsTree(env.index) && Table(env, cur).Some?
    requires symbol in Table(env, cur).value && symbol != ".."
    ensures IsChild(env.index, Location(cur), child)
    ensures SpellsChild(cur, Table(env, cur).value[symbol], child)
    ensures IsSchemaNode(Table(env, cur).value[symbol])
  {
    child := SymbolNamesChild(env, cur, symbol);
    var kind := env.index[Location(cur)][child].kind;
    QualifiedNameJoins(child);
    TemplateName(kind, if ':' in symbol then LocalNameOf(child) else symbol);
    hide Template, Passes, Table, Location, IsTree, ModuleOf, LocalNameOf, IsIdentifier;
  }

  lemma BlankKeepsName(cur: seq<DataNode>, n: DataNode, attr: DataNode, child: string)
    requires Blank(n) == Blank(attr)
    ensures n.suffix.NodeUp? == attr.suffix.NodeUp?
    ensures SpellsChild(cur, attr, child) ==> SpellsChild(cur, n, child)
    ensures IsSchemaNode(attr) ==> IsSchemaNode(n)
  {
  }

  /** A node spelling a child leads to a location that the schema has. */
  lemma ChildIsInSchema(index: Index, cur: seq<DataNode>, n: DataNode, child: string)
    requires IsTree(index) && IsInSchema(index, cur)
    requires IsChild(index, Location(cur), child) && SpellsChild(cur, n, child) && IsSchemaNode(n)
    ensures IsInSchema(index, cur + [n])
  {
    hide Location, SpellsChild, IsSchemaNode;
    ChildLocation(cur, n, child);
    SpelledHasModule(cur, n, child);
    var next := cur + [n];
    forall i | 0 <= i <= |next|
      ensures Location(next[..i]) in index
    {
      if i <= |cur| {
        assert next[..i] == cur[..i];
      } else {
        assert next[..i] == next;
      }
    }
  }

  lemma SpelledHasModule(cur: seq<DataNode>, n: DataNode, child: string)
    requires SpellsChild(cur, n, child)
    ensures cur == [] ==> n.prefix.Some?
  {
  }

  lemma ParentIsInSchema(index: Index, cur: seq<DataNode>)
    requires IsInSchema(index, cur) && cur != []
    ensures IsInSchema(index, cur[..|cur| - 1])
  {
    hide Location, IsSchemaNode;
    var up := cur[..|cur| - 1];
    assert forall i :: 0 <= i <= |up| ==> up[..i] == cur[..i];
  }

  /** Reading a node keeps the context path in the schema. */
  lemma NodeStaysInSchema(env: Env, cur: seq<DataNode>, s: string)
    requires IsTree(env.index) && IsInSchema(env.index, cur)
    requires ParseNode(env, cur, s).NodeMatch?
    ensures IsInSchema(env.index, ParseNode(env, cur, s).cur)
  {
    var table := Table(env, cur).value;
    var k := LeafParsers.LongestSymbol(table.Keys, s);
    var attr, n := table[s[..k]], ParseNode(env, cur, s).node;
    ParsedElement(env, cur, attr, s[k..]);
    ParsedNodeIsPushed(env, cur, s);
    hide Location, Table, IsInSchema, SpellsChild, Blank, IsSchemaNode;
    if s[..k] == ".." {
      assert table[".."] == NodeUpNode();
      BlankKeepsName(cur, n, attr, "");
      if cur != [] {
        ParentIsInSchema(env.index, cur);
      }
    } else {
      var child := SymbolSpellsChild(env, cur, s[..k]);
      BlankKeepsName(cur, n, attr, child);
      ChildIsInSchema(env.index, cur, n, child);
    }
  }

  lemma {:induction false} TailStaysInSchema(env: Env, cur: seq<DataNode>, s: string)
    requires IsTree(env.index) && IsInSchema(env.index, cur)
    requires ParseTail(env, cur, s).Nodes?
    ensures IsInSchema(env.index, ParseTail(env, cur, s).cur)
    decreases |s|
  {
    hide ParseNode, IsInSchema;
    if s != "" && s[0] == '/' && ParseNode(env, cur, s[1..]).NodeMatch? {
      var r := ParseNode(env, cur, s[1..]);
      NodeStaysInSchema(env, cur, s[1..]);
      TailStaysInSchema(env, r.cur, r.rest);
    }
  }

  /** From a working directory in the schema every accepted path leads to a node in the schema, for
      which a symbol table can again be built. */
  lemma ParseStaysInSchema(env: Env, cwd: seq<DataNode>, s: string)
    requires IsTree(env.index) && IsInSchema(env.index, cwd)
    requires ParsePath(env, cwd, s).PathMatch?
    ensures IsInSchema(env.index, ParsePath(env, cwd, s).cur)
    ensures Table(env, ParsePath(env, cwd, s).cur).Some?
  {
    hide ParseNode, IsInSchema, Location, Symbols;
    RootIsInSchema(env.index);
    var start, body := Start(cwd, ScopeOf(s)), DropSlash(s);
    var first := ParseNode(env, start, body);
    if first.NodeMatch? {
      NodeStaysInSchema(env, start, body);
      TailStaysInSchema(env, first.cur, first.rest);
    }
    LocationIsKnown(env.index, ParsePath(env, cwd, s).cur);
  }

  /** So there a trailing slash is always read with the path. */
  lemma TrailingSlashIsAlwaysRead(env: Env, cwd: seq<DataNode>, s: string, rest: string)
    requires IsTree(env.index) && IsInSchema(env.index, cwd) && AtPathEnd(rest)
    requires ParsePath(env, cwd, s).PathMatch? && ParsePath(env, cwd, s).rest == ""
    requires s != "" && s[|s| - 1] != '/'
    requires var p := ParsePath(env, cwd, s).path; PathEnds.AllValuesStop(env, Start(cwd, p.scope), p.nodes)
    ensures var r := ParsePath(env, cwd, s);
            ParsePath(env, cwd, s + ("/" + rest)) == PathMatch(r.path, rest, r.cur)
  {
    hide ParsePath, IsInSchema, Location, IsTree, Table;
    PathEnds.TrailingSlashIsRead(env, cwd, s, rest);
    ParseStaysInSchema(env, cwd, s);
    TableNeedsLocation(env, ParsePath(env, cwd, s).cur);
  }

  /** cd to an accepted path keeps the working directory in the schema exactly when the path is
      relative or has no ".."; otherwise the ".." stays in it. */
  lemma CdStaysInSchemaIff(env: Env, cwd: seq<DataNode>, s: string)
    requires IsTree(env.index) && IsInSchema(env.index, cwd)
    requires ParsePath(env, cwd, s).PathMatch?
    ensures var path := ParsePath(env, cwd, s).path;
            var next := RealPath(DataPath(Absolute, cwd), path);
            && next.Some?
            && (IsInSchema(env.index, next.value.nodes) <==> path.scope.Relative? || !HasNodeUp(path.nodes))
  {
    hide ParsePath;
    ParserAndInterpreterAgree(env, cwd, s);
    ParseStaysInSchema(env, cwd, s);
    var path := ParsePath(env, cwd, s).path;
    if path.scope.Absolute? && HasNodeUp(path.nodes) {
      var i :| 0 <= i < |path.nodes| && path.nodes[i].suffix.NodeUp?;
      assert path.nodes[i] in path.nodes;
      assert !IsSchemaNode(path.nodes[i]);
    }
  }

  /** A parsed node has identifiers for names. */
  lemma ParsedNodeIsNamed(env: Env, cur: seq<DataNode>, s: string)
    requires IsTree(env.index) && ParseNode(env, cur, s).NodeMatch?
    ensures IsNamed(ParseNode(env, cur, s).node)
  {
    var table := Table(env, cur).value;
    var k := LeafParsers.LongestSymbol(table.Keys, s);
    TableEntry(env, cur, s[..k]);
    ParsedElement(env, cur, table[s[..k]], s[k..]);
    hide Table, Blank, SymbolOf;
    NamesAreBlanks(ParseNode(env, cur, s).node, table[s[..k]]);
  }

  lemma NamesAreBlanks(n: DataNode, attr: DataNode)
    requires Blank(n) == Blank(attr)
    ensures IsNamed(attr) ==> IsNamed(n)
  {
  }

  /** Over an active input, a move of a source that the parser accepted reaches the main datastore
      exactly when it is relative. */
  lemma ParsedMoveEscapesIff(env: Env, s: State, line: string, step: Step)
    requires IsTree(env.index) && Consistent(s) && s.inputPath.Some? && IsRooted(s)
    requires ParsePath(env, s.cwd.nodes, line).PathMatch?
    requires step.command.Move? && step.command.path == ParsePath(env, s.cwd.nodes, line).path
    requires CallOf(s, step.command).Some?
    ensures InputRuns.Escapes(s, step) <==> step.command.path.scope.Relative?
  {
    hide ParseNode, ParseTail, IsNamed, RealPath, Printed;
    if step.command.path.nodes != [] {
      ParsedNodeIsNamed(env, Start(s.cwd.nodes, ScopeOf(line)), DropSlash(line));
    }
    MoveGoesToInputIff(s, step.command);
  }

  // ---- runs of commands that the parser accepted ----

  /** The path of a command that changes the working directory was parsed there, and is relative or
      has no "..". */
  ghost predicate IsFromParser(index: Index, s: State, c: Command) {
    c.Cd? || c.Prepare? ==>
      && (c.path.scope.Relative? || !HasNodeUp(c.path.nodes))
      && exists env: Env, line: string ::
           env.index == index && ParsePath(env, s.cwd.nodes, line).PathMatch?
           && ParsePath(env, s.cwd.nodes, line).path == c.path
  }

  ghost predicate RunIsFromParser(index: Index, s: State, steps: seq<Step>)
    requires Consistent(s)
    decreases |steps|
  {
    steps != [] ==>
      IsFromParser(index, s, steps[0].command) && RunIsFromParser(index, Next(s, steps[0]).state, steps[1..])
  }

  ghost predicate HasSchemaCwd(index: Index, s: State) {
    s.cwd.scope.Absolute? && IsInSchema(index, s.cwd.nodes)
  }

  lemma StepStaysInSchema(index: Index, s: State, step: Step)
    requires IsTree(index) && Consistent(s) && HasSchemaCwd(index, s)
    requires IsFromParser(index, s, step.command)
    ensures HasSchemaCwd(index, Next(s, step).state)
  {
    hide ParsePath, IsInSchema;
    RootIsInSchema(index);
    CwdOfNext(s, step);
    var c := step.command;
    if c.Cd? || c.Prepare? {
      var env: Env, line: string :| env.index == index && ParsePath(env, s.cwd.nodes, line).PathMatch?
                                    && ParsePath(env, s.cwd.nodes, line).path == c.path;
      hide Next;
      CdStaysInSchemaIff(env, s.cwd.nodes, line);
    }
  }

  lemma CwdOfNext(s: State, step: Step)
    requires Consistent(s)
    ensures var c, cwd := step.command, Next(s, step).state.cwd;
            if c.Cd? || c.Prepare? then cwd == s.cwd || RealPath(s.cwd, c.path) == Some(cwd)
            else cwd == s.cwd || cwd == ROOT
  {
    hide CallOf, Printed, RealPath, CanonicalPath, IsOutOfContext;
  }

  /** Over every run of commands that the parser accepted, as long as no cd or prepare has an
      absolute path with "..", the working directory is a node of the schema. */
  lemma {:induction false} RunStaysInSchema(index: Index, s: State, steps: seq<Step>)
    requires IsTree(index) && Consistent(s) && HasSchemaCwd(index, s)
    requires RunIsFromParser(index, s, steps)
    ensures HasSchemaCwd(index, Run(s, steps))
    decreases |steps|
  {
    hide IsFromParser, HasSchemaCwd;
    if steps != [] {
      StepStaysInSchema(index, s, steps[0]);
      RunStaysInSchema(index, Next(s, steps[0]).state, steps[1..]);
    }
  }
}
