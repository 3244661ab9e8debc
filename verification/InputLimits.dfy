/** Inputs for which the isolation and the prompt of InputRuns fail, each outside the conditions
    under which they are proved. */
module InputLimits {
  import opened Wrappers
  import opened AstPath
  import opened PathPrinter
  import opened UniqueReadability
  import opened InputMode
  import opened InputRuns
  import opened Example
  import opened LeafParsers
  import opened PathParser

  const UP := DataNode(None, NodeUp)
  const OTHER := DataNode(Some("m"), Container("c"))

  const IDLE := State(ROOT, None, None, [], RunningTarget)
  const ALL_WELL := Answers(true, true, true, true, true)
  const PREPARED := State(DataPath(Absolute, [RPC]), Some("/m:rpc"),
                          Some([Entry(CreateItem("/m:rpc"), true)]), [], RunningTarget)

  lemma PrintedNodes(n: DataNode, rest: seq<DataNode>)
    requires forall m :: m in [n] + rest ==> IsPrintable(m)
    ensures Printed(DataPath(Absolute, [n] + rest)) == "/" + NodeText(n) + Slashed(rest)
    ensures Printed(DataPath(Relative, [n] + rest)) == NodeText(n) + Slashed(rest)
  {
    PrintedForms([n] + rest);
    assert ([n] + rest)[1..] == rest;
  }

  lemma PrintedNode(n: DataNode)
    requires IsPrintable(n)
    ensures Printed(DataPath(Absolute, [n])) == "/" + NodeText(n)
    ensures Printed(DataPath(Relative, [n])) == NodeText(n)
    ensures Slashed([n]) == "/" + NodeText(n)
  {
    PrintedNodes(n, []);
    PrintedForms([n]);
    assert [n] + [] == [n];
  }

  lemma NodeTextsAre()
    ensures IsPrintable(RPC) && IsPrintable(UP) && IsPrintable(OTHER)
    ensures NodeText(RPC) == "m:rpc" && NodeText(OTHER) == "m:c"
  {
  }

  lemma SlashLiterals()
    ensures "/" + "m:rpc" == "/m:rpc" && "/" + "m:c" == "/m:c"
  {
  }

  lemma TextsOfNodes()
    ensures Printed(ROOT) == "/"
    ensures Printed(DataPath(Absolute, [RPC])) == "/m:rpc"
    ensures Printed(DataPath(Absolute, [OTHER])) == "/m:c"
  {
    NodeTextsAre();
    PrintedForms([]);
    SlashLiterals();
    hide NodeText, IsPrintable, Printed, Slashed, RPC, OTHER;
    PrintedNode(RPC);
    PrintedNode(OTHER);
  }

  /** What is printed below /m:rpc starts with it. */
  lemma TextBelowRpc(more: seq<DataNode>)
    requires forall n :: n in more ==> IsPrintable(n)
    ensures "/m:rpc" <= Printed(DataPath(Absolute, [RPC] + more))
  {
    NodeTextsAre();
    SlashLiterals();
    hide NodeText, IsPrintable, Printed, Slashed, RPC;
    PrintedNodes(RPC, more);
  }

  /** PREPARED is the state just after a successful prepare of /m:rpc. */
  lemma PreparedAfterPrepare()
    ensures Next(IDLE, Step(Prepare(DataPath(Absolute, [RPC])), ALL_WELL)) == Result(PREPARED, true)
  {
    TextsOfNodes();
    RpcResolves();
  }

  lemma RpcResolves()
    ensures Resolve([], [RPC]) == Some([RPC])
  {
    assert Push([], RPC) == [RPC] && [RPC][1..] == [];
    assert Resolve([RPC], []) == Some([RPC]);
  }

  /** The guard looks at the path as written, the routing at the resolved one: an absolute path that
      leaves the input by ".." passes the guard and changes the main datastore. */
  lemma AbsoluteDotsEscape()
    ensures Escapes(PREPARED, Step(Create(DataPath(Absolute, [RPC, UP, OTHER])), ALL_WELL))
  {
    TextsOfNodes();
    NodeTextsAre();
    TextBelowRpc([UP, OTHER]);
    assert [RPC] + [UP, OTHER] == [RPC, UP, OTHER];
    DotsResolve();
    hide Printed, Resolve, RPC, UP, OTHER, IsPrintable, NodeText;
    var path := DataPath(Absolute, [RPC, UP, OTHER]);
    assert CanonicalPath(PREPARED.cwd, path) == Some(DataPath(Absolute, [OTHER]));
    assert !IsOutOfContext(PREPARED, path);
    OtherIsOutside();
  }

  lemma OtherIsOutside()
    ensures !("/m:rpc" <= "/m:c")
  {
  }

  lemma ResolveFirst(start: seq<DataNode>, n: DataNode, more: seq<DataNode>)
    requires PushFragment(start, n).Some?
    ensures Resolve(start, [n] + more) == Resolve(PushFragment(start, n).value, more)
  {
    assert ([n] + more)[1..] == more;
  }

  lemma DotsPush()
    ensures PushFragment([], RPC) == Some([RPC])
    ensures PushFragment([RPC], UP) == Some([])
    ensures PushFragment([], OTHER) == Some([OTHER])
  {
    assert Push([], RPC) == [RPC] && Push([], OTHER) == [OTHER];
  }

  lemma DotsResolve()
    ensures Resolve([], [RPC, UP, OTHER]) == Some([OTHER])
  {
    DotsPush();
    assert Resolve([OTHER], []) == Some([OTHER]);
    hide Resolve, PushFragment, RPC, UP, OTHER;
    var a, b, c := RPC, UP, OTHER;
    assert [a, b, c] == [a] + [b, c] && [b, c] == [b] + [c] && [c] == [c] + [];
    ResolveFirst([], a, [b, c]);
    ResolveFirst([a], b, [c]);
    ResolveFirst([], c, []);
  }

  /** A relative source is not resolved before it is routed. After the prepare, with the schema of
      Example, the line l[k='...'] is accepted as the list instance to move, the guard lets it
      through, and the main datastore is asked to move it. */
  lemma RelativeMoveEscapes(foreign: ForeignParser, text: string, to: Destination)
    requires IsPrintableValue(Str(text))
    ensures var source := DataPath(Relative, [ListNode(text)]);
            var line := DataString(source, WhenNeeded);
            && ParsePath(ExampleEnv(foreign), PREPARED.cwd.nodes, line) == PathMatch(source, "", [RPC, ListNode(text)])
            && Escapes(PREPARED, Step(Move(source, to), ALL_WELL))
  {
    ElementIsReadBack(foreign, text);
    hide ParsePath, DataString, Escapes;
    InnerMoveEscapes(text, to);
  }

  lemma InnerMoveEscapes(text: string, to: Destination)
    requires IsPrintableValue(Str(text))
    ensures Escapes(PREPARED, Step(Move(DataPath(Relative, [ListNode(text)]), to), ALL_WELL))
  {
    ElementIsPushed(text);
    ElementIsPrintable(text);
    TextBelowRpc([ListNode(text)]);
    RelativePrintHasNoSlash([ListNode(text)]);
    assert [RPC] + [ListNode(text)] == [RPC, ListNode(text)];
    hide Printed, ListNode, IsPrintable, Resolve;
    var source := DataPath(Relative, [ListNode(text)]);
    assert RealPath(PREPARED.cwd, source) == Some(DataPath(Absolute, [RPC, ListNode(text)]));
    assert !IsOutOfContext(PREPARED, source);
    assert !("/m:rpc" <= Printed(source)) by { assert "/m:rpc"[0] == '/'; }
  }

  lemma ElementIsPrintable(text: string)
    requires IsPrintableValue(Str(text))
    ensures IsPrintable(ListNode(text)) && IsNamed(ListNode(text))
  {
  }

  /** exec with a path over an active input throws after resetting the cwd, and the next prompt is
      out of range. */
  lemma ExecWithPathLosesTheCwd(path: DataPath)
    ensures var r := Next(PREPARED, Step(Exec(Some(path)), ALL_WELL));
            !r.ok && r.state == PREPARED.(cwd := ROOT) && Prompt(r.state).None?
  {
    TextsOfNodes();
  }

  /** A prepare whose first createItem throws leaves an input active around a cwd outside it. */
  lemma FailedPrepareStaysActive()
    ensures var r := Next(IDLE, Step(Prepare(DataPath(Absolute, [RPC])), ALL_WELL.(initial := false)));
            !r.ok && r.state.inputPath == Some("/m:rpc") && r.state.cwd == ROOT && Prompt(r.state).None?
  {
    TextsOfNodes();
    RpcResolves();
  }
}
