/** A schema with an RPC whose input holds a list keyed by a string. Its list elements are valid
    paths whatever text the key has, so the hypotheses of the round-trip theorems can be met. */
module Example {
  import opened Wrappers
  import opened Text
  import opened AstPath
  import opened PathPrinter
  import opened LeafParsers
  import opened StaticSchema
  import opened ListSuffix
  import opened PathParser
  import opened RoundTrip

  const LIST := NodeInfo(ListKind({"k"}), true)
  const KEY := NodeInfo(LeafKind(StringType), true)
  const INDEX: Index := map[
    "/" := map["m:rpc" := NodeInfo(RpcKind, true)],
    "/m:rpc" := map["m:l" := LIST],
    "/m:rpc/m:l" := map["m:k" := KEY],
    "/m:rpc/m:l/m:k" := map[]
  ]

  const RPC := DataNode(Some("m"), Rpc("rpc"))
  const NODE := DataNode(None, List("l"))

  function ExampleEnv(foreign: ForeignParser): Env {
    Env(INDEX, _ => true, foreign)
  }

  function ListNode(text: string): DataNode {
    DataNode(None, ListElement("l", map["k" := Str(text)]))
  }

  lemma Names()
    ensures IsQualified("m:rpc") && IsQualified("m:l") && IsQualified("m:k")
    ensures "m" + ":" + "rpc" == "m:rpc" && "m" + ":" + "l" == "m:l" && "m" + ":" + "k" == "m:k"
  {
    assert "m" + ":" + "rpc" == "m:rpc" && "m" + ":" + "l" == "m:l" && "m" + ":" + "k" == "m:k";
    assert IsIdentifier("m") && IsIdentifier("rpc") && IsIdentifier("l") && IsIdentifier("k");
    hide IsIdentifier;
    QualifiedNameSplits("m", "rpc");
    QualifiedNameSplits("m", "l");
    QualifiedNameSplits("m", "k");
  }

  lemma Joins()
    ensures JoinPaths("/", "m:rpc") == "/m:rpc" && JoinPaths("/m:rpc", "m:l") == "/m:rpc/m:l"
    ensures JoinPaths("/m:rpc/m:l", "m:k") == "/m:rpc/m:l/m:k"
  {
  }

  lemma Locations()
    ensures IsLocation("/") && IsLocation("/m:rpc") && IsLocation("/m:rpc/m:l") && IsLocation("/m:rpc/m:l/m:k")
  {
    Names();
    Joins();
    assert IsLocation("/");
    hide IsQualified, JoinPaths, IsLocation;
    ChildIsLocation("/", "m:rpc");
    ChildIsLocation("/m:rpc", "m:l");
    ChildIsLocation("/m:rpc/m:l", "m:k");
  }

  lemma IndexIsTree()
    ensures IsTree(INDEX)
  {
    Names();
    Joins();
    Locations();
    hide IsQualified, JoinPaths, IsLocation;
    assert forall l :: l in INDEX ==> l in {"/", "/m:rpc", "/m:rpc/m:l", "/m:rpc/m:l/m:k"};
    forall l, n | IsChild(INDEX, l, n)
      ensures IsQualified(n) && JoinPaths(l, n) in INDEX
    {
    }
  }

  lemma RpcLocation()
    ensures Location([]) == "/" && Location([RPC]) == "/m:rpc"
  {
    Names();
    Joins();
    assert [] + [RPC] == [RPC];
    ChildLocation([], RPC, "m:rpc");
  }

  lemma ListIsChild()
    ensures IsChild(INDEX, "/m:rpc", "m:l") && INDEX["/m:rpc"]["m:l"].kind == ListKind({"k"})
    ensures SpellsChild([RPC], NODE, "m:l") && IsSchemaNode(NODE) && IsSchemaPath([RPC])
  {
    Names();
    hide IsQualified;
  }

  lemma ListLocation()
    ensures Location([RPC, NODE]) == "/m:rpc/m:l"
    ensures ListKeys(INDEX, [RPC, NODE]) == Some({"k"})
  {
    Joins();
    IndexIsTree();
    RpcLocation();
    ListIsChild();
    assert [RPC] + [NODE] == [RPC, NODE];
    hide Location, IsTree, JoinPaths, INDEX, SpellsChild, IsSchemaNode, IsSchemaPath, RPC, NODE;
    ListKeysOfChild(INDEX, [RPC], "m:l", NODE);
  }

  lemma SpecOfList()
    ensures SpecOf(INDEX, [RPC, NODE]) == Some(ListSpec({"k"}, map["k" := StringType]))
  {
    ListLocation();
    Names();
    hide Location, ListKeys;
    assert FullNodeName([RPC, NODE], NodePair(None, "k")) == Some("m" + ":" + "k");
    assert LeafTypeAt(INDEX, [RPC, NODE], NodePair(None, "k")) == Some(StringType);
    hide LeafTypeAt;
    assert SpecOf(INDEX, [RPC, NODE]).value.types == map["k" := StringType];
  }

  lemma ElementIsOffered(foreign: ForeignParser, text: string)
    ensures IsOffered(ExampleEnv(foreign), [RPC], ListNode(text))
    ensures ListPath([RPC], ListNode(text)) == [RPC, NODE]
  {
    Names();
    RpcLocation();
    hide Location, JoinPaths, IsQualified;
    assert FullNodeName([RPC], NodePair(None, "l")) == Some("m" + ":" + "l");
  }

  lemma ElementIsPushed(text: string)
    ensures PushFragment([RPC], ListNode(text)) == Some([RPC, ListNode(text)])
    ensures Resolve([RPC], [ListNode(text)]) == Some([RPC, ListNode(text)])
  {
    var n := ListNode(text);
    assert Push([RPC], n) == [RPC, n];
    assert [n][1..] == [] && Resolve([RPC, n], []) == Some([RPC, n]);
  }

  /** Any text without both kinds of quotes can be the key of an element. */
  lemma ElementIsValidPath(foreign: ForeignParser, text: string)
    requires IsPrintableValue(Str(text))
    ensures IsTree(INDEX)
    ensures IsValidPath(ExampleEnv(foreign), [RPC], DataPath(Relative, [ListNode(text)]))
  {
    IndexIsTree();
    SpecOfList();
    RpcLocation();
    ElementIsOffered(foreign, text);
    ElementIsPushed(text);
    hide IsOffered, Location, ListPath, PushFragment, SpecOf, IsTree, IsQualified, JoinPaths;
    var env, n := ExampleEnv(foreign), ListNode(text);
    assert n.suffix.keys.Keys == {"k"};
    assert IsIdentifier("k");
    assert IsStringKeyedList(env, [RPC, NODE]);
    assert HasListKeys(env, [RPC], n);
    assert IsValidNode(env, [RPC], n);
    assert [n][1..] == [];
    assert AreValidNodes(env, Push([RPC], n), []);
    assert AreValidNodes(env, [RPC], [n]);
  }

  /** So inside the RPC its printed form is accepted, and read back. */
  lemma ElementIsReadBack(foreign: ForeignParser, text: string)
    requires IsPrintableValue(Str(text))
    ensures var p := DataPath(Relative, [ListNode(text)]);
            ParsePath(ExampleEnv(foreign), [RPC], DataString(p, WhenNeeded)) == PathMatch(p, "", [RPC, ListNode(text)])
  {
    var env, p := ExampleEnv(foreign), DataPath(Relative, [ListNode(text)]);
    ElementIsValidPath(foreign, text);
    ElementIsPushed(text);
    assert env.index == INDEX && Start([RPC], Relative) == [RPC];
    hide ParsePath, IsValidPath, DataString, Resolve, IsTree, ListNode, INDEX, ExampleEnv, IsPrintableValue, Start;
    PrintedAloneIsReadBack(env, [RPC], p);
  }
}
