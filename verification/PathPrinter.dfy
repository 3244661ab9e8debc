/** Printing paths, and reading a printed path in only one way
    (src/ast_path.cpp, and the string conversions of src/utils.cpp). */
module PathPrinter {
  import opened Wrappers
  import opened Text
  import opened Ordering
  import opened AstPath

  datatype Prefixes = Always | WhenNeeded

  // ---- values and keys ----

  /** Joining with a separator, as make_ostream_joiner does. */
  function Joined(parts: seq<string>, separator: string): string {
    if parts == [] then ""
    else if |parts| == 1 then parts[0]
    else parts[0] + separator + Joined(parts[1..], separator)
  }

  function LeafDataToString(v: LeafData): string {
    match v
    case Str(text) => text
    case Enum(name) => name
    case Bits(bits) => Joined(bits, " ")
    case Identity(mod, name) => if mod.Some? then mod.value + ":" + name else name
    case Foreign(_, shown) => shown
  }

  predicate HoldsBothQuotes(s: string) {
    '\'' in s && '"' in s
  }

  /** escapeListKeyString: double quotes only when the text holds a single quote. */
  function QuoteFor(what: string): char {
    if '\'' in what then '"' else '\''
  }

  function EscapeListKeyString(what: string): string {
    [QuoteFor(what)] + what + [QuoteFor(what)]
  }

  /** A text is put between single quotes unless it holds one, and then between double quotes. */
  lemma QuotesAre(what: string)
    ensures EscapeListKeyString(what) == if '\'' in what then "\"" + what + "\"" else "'" + what + "'"
  {
  }

  function KeyPiece(key: string, v: LeafData): string {
    key + "=" + EscapeListKeyString(LeafDataToString(v))
  }

  /** The key pieces in a given order. */
  function KeyPieces(order: seq<string>, keys: ListInstance): (r: seq<string>)
    requires forall k :: k in order ==> k in keys
    ensures |r| == |order|
  {
    seq(|order|, i requires 0 <= i < |order| => KeyPiece(order[i], keys[order[i]]))
  }

  // ---- nodes ----

  /** nodeToDataStringVisitor. */
  ghost function NodeToDataString(s: Suffix): string {
    match s
    case ListElement(name, keys) => name + "[" + Joined(KeyPieces(SortedKeys(keys.Keys), keys), "][") + "]"
    case LeafListElement(name, v) => name + "[.=" + EscapeListKeyString(LeafDataToString(v)) + "]"
    case NodeUp => ".."
    case _ => s.name
  }

  /** nodeToSchemaStringVisitor. */
  function NodeToSchemaString(s: Suffix): string {
    if s.NodeUp? then ".." else s.name
  }

  /** The prefix written before a node: its own, or in mode Always that of the first node. */
  function WrittenPrefix(first: Option<string>, own: Option<string>, prefixes: Prefixes): string {
    if own.Some? then own.value + ":"
    else if prefixes.Always? && first.Some? then first.value + ":"
    else ""
  }

  ghost function DataPiece(first: Option<string>, n: DataNode, prefixes: Prefixes): string {
    WrittenPrefix(first, n.prefix, prefixes) + NodeToDataString(n.suffix)
  }

  function SchemaPiece(first: Option<string>, n: DataNode, prefixes: Prefixes): string {
    WrittenPrefix(first, n.prefix, prefixes) + NodeToSchemaString(n.suffix)
  }

  /** Folding joinPaths over the pieces, from an accumulator. */
  function JoinAll(acc: string, pieces: seq<string>): string
    decreases |pieces|
  {
    if pieces == [] then acc else JoinAll(JoinPaths(acc, pieces[0]), pieces[1..])
  }

  ghost function DataPieces(first: Option<string>, nodes: seq<DataNode>, prefixes: Prefixes): (r: seq<string>)
    ensures |r| == |nodes|
  {
    seq(|nodes|, i requires 0 <= i < |nodes| => DataPiece(first, nodes[i], prefixes))
  }

  function FirstPrefix(nodes: seq<DataNode>): Option<string> {
    if nodes == [] then None else nodes[0].prefix
  }

  function SchemaPieces(first: Option<string>, nodes: seq<DataNode>, prefixes: Prefixes): (r: seq<string>)
    ensures |r| == |nodes|
  {
    seq(|nodes|, i requires 0 <= i < |nodes| => SchemaPiece(first, nodes[i], prefixes))
  }

  function Lead(scope: Scope): string {
    if scope.Absolute? then "/" else ""
  }

  /** pathToDataString. */
  ghost function DataString(path: DataPath, prefixes: Prefixes): string {
    JoinAll(Lead(path.scope), DataPieces(FirstPrefix(path.nodes), path.nodes, prefixes))
  }

  /** pathToSchemaString on the nodes of an absolute schema path, prefixes always written: the
      key of a location in the flat schema index. */
  function Location(nodes: seq<DataNode>): string {
    JoinAll("/", SchemaPieces(FirstPrefix(nodes), nodes, Always))
  }

  // ---- the printing loops ----

  /** What make_ostream_joiner still writes for the remaining pieces. */
  function Separated(pieces: seq<string>, first: bool): string {
    if first || pieces == [] then Joined(pieces, "][") else "][" + Joined(pieces, "][")
  }

  lemma SeparatedStep(piece: string, more: seq<string>, first: bool)
    ensures Separated([piece] + more, first) == ((if first then "" else "][") + piece) + Separated(more, false)
  {
    assert ([piece] + more)[1..] == more;
    if more != [] {
      assert piece + "][" + Joined(more, "][") == piece + ("][" + Joined(more, "]["));
      assert "][" + (piece + Separated(more, false)) == ("][" + piece) + Separated(more, false);
    }
  }

  ghost function StillToPrint(keys: ListInstance, rest: set<string>, first: bool): string
    requires rest <= keys.Keys
  {
    Separated(KeyPieces(SortedKeys(rest), keys), first)
  }

  method PrintKeys(keys: ListInstance) returns (res: string)
    ensures res == Joined(KeyPieces(SortedKeys(keys.Keys), keys), "][")
  {
    res := "";
    var rest, first := keys.Keys, true;
    while rest != {}
      invariant rest <= keys.Keys
      invariant res + StillToPrint(keys, rest, first) == StillToPrint(keys, keys.Keys, true)
    {
      LeastExists(rest);
      var k :| IsLeast(k, rest);
      PrintKeysStep(keys, rest, first, k);
      var text := (if first then "" else "][") + KeyPiece(k, keys[k]);
      ConcatAssociative(res, text, StillToPrint(keys, rest - {k}, false));
      res := res + text;
      rest, first := rest - {k}, false;
    }
    assert StillToPrint(keys, {}, first) == "";
    assert res + "" == res;
  }

  lemma PrintKeysStep(keys: ListInstance, rest: set<string>, first: bool, k: string)
    requires rest <= keys.Keys && IsLeast(k, rest)
    ensures StillToPrint(keys, rest, first)
         == ((if first then "" else "][") + KeyPiece(k, keys[k])) + StillToPrint(keys, rest - {k}, false)
  {
    SortedKeysStep(rest, k);
    KeyPiecesHead(keys, k, SortedKeys(rest - {k}));
    SeparatedStep(KeyPiece(k, keys[k]), KeyPieces(SortedKeys(rest - {k}), keys), first);
  }

  lemma KeyPiecesHead(keys: ListInstance, k: string, later: seq<string>)
    requires k in keys && forall x :: x in later ==> x in keys
    ensures KeyPieces([k] + later, keys) == [KeyPiece(k, keys[k])] + KeyPieces(later, keys)
  {
  }

  method PrintNode(s: Suffix) returns (res: string)
    ensures res == NodeToDataString(s)
  {
    match s
    case ListElement(name, keys) =>
      var body := PrintKeys(keys);
      res := name + "[" + body + "]";
    case LeafListElement(name, v) =>
      res := name + "[.=" + EscapeListKeyString(LeafDataToString(v)) + "]";
    case NodeUp => res := "..";
    case _ => res := s.name;
  }

  method PathToDataString(path: DataPath, prefixes: Prefixes) returns (res: string)
    ensures res == DataString(path, prefixes)
  {
    res := "";
    if path.scope.Absolute? {
      res := "/";
    }
    var first := FirstPrefix(path.nodes);
    ghost var pieces := DataPieces(first, path.nodes, prefixes);
    for i := 0 to |path.nodes|
      invariant JoinAll(res, pieces[i..]) == DataString(path, prefixes)
    {
      var text := PrintNode(path.nodes[i].suffix);
      assert pieces[i..][1..] == pieces[i + 1..];
      res := JoinPaths(res, WrittenPrefix(first, path.nodes[i].prefix, prefixes) + text);
    }
  }

  method PathToSchemaString(scope: Scope, nodes: seq<DataNode>, prefixes: Prefixes) returns (res: string)
    ensures res == JoinAll(Lead(scope), SchemaPieces(FirstPrefix(nodes), nodes, prefixes))
  {
    res := "";
    if scope.Absolute? {
      res := "/";
    }
    var first := FirstPrefix(nodes);
    ghost var pieces := SchemaPieces(first, nodes, prefixes);
    for i := 0 to |nodes|
      invariant JoinAll(res, pieces[i..]) == JoinAll(Lead(scope), pieces)
    {
      assert pieces[i..][1..] == pieces[i + 1..];
      res := JoinPaths(res, SchemaPiece(first, nodes[i], prefixes));
    }
  }

  // ---- printing is a homomorphism ----

  lemma {:induction false} JoinAllFromAcc(acc: string, mid: string, pieces: seq<string>)
    ensures JoinAll(JoinPaths(acc, mid), pieces) == JoinPaths(acc, JoinAll(mid, pieces))
    decreases |pieces|
  {
    if pieces != [] {
      JoinPathsAssociative(acc, mid, pieces[0]);
      JoinAllFromAcc(acc, JoinPaths(mid, pieces[0]), pieces[1..]);
    }
  }

  lemma {:induction false} JoinAllConcat(acc: string, a: seq<string>, b: seq<string>)
    ensures JoinAll(acc, a + b) == JoinAll(JoinAll(acc, a), b)
    decreases |a|
  {
    if a == [] {
      assert a + b == b;
    } else {
      assert (a + b)[1..] == a[1..] + b;
      JoinAllConcat(JoinPaths(acc, a[0]), a[1..], b);
    }
  }

  /** A node as mode WhenNeeded writes it. */
  ghost function NodeText(n: DataNode): string {
    WrittenPrefix(None, n.prefix, WhenNeeded) + NodeToDataString(n.suffix)
  }

  ghost function NodeTexts(nodes: seq<DataNode>): (r: seq<string>)
    ensures |r| == |nodes|
  {
    seq(|nodes|, i requires 0 <= i < |nodes| => NodeText(nodes[i]))
  }

  lemma PiecesWhenNeeded(first: Option<string>, nodes: seq<DataNode>)
    ensures DataPieces(first, nodes, WhenNeeded) == NodeTexts(nodes)
  {
  }

  /** In mode WhenNeeded, printing a followed by b joins the print of a with the relative print of b. */
  lemma PrintingIsHomomorphism(scope: Scope, a: seq<DataNode>, b: seq<DataNode>)
    ensures DataString(DataPath(scope, a + b), WhenNeeded)
         == JoinPaths(DataString(DataPath(scope, a), WhenNeeded), DataString(DataPath(Relative, b), WhenNeeded))
  {
    hide NodeText, DataPiece, WrittenPrefix, NodeToDataString, FirstPrefix, JoinPaths;
    JoinPathsUnit(DataString(DataPath(scope, a), WhenNeeded));
    PiecesWhenNeeded(FirstPrefix(a + b), a + b);
    PiecesWhenNeeded(FirstPrefix(a), a);
    PiecesWhenNeeded(FirstPrefix(b), b);
    assert NodeTexts(a + b) == NodeTexts(a) + NodeTexts(b);
    JoinAllConcat(Lead(scope), NodeTexts(a), NodeTexts(b));
    JoinAllFromAcc(DataString(DataPath(scope, a), WhenNeeded), "", NodeTexts(b));
  }

  // ---- printed paths as slash-separated node texts ----

  ghost function Slashed(nodes: seq<DataNode>): string {
    if nodes == [] then "" else "/" + NodeText(nodes[0]) + Slashed(nodes[1..])
  }

  /** A text that joinPaths puts a slash before and strips nothing from. */
  predicate IsPlain(text: string) {
    text != "" && text[0] != '/' && text[|text| - 1] != '/'
  }

  lemma JoinPlain(acc: string, text: string)
    requires IsPlain(text)
    ensures acc != "" && acc[|acc| - 1] != '/' ==> JoinPaths(acc, text) == acc + ("/" + text)
    ensures JoinPaths("/", text) == "/" + text
    ensures JoinPaths("", text) == text
    ensures var joined := JoinPaths(acc, text); joined != "" && joined[|joined| - 1] != '/'
  {
  }

  lemma {:induction false} JoinAllPlain(acc: string, nodes: seq<DataNode>)
    requires acc != "" && acc[|acc| - 1] != '/'
    requires forall n :: n in nodes ==> IsPlain(NodeText(n))
    ensures JoinAll(acc, NodeTexts(nodes)) == acc + Slashed(nodes)
    decreases |nodes|
  {
    if nodes == [] {
      assert acc + "" == acc;
    } else {
      var text, rest := NodeText(nodes[0]), nodes[1..];
      assert NodeTexts(nodes)[1..] == NodeTexts(rest);
      JoinPlain(acc, text);
      JoinAllPlain(acc + ("/" + text), rest);
      ConcatAssociative(acc, "/" + text, Slashed(rest));
    }
  }

  /** The printed form of a path whose node texts are plain. */
  lemma DataStringIsSlashed(nodes: seq<DataNode>)
    requires forall n :: n in nodes ==> IsPlain(NodeText(n))
    ensures DataString(DataPath(Absolute, nodes), WhenNeeded) == if nodes == [] then "/" else Slashed(nodes)
    ensures DataString(DataPath(Relative, nodes), WhenNeeded)
         == if nodes == [] then "" else NodeText(nodes[0]) + Slashed(nodes[1..])
  {
    hide NodeText, DataPiece, WrittenPrefix, NodeToDataString, FirstPrefix, JoinPaths;
    PiecesWhenNeeded(FirstPrefix(nodes), nodes);
    if nodes != [] {
      var text, rest := NodeText(nodes[0]), nodes[1..];
      assert NodeTexts(nodes)[1..] == NodeTexts(rest);
      JoinPlain("", text);
      JoinAllPlain(text, rest);
      JoinAllPlain("/" + text, rest);
    }
  }
}
