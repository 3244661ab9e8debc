/** How a path ends: parsers leave a suffix of what they are given, a text that was accepted may be
    followed by more, and one trailing slash is read with the path (src/path_parser.hpp:304-329). */
module PathEnds {
  import opened Wrappers
  import opened Text
  import opened AstPath
  import opened PathPrinter
  import opened UniqueReadability
  import opened LeafParsers
  import opened StaticSchema
  import opened ListSuffix
  import opened PathParser
  import opened RoundTrip

  // ---- parsers take a prefix ----

  predicate IsSuffix(rest: string, s: string) {
    |rest| <= |s| && s[|s| - |rest|..] == rest
  }

  lemma SuffixTransitive(a: string, b: string, c: string)
    requires IsSuffix(a, b) && IsSuffix(b, c)
    ensures IsSuffix(a, c)
  {
  }

  lemma SuffixKeepsLast(rest: string, s: string)
    requires IsSuffix(rest, s)
    ensures rest != "" ==> rest[|rest| - 1] == s[|s| - 1]
  {
  }

  lemma CutIsSuffix(s: string, n: nat)
    requires n <= |s|
    ensures IsSuffix(s[n..], s)
  {
  }

  lemma {:induction false} BitsLeaveSuffix(table: set<string>, s: string)
    ensures IsSuffix(BitsLoop(table, s).1, s)
    decreases |s|
  {
    var n := LongestSymbol(table, s);
    var spaces := SpaceRun(s[n..]);
    CutIsSuffix(s, n);
    if spaces > 0 {
      CutIsSuffix(s[n..], spaces);
      BitsLeaveSuffix(table - {s[..n]}, s[n..][spaces..]);
      SuffixTransitive(BitsLoop(table, s).1, s[n..][spaces..], s[n..]);
      SuffixTransitive(BitsLoop(table, s).1, s[n..], s);
    }
  }

  lemma {:induction false} LeafLeavesSuffix(foreign: ForeignParser, t: LeafType, s: string)
    requires ParseLeaf(foreign, t, s).Some?
    ensures IsSuffix(ParseLeaf(foreign, t, s).value.1, s)
    decreases t, if t.UnionType? then |t.members| + 1 else 0
  {
    match t
    case BitsType(allowed) => BitsLeaveSuffix(allowed - {""}, s);
    case LeafRefType(target) => LeafLeavesSuffix(foreign, target, s);
    case UnionType(_) => UnionLeavesSuffix(foreign, t, 0, s);
    case _ =>
  }

  lemma {:induction false} UnionLeavesSuffix(foreign: ForeignParser, t: LeafType, i: nat, s: string)
    requires t.UnionType? && i <= |t.members| && ParseUnion(foreign, t, i, s).Some?
    ensures IsSuffix(ParseUnion(foreign, t, i, s).value.1, s)
    decreases t, |t.members| - i
  {
    if ParseLeaf(foreign, t.members[i], s).Some? {
      LeafLeavesSuffix(foreign, t.members[i], s);
    } else {
      UnionLeavesSuffix(foreign, t, i + 1, s);
    }
  }

  lemma {:induction false} KeysLeaveSuffix(foreign: ForeignParser, spec: ListSpec, pending: ListInstance, s: string)
    requires KeyLoop(foreign, spec, pending, s).Done?
    ensures IsSuffix(KeyLoop(foreign, spec, pending, s).rest, s)
    decreases |s|
  {
    if s != "" && s[0] == '[' {
      KeyValueLeavesSuffix(foreign, spec, s[1..]);
      hide ReadKeyValue;
      var (k, v, rest) := ReadKeyValue(foreign, spec, s[1..]).value;
      var after := rest[1..];
      CutIsSuffix(rest, 1);
      CutIsSuffix(s, 1);
      KeysLeaveSuffix(foreign, spec, pending[k := v], after);
      SuffixTransitive(KeyLoop(foreign, spec, pending, s).rest, after, rest);
      SuffixTransitive(KeyLoop(foreign, spec, pending, s).rest, rest, s[1..]);
      SuffixTransitive(KeyLoop(foreign, spec, pending, s).rest, s[1..], s);
    }
  }

  lemma KeyValueLeavesSuffix(foreign: ForeignParser, spec: ListSpec, s: string)
    requires ReadKeyValue(foreign, spec, s).Some?
    ensures IsSuffix(ReadKeyValue(foreign, spec, s).value.2, s)
  {
    var n := IdentifierRun(s);
    var rest := ReadKeyValue(foreign, spec, s).value.2;
    LeafLeavesSuffix(foreign, spec.types[s[..n]], s[n + 1..]);
    CutIsSuffix(s, n + 1);
    SuffixTransitive(rest, s[n + 1..], s);
  }

  lemma ElementLeavesSuffix(env: Env, cur: seq<DataNode>, attr: DataNode, s: string)
    requires ParseElement(env, cur, attr, s).Element?
    ensures IsSuffix(ParseElement(env, cur, attr, s).rest, s)
  {
    match attr.suffix
    case ListElement(_, _) =>
      var spec := SpecOf(env.index, ListPath(cur, attr)).value;
      KeysLeaveSuffix(env.foreign, spec, map[], s);
      hide IsSuffix, KeyLoop, SpecOf;
    case LeafListElement(name, _) =>
      var t := LeafTypeAt(env.index, cur, NodePair(attr.prefix, name)).value;
      ValueLeavesSuffix(env.foreign, t, s);
      hide IsSuffix, ParseLeaf, LeafTypeAt;
    case _ => CutIsSuffix(s, 0);
  }

  lemma ValueLeavesSuffix(foreign: ForeignParser, t: LeafType, s: string)
    requires s != ""
    ensures var r := ParseLeaf(foreign, t, s[1..]);
            r.Some? && r.value.1 != "" ==> IsSuffix(r.value.1[1..], s)
  {
    var r := ParseLeaf(foreign, t, s[1..]);
    if r.Some? && r.value.1 != "" {
      LeafLeavesSuffix(foreign, t, s[1..]);
      hide ParseLeaf;
      CutIsSuffix(r.value.1, 1);
      CutIsSuffix(s, 1);
      hide IsSuffix;
      SuffixTransitive(r.value.1[1..], r.value.1, s[1..]);
      SuffixTransitive(r.value.1[1..], s[1..], s);
    }
  }

  lemma NodeLeavesSuffix(env: Env, cur: seq<DataNode>, s: string)
    requires ParseNode(env, cur, s).NodeMatch?
    ensures IsSuffix(ParseNode(env, cur, s).rest, s)
  {
    var table := Table(env, cur).value;
    var n := LongestSymbol(table.Keys, s);
    hide Table, ParseElement;
    ElementLeavesSuffix(env, cur, table[s[..n]], s[n..]);
    CutIsSuffix(s, n);
    SuffixTransitive(ParseNode(env, cur, s).rest, s[n..], s);
  }

  lemma {:induction false} TailLeavesSuffix(env: Env, cur: seq<DataNode>, s: string)
    requires ParseTail(env, cur, s).Nodes?
    ensures IsSuffix(ParseTail(env, cur, s).rest, s)
    decreases |s|
  {
    hide ParseNode;
    if s != "" && s[0] == '/' && ParseNode(env, cur, s[1..]).NodeMatch? {
      var r := ParseNode(env, cur, s[1..]);
      var rest := ParseTail(env, cur, s).rest;
      NodeLeavesSuffix(env, cur, s[1..]);
      TailLeavesSuffix(env, r.cur, r.rest);
      CutIsSuffix(s, 1);
      SuffixTransitive(rest, r.rest, s[1..]);
      SuffixTransitive(rest, s[1..], s);
    }
  }

  /** What a path leaves unread is the end of the line, whatever the types of the keys. */
  lemma PathLeavesSuffix(env: Env, cwd: seq<DataNode>, s: string)
    requires ParsePath(env, cwd, s).PathMatch?
    ensures IsSuffix(ParsePath(env, cwd, s).rest, s)
  {
    hide ParseNode, ParseTail;
    var rest, body := ParsePath(env, cwd, s).rest, DropSlash(s);
    CutIsSuffix(s, |s| - |body|);
    var r := ParseNode(env, Start(cwd, ScopeOf(s)), body);
    if r.NodeMatch? {
      NodeLeavesSuffix(env, Start(cwd, ScopeOf(s)), body);
      TailLeavesSuffix(env, r.cur, r.rest);
      var left := ParseTail(env, r.cur, r.rest).rest;
      CutIsSuffix(left, |left| - |rest|);
      SuffixTransitive(rest, left, r.rest);
      SuffixTransitive(rest, r.rest, body);
    }
    SuffixTransitive(rest, body, s);
  }

  lemma TailStops(env: Env, cur: seq<DataNode>, s: string)
    requires ParseTail(env, cur, s).Nodes? && PathFollows(s)
    ensures PathFollows(ParseTail(env, cur, s).rest)
    decreases |s|
  {
    hide ParseNode;
    if s != "" && s[0] == '/' && ParseNode(env, cur, s[1..]).NodeMatch? {
      NodeStops(env, cur, s[1..]);
      TailStops(env, ParseNode(env, cur, s[1..]).cur, ParseNode(env, cur, s[1..]).rest);
    }
  }

  lemma NodeStops(env: Env, cur: seq<DataNode>, s: string)
    requires ParseNode(env, cur, s).NodeMatch?
    ensures PathFollows(ParseNode(env, cur, s).rest)
  {
    hide Table, ParseElement, PushFragment;
  }

  /** An accepted path stops at the end of the line, at a space, at a slash or behind one; one without
      nodes only at the end or at a space. */
  lemma AcceptedPathStops(env: Env, cwd: seq<DataNode>, s: string)
    requires ParsePath(env, cwd, s).PathMatch?
    ensures var (nodes, rest) := (ParsePath(env, cwd, s).path.nodes, ParsePath(env, cwd, s).rest);
            || rest == "" || IsSpace(rest[0])
            || (nodes != [] && |rest| < |s| && (rest[0] == '/' || s[|s| - |rest| - 1] == '/'))
  {
    WhatIsLeft(env, cwd, s);
    hide ParseNode, ParseTail, ParsePath, IsSuffix, PathFollows, DropSlash;
    var start, body := Start(cwd, ScopeOf(s)), DropSlash(s);
    var first := ParseNode(env, start, body);
    if first.NodeMatch? {
      var left := ParseTail(env, first.cur, first.rest).rest;
      NodeStops(env, start, body);
      TailStops(env, first.cur, first.rest);
      NodeLeavesSuffix(env, start, body);
      TailLeavesSuffix(env, first.cur, first.rest);
      SuffixTransitive(left, first.rest, body);
      BodyIsSuffix(s);
      SuffixTransitive(left, body, s);
      BehindASlash(left, s);
    }
  }

  lemma BodyIsSuffix(s: string)
    ensures IsSuffix(DropSlash(s), s)
  {
  }

  lemma WhatIsLeft(env: Env, cwd: seq<DataNode>, s: string)
    requires ParsePath(env, cwd, s).PathMatch?
    ensures var r, first := ParsePath(env, cwd, s), ParseNode(env, Start(cwd, ScopeOf(s)), DropSlash(s));
            if first.NodeMatch? then
              && r.path.nodes != [] && ParseTail(env, first.cur, first.rest).Nodes?
              && r.rest == DropSlash(ParseTail(env, first.cur, first.rest).rest)
            else r.rest == "" || IsSpace(r.rest[0])
  {
    hide ParseNode, ParseTail, DropSlash;
  }

  lemma BehindASlash(left: string, s: string)
    requires IsSuffix(left, s) && PathFollows(left)
    ensures var rest := DropSlash(left);
            || rest == "" || IsSpace(rest[0])
            || (|rest| < |s| && (rest[0] == '/' || s[|s| - |rest| - 1] == '/'))
  {
    if left != "" {
      SuffixStartsAt(left, s);
    }
  }

  lemma SuffixStartsAt(rest: string, s: string)
    requires IsSuffix(rest, s) && rest != ""
    ensures s[|s| - |rest|] == rest[0]
  {
  }

  // ---- more may follow ----

  lemma QuotedGoesOn(s: string, more: string)
    requires ParseQuoted(s).Some?
    ensures ParseQuoted(s + more) == Some((ParseQuoted(s).value.0, ParseQuoted(s).value.1 + more))
  {
    var q, n := s[0], Find(s[1..], s[0]);
    var text, rest := s[1..n + 1], s[n + 2..];
    assert s == [q] + text + [q] + rest;
    assert s + more == [q] + text + [q] + (rest + more);
    QuotedWith(q, text, rest + more);
  }

  /** A value that is read up to a closing bracket is read the same whatever comes after. */
  ghost predicate StopsAtBracket(foreign: ForeignParser, t: LeafType) {
    forall s: string, more: string :: IsClosed(ParseLeaf(foreign, t, s)) ==>
      ParseLeaf(foreign, t, s + more)
        == Some((ParseLeaf(foreign, t, s).value.0, ParseLeaf(foreign, t, s).value.1 + more))
  }

  predicate IsClosed(r: Option<(LeafData, string)>) {
    r.Some? && r.value.1 != "" && r.value.1[0] == ']'
  }

  lemma StringsStop(foreign: ForeignParser, t: LeafType)
    requires ReadsStrings(t)
    ensures StopsAtBracket(foreign, t)
  {
    forall s: string, more: string | IsClosed(ParseLeaf(foreign, t, s))
      ensures ParseLeaf(foreign, t, s + more)
           == Some((ParseLeaf(foreign, t, s).value.0, ParseLeaf(foreign, t, s).value.1 + more))
    {
      ReadsQuotedStrings(foreign, t, s);
      ReadsQuotedStrings(foreign, t, s + more);
      QuotedGoesOn(s, more);
    }
  }

  lemma EnumsStop(foreign: ForeignParser, allowed: set<string>)
    requires forall v :: v in allowed ==> ']' !in v
    ensures StopsAtBracket(foreign, EnumType(allowed))
  {
    forall s: string, more: string | IsClosed(ParseLeaf(foreign, EnumType(allowed), s))
      ensures ParseLeaf(foreign, EnumType(allowed), s + more)
           == Some((ParseLeaf(foreign, EnumType(allowed), s).value.0,
                    ParseLeaf(foreign, EnumType(allowed), s).value.1 + more))
    {
      var n := LongestSymbol(allowed, s);
      var name, after := s[..n], s[n..];
      assert s == name + after && s + more == name + (after + more);
      LongestSymbolIs(allowed, name, after + more);
      assert (s + more)[..n] == name && (s + more)[n..] == after + more;
    }
  }

  ghost predicate KeysStop(foreign: ForeignParser, spec: ListSpec) {
    forall k :: k in spec.needed && k in spec.types ==> StopsAtBracket(foreign, spec.types[k])
  }

  /** The values of the node, if it has any, are of such types. */
  ghost predicate ValuesStop(env: Env, cur: seq<DataNode>, n: DataNode) {
    match n.suffix
    case ListElement(_, _) =>
      var spec := SpecOf(env.index, ListPath(cur, n));
      spec.Some? ==> KeysStop(env.foreign, spec.value)
    case LeafListElement(name, _) =>
      var t := LeafTypeAt(env.index, cur, NodePair(n.prefix, name));
      t.Some? ==> StopsAtBracket(env.foreign, t.value)
    case _ => true
  }

  ghost predicate AllValuesStop(env: Env, cur: seq<DataNode>, nodes: seq<DataNode>)
    decreases |nodes|
  {
    nodes == [] || (ValuesStop(env, cur, nodes[0]) && AllValuesStop(env, Push(cur, nodes[0]), nodes[1..]))
  }

  lemma {:induction false} StringKeysStop(env: Env, cur: seq<DataNode>, nodes: seq<DataNode>)
    requires OnlyStringKeys(env, cur, nodes)
    ensures AllValuesStop(env, cur, nodes)
    decreases |nodes|
  {
    hide StopsAtBracket, ReadsStrings;
    if nodes != [] {
      var n := nodes[0];
      if n.suffix.ListElement? {
        var spec := SpecOf(env.index, ListPath(cur, n)).value;
        forall k | k in spec.needed
          ensures StopsAtBracket(env.foreign, spec.types[k])
        {
          assert IsStringKey(spec, k);
          StringsStop(env.foreign, spec.types[k]);
        }
      }
      StringKeysStop(env, Push(cur, n), nodes[1..]);
    }
  }

  lemma KeyValueGoesOn(foreign: ForeignParser, spec: ListSpec, s: string, more: string)
    requires KeysStop(foreign, spec) && ReadKeyValue(foreign, spec, s).Some?
    requires var rest := ReadKeyValue(foreign, spec, s).value.2; rest != "" && rest[0] == ']'
    ensures var (k, v, rest) := ReadKeyValue(foreign, spec, s).value;
            ReadKeyValue(foreign, spec, s + more) == Some((k, v, rest + more))
  {
    var n := IdentifierRun(s);
    RunGoesOn(s, more);
    assert (s + more)[..n] == s[..n] && (s + more)[n + 1..] == s[n + 1..] + more && (s + more)[n] == s[n];
    assert (s + more)[0] == s[0];
    var t := spec.types[s[..n]];
    assert StopsAtBracket(foreign, t) && IsClosed(ParseLeaf(foreign, t, s[n + 1..]));
    hide ParseLeaf, IdentifierRun;
  }

  lemma {:induction false} RunGoesOn(s: string, more: string)
    requires IdentifierRun(s) < |s|
    ensures IdentifierRun(s + more) == IdentifierRun(s)
    decreases |s|
  {
    assert (s + more)[0] == s[0];
    if IdentifierRun(s) > 0 {
      assert (s + more)[1..] == s[1..] + more;
      RunGoesOn(s[1..], more);
    }
  }

  lemma {:induction false} KeysGoOn(foreign: ForeignParser, spec: ListSpec, pending: ListInstance, s: string,
                                    more: string)
    requires KeysStop(foreign, spec) && KeyLoop(foreign, spec, pending, s).Done?
    requires more != "" && more[0] == '/'
    ensures var r := KeyLoop(foreign, spec, pending, s);
            KeyLoop(foreign, spec, pending, s + more) == Done(r.pending, r.rest + more)
    decreases |s|
  {
    hide ReadKeyValue, KeysStop;
    if s == "" {
      assert "" + more == more;
    } else if s[0] == '[' {
      KeyValueGoesOn(foreign, spec, s[1..], more);
      assert (s + more)[0] == '[' && (s + more)[1..] == s[1..] + more;
      var (k, v, rest) := ReadKeyValue(foreign, spec, s[1..]).value;
      assert (rest + more)[0] == rest[0] && (rest + more)[1..] == rest[1..] + more;
      KeysGoOn(foreign, spec, pending[k := v], rest[1..], more);
    } else {
      assert (s + more)[0] == s[0];
    }
  }

  lemma ElementGoesOn(env: Env, cur: seq<DataNode>, attr: DataNode, s: string, more: string)
    requires ParseElement(env, cur, attr, s).Element? && more != "" && more[0] == '/'
    requires ValuesStop(env, cur, attr)
    ensures var r := ParseElement(env, cur, attr, s);
            ParseElement(env, cur, attr, s + more) == Element(r.node, r.rest + more)
  {
    match attr.suffix
    case ListElement(_, _) =>
      var spec := SpecOf(env.index, ListPath(cur, attr)).value;
      hide KeysStop, KeyLoop;
      KeysGoOn(env.foreign, spec, map[], s, more);
    case LeafListElement(name, _) =>
      var t := LeafTypeAt(env.index, cur, NodePair(attr.prefix, name)).value;
      assert IsClosed(ParseLeaf(env.foreign, t, s[1..]));
      SumStarts(s, more);
      SumStarts(ParseLeaf(env.foreign, t, s[1..]).value.1, more);
      assert ParseLeaf(env.foreign, t, s[1..] + more)
          == Some((ParseLeaf(env.foreign, t, s[1..]).value.0, ParseLeaf(env.foreign, t, s[1..]).value.1 + more));
      hide ParseLeaf, LeafTypeAt, StopsAtBracket;
    case _ =>
  }

  lemma SumStarts(s: string, more: string)
    requires s != ""
    ensures s + more != "" && (s + more)[0] == s[0] && (s + more)[1..] == s[1..] + more
  {
  }

  lemma LongestGoesOn(table: set<string>, s: string, more: string)
    requires LongestSymbol(table, s) > 0
    requires more != "" && forall x :: x in table ==> more[0] !in x
    ensures LongestSymbol(table, s + more) == LongestSymbol(table, s)
  {
    var r, all := LongestSymbol(table, s), s + more;
    assert all[..r] == s[..r];
    forall m | r < m <= |all|
      ensures all[..m] !in table
    {
      if m <= |s| {
        assert all[..m] == s[..m];
      } else {
        assert all[..m][|s|] == more[0];
      }
    }
    LongestDrops(table, all, |all|, r);
  }

  lemma SymbolGoesOn(env: Env, cur: seq<DataNode>, s: string, more: string)
    requires IsTree(env.index) && Table(env, cur).Some? && LongestSymbol(Table(env, cur).value.Keys, s) > 0
    requires more != "" && more[0] == '/'
    ensures LongestSymbol(Table(env, cur).value.Keys, s + more) == LongestSymbol(Table(env, cur).value.Keys, s)
  {
    var table := Table(env, cur).value;
    forall x | x in table
      ensures '/' !in x
    {
      SymbolsAreText(env, cur, x);
    }
    hide Table, LongestSymbol;
    LongestGoesOn(table.Keys, s, more);
  }

  lemma SumIsCut(s: string, more: string, n: nat)
    requires n <= |s|
    ensures n <= |s + more| && (s + more)[..n] == s[..n] && (s + more)[n..] == s[n..] + more
  {
  }

  lemma NodeByElement(env: Env, cur: seq<DataNode>, s: string, n: nat)
    requires Table(env, cur).Some? && n == LongestSymbol(Table(env, cur).value.Keys, s) && n > 0
    ensures var e := ParseElement(env, cur, Table(env, cur).value[s[..n]], s[n..]);
            var pushed := if e.Element? then PushFragment(cur, e.node) else None;
            ParseNode(env, cur, s)
              == if e.ElementThrow? then NodeThrow
                 else if e.ElementFail? || !PathFollows(e.rest) then NodeFail
                 else if pushed.None? then NodeThrow else NodeMatch(e.node, e.rest, pushed.value)
  {
    hide ParseElement, Table, PushFragment, LongestSymbol;
  }

  lemma NodeGoesOn(env: Env, cur: seq<DataNode>, s: string, more: string)
    requires IsTree(env.index) && ParseNode(env, cur, s).NodeMatch? && more != "" && more[0] == '/'
    requires ValuesStop(env, cur, ParseNode(env, cur, s).node)
    ensures var r := ParseNode(env, cur, s);
            ParseNode(env, cur, s + more) == NodeMatch(r.node, r.rest + more, r.cur)
  {
    var r := ParseNode(env, cur, s);
    TableWasBuilt(env, cur, s);
    SymbolWasRead(env, cur, s);
    hide ParseNode, Table, ParseElement, ValuesStop, LongestSymbol, IsTree, PushFragment;
    var table := Table(env, cur).value;
    var n := LongestSymbol(table.Keys, s);
    SumIsCut(s, more, n);
    SymbolGoesOn(env, cur, s, more);
    NodeByElement(env, cur, s, n);
    NodeByElement(env, cur, s + more, n);
    AttrGoesOn(env, cur, table[s[..n]], s[n..], more);
    FollowsStill(r.rest, more);
  }

  lemma SymbolWasRead(env: Env, cur: seq<DataNode>, s: string)
    requires ParseNode(env, cur, s).NodeMatch?
    ensures Table(env, cur).Some? && LongestSymbol(Table(env, cur).value.Keys, s) > 0
  {
    hide Table, ParseElement, LongestSymbol, PushFragment;
  }

  lemma AttrGoesOn(env: Env, cur: seq<DataNode>, attr: DataNode, s: string, more: string)
    requires ParseElement(env, cur, attr, s).Element? && more != "" && more[0] == '/'
    requires ValuesStop(env, cur, ParseElement(env, cur, attr, s).node)
    ensures var r := ParseElement(env, cur, attr, s);
            ParseElement(env, cur, attr, s + more) == Element(r.node, r.rest + more)
  {
    ParsedElement(env, cur, attr, s);
    SameList(cur, ParseElement(env, cur, attr, s).node, attr);
    hide ParseElement, Blank, SymbolOf;
    ElementGoesOn(env, cur, attr, s, more);
  }

  lemma SameList(cur: seq<DataNode>, n: DataNode, attr: DataNode)
    requires n.prefix == attr.prefix && Blank(n) == Blank(attr)
    ensures n.suffix.LeafListElement? == attr.suffix.LeafListElement?
    ensures n.suffix.ListElement? == attr.suffix.ListElement?
    ensures n.suffix.ListElement? ==> ListPath(cur, n) == ListPath(cur, attr)
    ensures n.suffix.LeafListElement? ==> n.suffix.name == attr.suffix.name
  {
  }

  lemma FollowsStill(rest: string, more: string)
    requires PathFollows(rest) && more != "" && more[0] == '/'
    ensures PathFollows(rest + more)
  {
    assert rest != "" ==> (rest + more)[0] == rest[0];
  }

  // ---- elements ----

  lemma OfferedIsFound(env: Env, cur: seq<DataNode>, n: DataNode, after: string)
    requires IsTree(env.index) && Location(cur) in env.index && IsOffered(env, cur, n)
    requires after == "" || after[0] in {'/', '['} || IsSpace(after[0])
    ensures Table(env, cur).Some?
    ensures var e := ParseElement(env, cur, Blank(n), after);
            var pushed := if e.Element? then PushFragment(cur, e.node) else None;
            ParseNode(env, cur, SymbolOf(n) + after)
              == if e.ElementThrow? then NodeThrow
                 else if e.ElementFail? || !PathFollows(e.rest) then NodeFail
                 else if pushed.None? then NodeThrow else NodeMatch(e.node, e.rest, pushed.value)
  {
    OfferedHasSymbol(env, cur, n);
    TableNeedsLocation(env, cur);
    SymbolsAreText(env, cur, SymbolOf(n));
    hide Table, SymbolOf, ParseNode, ParseElement, PushFragment, IsOffered, Blank, IsTree, Location;
    SymbolIsFound(env, cur, SymbolOf(n), after);
    var s := SymbolOf(n) + after;
    assert s[..|SymbolOf(n)|] == SymbolOf(n) && s[|SymbolOf(n)|..] == after;
    NodeByElement(env, cur, s, |SymbolOf(n)|);
  }

  /** A list without its keys is no data node, and the path ends before it. */
  lemma ListWithoutKeysFails(env: Env, cur: seq<DataNode>, n: DataNode, after: string)
    requires IsTree(env.index) && Location(cur) in env.index && IsOffered(env, cur, n) && n.suffix.ListElement?
    requires SpecOf(env.index, ListPath(cur, n)).Some? && SpecOf(env.index, ListPath(cur, n)).value.needed != {}
    requires after == "" || after[0] == '/' || IsSpace(after[0])
    ensures ParseNode(env, cur, SymbolOf(n) + after) == NodeFail
  {
    BlankListKeys(env, cur, n, SpecOf(env.index, ListPath(cur, n)).value, after);
    hide Location, IsOffered, ParseNode, ParseElement, SymbolOf, Blank, IsTree, SpecOf, ListPath, ReadKeyValue;
    OfferedIsFound(env, cur, n, after);
  }

  /** A bracket without a key and value behind it ends the command. */
  lemma BrokenKeyThrows(env: Env, cur: seq<DataNode>, n: DataNode, after: string)
    requires IsTree(env.index) && Location(cur) in env.index && IsOffered(env, cur, n) && n.suffix.ListElement?
    requires SpecOf(env.index, ListPath(cur, n)).Some? && SpecOf(env.index, ListPath(cur, n)).value.needed != {}
    requires ReadKeyValue(env.foreign, SpecOf(env.index, ListPath(cur, n)).value, after).None?
    ensures ParseNode(env, cur, SymbolOf(n) + ("[" + after)) == NodeThrow
  {
    BlankListKeys(env, cur, n, SpecOf(env.index, ListPath(cur, n)).value, after);
    hide Location, IsOffered, ParseNode, ParseElement, SymbolOf, Blank, IsTree, SpecOf, ListPath, ReadKeyValue;
    OfferedIsFound(env, cur, n, "[" + after);
  }

  lemma BlankListKeys(env: Env, cur: seq<DataNode>, n: DataNode, spec: ListSpec, after: string)
    requires n.suffix.ListElement? && SpecOf(env.index, ListPath(cur, n)) == Some(spec) && spec.needed != {}
    ensures after == "" || after[0] != '[' ==> ParseElement(env, cur, Blank(n), after) == ElementFail
    ensures ReadKeyValue(env.foreign, spec, after).None? ==>
              ParseElement(env, cur, Blank(n), "[" + after) == ElementThrow
  {
    assert ListPath(cur, Blank(n)) == ListPath(cur, n);
    assert ("[" + after)[0] == '[' && ("[" + after)[1..] == after;
    hide SpecOf, ListPath, ReadKeyValue;
    if after == "" || after[0] != '[' {
      assert KeyLoop(env.foreign, spec, map[], after) == Done(map[], after);
    }
  }

  /** An element of a leaf-list is read from its value between brackets. */
  lemma LeafListElementIsRead(env: Env, cur: seq<DataNode>, n: DataNode, t: LeafType, text: string, rest: string)
    requires IsTree(env.index) && Location(cur) in env.index && IsOffered(env, cur, n) && n.suffix.LeafListElement?
    requires LeafTypeAt(env.index, cur, NodePair(n.prefix, n.suffix.name)) == Some(t)
    requires ParseLeaf(env.foreign, t, text + ("]" + rest)) == Some((n.suffix.value, "]" + rest))
    requires (rest == "" || IsSpace(rest[0]) || rest[0] == '/') && PushFragment(cur, n).Some?
    ensures ParseNode(env, cur, SymbolOf(n) + ("[" + (text + ("]" + rest)))) == NodeMatch(n, rest, Push(cur, n))
  {
    var after := "[" + (text + ("]" + rest));
    BlankValue(env, cur, n, t, text, rest);
    assert after[0] == '[';
    hide Location, IsOffered, ParseNode, ParseElement, SymbolOf, Blank, IsTree, LeafTypeAt, ParseLeaf;
    OfferedIsFound(env, cur, n, after);
  }

  lemma BlankValue(env: Env, cur: seq<DataNode>, n: DataNode, t: LeafType, text: string, rest: string)
    requires n.suffix.LeafListElement?
    requires LeafTypeAt(env.index, cur, NodePair(n.prefix, n.suffix.name)) == Some(t)
    requires ParseLeaf(env.foreign, t, text + ("]" + rest)) == Some((n.suffix.value, "]" + rest))
    ensures ParseElement(env, cur, Blank(n), "[" + (text + ("]" + rest))) == Element(n, rest)
  {
    BracketHead(text + ("]" + rest));
    ClosingHead(rest);
    hide LeafTypeAt, ParseLeaf;
  }

  lemma BracketHead(text: string)
    ensures "[" + text != "" && ("[" + text)[0] == '[' && ("[" + text)[1..] == text
  {
  }

  lemma ClosingHead(rest: string)
    ensures "]" + rest != "" && ("]" + rest)[0] == ']' && ("]" + rest)[1..] == rest
  {
  }

  // ---- one trailing slash ----

  /** After a tail that was read to the end one more slash is given back, unless the location that
      was reached is unknown, where looking for a node throws. */
  lemma {:induction false} TailBeforeSlash(env: Env, cur: seq<DataNode>, s: string, rest: string)
    requires IsTree(env.index) && ParseTail(env, cur, s).Nodes? && ParseTail(env, cur, s).rest == ""
    requires AllValuesStop(env, cur, ParseTail(env, cur, s).nodes) && AtPathEnd(rest)
    ensures var r := ParseTail(env, cur, s);
            ParseTail(env, cur, s + ("/" + rest))
              == if Location(r.cur) in env.index then Nodes(r.nodes, "/" + rest, r.cur) else NodesThrow
    decreases |s|
  {
    hide ParseNode, Location, ValuesStop;
    var more := "/" + rest;
    if s == "" {
      assert "" + more == more && more[1..] == rest;
      SlashIsGivenBack(env, cur, rest);
    } else {
      var first := ParseNode(env, cur, s[1..]);
      var nodes := ParseTail(env, cur, s).nodes;
      assert (s + more)[0] == '/' && (s + more)[1..] == s[1..] + more;
      assert nodes[0] == first.node && nodes[1..] == ParseTail(env, first.cur, first.rest).nodes;
      ParsedNodeIsPushed(env, cur, s[1..]);
      NodeGoesOn(env, cur, s[1..], more);
      TailBeforeSlash(env, first.cur, first.rest, rest);
    }
  }

  lemma SlashIsGivenBack(env: Env, cur: seq<DataNode>, rest: string)
    requires IsTree(env.index) && AtPathEnd(rest)
    ensures ParseNode(env, cur, rest) == if Location(cur) in env.index then NodeFail else NodeThrow
  {
    TableNeedsLocation(env, cur);
    if Location(cur) in env.index {
      NothingToRead(env, cur, rest);
    }
  }

  /** A path that was accepted to its last character, other than a slash, is accepted with one more
      slash as the same path, and the slash is read with it, when the values in it are of types whose
      parsers stop at a bracket, as those of strings always do. Only where the path leads to an unknown
      location does the parser throw instead, looking for the node after the slash. */
  lemma TrailingSlashIsRead(env: Env, cwd: seq<DataNode>, s: string, rest: string)
    requires IsTree(env.index) && (rest == "" || IsSpace(rest[0]))
    requires ParsePath(env, cwd, s).PathMatch? && ParsePath(env, cwd, s).rest == ""
    requires s != "" && s[|s| - 1] != '/'
    requires var p := ParsePath(env, cwd, s).path; AllValuesStop(env, Start(cwd, p.scope), p.nodes)
    ensures var r := ParsePath(env, cwd, s);
            ParsePath(env, cwd, s + ("/" + rest))
              == if Location(r.cur) in env.index then PathMatch(r.path, rest, r.cur) else PathThrow
  {
    hide ParseNode, ParseTail, Location, ValuesStop;
    var r, more := ParsePath(env, cwd, s), "/" + rest;
    var start, body := Start(cwd, r.path.scope), DropSlash(s);
    var first := ParseNode(env, start, body);
    BodyGoesOn(s, more);
    if first.NodeMatch? {
      var tail := ParseTail(env, first.cur, first.rest);
      NodeLeavesSuffix(env, start, body);
      TailLeavesSuffix(env, first.cur, first.rest);
      NothingIsLeft(s, body, first.rest, tail.rest);
      assert r.path.nodes[0] == first.node && r.path.nodes[1..] == tail.nodes;
      ParsedNodeIsPushed(env, start, body);
      NodeGoesOn(env, start, body, more);
      TailBeforeSlash(env, first.cur, first.rest, rest);
      assert more[1..] == rest;
    }
  }

  lemma BodyGoesOn(s: string, more: string)
    requires s != ""
    ensures ScopeOf(s + more) == ScopeOf(s) && DropSlash(s + more) == DropSlash(s) + more
    ensures s[|s| - 1] != '/' ==> DropSlash(s) != ""
  {
    assert (s + more)[0] == s[0];
  }

  /** A text that does not end in a slash leaves no slash. */
  lemma NothingIsLeft(s: string, body: string, after: string, rest: string)
    requires s != "" && s[|s| - 1] != '/' && body == DropSlash(s)
    requires IsSuffix(after, body) && IsSuffix(rest, after) && DropSlash(rest) == ""
    ensures rest == ""
  {
    SuffixTransitive(rest, after, body);
    CutIsSuffix(s, |s| - |body|);
    SuffixTransitive(rest, body, s);
    SuffixKeepsLast(rest, s);
  }

  /** So a schema-valid path that leads to a known location is read back from its printed form
      followed by a slash. */
  lemma PrintedWithSlashIsReadBack(env: Env, cwd: seq<DataNode>, p: DataPath, rest: string)
    requires IsTree(env.index) && IsValidPath(env, cwd, p) && p.nodes != []
    requires rest == "" || IsSpace(rest[0])
    ensures Resolve(Start(cwd, p.scope), p.nodes).Some?
    ensures var end := Resolve(Start(cwd, p.scope), p.nodes).value;
            Location(end) in env.index ==>
              ParsePath(env, cwd, DataString(p, WhenNeeded) + ("/" + rest)) == PathMatch(p, rest, end)
  {
    hide ParsePath, DataString, Location, IsTree, Resolve, AllValuesStop, OnlyStringKeys, AreValidNodes;
    var start := Start(cwd, p.scope);
    PrintedAloneIsReadBack(env, cwd, p);
    ValidNodesHaveStringKeys(env, start, p.nodes);
    StringKeysStop(env, start, p.nodes);
    ValidNodesArePrintable(env, start, p.nodes);
    PrintedEndsInNode(p);
    TrailingSlashIsRead(env, cwd, DataString(p, WhenNeeded), rest);
  }

  lemma {:induction false} ValidNodesHaveStringKeys(env: Env, cur: seq<DataNode>, nodes: seq<DataNode>)
    requires AreValidNodes(env, cur, nodes)
    ensures OnlyStringKeys(env, cur, nodes)
    decreases |nodes|
  {
    hide IsOffered, IsStringKeyedList;
    if nodes != [] {
      ValidNodesHaveStringKeys(env, Push(cur, nodes[0]), nodes[1..]);
    }
  }

  lemma PrintedEndsInNode(p: DataPath)
    requires p.nodes != [] && forall n :: n in p.nodes ==> IsPrintable(n)
    ensures var text := DataString(p, WhenNeeded); text != "" && text[|text| - 1] != '/'
  {
    PrintedForms(p.nodes);
    hide IsPrintable, NodeText, DataString, Slashed;
    if p.scope.Absolute? {
      SlashedEndsInNode(p.nodes);
    } else {
      RelativeEndsInNode(p.nodes);
    }
  }

  lemma RelativeEndsInNode(nodes: seq<DataNode>)
    requires nodes != [] && forall n :: n in nodes ==> IsPrintable(n)
    ensures var text := NodeText(nodes[0]) + Slashed(nodes[1..]); text != "" && text[|text| - 1] != '/'
  {
    PrintableIsPlain(nodes[0]);
    hide IsPrintable, NodeText, Slashed;
    if |nodes| > 1 {
      SlashedEndsInNode(nodes[1..]);
      LastOfSum(NodeText(nodes[0]), Slashed(nodes[1..]));
    } else {
      assert nodes[1..] == [];
      NothingSlashed();
      assert NodeText(nodes[0]) + "" == NodeText(nodes[0]);
    }
  }

  lemma NothingSlashed()
    ensures Slashed([]) == ""
  {
  }

  lemma LastOfSum(a: string, b: string)
    requires b != ""
    ensures (a + b)[|a + b| - 1] == b[|b| - 1]
  {
  }

  lemma SlashedEndsInNode(nodes: seq<DataNode>)
    requires nodes != [] && forall n :: n in nodes ==> IsPrintable(n)
    ensures var text := Slashed(nodes); text != "" && text[|text| - 1] != '/'
  {
    var front, last := nodes[..|nodes| - 1], nodes[|nodes| - 1];
    PrintableIsPlain(last);
    hide IsPrintable, NodeText, Slashed;
    assert nodes == front + [last];
    SlashedSnoc(front, last);
    LastOfSum("/", NodeText(last));
    LastOfSum(Slashed(front), "/" + NodeText(last));
  }
}
