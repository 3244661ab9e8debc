/** A printed path can be read back in only one way, so the string comparison ProxyDatastore
    routes with decides containment of paths at a '/' boundary
    (src/ast_path.cpp:229-276, src/proxy_datastore.cpp:102-109). */
module UniqueReadability {
  import opened Wrappers
  import opened Text
  import opened Ordering
  import opened AstPath
  import opened PathPrinter

  /** What printing keeps of a node: prefix, name and the key values as strings. */
  datatype Label = Label(prefix: Option<string>, name: string, keys: Option<ListInstance>)

  function AsStrings(keys: ListInstance): ListInstance {
    map k | k in keys :: Str(LeafDataToString(keys[k]))
  }

  function LabelOf(n: DataNode): Label {
    match n.suffix
    case ListElement(name, keys) => Label(n.prefix, name, Some(AsStrings(keys)))
    case LeafListElement(name, v) => Label(n.prefix, name, Some(map["." := Str(LeafDataToString(v))]))
    case NodeUp => Label(n.prefix, "..", None)
    case _ => Label(n.prefix, n.suffix.name, None)
  }

  function Labels(nodes: seq<DataNode>): seq<Label> {
    seq(|nodes|, i requires 0 <= i < |nodes| => LabelOf(nodes[i]))
  }

  /** Names are identifiers and no value holds both kinds of quotes. */
  predicate IsPrintable(n: DataNode) {
    && (n.prefix.Some? ==> IsIdentifier(n.prefix.value))
    && (!n.suffix.NodeUp? ==> IsIdentifier(n.suffix.name))
    && (n.suffix.ListElement? ==>
          forall k :: k in n.suffix.keys ==>
            IsIdentifier(k) && !HoldsBothQuotes(LeafDataToString(n.suffix.keys[k])))
    && (n.suffix.LeafListElement? ==> !HoldsBothQuotes(LeafDataToString(n.suffix.value)))
  }

  predicate IsPrintableKeys(keys: ListInstance) {
    forall k :: k in keys ==>
      '=' !in k && (k == "." || IsIdentifier(k)) && keys[k].Str? && !HoldsBothQuotes(keys[k].text)
  }

  predicate IsPrintableLabel(l: Label) {
    && (l.prefix.Some? ==> IsIdentifier(l.prefix.value))
    && (l.name == ".." || IsIdentifier(l.name))
    && (l.keys.Some? ==> IsPrintableKeys(l.keys.value))
  }

  // ---- the text of a label ----

  function HeadText(l: Label): string {
    WrittenPrefix(None, l.prefix, WhenNeeded) + l.name
  }

  /** The keys after the opening bracket, then the closing bracket and what follows it. */
  function KeysText(order: seq<string>, keys: ListInstance, after: string): string
    requires forall k :: k in order ==> k in keys
  {
    if order == [] then "]" + after
    else if |order| == 1 then KeyPiece(order[0], keys[order[0]]) + ("]" + after)
    else KeyPiece(order[0], keys[order[0]]) + ("][" + KeysText(order[1..], keys, after))
  }

  ghost function LabelText(l: Label, after: string): string {
    HeadText(l) + (if l.keys.None? then after
                   else "[" + KeysText(SortedKeys(l.keys.value.Keys), l.keys.value, after))
  }

  lemma {:induction false} KeysTextIsJoined(order: seq<string>, keys: ListInstance, after: string)
    requires forall k :: k in order ==> k in keys
    ensures KeysText(order, keys, after) == Joined(KeyPieces(order, keys), "][") + ("]" + after)
  {
    if |order| > 1 {
      assert order == [order[0]] + order[1..];
      KeyPiecesHead(keys, order[0], order[1..]);
      KeysTextIsJoined(order[1..], keys, after);
      SeparatorAlgebra(KeyPiece(order[0], keys[order[0]]), Joined(KeyPieces(order[1..], keys), "]["), after);
    }
  }

  lemma SeparatorAlgebra(piece: string, more: string, after: string)
    ensures piece + ("][" + (more + ("]" + after))) == (piece + "][" + more) + ("]" + after)
  {
  }

  /** Printing a node depends on its label only. */
  lemma NodeTextIsLabelText(n: DataNode, after: string)
    ensures NodeText(n) + after == LabelText(LabelOf(n), after)
  {
    if n.suffix.ListElement? {
      ListElementText(n, after);
    } else if n.suffix.LeafListElement? {
      LeafListElementText(n, after);
    }
  }

  lemma LabelIsPrintable(n: DataNode)
    requires IsPrintable(n)
    ensures IsPrintableLabel(LabelOf(n))
  {
  }

  lemma ListElementText(n: DataNode, after: string)
    requires n.suffix.ListElement?
    ensures NodeText(n) + after == LabelText(LabelOf(n), after)
  {
    var keys := n.suffix.keys;
    var order, texts := SortedKeys(keys.Keys), AsStrings(keys);
    assert texts.Keys == keys.Keys;
    assert KeyPieces(order, keys) == KeyPieces(order, texts);
    KeysTextIsJoined(order, texts, after);
    BracketAlgebra(WrittenPrefix(None, n.prefix, WhenNeeded), n.suffix.name, Joined(KeyPieces(order, keys), "]["),
                   after);
  }

  lemma LeafListElementText(n: DataNode, after: string)
    requires n.suffix.LeafListElement?
    ensures NodeText(n) + after == LabelText(LabelOf(n), after)
  {
    var name, v := n.suffix.name, n.suffix.value;
    var keys: ListInstance := map["." := Str(LeafDataToString(v))];
    SortedSingleton(".");
    assert keys.Keys == {"."};
    assert KeysText(["."], keys, after) == KeyPiece(".", v) + ("]" + after);
    hide EscapeListKeyString, LeafDataToString, SortedKeys, WrittenPrefix;
    BracketAlgebra(WrittenPrefix(None, n.prefix, WhenNeeded), name, KeyPiece(".", v), after);
    assert name + "[.=" + EscapeListKeyString(LeafDataToString(v)) + "]" == name + "[" + KeyPiece(".", v) + "]";
  }

  lemma SortedSingleton(k: string)
    ensures SortedKeys({k}) == [k]
  {
    assert IsLeast(k, {k}) && {k} - {k} == {};
    SortedKeysStep({k}, k);
  }

  lemma BracketAlgebra(prefix: string, name: string, body: string, after: string)
    ensures (prefix + (name + "[" + body + "]")) + after
         == (prefix + name) + ("[" + (body + ("]" + after)))
  {
  }

  // ---- reading it back ----

  predicate AtNodeEnd(s: string) {
    s == "" || s[0] == '/'
  }

  /** A quoted value ends at the first repetition of its opening quote. */
  lemma QuotedUnique(v: string, x: string, v': string, y: string)
    requires !HoldsBothQuotes(v) && !HoldsBothQuotes(v')
    requires EscapeListKeyString(v) + x == EscapeListKeyString(v') + y
    ensures v == v' && x == y
  {
    var q, q' := QuoteFor(v), QuoteFor(v');
    var s := EscapeListKeyString(v) + x;
    assert s[0] == q && s[0] == q';
    assert s[1..] == v + ([q] + x) && s[1..] == v' + ([q'] + y);
    SpanUnique(v, [q] + x, v', [q'] + y, {q});
    assert ([q] + x)[1..] == x && ([q'] + y)[1..] == y;
  }

  lemma KeyPieceUnique(k: string, v: string, x: string, k': string, v': string, y: string)
    requires '=' !in k && '=' !in k'
    requires !HoldsBothQuotes(v) && !HoldsBothQuotes(v')
    requires KeyPiece(k, Str(v)) + x == KeyPiece(k', Str(v')) + y
    ensures k == k' && v == v' && x == y
  {
    var r, r' := "=" + EscapeListKeyString(v) + x, "=" + EscapeListKeyString(v') + y;
    assert KeyPiece(k, Str(v)) + x == k + r;
    assert KeyPiece(k', Str(v')) + y == k' + r';
    SpanUnique(k, r, k', r', {'='});
    assert r[1..] == EscapeListKeyString(v) + x && r'[1..] == EscapeListKeyString(v') + y;
    QuotedUnique(v, x, v', y);
  }

  predicate SameText(order: seq<string>, keys: ListInstance, keys': ListInstance) {
    forall k :: k in order ==> k in keys && k in keys' && keys[k] == keys'[k]
  }

  /** Keys are read back in order, with their values, up to the closing bracket. */
  lemma {:induction false} KeysTextUnique(order: seq<string>, keys: ListInstance, x: string,
                                          order': seq<string>, keys': ListInstance, y: string)
    requires IsPrintableKeys(keys) && forall k :: k in order ==> k in keys
    requires IsPrintableKeys(keys') && forall k :: k in order' ==> k in keys'
    requires AtNodeEnd(x) && AtNodeEnd(y)
    requires KeysText(order, keys, x) == KeysText(order', keys', y)
    ensures order == order' && x == y && SameText(order, keys, keys')
    decreases |order|
  {
    var s := KeysText(order, keys, x);
    KeysTextFirst(order, keys, x);
    KeysTextFirst(order', keys', y);
    if order == [] {
      assert s[1..] == x && s[1..] == y;
    } else {
      var k, k' := order[0], order'[0];
      var t, t' := AfterPiece(order, keys, x), AfterPiece(order', keys', y);
      AfterPieceShape(order, keys, x);
      AfterPieceShape(order', keys', y);
      KeyPieceUnique(k, keys[k].text, t, k', keys'[k'].text, t');
      if |order| > 1 {
        KeysTextUnique(order[1..], keys, x, order'[1..], keys', y);
      }
      assert order == [k] + order[1..] && order' == [k'] + order'[1..];
    }
  }

  function AfterPiece(order: seq<string>, keys: ListInstance, x: string): string
    requires order != [] && forall k :: k in order ==> k in keys
  {
    if |order| == 1 then "]" + x else "][" + KeysText(order[1..], keys, x)
  }

  lemma AfterPieceShape(order: seq<string>, keys: ListInstance, x: string)
    requires order != [] && forall k :: k in order ==> k in keys
    requires AtNodeEnd(x)
    ensures var t := AfterPiece(order, keys, x);
            && KeysText(order, keys, x) == KeyPiece(order[0], keys[order[0]]) + t
            && (|order| > 1 <==> |t| > 1 && t[1] == '[')
            && (|order| > 1 ==> t[2..] == KeysText(order[1..], keys, x))
            && (|order| == 1 ==> t[1..] == x)
  {
  }

  lemma KeysTextFirst(order: seq<string>, keys: ListInstance, x: string)
    requires IsPrintableKeys(keys) && forall k :: k in order ==> k in keys
    ensures KeysText(order, keys, x) != ""
    ensures KeysText(order, keys, x)[0] == ']' <==> order == []
  {
  }

  /** A head has no bracket and no slash, and its colon tells the prefix from the name. */
  lemma HeadUnique(l: Label, l': Label)
    requires IsPrintableLabel(l) && IsPrintableLabel(l')
    requires HeadText(l) == HeadText(l')
    ensures l.prefix == l'.prefix && l.name == l'.name
  {
    assert ':' !in l.name && ':' !in l'.name;
    assert l.prefix.None? ==> HeadText(l) == l.name;
    assert l'.prefix.None? ==> HeadText(l') == l'.name;
    if l.prefix.Some? {
      QualifiedNameSplits(l.prefix.value, l.name);
    }
    if l'.prefix.Some? {
      QualifiedNameSplits(l'.prefix.value, l'.name);
    }
  }

  lemma HeadChars(l: Label)
    requires IsPrintableLabel(l)
    ensures forall i :: 0 <= i < |HeadText(l)| ==> HeadText(l)[i] !in {'[', '/'}
    ensures HeadText(l) != ""
  {
  }

  lemma LabelUnique(l: Label, x: string, l': Label, y: string)
    requires IsPrintableLabel(l) && IsPrintableLabel(l')
    requires AtNodeEnd(x) && AtNodeEnd(y)
    requires LabelText(l, x) == LabelText(l', y)
    ensures l == l' && x == y
  {
    HeadChars(l);
    HeadChars(l');
    var r := if l.keys.None? then x else "[" + KeysText(SortedKeys(l.keys.value.Keys), l.keys.value, x);
    var r' := if l'.keys.None? then y else "[" + KeysText(SortedKeys(l'.keys.value.Keys), l'.keys.value, y);
    SpanUnique(HeadText(l), r, HeadText(l'), r', {'[', '/'});
    HeadUnique(l, l');
    assert l.keys.Some? <==> r != "" && r[0] == '[';
    assert l'.keys.Some? <==> r' != "" && r'[0] == '[';
    if l.keys.Some? {
      var keys, keys' := l.keys.value, l'.keys.value;
      assert r[1..] == KeysText(SortedKeys(keys.Keys), keys, x);
      assert r'[1..] == KeysText(SortedKeys(keys'.Keys), keys', y);
      SortedKeysTextUnique(keys, x, keys', y);
    }
  }

  lemma SortedKeysTextUnique(keys: ListInstance, x: string, keys': ListInstance, y: string)
    requires IsPrintableKeys(keys) && IsPrintableKeys(keys')
    requires AtNodeEnd(x) && AtNodeEnd(y)
    requires KeysText(SortedKeys(keys.Keys), keys, x) == KeysText(SortedKeys(keys'.Keys), keys', y)
    ensures keys == keys' && x == y
  {
    KeysTextUnique(SortedKeys(keys.Keys), keys, x, SortedKeys(keys'.Keys), keys', y);
    var order := SortedKeys(keys.Keys);
    assert forall k :: k in keys.Keys <==> k in order;
    assert forall k :: k in keys'.Keys <==> k in order;
    assert keys.Keys == keys'.Keys;
    assert forall k :: k in order ==> keys[k] == keys'[k];
  }

  /** Two printed nodes followed by the end or a slash are the same up to their labels. */
  lemma NodeTextUnique(n: DataNode, x: string, n': DataNode, y: string)
    requires IsPrintable(n) && IsPrintable(n')
    requires AtNodeEnd(x) && AtNodeEnd(y)
    requires NodeText(n) + x == NodeText(n') + y
    ensures LabelOf(n) == LabelOf(n') && x == y
  {
    NodeTextIsLabelText(n, x);
    NodeTextIsLabelText(n', y);
    LabelIsPrintable(n);
    LabelIsPrintable(n');
    LabelUnique(LabelOf(n), x, LabelOf(n'), y);
  }

  lemma PrintableIsPlain(n: DataNode)
    requires IsPrintable(n)
    ensures IsPlain(NodeText(n))
  {
    var s := NodeToDataString(n.suffix);
    assert s != "" && s[0] != '/' && s[|s| - 1] != '/';
  }

  // ---- whole paths ----

  lemma {:induction false} SlashedConcat(a: seq<DataNode>, b: seq<DataNode>)
    ensures Slashed(a + b) == Slashed(a) + Slashed(b)
  {
    if a == [] {
      assert a + b == b;
    } else {
      assert (a + b)[1..] == a[1..] + b;
      SlashedConcat(a[1..], b);
    }
  }

  lemma {:induction false} SlashedByLabels(a: seq<DataNode>, b: seq<DataNode>)
    requires forall n :: n in a || n in b ==> IsPrintable(n)
    requires Labels(a) == Labels(b)
    ensures Slashed(a) == Slashed(b)
  {
    if a != [] {
      NodeTextIsLabelText(a[0], "");
      NodeTextIsLabelText(b[0], "");
      assert NodeText(a[0]) + "" == NodeText(a[0]) && NodeText(b[0]) + "" == NodeText(b[0]);
      assert Labels(a)[0] == Labels(b)[0];
      assert Labels(a[1..]) == Labels(a)[1..] && Labels(b[1..]) == Labels(b)[1..];
      SlashedByLabels(a[1..], b[1..]);
    }
  }

  lemma SlashAlgebra(text: string, rest: string, tail: string)
    ensures (("/" + text + rest) + tail)[1..] == text + (rest + tail)
    ensures (("/" + text + rest) + tail)[0] == '/'
  {
  }

  lemma {:induction false} SlashedReadsBack(a: seq<DataNode>, b: seq<DataNode>, tail: string)
    requires forall n :: n in a || n in b ==> IsPrintable(n)
    requires AtNodeEnd(tail)
    requires Slashed(a) + tail == Slashed(b)
    ensures Labels(a) <= Labels(b)
    decreases |a|
  {
    if a != [] {
      SlashAlgebra(NodeText(a[0]), Slashed(a[1..]), tail);
      assert b != [];
      SlashAlgebra(NodeText(b[0]), Slashed(b[1..]), "");
      assert Slashed(b) + "" == Slashed(b) && Slashed(b[1..]) + "" == Slashed(b[1..]);
      NodeTextUnique(a[0], Slashed(a[1..]) + tail, b[0], Slashed(b[1..]));
      SlashedReadsBack(a[1..], b[1..], tail);
      LabelsHead(a);
      LabelsHead(b);
      assert [LabelOf(a[0])] + Labels(a[1..]) <= [LabelOf(a[0])] + Labels(b[1..]);
    }
  }

  lemma LabelsHead(nodes: seq<DataNode>)
    requires nodes != []
    ensures Labels(nodes) == [LabelOf(nodes[0])] + Labels(nodes[1..])
  {
  }

  /** q's text continues p's text at a node boundary. */
  predicate ContinuesAtBoundary(p: string, q: string) {
    p <= q && AtNodeEnd(q[|p|..])
  }

  /** Printed absolute paths are uniquely readable: one continues the other at a '/' boundary
      exactly when its nodes (prefix, name, keys as strings) begin with the other's. */
  lemma PrintedPrefixIffNodePrefix(p: seq<DataNode>, q: seq<DataNode>)
    requires p != []
    requires forall n :: n in p || n in q ==> IsPrintable(n)
    ensures ContinuesAtBoundary(DataString(DataPath(Absolute, p), WhenNeeded),
                                DataString(DataPath(Absolute, q), WhenNeeded))
       <==> Labels(p) <= Labels(q)
  {
    PrintedForms(p);
    PrintedForms(q);
    assert |Labels(p)| > 0;
    if q != [] {
      SlashedContinuesIff(p, q);
    }
  }

  lemma PrintedForms(nodes: seq<DataNode>)
    requires forall n :: n in nodes ==> IsPrintable(n)
    ensures DataString(DataPath(Absolute, nodes), WhenNeeded) == if nodes == [] then "/" else Slashed(nodes)
    ensures nodes != [] ==> |Slashed(nodes)| > 1
    ensures DataString(DataPath(Relative, nodes), WhenNeeded)
         == if nodes == [] then "" else NodeText(nodes[0]) + Slashed(nodes[1..])
  {
    forall n | n in nodes
      ensures IsPlain(NodeText(n))
    {
      PrintableIsPlain(n);
    }
    DataStringIsSlashed(nodes);
  }

  lemma SlashedContinuesIff(p: seq<DataNode>, q: seq<DataNode>)
    requires forall n :: n in p || n in q ==> IsPrintable(n)
    ensures ContinuesAtBoundary(Slashed(p), Slashed(q)) <==> Labels(p) <= Labels(q)
  {
    var sp, sq := Slashed(p), Slashed(q);
    if ContinuesAtBoundary(sp, sq) {
      assert sp + sq[|sp|..] == sq;
      SlashedReadsBack(p, q, sq[|sp|..]);
    }
    if Labels(p) <= Labels(q) {
      SlashedContinues(p, q);
    }
  }

  lemma SlashedContinues(p: seq<DataNode>, q: seq<DataNode>)
    requires forall n :: n in p || n in q ==> IsPrintable(n)
    requires Labels(p) <= Labels(q)
    ensures ContinuesAtBoundary(Slashed(p), Slashed(q))
  {
    hide Slashed, IsPrintable, LabelOf;
    var front, back := q[..|p|], q[|p|..];
    assert q == front + back;
    SlashedConcat(front, back);
    assert Labels(front) == Labels(q)[..|p|] == Labels(p);
    SlashedByLabels(p, front);
    SlashedStart(back);
    BoundaryOfSum(Slashed(p), Slashed(back));
  }

  lemma SlashedStart(nodes: seq<DataNode>)
    ensures Slashed(nodes) == "" || Slashed(nodes)[0] == '/'
  {
  }

  lemma BoundaryOfSum(text: string, rest: string)
    requires rest == "" || rest[0] == '/'
    ensures ContinuesAtBoundary(text, text + rest)
  {
  }

  // ---- string prefixes of printed paths, on nodes ----

  /** Routing compares strings, so the last node of the shorter path may be written only in part:
      q begins with the nodes before it, and the text of its next node with the text of the last. */
  ghost predicate IsUnder(p: seq<DataNode>, q: seq<DataNode>) {
    p == [] ||
    (var n := |p| - 1;
     && |q| > n
     && Labels(p[..n]) == Labels(q[..n])
     && NodeText(p[n]) <= NodeText(q[n]))
  }

  lemma SlashedSnoc(front: seq<DataNode>, last: DataNode)
    ensures Slashed(front + [last]) == Slashed(front) + ("/" + NodeText(last))
  {
    SlashedConcat(front, [last]);
    assert Slashed([last][1..]) == "";
    assert "/" + NodeText(last) + "" == "/" + NodeText(last);
  }

  /** The text of a node never runs on into a slash after another node's text: its own slashes are
      between quotes. */
  lemma NodeTextPrefix(l: DataNode, n: DataNode, more: string)
    requires IsPrintable(l) && IsPrintable(n) && (more == "" || more[0] == '/')
    ensures NodeText(l) <= NodeText(n) + more <==> NodeText(l) <= NodeText(n)
  {
    hide NodeText, IsPrintable, LabelOf;
    var text, node := NodeText(l), NodeText(n);
    if text <= node + more {
      if |text| > |node| {
        LongerPrefix(text, node, more);
        assert text + "" == text;
        NodeTextUnique(l, "", n, text[|node|..]);
      } else {
        assert text == (node + more)[..|text|] == node[..|text|];
      }
    }
    if text <= node {
      assert text <= node + more;
    }
  }

  lemma LongerPrefix(text: string, node: string, more: string)
    requires text <= node + more && |text| > |node| && (more == "" || more[0] == '/')
    ensures text == node + text[|node|..] && text[|node|..][0] == '/'
  {
    assert text == (node + more)[..|text|];
    assert text[..|node|] == node;
    assert text[|node|] == (node + more)[|node|];
  }

  /** A node that starts what follows a slash starts the first node. */
  lemma FirstNodeBegins(l: DataNode, q: seq<DataNode>)
    requires IsPrintable(l) && forall n :: n in q ==> IsPrintable(n)
    ensures "/" + NodeText(l) <= Slashed(q) <==> q != [] && NodeText(l) <= NodeText(q[0])
  {
    hide NodeText, IsPrintable;
    if q != [] {
      ConcatAssociative("/", NodeText(q[0]), Slashed(q[1..]));
      SamePrefix("/", NodeText(l), NodeText(q[0]) + Slashed(q[1..]));
      SlashedStart(q[1..]);
      NodeTextPrefix(l, q[0], Slashed(q[1..]));
    }
  }

  /** One printed path starts with another, as routing asks, exactly on these nodes. */
  lemma SlashedBeginsIff(front: seq<DataNode>, last: DataNode, q: seq<DataNode>)
    requires IsPrintable(last) && forall n :: n in front || n in q ==> IsPrintable(n)
    ensures Slashed(front + [last]) <= Slashed(q) <==> IsUnder(front + [last], q)
  {
    hide IsPrintable, NodeText, LabelOf;
    var n, text := |front|, "/" + NodeText(last);
    SlashedSnoc(front, last);
    var p := front + [last];
    assert p[..n] == front && p[n] == last;
    if Slashed(p) <= Slashed(q) {
      BeginsAtBoundary(Slashed(front), text, Slashed(q));
      SlashedContinuesIff(front, q);
      assert |q| >= n by { assert |Labels(front)| <= |Labels(q)|; }
    }
    if |q| >= n {
      var before, after := q[..n], q[n..];
      assert q == before + after && Labels(before) == Labels(q)[..n];
      SlashedConcat(before, after);
      if Labels(front) == Labels(before) {
        SlashedByLabels(front, before);
        SamePrefix(Slashed(front), text, Slashed(after));
        FirstNodeBegins(last, after);
        assert |q| > n ==> after[0] == q[n];
      }
    }
  }

  lemma BeginsAtBoundary(a: string, b: string, whole: string)
    requires a + b <= whole && b != "" && b[0] == '/'
    ensures ContinuesAtBoundary(a, whole)
  {
    assert whole[..|a|] == (a + b)[..|a|] == a;
    assert whole[|a|] == (a + b)[|a|];
  }

  lemma SamePrefix(a: string, b: string, c: string)
    ensures a + b <= a + c <==> b <= c
  {
    if a + b <= a + c {
      assert b == (a + b)[|a|..] && c == (a + c)[|a|..];
      assert forall i :: 0 <= i < |b| ==> b[i] == (a + b)[|a| + i] == (a + c)[|a| + i] == c[i];
    }
  }

  /** The same for printed absolute paths, whose empty case is the root. */
  lemma PrintedBeginsIff(p: seq<DataNode>, q: seq<DataNode>)
    requires forall n :: n in p || n in q ==> IsPrintable(n)
    ensures DataString(DataPath(Absolute, p), WhenNeeded) <= DataString(DataPath(Absolute, q), WhenNeeded)
       <==> IsUnder(p, q)
  {
    hide NodeText, IsPrintable, DataString, Labels;
    PrintedForms(p);
    PrintedForms(q);
    if p == [] {
      RootBegins(q);
    } else {
      hide Slashed;
      var front, last := p[..|p| - 1], p[|p| - 1];
      assert p == front + [last];
      SlashedBeginsIff(front, last, q);
    }
  }

  lemma RootBegins(q: seq<DataNode>)
    ensures q != [] ==> "/" <= Slashed(q)
  {
    hide NodeText;
    if q != [] {
      ConcatAssociative("/", NodeText(q[0]), Slashed(q[1..]));
    }
  }

  /** Without the boundary a string prefix says nothing about containment: the text of
      /m:run is a prefix of the text of /m:runs, whose node is a sibling. */
  lemma StringPrefixIsNotContainment()
    ensures var p, q := [DataNode(Some("m"), Rpc("run"))], [DataNode(Some("m"), Container("runs"))];
            && DataString(DataPath(Absolute, p), WhenNeeded) <= DataString(DataPath(Absolute, q), WhenNeeded)
            && !(Labels(p) <= Labels(q))
  {
    var p, q := [DataNode(Some("m"), Rpc("run"))], [DataNode(Some("m"), Container("runs"))];
    assert IsPrintable(p[0]) && IsPrintable(q[0]);
    assert NodeText(p[0]) == "m:run" && NodeText(q[0]) == "m:runs" && "m:run" <= "m:runs";
    assert LabelOf(p[0]).name != LabelOf(q[0]).name;
    hide IsPrintable, NodeText, DataString, LabelOf;
    assert p[..0] == q[..0] == [];
    PrintedBeginsIff(p, q);
    assert Labels(p)[0] == LabelOf(p[0]) && Labels(q)[0] == LabelOf(q[0]);
  }
}
