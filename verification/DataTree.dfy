/** Flattening data nodes into a tree of entries, with a marker before each run of leaf-list
    instances, and printing that tree (src/libyang_utils.cpp:61-105, src/interpreter.cpp:35-51). */
module DataTree {
  import opened Wrappers
  import opened Text
  import opened AstPath
  import opened PathPrinter

  datatype NodeType = PlainContainer | PresenceContainer | ListInstance | LeafNode | LeafListNode | OtherNode

  datatype LyNode = LyNode(path: string, nodeType: NodeType, value: LeafData)

  /** A node of the collection being flattened; childrenDfs visits it and then the nodes below it. */
  datatype Item = Item(node: LyNode, below: seq<LyNode>)

  datatype EntryValue = Presence | ListMark | LeafListMark | Value(data: LeafData)

  datatype Entry = Entry(path: string, value: EntryValue)

  type Tree = seq<Entry>

  // ---- the entries of one item ----

  predicate Contains(path: string, part: string) {
    exists i :: 0 <= i <= |path| - |part| && part <= path[i..]
  }

  /** stripXPathPrefix: the ignored prefix may be found anywhere, but it is the front that is cut. */
  function StripXPathPrefix(ignored: Option<string>, path: string): string {
    if ignored.Some? && Contains(path, ignored.value) then path[|ignored.value|..] else path
  }

  function EntryOf(node: LyNode, ignored: Option<string>): Tree {
    var path := StripXPathPrefix(ignored, node.path);
    match node.nodeType
    case PresenceContainer => [Entry(path, Presence)]
    case ListInstance => [Entry(path, ListMark)]
    case LeafNode => [Entry(path, Value(node.value))]
    case LeafListNode => [Entry(path, Value(node.value))]
    case _ => []
  }

  function NodeEntries(nodes: seq<LyNode>, ignored: Option<string>): Tree {
    if nodes == [] then [] else EntryOf(nodes[0], ignored) + NodeEntries(nodes[1..], ignored)
  }

  function ItemEntries(item: Item, ignored: Option<string>): Tree {
    NodeEntries([item.node] + item.below, ignored)
  }

  function AllEntries(items: seq<Item>, ignored: Option<string>): Tree {
    if items == [] then [] else ItemEntries(items[0], ignored) + AllEntries(items[1..], ignored)
  }

  /** impl_lyNodesToTree */
  method AppendNodes(before: Tree, nodes: seq<LyNode>, ignored: Option<string>) returns (res: Tree)
    ensures res == before + NodeEntries(nodes, ignored)
  {
    res := before;
    for i := 0 to |nodes|
      invariant res + NodeEntries(nodes[i..], ignored) == before + NodeEntries(nodes, ignored)
    {
      hide StripXPathPrefix;
      var node, path := nodes[i], StripXPathPrefix(ignored, nodes[i].path);
      assert nodes[i..][1..] == nodes[i + 1..];
      ConcatAssociative(res, EntryOf(node, ignored), NodeEntries(nodes[i + 1..], ignored));
      if node.nodeType.PresenceContainer? {
        res := res + [Entry(path, Presence)];
      }
      if node.nodeType.ListInstance? {
        res := res + [Entry(path, ListMark)];
      }
      if node.nodeType.LeafNode? || node.nodeType.LeafListNode? {
        res := res + [Entry(path, Value(node.value))];
      }
    }
  }

  // ---- grouping ----

  /** stripLeafListValueFromPath; None is the exception for a path without an opening bracket. */
  function StripLeafListValue(path: string): Option<string> {
    var at := FindLast(path, '[');
    if at < 0 then None else Some(path[..at])
  }

  predicate IsBracketed(path: string) {
    '[' in path
  }

  lemma StrippedIsPrefix(path: string)
    ensures StripLeafListValue(path).Some? <==> IsBracketed(path)
    ensures StripLeafListValue(path).Some? ==> StripLeafListValue(path).value <= path
  {
  }

  /** The entry is taken into the run of the marker in force. */
  predicate IsTaken(under: Option<string>, path: string) {
    under.Some? && under.value <= path
  }

  predicate Opens(under: Option<string>, item: Item) {
    !IsTaken(under, item.node.path) && item.node.nodeType.LeafListNode?
  }

  /** The marker in force after an item. */
  function After(under: Option<string>, item: Item): Option<string> {
    if IsTaken(under, item.node.path) then under
    else if item.node.nodeType.LeafListNode? then StripLeafListValue(item.node.path)
    else None
  }

  /** A leaf-list instance outside a run opens one. */
  function OpenedTree(under: Option<string>, item: Item): Tree {
    if Opens(under, item) && After(under, item).Some? then [Entry(After(under, item).value, LeafListMark)] else []
  }

  function Behind(before: Tree, rest: Option<Tree>): Option<Tree> {
    match rest
    case None => None
    case Some(tree) => Some(before + tree)
  }

  /** The tree of the remaining items, one item at a time, with a marker in force. */
  function Grouped(items: seq<Item>, under: Option<string>, ignored: Option<string>): Option<Tree>
    decreases |items|
  {
    if items == [] then Some([])
    else if Opens(under, items[0]) && After(under, items[0]).None? then None
    else
      Behind(OpenedTree(under, items[0]) + ItemEntries(items[0], ignored),
             Grouped(items[1..], After(under, items[0]), ignored))
  }

  lemma TakenStep(items: seq<Item>, under: Option<string>, ignored: Option<string>)
    requires items != [] && IsTaken(under, items[0].node.path)
    ensures Grouped(items, under, ignored)
         == Behind(ItemEntries(items[0], ignored), Grouped(items[1..], under, ignored))
  {
    assert [] + ItemEntries(items[0], ignored) == ItemEntries(items[0], ignored);
  }

  lemma PlainStep(items: seq<Item>, under: Option<string>, ignored: Option<string>)
    requires items != [] && !IsTaken(under, items[0].node.path) && !items[0].node.nodeType.LeafListNode?
    ensures Grouped(items, under, ignored) == Behind(ItemEntries(items[0], ignored), Grouped(items[1..], None, ignored))
  {
    assert [] + ItemEntries(items[0], ignored) == ItemEntries(items[0], ignored);
  }

  /** A marker, then the same items with that marker in force. */
  lemma OpenStep(items: seq<Item>, under: Option<string>, ignored: Option<string>)
    requires items != [] && Opens(under, items[0])
    ensures var path := StripLeafListValue(items[0].node.path);
            Grouped(items, under, ignored)
              == if path.None? then None
                 else Behind([Entry(path.value, LeafListMark)], Grouped(items, path, ignored))
  {
    hide ItemEntries, StripLeafListValue;
    var path := StripLeafListValue(items[0].node.path);
    if path.Some? {
      StrippedIsPrefix(items[0].node.path);
      TakenStep(items, path, ignored);
      BehindTwice([Entry(path.value, LeafListMark)], ItemEntries(items[0], ignored),
                  Grouped(items[1..], path, ignored));
    }
  }

  lemma BehindTwice(a: Tree, b: Tree, rest: Option<Tree>)
    ensures Behind(a, Behind(b, rest)) == Behind(a + b, rest)
  {
    if rest.Some? {
      ConcatAssociative(a, b, rest.value);
    }
  }

  lemma BehindNothing(rest: Option<Tree>)
    ensures Behind([], rest) == rest
  {
    if rest.Some? {
      assert [] + rest.value == rest.value;
    }
  }

  /** lyNodesToTree, whose two loops make one pass over the items; None is the exception of
      stripLeafListValueFromPath. */
  method LyNodesToTree(items: seq<Item>, ignored: Option<string>) returns (res: Option<Tree>)
    ensures res == Grouped(items, None, ignored)
  {
    hide Grouped, StripLeafListValue, ItemEntries;
    var tree: Tree := [];
    var it := 0;
    ghost var under: Option<string> := None;
    BehindNothing(Grouped(items, None, ignored));
    assert items[0..] == items;
    while it < |items|
      invariant 0 <= it <= |items|
      invariant Behind(tree, Grouped(items[it..], under, ignored)) == Grouped(items, None, ignored)
      invariant it < |items| ==> !IsTaken(under, items[it].node.path)
      decreases |items| - it
    {
      if items[it].node.nodeType.LeafListNode? {
        OpenStep(items[it..], under, ignored);
        var leafListPath := StripLeafListValue(items[it].node.path);
        if leafListPath.None? {
          return None;
        }
        StrippedIsPrefix(items[it].node.path);
        BehindTwice(tree, [Entry(leafListPath.value, LeafListMark)], Grouped(items[it..], leafListPath, ignored));
        tree := tree + [Entry(leafListPath.value, LeafListMark)];
        under := leafListPath;
        ghost var start := it;
        while it < |items| && leafListPath.value <= items[it].node.path
          invariant start <= it <= |items|
          invariant it == start ==> leafListPath.value <= items[it].node.path
          invariant Behind(tree, Grouped(items[it..], under, ignored)) == Grouped(items, None, ignored)
          decreases |items| - it
        {
          TakenStep(items[it..], under, ignored);
          tree, it := AppendItem(items, it, tree, under, ignored);
        }
      } else {
        PlainStep(items[it..], under, ignored);
        under := None;
        tree, it := AppendItem(items, it, tree, under, ignored);
      }
    }
    EmptyGroup(tree, items[it..], under, ignored);
    return Some(tree);
  }

  /** Appends one item's entries and steps to the next. */
  method AppendItem(items: seq<Item>, it: nat, before: Tree, ghost under: Option<string>, ignored: Option<string>)
    returns (res: Tree, next: nat)
    requires it < |items|
    ensures res == before + ItemEntries(items[it], ignored) && next == it + 1
    ensures Behind(before, Behind(ItemEntries(items[it], ignored), Grouped(items[it..][1..], under, ignored)))
         == Behind(res, Grouped(items[next..], under, ignored))
  {
    hide Grouped;
    res := AppendNodes(before, [items[it].node] + items[it].below, ignored);
    next := it + 1;
    assert items[it..][1..] == items[next..];
    BehindTwice(before, ItemEntries(items[it], ignored), Grouped(items[next..], under, ignored));
  }

  lemma EmptyGroup(tree: Tree, items: seq<Item>, under: Option<string>, ignored: Option<string>)
    requires items == []
    ensures Behind(tree, Grouped(items, under, ignored)) == Some(tree)
  {
    assert tree + [] == tree;
  }

  // ---- what grouping keeps ----

  /** The marker in force before item i. */
  function Under(items: seq<Item>, i: nat): Option<string>
    requires i <= |items|
  {
    if i == 0 then None else After(Under(items, i - 1), items[i - 1])
  }

  /** Items j to i, of which j opens the run of this marker and none ends it. */
  predicate IsRunOf(items: seq<Item>, j: int, i: int, marker: string) {
    && 0 <= j <= i < |items|
    && Opens(Under(items, j), items[j])
    && StripLeafListValue(items[j].node.path) == Some(marker)
    && forall k :: j <= k <= i ==> marker <= items[k].node.path
  }

  lemma {:induction false} MarkerInForceWasOpened(items: seq<Item>, i: nat, marker: string)
    requires i < |items| && Under(items, i + 1) == Some(marker)
    ensures exists j :: IsRunOf(items, j, i, marker)
    decreases i
  {
    hide StripLeafListValue;
    if IsTaken(Under(items, i), items[i].node.path) {
      MarkerInForceWasOpened(items, i - 1, marker);
      var j :| IsRunOf(items, j, i - 1, marker);
      assert IsRunOf(items, j, i, marker);
    } else {
      StrippedIsPrefix(items[i].node.path);
      assert IsRunOf(items, i, i, marker);
    }
  }

  /** Every leaf-list instance lies in a run that a marker opens, all of whose items start with the
      marker's path. */
  lemma LeafListsLieInRuns(items: seq<Item>, i: nat)
    requires forall item :: item in items && item.node.nodeType.LeafListNode? ==> IsBracketed(item.node.path)
    requires i < |items| && items[i].node.nodeType.LeafListNode?
    ensures exists j, marker :: IsRunOf(items, j, i, marker)
  {
    StrippedIsPrefix(items[i].node.path);
    MarkerInForceWasOpened(items, i, Under(items, i + 1).value);
  }

  /** Grouping does not fail when every leaf-list path has its bracket. */
  lemma {:induction false} BracketedItemsAreGrouped(items: seq<Item>, under: Option<string>, ignored: Option<string>)
    requires forall item :: item in items && item.node.nodeType.LeafListNode? ==> IsBracketed(item.node.path)
    ensures Grouped(items, under, ignored).Some?
    decreases |items|
  {
    hide StripLeafListValue, ItemEntries;
    if items != [] {
      StrippedIsPrefix(items[0].node.path);
      BracketedItemsAreGrouped(items[1..], After(under, items[0]), ignored);
    }
  }

  function Unmarked(tree: Tree): Tree {
    if tree == [] then []
    else (if tree[0].value.LeafListMark? then [] else [tree[0]]) + Unmarked(tree[1..])
  }

  lemma {:induction false} UnmarkedConcat(a: Tree, b: Tree)
    ensures Unmarked(a + b) == Unmarked(a) + Unmarked(b)
    decreases |a|
  {
    if a == [] {
      assert a + b == b;
    } else {
      assert (a + b)[1..] == a[1..] + b;
      UnmarkedConcat(a[1..], b);
      ConcatAssociative(if a[0].value.LeafListMark? then [] else [a[0]], Unmarked(a[1..]), Unmarked(b));
    }
  }

  lemma {:induction false} NodesHaveNoMark(nodes: seq<LyNode>, ignored: Option<string>)
    ensures forall e :: e in NodeEntries(nodes, ignored) ==> !e.value.LeafListMark?
  {
    if nodes != [] {
      NodesHaveNoMark(nodes[1..], ignored);
    }
  }

  lemma {:induction false} UnmarkedIsSame(tree: Tree)
    requires forall e :: e in tree ==> !e.value.LeafListMark?
    ensures Unmarked(tree) == tree
    decreases |tree|
  {
    if tree != [] {
      assert tree == [tree[0]] + tree[1..];
      UnmarkedIsSame(tree[1..]);
    }
  }

  lemma ItemHasNoMark(item: Item, ignored: Option<string>)
    ensures forall e :: e in ItemEntries(item, ignored) ==> !e.value.LeafListMark?
  {
    NodesHaveNoMark([item.node] + item.below, ignored);
  }

  lemma UnmarkedOpening(under: Option<string>, item: Item)
    ensures Unmarked(OpenedTree(under, item)) == []
  {
    hide StripLeafListValue;
    var t := OpenedTree(under, item);
    assert t != [] ==> t[1..] == [];
  }

  /** Without the markers, the tree is every item's own entries, in order. */
  lemma {:induction false} GroupingConservesEntries(items: seq<Item>, under: Option<string>, ignored: Option<string>)
    requires Grouped(items, under, ignored).Some?
    ensures Unmarked(Grouped(items, under, ignored).value) == AllEntries(items, ignored)
    decreases |items|
  {
    hide NodeEntries, OpenedTree, After;
    if items != [] {
      var mark, own := OpenedTree(under, items[0]), ItemEntries(items[0], ignored);
      var rest := Grouped(items[1..], After(under, items[0]), ignored).value;
      UnmarkedConcat(mark + own, rest);
      UnmarkedConcat(mark, own);
      UnmarkedOpening(under, items[0]);
      assert [] + own == own;
      ItemHasNoMark(items[0], ignored);
      UnmarkedIsSame(own);
      GroupingConservesEntries(items[1..], After(under, items[0]), ignored);
    }
  }

  // ---- printTree ----

  function ValueText(v: EntryValue): string {
    match v
    case Presence => "(presence container)"
    case ListMark => "(list)"
    case LeafListMark => "(leaflist)"
    case Value(data) => LeafDataToString(data)
  }

  function Line(path: string, v: EntryValue): string {
    path + " = " + ValueText(v)
  }

  /** The marker whose run the inner loop is in before entry i. */
  function PrintingUnder(tree: Tree, i: nat): Option<string>
    requires i <= |tree|
  {
    if i == 0 then None
    else if IsTaken(PrintingUnder(tree, i - 1), tree[i - 1].path) then PrintingUnder(tree, i - 1)
    else if tree[i - 1].value.LeafListMark? then Some(tree[i - 1].path)
    else None
  }

  /** Entry i is taken into a run, whose lines lose their last bracket. */
  predicate Takes(tree: Tree, i: nat)
    requires i < |tree|
  {
    IsTaken(PrintingUnder(tree, i), tree[i].path)
  }

  function TreeLine(tree: Tree, i: nat): string
    requires i < |tree|
  {
    var stripped := StripLeafListValue(tree[i].path);
    Line(if Takes(tree, i) && stripped.Some? then stripped.value else tree[i].path, tree[i].value)
  }

  predicate IsPrintableTree(tree: Tree) {
    forall i :: 0 <= i < |tree| && Takes(tree, i) ==> IsBracketed(tree[i].path)
  }

  /** The lines of the first entries. */
  predicate IsPrinted(tree: Tree, lines: seq<string>) {
    && |lines| <= |tree|
    && (forall i :: 0 <= i < |lines| ==> lines[i] == TreeLine(tree, i))
    && (forall i :: 0 <= i < |lines| && Takes(tree, i) ==> IsBracketed(tree[i].path))
  }

  lemma NextLine(tree: Tree, lines: seq<string>)
    requires IsPrinted(tree, lines) && |lines| < |tree|
    requires Takes(tree, |lines|) ==> IsBracketed(tree[|lines|].path)
    ensures IsPrinted(tree, lines + [TreeLine(tree, |lines|)])
  {
    hide TreeLine, Takes, PrintingUnder, IsTaken, IsBracketed;
  }

  lemma PrintingStarts(tree: Tree)
    ensures IsPrinted(tree, []) && (tree != [] ==> !Takes(tree, 0))
  {
  }

  lemma PlainLine(tree: Tree, lines: seq<string>)
    requires IsPrinted(tree, lines) && |lines| < |tree| && !Takes(tree, |lines|)
    ensures var e := tree[|lines|];
            && IsPrinted(tree, lines + [Line(e.path, e.value)])
            && PrintingUnder(tree, |lines| + 1) == if e.value.LeafListMark? then Some(e.path) else None
  {
    NextLine(tree, lines);
    hide Line, IsPrinted, StripLeafListValue;
  }

  lemma TakenLine(tree: Tree, lines: seq<string>)
    requires IsPrinted(tree, lines) && |lines| < |tree| && Takes(tree, |lines|)
    ensures var e := tree[|lines|];
            var stripped := StripLeafListValue(e.path);
            && (stripped.Some? <==> IsBracketed(e.path))
            && (stripped.Some? ==> IsPrinted(tree, lines + [Line(stripped.value, e.value)]))
            && PrintingUnder(tree, |lines| + 1) == PrintingUnder(tree, |lines|)
  {
    StrippedIsPrefix(tree[|lines|].path);
    if IsBracketed(tree[|lines|].path) {
      NextLine(tree, lines);
    }
    hide Line, IsPrinted, StripLeafListValue, IsBracketed;
  }

  /** printTree: one line for each entry, in order, the taken ones without their last bracket. It
      throws exactly when a taken entry has no bracket, after the lines before it. */
  method PrintTree(tree: Tree) returns (lines: seq<string>, ok: bool)
    ensures ok <==> IsPrintableTree(tree)
    ensures |lines| <= |tree| && (ok ==> |lines| == |tree|)
    ensures forall i :: 0 <= i < |lines| ==> lines[i] == TreeLine(tree, i)
    ensures !ok ==> |lines| < |tree| && Takes(tree, |lines|) && !IsBracketed(tree[|lines|].path)
  {
    PrintingStarts(tree);
    hide Line, TreeLine, StripLeafListValue, PrintingUnder, IsBracketed;
    lines := [];
    var it := 0;
    while it < |tree|
      invariant it == |lines| && IsPrinted(tree, lines)
      invariant it < |tree| ==> !Takes(tree, it)
      decreases |tree| - it
    {
      var path, value := tree[it].path, tree[it].value;
      PlainLine(tree, lines);
      lines := lines + [Line(path, value)];
      it := it + 1;
      if value.LeafListMark? {
        while it < |tree| && path <= tree[it].path
          invariant it == |lines| && IsPrinted(tree, lines)
          invariant PrintingUnder(tree, it) == Some(path)
          decreases |tree| - it
        {
          TakenLine(tree, lines);
          var stripped := StripLeafListValue(tree[it].path);
          if stripped.None? {
            return lines, false;
          }
          lines := lines + [Line(stripped.value, tree[it].value)];
          it := it + 1;
        }
      }
    }
    return lines, true;
  }

  /** What is printed for a node alone. */
  lemma NodeIsPrinted(node: LyNode)
    ensures var tree := NodeEntries([node], None);
            var text :=
              match node.nodeType
              case PresenceContainer => "(presence container)"
              case ListInstance => "(list)"
              case _ => LeafDataToString(node.value);
            if node.nodeType.PlainContainer? || node.nodeType.OtherNode? then tree == []
            else |tree| == 1 && TreeLine(tree, 0) == node.path + " = " + text
  {
    var tree := NodeEntries([node], None);
    assert [node][1..] == [] && NodeEntries([node], None) == EntryOf(node, None) + NodeEntries([], None);
    assert EntryOf(node, None) + [] == EntryOf(node, None);
  }

  /** An instance of a leaf-list is printed under its marker, and without its bracket. */
  lemma LeafListIsPrinted(node: LyNode)
    requires node.nodeType.LeafListNode? && IsBracketed(node.path)
    ensures var name := node.path[..FindLast(node.path, '[')];
            var tree := Grouped([Item(node, [])], None, None);
            && tree.Some? && |tree.value| == 2
            && TreeLine(tree.value, 0) == name + " = (leaflist)"
            && TreeLine(tree.value, 1) == name + " = " + LeafDataToString(node.value)
  {
    StrippedIsPrefix(node.path);
    var item := Item(node, []);
    var name := StripLeafListValue(node.path).value;
    assert [node] + [] == [node] && [node][1..] == [] && [item][1..] == [];
    assert EntryOf(node, None) + [] == EntryOf(node, None);
    assert NodeEntries([node], None) == EntryOf(node, None) + NodeEntries([], None);
    var tree := [Entry(name, LeafListMark)] + [Entry(node.path, Value(node.value))];
    assert Grouped([item][1..], After(None, item), None) == Some([]);
    assert tree + [] == tree && Grouped([item], None, None) == Some(tree);
    assert PrintingUnder(tree, 0) == None && PrintingUnder(tree, 1) == Some(name);
  }

  /** A prefix that is ignored is cut off a path that starts with it, and a path that does not hold it
      is kept; where it is held further on, as many characters of the front are cut. */
  lemma IgnoredPrefixIsCut(ignored: string, rest: string, path: string)
    ensures StripXPathPrefix(Some(ignored), ignored + rest) == rest
    ensures !Contains(path, ignored) ==> StripXPathPrefix(Some(ignored), path) == path
    ensures Contains(path, ignored) ==> StripXPathPrefix(Some(ignored), path) == path[|ignored|..]
    ensures StripXPathPrefix(None, path) == path
  {
    assert (ignored + rest)[0..] == ignored + rest;
    assert ignored <= (ignored + rest)[0..];
  }

  /** An entry is taken only under an earlier marker whose path it starts with. */
  lemma {:induction false} TakenIsUnderAMarker(tree: Tree, i: nat)
    requires i <= |tree| && PrintingUnder(tree, i).Some?
    ensures exists j :: 0 <= j < i && tree[j].value.LeafListMark? && tree[j].path == PrintingUnder(tree, i).value
    decreases i
  {
    if Takes(tree, i - 1) {
      TakenIsUnderAMarker(tree, i - 1);
    } else {
      assert tree[i - 1].value.LeafListMark?;
    }
  }

  /** printTree prints everything when no path without a bracket starts with the path of a marker. */
  lemma SeparateNamesPrint(tree: Tree)
    requires forall i, j :: 0 <= j < i < |tree| && tree[j].value.LeafListMark? && tree[j].path <= tree[i].path ==>
               IsBracketed(tree[i].path)
    ensures IsPrintableTree(tree)
  {
    forall i | 0 <= i < |tree| && Takes(tree, i)
      ensures IsBracketed(tree[i].path)
    {
      TakenIsUnderAMarker(tree, i);
    }
  }

  // ---- printing what was grouped ----

  /** The marker in force after printing some entries. */
  function UnderAfter(under: Option<string>, tree: Tree): Option<string>
    decreases |tree|
  {
    if tree == [] then under
    else
      var e := tree[0];
      var next := if IsTaken(under, e.path) then under else if e.value.LeafListMark? then Some(e.path) else None;
      UnderAfter(next, tree[1..])
  }

  /** No entry is taken that has no bracket. */
  predicate Prints(under: Option<string>, tree: Tree)
    decreases |tree|
  {
    tree == []
    || (&& (IsTaken(under, tree[0].path) ==> IsBracketed(tree[0].path))
        && Prints(UnderAfter(under, tree[..1]), tree[1..]))
  }

  lemma {:induction false} UnderAfterConcat(under: Option<string>, a: Tree, b: Tree)
    ensures UnderAfter(under, a + b) == UnderAfter(UnderAfter(under, a), b)
    decreases |a|
  {
    if a == [] {
      assert a + b == b;
    } else {
      assert (a + b)[1..] == a[1..] + b;
      var e := a[0];
      var next := if IsTaken(under, e.path) then under else if e.value.LeafListMark? then Some(e.path) else None;
      UnderAfterConcat(next, a[1..], b);
    }
  }

  lemma UnderAfterOne(under: Option<string>, tree: Tree)
    requires tree != []
    ensures UnderAfter(under, tree[..1])
         == (if IsTaken(under, tree[0].path) then under
             else if tree[0].value.LeafListMark? then Some(tree[0].path) else None)
    ensures UnderAfter(under, tree) == UnderAfter(UnderAfter(under, tree[..1]), tree[1..])
  {
    assert tree[..1][1..] == [] && tree == tree[..1] + tree[1..];
    UnderAfterConcat(under, tree[..1], tree[1..]);
  }

  lemma {:induction false} PrintsConcat(under: Option<string>, a: Tree, b: Tree)
    ensures Prints(under, a + b) <==> Prints(under, a) && Prints(UnderAfter(under, a), b)
    decreases |a|
  {
    hide IsBracketed;
    if a == [] {
      assert a + b == b;
    } else {
      assert (a + b)[1..] == a[1..] + b && (a + b)[..1] == a[..1];
      UnderAfterOne(under, a);
      PrintsConcat(UnderAfter(under, a[..1]), a[1..], b);
    }
  }

  lemma {:induction false} PrintingUnderIsUnderAfter(tree: Tree, i: nat)
    requires i <= |tree|
    ensures PrintingUnder(tree, i) == UnderAfter(None, tree[..i])
    decreases i
  {
    if i > 0 {
      PrintingUnderIsUnderAfter(tree, i - 1);
      assert tree[..i] == tree[..i - 1] + [tree[i - 1]] && [tree[i - 1]][1..] == [];
      UnderAfterConcat(None, tree[..i - 1], [tree[i - 1]]);
    }
  }

  lemma {:induction false} PrintsIsPrintable(tree: Tree, n: nat)
    requires n <= |tree|
    ensures Prints(UnderAfter(None, tree[..n]), tree[n..])
       <==> forall i :: n <= i < |tree| && Takes(tree, i) ==> IsBracketed(tree[i].path)
    decreases |tree| - n
  {
    hide IsBracketed, PrintingUnder;
    if n < |tree| {
      var rest := tree[n..];
      PrintsIsPrintable(tree, n + 1);
      PrintingUnderIsUnderAfter(tree, n);
      assert tree[..n + 1] == tree[..n] + rest[..1] && rest[1..] == tree[n + 1..] && rest[0] == tree[n];
      UnderAfterConcat(None, tree[..n], rest[..1]);
    }
  }

  // ---- the same, on the items ----

  /** Entries are taken until one does not continue the marker, and so far all need a bracket. */
  predicate LeadIsBracketed(under: Option<string>, tree: Tree) {
    tree == []
    || (IsTaken(under, tree[0].path) ==> IsBracketed(tree[0].path) && LeadIsBracketed(under, tree[1..]))
  }

  /** The marker stays in force only when all entries are taken. */
  function UnderLead(under: Option<string>, tree: Tree): Option<string> {
    if forall e :: e in tree ==> IsTaken(under, e.path) then under else None
  }

  /** The marker that printing is under once an item's own marker, if it opens a run, is printed: one
      that is taken itself does not count as a marker. */
  function UnderMark(grouping: Option<string>, printing: Option<string>, item: Item): Option<string> {
    if Opens(grouping, item) && After(grouping, item).Some? && !IsTaken(printing, After(grouping, item).value) then
      After(grouping, item)
    else printing
  }

  predicate MarkIsBracketed(grouping: Option<string>, printing: Option<string>, item: Item) {
    Opens(grouping, item) && After(grouping, item).Some? && IsTaken(printing, After(grouping, item).value) ==>
      IsBracketed(After(grouping, item).value)
  }

  /** Grouping ends a run at the next node with another path, printing at the next entry with another
      path; the two differ at nodes without entries, so each has a marker in force. */
  predicate PrintsItems(items: seq<Item>, grouping: Option<string>, printing: Option<string>, ignored: Option<string>)
    decreases |items|
  {
    items == []
    || (var own, now := ItemEntries(items[0], ignored), UnderMark(grouping, printing, items[0]);
        && MarkIsBracketed(grouping, printing, items[0])
        && LeadIsBracketed(now, own)
        && PrintsItems(items[1..], After(grouping, items[0]), UnderLead(now, own), ignored))
  }

  lemma {:induction false} EntriesPrint(under: Option<string>, tree: Tree)
    requires forall e :: e in tree ==> !e.value.LeafListMark?
    ensures Prints(under, tree) <==> LeadIsBracketed(under, tree)
    ensures UnderAfter(under, tree) == UnderLead(under, tree)
    decreases |tree|
  {
    hide IsBracketed;
    if tree != [] {
      assert tree == [tree[0]] + tree[1..];
      UnderAfterOne(under, tree);
      EntriesPrint(UnderAfter(under, tree[..1]), tree[1..]);
    }
  }

  lemma MarkPrints(grouping: Option<string>, printing: Option<string>, item: Item)
    ensures Prints(printing, OpenedTree(grouping, item)) <==> MarkIsBracketed(grouping, printing, item)
    ensures UnderAfter(printing, OpenedTree(grouping, item)) == UnderMark(grouping, printing, item)
  {
    hide IsBracketed;
    var mark := OpenedTree(grouping, item);
    if mark != [] {
      assert mark[1..] == [] && mark[..1] == mark;
      UnderAfterOne(printing, mark);
    }
  }

  lemma {:induction false} GroupedPrints(items: seq<Item>, grouping: Option<string>, printing: Option<string>,
                                         ignored: Option<string>)
    requires Grouped(items, grouping, ignored).Some?
    ensures Prints(printing, Grouped(items, grouping, ignored).value)
       <==> PrintsItems(items, grouping, printing, ignored)
    decreases |items|
  {
    hide IsBracketed, ItemEntries, MarkIsBracketed, UnderMark;
    if items != [] {
      var item := items[0];
      var mark, own := OpenedTree(grouping, item), ItemEntries(item, ignored);
      var now, rest := UnderMark(grouping, printing, item), Grouped(items[1..], After(grouping, item), ignored).value;
      PrintsConcat(printing, mark + own, rest);
      PrintsConcat(printing, mark, own);
      UnderAfterConcat(printing, mark, own);
      MarkPrints(grouping, printing, item);
      ItemHasNoMark(item, ignored);
      EntriesPrint(now, own);
      GroupedPrints(items[1..], After(grouping, item), UnderLead(now, own), ignored);
    }
  }

  /** printTree of lyNodesToTree succeeds if and only if, walking the items with the two markers, every
      entry that is taken into the run of an earlier leaf-list has a bracket in its path. */
  lemma GroupedTreePrintsIff(items: seq<Item>, ignored: Option<string>)
    requires Grouped(items, None, ignored).Some?
    ensures IsPrintableTree(Grouped(items, None, ignored).value) <==> PrintsItems(items, None, None, ignored)
  {
    hide IsBracketed, Takes, Grouped;
    var tree := Grouped(items, None, ignored).value;
    GroupedPrints(items, None, None, ignored);
    PrintsIsPrintable(tree, 0);
    assert tree[..0] == [] && tree[0..] == tree;
  }

  // ---- collections where every item has an entry ----

  /** A node that has an entry of its own, above nodes whose paths continue its path. */
  predicate IsEntryItem(item: Item) {
    && !item.node.nodeType.PlainContainer? && !item.node.nodeType.OtherNode?
    && forall n :: n in item.below ==> item.node.path <= n.path
  }

  /** Every item taken into the run of an earlier leaf-list has a bracket in its path. */
  predicate TakenAreBracketed(items: seq<Item>, under: Option<string>) {
    items == []
    || (&& (IsTaken(under, items[0].node.path) ==> IsBracketed(items[0].node.path))
        && TakenAreBracketed(items[1..], After(under, items[0])))
  }

  lemma LongerIsBracketed(path: string, longer: string)
    requires path <= longer && IsBracketed(path)
    ensures IsBracketed(longer)
  {
    var i :| 0 <= i < |path| && path[i] == '[';
    assert longer[i] == '[';
  }

  lemma {:induction false} BelowContinues(path: string, nodes: seq<LyNode>)
    requires forall n :: n in nodes ==> path <= n.path
    ensures forall e :: e in NodeEntries(nodes, None) ==> path <= e.path
  {
    if nodes != [] {
      BelowContinues(path, nodes[1..]);
    }
  }

  lemma {:induction false} ContinuedIsBracketed(under: Option<string>, path: string, tree: Tree)
    requires IsBracketed(path) && forall e :: e in tree ==> path <= e.path
    ensures LeadIsBracketed(under, tree)
    decreases |tree|
  {
    if tree != [] {
      LongerIsBracketed(path, tree[0].path);
      ContinuedIsBracketed(under, path, tree[1..]);
    }
  }

  /** Then an item is printed, and the marker after it told, by its own path. */
  lemma ItemPrints(under: Option<string>, item: Item)
    requires IsEntryItem(item)
    ensures var taken, own := IsTaken(under, item.node.path), ItemEntries(item, None);
            && (LeadIsBracketed(under, own) <==> (taken ==> IsBracketed(item.node.path)))
            && UnderLead(under, own) == if taken then under else None
  {
    var path, own := item.node.path, ItemEntries(item, None);
    assert ([item.node] + item.below)[1..] == item.below;
    BelowContinues(path, item.below);
    assert own[0].path == path && own[0] in own;
    assert forall e :: e in own ==> path <= e.path;
    hide IsBracketed, ItemEntries;
    if IsBracketed(path) {
      ContinuedIsBracketed(under, path, own);
    }
  }

  lemma {:induction false} OneMarkerSuffices(items: seq<Item>, under: Option<string>)
    requires forall item :: item in items ==> IsEntryItem(item)
    requires Grouped(items, under, None).Some?
    ensures PrintsItems(items, under, under, None) <==> TakenAreBracketed(items, under)
    decreases |items|
  {
    hide IsBracketed, ItemEntries, IsEntryItem, LeadIsBracketed, UnderLead;
    if items != [] {
      assert items == [items[0]] + items[1..];
      var now := UnderMark(under, under, items[0]);
      StrippedIsPrefix(items[0].node.path);
      ItemPrints(now, items[0]);
      OneMarkerSuffices(items[1..], After(under, items[0]));
    }
  }

  /** When every node has an entry of its own, printing succeeds if and only if every node that is
      taken into the run of an earlier leaf-list has a bracket in its path. */
  lemma EntryItemsPrintIff(items: seq<Item>)
    requires forall item :: item in items ==> IsEntryItem(item)
    requires Grouped(items, None, None).Some?
    ensures IsPrintableTree(Grouped(items, None, None).value) <==> TakenAreBracketed(items, None)
  {
    GroupedTreePrintsIff(items, None);
    OneMarkerSuffices(items, None);
  }

  /** A container without an entry ends the run of a leaf-list for grouping and not for printing: the
      marker of the next leaf-list is then taken into the run, and printing throws. */
  lemma ContainerKeepsTheRun(value: LeafData)
    ensures var items := [Item(LyNode("/m:a[.='1']", LeafListNode, value), []),
                          Item(LyNode("/m:z", PlainContainer, value), []),
                          Item(LyNode("/m:ab[.='1']", LeafListNode, value), [])];
            && Grouped(items, None, None).Some? && TakenAreBracketed(items, None)
            && !IsPrintableTree(Grouped(items, None, None).value)
  {
    var a := Item(LyNode("/m:a[.='1']", LeafListNode, value), []);
    var z := Item(LyNode("/m:z", PlainContainer, value), []);
    var b := Item(LyNode("/m:ab[.='1']", LeafListNode, value), []);
    BracketOfOther();
    BracketedItemsAreGrouped([a, z, b], None, None);
    GroupedTreePrintsIff([a, z, b], None);
    RunIsKept(a, z, b, "/m:a", "/m:ab");
    hide StripLeafListValue, IsBracketed, Grouped, IsPrintableTree, ItemEntries, PrintsItems;
    assert [a, z, b][1..] == [z, b] && [z, b][1..] == [b] && [b][1..] == [];
  }

  /** The same for any such names. */
  lemma RunIsKept(a: Item, z: Item, b: Item, name: string, longer: string)
    requires a.node.nodeType.LeafListNode? && a.below == [] && StripLeafListValue(a.node.path) == Some(name)
    requires z.node.nodeType.PlainContainer? && z.below == [] && !(name <= z.node.path)
    requires b.node.nodeType.LeafListNode? && StripLeafListValue(b.node.path) == Some(longer)
    requires name <= longer && !IsBracketed(longer)
    ensures TakenAreBracketed([a, z, b], None) && !PrintsItems([a, z, b], None, None, None)
  {
    StrippedIsPrefix(a.node.path);
    OwnEntry(a);
    OwnEntry(z);
    hide StripLeafListValue, IsBracketed, ItemEntries, PrintsItems, LeadIsBracketed;
    assert [a, z, b][1..] == [z, b] && [z, b][1..] == [b] && [b][1..] == [];
    assert After(Some(name), z) == None && After(None, a) == Some(name);
    assert TakenAreBracketed([b], None);
    assert TakenAreBracketed([z, b], Some(name));
    assert UnderLead(Some(name), ItemEntries(a, None)) == Some(name);
    assert ItemEntries(z, None) == [] && UnderLead(Some(name), []) == Some(name);
    SecondMarkerIsTaken(b, name, longer);
    LaterThrows([z, b], Some(name), Some(name), None);
    LaterThrows([a, z, b], None, None, None);
  }

  /** Printing throws when it does for the later items. */
  lemma LaterThrows(items: seq<Item>, grouping: Option<string>, printing: Option<string>, ignored: Option<string>)
    requires items != []
    requires !PrintsItems(items[1..], After(grouping, items[0]),
                          UnderLead(UnderMark(grouping, printing, items[0]), ItemEntries(items[0], ignored)), ignored)
    ensures !PrintsItems(items, grouping, printing, ignored)
  {
  }

  lemma SecondMarkerIsTaken(b: Item, name: string, longer: string)
    requires b.node.nodeType.LeafListNode? && StripLeafListValue(b.node.path) == Some(longer)
    requires name <= longer && !IsBracketed(longer)
    ensures !PrintsItems([b], None, Some(name), None)
  {
    hide StripLeafListValue, IsBracketed;
    assert After(None, b) == Some(longer) && IsTaken(Some(name), longer);
  }

  lemma OwnEntry(item: Item)
    requires item.below == []
    ensures ItemEntries(item, None) == EntryOf(item.node, None)
  {
    var nodes := [item.node];
    assert nodes + item.below == nodes && nodes[1..] == [];
    assert NodeEntries(nodes, None) == EntryOf(item.node, None) + NodeEntries([], None);
    hide EntryOf;
  }

  /** A leaf whose name continues the name of a leaf-list is taken into the run of that leaf-list:
      however the two are written, printing their tree throws. */
  lemma LongerNameBreaksPrinting(value: LeafData, other: LeafData)
    ensures var items := [Item(LyNode("/m:a[.='1']", LeafListNode, value), []),
                          Item(LyNode("/m:ab", LeafNode, other), [])];
            && Grouped(items, None, None).Some?
            && !IsPrintableTree(Grouped(items, None, None).value)
  {
    var items := [Item(LyNode("/m:a[.='1']", LeafListNode, value), []), Item(LyNode("/m:ab", LeafNode, other), [])];
    BracketOfOne();
    BracketedItemsAreGrouped(items, None, None);
    EntryItemsPrintIff(items);
    hide StripLeafListValue, IsBracketed, Grouped, IsPrintableTree;
    assert items[1..] == [items[1]] && After(None, items[0]) == Some("/m:a");
    assert !TakenAreBracketed(items[1..], Some("/m:a"));
  }

  lemma BracketOfOne()
    ensures StripLeafListValue("/m:a[.='1']") == Some("/m:a")
    ensures "/m:a" <= "/m:a[.='1']" && "/m:a" <= "/m:ab" && !IsBracketed("/m:ab")
  {
    var s := "/m:a[.='1']";
    assert |s| == 11 && s[4] == '[';
    assert forall i :: 4 < i < 11 ==> s[i] != '[';
    assert s[..4] == "/m:a";
  }

  lemma BracketOfOther()
    ensures StripLeafListValue("/m:a[.='1']") == Some("/m:a") && StripLeafListValue("/m:ab[.='1']") == Some("/m:ab")
    ensures IsBracketed("/m:a[.='1']") && IsBracketed("/m:ab[.='1']") && !IsBracketed("/m:ab")
    ensures !("/m:a" <= "/m:z") && "/m:a" <= "/m:ab" && "/m:a" <= "/m:ab[.='1']" && "/m:ab" <= "/m:ab[.='1']"
  {
    BracketOfOne();
    var s, t := "/m:ab[.='1']", "/m:a[.='1']";
    assert |s| == 12 && s[5] == '[' && |t| == 11 && t[4] == '[';
    assert forall i :: 5 < i < 12 ==> s[i] != '[';
    assert s[..5] == "/m:ab";
    assert "/m:a"[3] != "/m:z"[3];
  }
}
