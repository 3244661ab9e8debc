/** Where printing and parsing do not undo each other: keys that are not strings print quoted but
    parse unquoted, and leaf-list elements print as [.='x'] but parse as ['x']
    (src/ast_path.cpp:218-243, src/path_parser.hpp:62-78, src/leaf_data.hpp:31-33). */
module RoundTripLimits {
  import opened Wrappers
  import opened Text
  import opened Ordering
  import opened AstPath
  import opened PathPrinter
  import opened LeafParsers
  import opened StaticSchema
  import opened ListSuffix
  import opened PathParser
  import opened RoundTrip

  // ---- what a leaf parser does with a printed value ----

  const QUOTES := {'\'', '"'}

  predicate Begins(s: string, marks: set<char>) {
    s != "" && s[0] in marks
  }

  /** No value of an enumeration and no bit starts with one of these characters. */
  predicate IsFreeOf(t: LeafType, marks: set<char>) {
    match t
    case EnumType(allowed) => forall v :: v in allowed ==> !Begins(v, marks)
    case BitsType(allowed) => forall v :: v in allowed ==> !Begins(v, marks)
    case UnionType(members) => forall m :: m in members ==> IsFreeOf(m, marks)
    case LeafRefType(target) => IsFreeOf(target, marks)
    case _ => true
  }

  /** What the parsers that are not modelled do with a text that starts with a quote: those of the
      given kinds, such as empty, match it without taking anything, and the others fail. */
  ghost predicate TakesNoQuotes(foreign: ForeignParser, empties: set<string>) {
    forall kind: string, s: string :: Begins(s, QUOTES) ==>
      match foreign(kind, s)
      case None => kind !in empties
      case Some((_, n)) => kind in empties && n == 0
  }

  /** How a type reads a quoted text: as a string, not at all, or by matching without taking anything. */
  datatype Reading = AsString | NoMatch | NoInput

  function ReadingOf(empties: set<string>, t: LeafType): Reading
    decreases t, if t.UnionType? then |t.members| + 1 else 0
  {
    match t
    case StringType => AsString
    case EnumType(_) => NoMatch
    case BitsType(_) => NoInput
    case LeafRefType(target) => ReadingOf(empties, target)
    case UnionType(_) => UnionReading(empties, t, 0)
    case ForeignType(kind, _) => if kind in empties then NoInput else NoMatch
  }

  /** The first alternative that matches decides. */
  function UnionReading(empties: set<string>, t: LeafType, i: nat): Reading
    requires t.UnionType? && i <= |t.members|
    decreases t, |t.members| - i
  {
    if i == |t.members| then NoMatch
    else
      var r := ReadingOf(empties, t.members[i]);
      if r.NoMatch? then UnionReading(empties, t, i + 1) else r
  }

  predicate IsReading(r: Reading, s: string, result: Option<(LeafData, string)>) {
    match r
    case AsString => result == ParseQuoted(s)
    case NoMatch => result.None?
    case NoInput => result.Some? && result.value.1 == s
  }

  lemma NoSymbolAtMark(table: set<string>, s: string, marks: set<char>)
    requires forall v :: v in table ==> !Begins(v, marks)
    requires Begins(s, marks)
    ensures LongestSymbol(table, s) == 0
  {
    var n := LongestSymbol(table, s);
    if n > 0 {
      FirstIsIn(s, n);
    }
  }

  /** Bits whose names are free of the first character read nothing. */
  lemma NoBitAtMark(table: set<string>, s: string, marks: set<char>)
    requires forall v :: v in table ==> !Begins(v, marks)
    requires Begins(s, marks) && !IsSpace(s[0])
    ensures BitsLoop(table, s) == ([], s)
  {
    NoSymbolAtMark(table, s, marks);
    assert s[..0] == "" && s[0..] == s;
  }

  /** The type alone decides how a quoted text is read. */
  lemma {:induction false} QuoteIsRead(foreign: ForeignParser, empties: set<string>, t: LeafType, s: string)
    requires IsFreeOf(t, QUOTES) && TakesNoQuotes(foreign, empties)
    requires ParseQuoted(s).Some?
    ensures IsReading(ReadingOf(empties, t), s, ParseLeaf(foreign, t, s))
    decreases t, if t.UnionType? then |t.members| + 1 else 0
  {
    match t
    case EnumType(allowed) => NoSymbolAtMark(allowed, s, QUOTES);
    case BitsType(allowed) => NoBitAtMark(allowed - {""}, s, QUOTES);
    case LeafRefType(target) => QuoteIsRead(foreign, empties, target, s);
    case UnionType(_) => UnionQuoteIsRead(foreign, empties, t, 0, s);
    case _ =>
  }

  lemma {:induction false} UnionQuoteIsRead(foreign: ForeignParser, empties: set<string>, t: LeafType, i: nat,
                                            s: string)
    requires t.UnionType? && i <= |t.members|
    requires IsFreeOf(t, QUOTES) && TakesNoQuotes(foreign, empties)
    requires ParseQuoted(s).Some?
    ensures IsReading(UnionReading(empties, t, i), s, ParseUnion(foreign, t, i, s))
    decreases t, |t.members| - i
  {
    if i < |t.members| {
      QuoteIsRead(foreign, empties, t.members[i], s);
      UnionQuoteIsRead(foreign, empties, t, i + 1, s);
    }
  }

  // ---- printed keys ----

  /** A list whose keys are identifiers with leaves of any type, none with a name that starts with a
      quote. */
  predicate HasQuoteFreeKeys(spec: ListSpec) {
    forall k :: k in spec.needed ==> IsIdentifier(k) && k in spec.types && IsFreeOf(spec.types[k], QUOTES)
  }

  /** A text between quotes is read up to the first such quote, in it or behind it. */
  lemma QuotedIsCut(q: char, text: string, tail: string)
    requires q in QUOTES
    ensures var r := ParseQuoted([q] + text + [q] + tail);
            && r.Some? && r.value.0.Str?
            && if q in text then |r.value.0.text| < |text| else r == Some((Str(text), tail))
  {
    if q in text {
      var n := Find(text, q);
      assert text == text[..n] + [q] + text[n + 1..];
      var rest := text[n + 1..] + [q] + tail;
      assert [q] + text + [q] + tail == [q] + text[..n] + [q] + rest;
      QuotedWith(q, text[..n], rest);
    } else {
      QuotedWith(q, text, tail);
    }
  }

  lemma QuotedReading(foreign: ForeignParser, empties: set<string>, t: LeafType, q: char, text: string, tail: string)
    requires IsFreeOf(t, QUOTES) && TakesNoQuotes(foreign, empties) && q in QUOTES
    ensures var s := [q] + text + [q] + tail;
            s[0] == q && IsReading(ReadingOf(empties, t), s, ParseLeaf(foreign, t, s))
  {
    QuotedIsCut(q, text, tail);
    QuoteIsRead(foreign, empties, t, [q] + text + [q] + tail);
  }

  lemma WrittenBody(t: KeyText, after: string)
    requires IsIdentifier(t.key)
    ensures var s := "[" + t.key + "=" + ([t.quote] + t.text + [t.quote] + "]" + after);
            && s != "" && s[0] == '[' && s[1..] == (t.key + "=") + ([t.quote] + t.text + [t.quote] + ("]" + after))
            && IdentifierRun(s[1..]) == |t.key| && IsIdentifierStart(s[1..][0])
            && s[1..][..|t.key|] == t.key && s[1..][|t.key|] == '='
            && s[1..][|t.key| + 1..] == [t.quote] + t.text + [t.quote] + ("]" + after)
  {
    var value := [t.quote] + t.text + [t.quote] + ("]" + after);
    var body := (t.key + "=") + value;
    assert "[" + t.key + "=" + ([t.quote] + t.text + [t.quote] + "]" + after) == "[" + body;
    assert forall i :: 0 <= i < |t.key| ==> body[i] == t.key[i];
    assert body[|t.key|] == '=';
  }

  /** The key is refused, or pending with a value shorter than what was written. */
  predicate Loses(r: LoopResult, t: KeyText) {
    r.Done? ==> t.key in r.pending && r.pending[t.key].Str? && |r.pending[t.key].text| < |t.text|
  }

  /** A key whose type does not read quoted texts as strings, or whose text holds the quote around it. */
  predicate IsLost(empties: set<string>, spec: ListSpec, t: KeyText)
    requires t.key in spec.types
  {
    t.quote in t.text || !ReadingOf(empties, spec.types[t.key]).AsString?
  }

  lemma {:induction false} PendingIsKept(foreign: ForeignParser, spec: ListSpec, pending: ListInstance, s: string)
    ensures var r := KeyLoop(foreign, spec, pending, s);
            r.Done? ==> forall k :: k in pending ==> k in r.pending && r.pending[k] == pending[k]
    decreases |s|
  {
    hide ReadKeyValue;
    if s != "" && s[0] == '[' && ReadKeyValue(foreign, spec, s[1..]).Some? {
      var (k, v, rest) := ReadKeyValue(foreign, spec, s[1..]).value;
      if k !in pending && rest != "" {
        PendingIsKept(foreign, spec, pending[k := v], rest[1..]);
      }
    }
  }

  lemma LostKeyIsLost(foreign: ForeignParser, empties: set<string>, spec: ListSpec, pending: ListInstance,
                      t: KeyText, after: string)
    requires HasQuoteFreeKeys(spec) && TakesNoQuotes(foreign, empties)
    requires t.key in spec.needed && t.quote in QUOTES && IsLost(empties, spec, t)
    ensures var s := "[" + t.key + "=" + ([t.quote] + t.text + [t.quote] + "]" + after);
            Loses(KeyLoop(foreign, spec, pending, s), t)
  {
    var value := [t.quote] + t.text + [t.quote] + ("]" + after);
    var s := "[" + t.key + "=" + ([t.quote] + t.text + [t.quote] + "]" + after);
    var leaf := spec.types[t.key];
    QuotedReading(foreign, empties, leaf, t.quote, t.text, "]" + after);
    QuotedIsCut(t.quote, t.text, "]" + after);
    WrittenBody(t, after);
    hide ParseLeaf, ReadingOf, ParseQuoted, IdentifierRun, IsIdentifierStart, HasQuoteFreeKeys, TakesNoQuotes;
    hide IsIdentifier;
    var r := ParseLeaf(foreign, leaf, value);
    assert ReadKeyValue(foreign, spec, s[1..]) == if r.None? then None else Some((t.key, r.value.0, r.value.1));
    if r.Some? && r.value.1 != "" {
      PendingIsKept(foreign, spec, pending[t.key := r.value.0], r.value.1[1..]);
    }
  }

  lemma {:induction false} SomeKeyIsLost(foreign: ForeignParser, empties: set<string>, spec: ListSpec,
                                         pending: ListInstance, ts: seq<KeyText>, rest: string)
    requires HasQuoteFreeKeys(spec) && TakesNoQuotes(foreign, empties)
    requires forall t :: t in ts ==> t.key in spec.needed && t.quote in QUOTES
    requires exists t :: t in ts && IsLost(empties, spec, t)
    ensures exists t :: t in ts && Loses(KeyLoop(foreign, spec, pending, Written(ts) + rest), t)
    decreases |ts|
  {
    var t, more := ts[0], ts[1..];
    assert t in ts && ts == [t] + more;
    var head, value := "[" + t.key + "=", [t.quote] + t.text + [t.quote] + "]";
    WrittenAlgebra(head, value, Written(more), rest);
    hide HasQuoteFreeKeys, TakesNoQuotes, ReadingOf, KeyLoop;
    if IsLost(empties, spec, t) {
      LostKeyIsLost(foreign, empties, spec, pending, t, Written(more) + rest);
    } else {
      StringKeyGoesOn(foreign, empties, spec, pending, t, Written(more) + rest);
      SomeKeyIsLost(foreign, empties, spec, pending[t.key := Str(t.text)], more, rest);
    }
  }

  lemma StringKeyGoesOn(foreign: ForeignParser, empties: set<string>, spec: ListSpec, pending: ListInstance,
                        t: KeyText, after: string)
    requires HasQuoteFreeKeys(spec) && TakesNoQuotes(foreign, empties) && t.key in spec.needed && IsWritable(t)
    requires ReadingOf(empties, spec.types[t.key]).AsString?
    ensures var s := "[" + t.key + "=" + ([t.quote] + t.text + [t.quote] + "]" + after);
            KeyLoop(foreign, spec, pending, s) == Abort
            || KeyLoop(foreign, spec, pending, s) == KeyLoop(foreign, spec, pending[t.key := Str(t.text)], after)
  {
    ReadingIsRead(foreign, empties, spec.types[t.key]);
    var e, s := Entry(t.key, Str(t.text)), "[" + t.key + "=" + ([t.quote] + t.text + [t.quote] + "]" + after);
    WrittenEntry(foreign, spec, t, after);
    if t.key !in pending {
      LoopStep(foreign, spec, pending, e, s);
    } else {
      EntryIsReadKeyValue(foreign, spec, e, s);
    }
  }

  lemma ReadingIsRead(foreign: ForeignParser, empties: set<string>, t: LeafType)
    requires IsFreeOf(t, QUOTES) && TakesNoQuotes(foreign, empties) && ReadingOf(empties, t).AsString?
    ensures QuotesAreRead(foreign, t)
  {
    forall q: char, text: string, tail: string | q in {'\'', '"'} && q !in text
      ensures ParseLeaf(foreign, t, [q] + text + [q] + tail) == Some((Str(text), tail))
    {
      QuotedReading(foreign, empties, t, q, text, tail);
      QuotedIsCut(q, text, tail);
    }
  }

  /** The keys of an element, as printed. */
  ghost function PrintedKeys(keys: ListInstance): string {
    Written(KeyTextsOf(SortedKeys(keys.Keys), keys))
  }

  /** Printed keys are read back exactly when every value is a string without both kinds of quotes,
      and every key has a type that reads a quoted text as a string, such as string, a leafref to it,
      or a union that comes to it before any alternative that matches everything. */
  lemma KeysReadBackIff(foreign: ForeignParser, empties: set<string>, spec: ListSpec, keys: ListInstance, rest: string)
    requires HasQuoteFreeKeys(spec) && TakesNoQuotes(foreign, empties) && keys.Keys == spec.needed
    requires rest == "" || rest[0] != '['
    ensures ParseListSuffix(foreign, spec, map[], PrintedKeys(keys) + rest) == Accepted(keys, rest)
       <==> forall k :: k in spec.needed ==> IsPrintableValue(keys[k]) && ReadingOf(empties, spec.types[k]).AsString?
  {
    hide Written, ParseListSuffix, IsFreeOf, ReadingOf, HoldsBothQuotes, LeafDataToString;
    if k :| k in spec.needed
            && (HoldsBothQuotes(LeafDataToString(keys[k])) || !ReadingOf(empties, spec.types[k]).AsString?) {
      LostKeyIsNotReadBack(foreign, empties, spec, keys, k, rest);
      assert IsPrintableValue(keys[k]) ==> LeafDataToString(keys[k]) == keys[k].text by { StringIsItsText(keys[k]); }
    } else {
      forall k | k in spec.needed
        ensures QuotesAreRead(foreign, spec.types[k])
      {
        ReadingIsRead(foreign, empties, spec.types[k]);
      }
      ReadKeysAreStrings(foreign, spec, keys, rest);
      forall k | k in spec.needed
        ensures IsPrintableValue(keys[k]) <==> keys[k].Str?
      {
        StringIsItsText(keys[k]);
      }
    }
  }

  lemma StringIsItsText(v: LeafData)
    ensures v.Str? ==> LeafDataToString(v) == v.text
  {
  }

  lemma LostKeyIsNotReadBack(foreign: ForeignParser, empties: set<string>, spec: ListSpec, keys: ListInstance,
                             k: string, rest: string)
    requires HasQuoteFreeKeys(spec) && TakesNoQuotes(foreign, empties) && keys.Keys == spec.needed
    requires k in spec.needed
    requires HoldsBothQuotes(LeafDataToString(keys[k])) || !ReadingOf(empties, spec.types[k]).AsString?
    ensures ParseListSuffix(foreign, spec, map[], PrintedKeys(keys) + rest) != Accepted(keys, rest)
  {
    PrintedTextsAre(keys);
    StringIsItsText(keys[k]);
    hide Written, ReadingOf, KeyLoop, HasQuoteFreeKeys, TakesNoQuotes, LeafDataToString, HoldsBothQuotes, KeyTextsOf;
    var ts := KeyTextsOf(SortedKeys(keys.Keys), keys);
    var lost :| lost in ts && lost.key == k;
    assert IsLost(empties, spec, lost);
    SomeKeyIsLost(foreign, empties, spec, map[], ts, rest);
    var t :| t in ts && Loses(KeyLoop(foreign, spec, map[], Written(ts) + rest), t);
    StringIsItsText(keys[t.key]);
  }

  /** The printed keys are those of the instance, each with its text; the quote around a text is in it
      only when both kinds are. */
  lemma PrintedTextsAre(keys: ListInstance)
    ensures forall t :: t in KeyTextsOf(SortedKeys(keys.Keys), keys) ==>
              && t.key in keys && t.text == LeafDataToString(keys[t.key])
              && t.quote in QUOTES && (t.quote in t.text <==> HoldsBothQuotes(t.text))
    ensures forall k :: k in keys ==> exists t :: t in KeyTextsOf(SortedKeys(keys.Keys), keys) && t.key == k
  {
    var order := SortedKeys(keys.Keys);
    var ts := KeyTextsOf(order, keys);
    hide LeafDataToString;
    forall t | t in ts
      ensures t.key in keys && t.text == LeafDataToString(keys[t.key])
      ensures t.quote in QUOTES && (t.quote in t.text <==> HoldsBothQuotes(t.text))
    {
      var n :| 0 <= n < |ts| && ts[n] == t;
      assert order[n] in keys;
    }
    forall k | k in keys
      ensures exists t :: t in ts && t.key == k
    {
      var n :| 0 <= n < |order| && order[n] == k;
      assert ts[n] in ts;
    }
  }

  /** Values for all keys, which printing can quote. */
  predicate HasQuotableValues(spec: ListSpec, keys: ListInstance) {
    keys.Keys == spec.needed && forall k :: k in keys ==> !HoldsBothQuotes(LeafDataToString(keys[k]))
  }

  /** Where quoted texts are read, the printed keys are read as the strings they print. */
  lemma ReadKeysAreStrings(foreign: ForeignParser, spec: ListSpec, keys: ListInstance, rest: string)
    requires ReadsQuotedKeys(foreign, spec) && HasQuotableValues(spec, keys)
    requires rest == "" || rest[0] != '['
    ensures ParseListSuffix(foreign, spec, map[], PrintedKeys(keys) + rest) == Accepted(keys, rest)
       <==> forall k :: k in spec.needed ==> keys[k].Str?
  {
    var texts: ListInstance := map k | k in keys :: Str(LeafDataToString(keys[k]));
    SameTexts(keys, texts);
    hide ParseListSuffix, ReadsQuotedKeys, Written, LeafDataToString;
    KeysRoundTrip(foreign, spec, texts, rest);
    if forall k :: k in spec.needed ==> keys[k].Str? {
      assert texts == keys by { StringsAreTexts(keys, texts); }
    } else {
      var k :| k in spec.needed && !keys[k].Str?;
      assert texts[k] != keys[k];
    }
  }

  lemma SameTexts(keys: ListInstance, texts: ListInstance)
    requires texts.Keys == keys.Keys && forall k :: k in keys ==> texts[k] == Str(LeafDataToString(keys[k]))
    ensures PrintedKeys(texts) == PrintedKeys(keys)
  {
    var order := SortedKeys(keys.Keys);
    assert KeyTextsOf(order, texts) == KeyTextsOf(order, keys);
  }

  lemma StringsAreTexts(keys: ListInstance, texts: ListInstance)
    requires texts.Keys == keys.Keys && forall k :: k in keys ==> texts[k] == Str(LeafDataToString(keys[k]))
    requires forall k :: k in keys ==> keys[k].Str?
    ensures texts == keys
  {
  }

  // ---- printed leaf-list elements ----

  const DOT := {'.'}

  /** No bit starts with a dot; bits are identifiers (section 14 of RFC 7950). */
  predicate HasDotFreeBits(t: LeafType) {
    match t
    case BitsType(allowed) => forall v :: v in allowed ==> !Begins(v, DOT)
    case UnionType(members) => forall m :: m in members ==> HasDotFreeBits(m)
    case LeafRefType(target) => HasDotFreeBits(target)
    case _ => true
  }

  /** The parsers that are not modelled take nothing of a text that starts with ".=", whether they
      match it or not. */
  ghost predicate TakesNoDots(foreign: ForeignParser) {
    forall kind: string, s: string :: ".=" <= s ==>
      match foreign(kind, s)
      case None => true
      case Some((_, n)) => n == 0
  }

  /** Not read, or nothing taken, or an enumeration value with some of the text. */
  predicate IsDotReading(t: LeafType, s: string, result: Option<(LeafData, string)>) {
    result.Some? && result.value.1 != s ==>
      && !IsFreeOf(t, DOT)
      && result.value.0.Enum?
      && s == result.value.0.name + result.value.1
  }

  lemma {:induction false} DotIsRead(foreign: ForeignParser, t: LeafType, s: string)
    requires HasDotFreeBits(t) && TakesNoDots(foreign) && ".=" <= s
    ensures IsDotReading(t, s, ParseLeaf(foreign, t, s))
    decreases t, if t.UnionType? then |t.members| + 1 else 0
  {
    assert s[0] == '.';
    match t
    case EnumType(allowed) =>
      if forall v :: v in allowed ==> !Begins(v, DOT) {
        NoSymbolAtMark(allowed, s, DOT);
      }
    case BitsType(allowed) => NoBitAtMark(allowed - {""}, s, DOT);
    case LeafRefType(target) => DotIsRead(foreign, target, s);
    case UnionType(_) => UnionDotIsRead(foreign, t, 0, s);
    case _ =>
  }

  lemma {:induction false} UnionDotIsRead(foreign: ForeignParser, t: LeafType, i: nat, s: string)
    requires t.UnionType? && i <= |t.members|
    requires HasDotFreeBits(t) && TakesNoDots(foreign) && ".=" <= s
    ensures IsDotReading(t, s, ParseUnion(foreign, t, i, s))
    decreases t, |t.members| - i
  {
    if i < |t.members| {
      DotIsRead(foreign, t.members[i], s);
      UnionDotIsRead(foreign, t, i + 1, s);
    }
  }

  /** The printed form of an element of a leaf-list is never read back, whatever its type and its
      value, and not read at all when no value of an enumeration starts with a dot. */
  lemma LeafListElementIsNotReadBack(env: Env, cur: seq<DataNode>, n: DataNode, t: LeafType, rest: string)
    requires IsTree(env.index) && Location(cur) in env.index && n.suffix.LeafListElement? && IsOffered(env, cur, n)
    requires LeafTypeAt(env.index, cur, NodePair(n.prefix, n.suffix.name)) == Some(t)
    requires HasDotFreeBits(t) && TakesNoDots(env.foreign)
    ensures var r := ParseNode(env, cur, NodeText(n) + rest);
            && !(r.NodeMatch? && r.node == n && r.rest == rest)
            && (IsFreeOf(t, DOT) ==> r == NodeFail)
  {
    hide ParseNode, ParseElement, Table, NodeText, SymbolOf, IsOffered, IsFreeOf, HasDotFreeBits, TakesNoDots;
    hide Blank, Location, LeafTypeAt, IsTree, EscapeListKeyString, LeafDataToString;
    OfferedHasSymbol(env, cur, n);
    BlankLeafList(n);
    TableNeedsLocation(env, cur);
    var after := "[.=" + EscapeListKeyString(LeafDataToString(n.suffix.value)) + "]" + rest;
    LeafListText(n, rest);
    DotElement(env, cur, Blank(n), t, n.suffix.value, rest);
    ElementOfSymbol(env, cur, SymbolOf(n), after);
  }

  /** A leaf-list element that is read has an enumeration value longer than the one that was printed. */
  lemma DotElement(env: Env, cur: seq<DataNode>, attr: DataNode, t: LeafType, v: LeafData, rest: string)
    requires attr.suffix.LeafListElement?
    requires LeafTypeAt(env.index, cur, NodePair(attr.prefix, attr.suffix.name)) == Some(t)
    requires HasDotFreeBits(t) && TakesNoDots(env.foreign)
    ensures var r := ParseElement(env, cur, attr, "[.=" + EscapeListKeyString(LeafDataToString(v)) + "]" + rest);
            && !r.ElementThrow?
            && (r.Element? && r.rest == rest ==> r.node.suffix.LeafListElement? && r.node.suffix.value != v)
            && (IsFreeOf(t, DOT) ==> r == ElementFail)
  {
    var text := LeafDataToString(v);
    var s := ".=" + EscapeListKeyString(text) + "]" + rest;
    assert "[.=" + EscapeListKeyString(text) + "]" + rest == "[" + s;
    assert ("[" + s)[1..] == s;
    assert |EscapeListKeyString(text)| == |text| + 2;
    DotIsRead(env.foreign, t, s);
    hide ParseLeaf, IsFreeOf, HasDotFreeBits, TakesNoDots, LeafTypeAt, EscapeListKeyString;
  }

  lemma ElementOfSymbol(env: Env, cur: seq<DataNode>, symbol: string, after: string)
    requires IsTree(env.index) && Table(env, cur).Some? && symbol in Table(env, cur).value
    requires after != "" && after[0] == '['
    ensures var e := ParseElement(env, cur, Table(env, cur).value[symbol], after);
            var r := ParseNode(env, cur, symbol + after);
            && (e.ElementFail? ==> r == NodeFail)
            && (r.NodeMatch? ==> e == Element(r.node, r.rest))
  {
    SymbolsAreText(env, cur, symbol);
    hide ParseElement, Table, IsTree;
    SymbolIsFound(env, cur, symbol, after);
    assert (symbol + after)[..|symbol|] == symbol && (symbol + after)[|symbol|..] == after;
  }

  lemma BlankLeafList(n: DataNode)
    requires n.suffix.LeafListElement?
    ensures Blank(n).suffix.LeafListElement? && Blank(n).prefix == n.prefix && Blank(n).suffix.name == n.suffix.name
  {
  }

  lemma LeafListText(n: DataNode, rest: string)
    requires n.suffix.LeafListElement?
    ensures NodeText(n) + rest
         == SymbolOf(n) + ("[.=" + EscapeListKeyString(LeafDataToString(n.suffix.value)) + "]" + rest)
  {
    var prefix, name := WrittenPrefix(None, n.prefix, WhenNeeded), n.suffix.name;
    var value := EscapeListKeyString(LeafDataToString(n.suffix.value));
    assert prefix + (name + "[.=" + value + "]") == (prefix + name) + ("[.=" + value + "]");
    ConcatAssociative(prefix + name, "[.=" + value + "]", rest);
  }
}
