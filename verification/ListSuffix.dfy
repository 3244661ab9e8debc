/** The key suffix of a list element, [k1=v1][k2=v2]..., as src/path_parser.hpp:53-73 and the
    handlers of src/ast_handlers.hpp:31-118 read it. */
module ListSuffix {
  import opened Wrappers
  import opened Text
  import opened AstPath
  import opened PathPrinter
  import opened LeafParsers
  import opened StaticSchema

  /** What the schema says about a list: its keys, and the types of those whose leaf can be looked up. */
  datatype ListSpec = ListSpec(needed: set<string>, types: map<string, LeafType>)

  /** None when listKeys itself throws. A key leaf is looked up under the module written for its list. */
  function SpecOf(index: Index, listPath: seq<DataNode>): Option<ListSpec>
    requires listPath != []
  {
    match ListKeys(index, listPath)
    case None => None
    case Some(needed) =>
      var mod := listPath[|listPath| - 1].prefix;
      Some(ListSpec(needed, map k | k in needed && LeafTypeAt(index, listPath, NodePair(mod, k)).Some? ::
                              LeafTypeAt(index, listPath, NodePair(mod, k)).value))
  }

  /** The keys of a list are as the schema says, and the leaf of a key is the child of the list that has
      the list's own module, whether the list was written with its module or without. */
  lemma SpecOfChild(index: Index, location: seq<DataNode>, child: string, n: DataNode)
    requires IsTree(index) && IsSchemaPath(location)
    requires IsChild(index, Location(location), child) && index[Location(location)][child].kind.ListKind?
    requires IsSchemaNode(n) && SpellsChild(location, n, child)
    ensures var keys, at := index[Location(location)][child].kind.keys, JoinPaths(Location(location), child);
            var spec := SpecOf(index, location + [n]);
            && spec.Some? && spec.value.needed == keys
            && forall k :: k in keys && IsChild(index, at, ModuleOf(child) + ":" + k)
                           && index[at][ModuleOf(child) + ":" + k].kind.LeafKind? ==>
                 && k in spec.value.types
                 && spec.value.types[k] == index[at][ModuleOf(child) + ":" + k].kind.leafType
  {
    ListKeysOfChild(index, location, child, n);
    KeyNames(location, child, n);
    assert (location + [n])[|location + [n]| - 1] == n;
    hide Location, JoinPaths, ListKeys, IsTree, IsSchemaPath, IsSchemaNode, SpellsChild, SpecOf, LeafTypeAt, ModuleOf;
    var keys, at := index[Location(location)][child].kind.keys, JoinPaths(Location(location), child);
    SpecContents(index, location + [n]);
    forall k | k in keys && IsChild(index, at, ModuleOf(child) + ":" + k)
               && index[at][ModuleOf(child) + ":" + k].kind.LeafKind?
      ensures LeafTypeAt(index, location + [n], NodePair(n.prefix, k))
           == Some(index[at][ModuleOf(child) + ":" + k].kind.leafType)
    {
      LeafIsFound(index, location + [n], NodePair(n.prefix, k), ModuleOf(child) + ":" + k);
    }
  }

  lemma SpecContents(index: Index, listPath: seq<DataNode>)
    requires listPath != [] && ListKeys(index, listPath).Some?
    ensures var mod, spec := listPath[|listPath| - 1].prefix, SpecOf(index, listPath);
            && spec.Some? && spec.value.needed == ListKeys(index, listPath).value
            && forall k :: k in spec.value.needed && LeafTypeAt(index, listPath, NodePair(mod, k)).Some? ==>
                 k in spec.value.types && spec.value.types[k] == LeafTypeAt(index, listPath, NodePair(mod, k)).value
  {
    hide LeafTypeAt, ListKeys;
  }

  lemma LeafIsFound(index: Index, location: seq<DataNode>, node: NodePair, full: string)
    requires FullNodeName(location, node) == Some(full)
    requires IsChild(index, Location(location), full) && index[Location(location)][full].kind.LeafKind?
    ensures LeafTypeAt(index, location, node) == Some(index[Location(location)][full].kind.leafType)
  {
    hide FullNodeName, Location;
  }

  lemma KeyNames(location: seq<DataNode>, child: string, n: DataNode)
    requires SpellsChild(location, n, child) && IsSchemaNode(n) && IsQualified(child)
    ensures forall k :: FullNodeName(location + [n], NodePair(n.prefix, k)) == Some(ModuleOf(child) + ":" + k)
  {
    QualifiedNameParts(if n.prefix.Some? then n.prefix.value else FirstPrefix(location).value, n.suffix.name);
    assert location != [] ==> (location + [n])[0] == location[0];
  }

  // ---- the parser ----

  /** Accepted carries the keys of this element; Rejected is a failed match, which leaves the keys
      read so far pending; Aborted is a failed expectation (or an exception), which ends the command. */
  datatype SuffixResult =
    | Accepted(keys: ListInstance, rest: string)
    | Rejected(pending: ListInstance)
    | Aborted

  datatype LoopResult = Done(pending: ListInstance, rest: string) | Abort

  /** key_identifier > '=' > leaf_data, with the check of key_identifier_class. */
  function ReadKeyValue(foreign: ForeignParser, spec: ListSpec, s: string): (r: Option<(string, LeafData, string)>)
    ensures r.Some? ==> |r.value.2| < |s|
  {
    var n := IdentifierRun(s);
    if n == 0 || !IsIdentifierStart(s[0]) || s[..n] !in spec.needed then None
    else if n == |s| || s[n] != '=' || s[..n] !in spec.types then None
    else
      match ParseLeaf(foreign, spec.types[s[..n]], s[n + 1..])
      case None => None
      case Some((v, rest)) => Some((s[..n], v, rest))
  }

  /** *keyValueWrapper: after an opening bracket everything is expected. A key that is already
      pending is refused by keyValue_class. */
  function KeyLoop(foreign: ForeignParser, spec: ListSpec, pending: ListInstance, s: string): LoopResult
    decreases |s|
  {
    if s == "" || s[0] != '[' then Done(pending, s)
    else
      match ReadKeyValue(foreign, spec, s[1..])
      case None => Abort
      case Some((k, v, rest)) =>
        if k in pending || rest == "" || rest[0] != ']' then Abort
        else KeyLoop(foreign, spec, pending[k := v], rest[1..])
  }

  /** listSuffix_class: the keys read here must be exactly the list's keys. */
  function SuffixOf(spec: ListSpec, pending: ListInstance, loop: LoopResult): SuffixResult {
    match loop
    case Abort => Aborted
    case Done(all, rest) =>
      var keys := all - pending.Keys;
      if keys.Keys == spec.needed then Accepted(keys, rest) else Rejected(all)
  }

  /** listSuffix */
  function ParseListSuffix(foreign: ForeignParser, spec: ListSpec, pending: ListInstance, s: string): SuffixResult {
    SuffixOf(spec, pending, KeyLoop(foreign, spec, pending, s))
  }

  lemma {:induction false} KeyLoopShrinks(foreign: ForeignParser, spec: ListSpec, pending: ListInstance, s: string)
    ensures var r := KeyLoop(foreign, spec, pending, s); r.Done? ==> |r.rest| <= |s|
    decreases |s|
  {
    if s != "" && s[0] == '[' {
      var kv := ReadKeyValue(foreign, spec, s[1..]);
      if kv.Some? && kv.value.2 != "" {
        KeyLoopShrinks(foreign, spec, pending[kv.value.0 := kv.value.1], kv.value.2[1..]);
      }
    }
  }

  // ---- the language it accepts ----

  datatype Entry = Entry(key: string, value: LeafData)

  /** s starts with the entry, written [key=value], for a value of the key's type. */
  predicate HasEntry(foreign: ForeignParser, spec: ListSpec, e: Entry, s: string) {
    && IsIdentifier(e.key) && e.key in spec.needed && e.key in spec.types
    && "[" + e.key + "=" <= s
    && var r := ParseLeaf(foreign, spec.types[e.key], s[|e.key| + 2..]);
       r.Some? && r.value.0 == e.value && r.value.1 != "" && r.value.1[0] == ']'
  }

  function AfterEntry(foreign: ForeignParser, spec: ListSpec, e: Entry, s: string): (r: string)
    requires HasEntry(foreign, spec, e, s)
    ensures |r| < |s|
  {
    ParseLeaf(foreign, spec.types[e.key], s[|e.key| + 2..]).value.1[1..]
  }

  /** s is the entries, one after another, and then rest. */
  predicate LeadsTo(foreign: ForeignParser, spec: ListSpec, es: seq<Entry>, s: string, rest: string)
    decreases |es|
  {
    if es == [] then s == rest
    else
      && HasEntry(foreign, spec, es[0], s)
      && LeadsTo(foreign, spec, es[1..], AfterEntry(foreign, spec, es[0], s), rest)
  }

  /** The same, with a rest that opens no further entry. */
  predicate Reads(foreign: ForeignParser, spec: ListSpec, es: seq<Entry>, s: string, rest: string) {
    LeadsTo(foreign, spec, es, s, rest) && (rest == "" || rest[0] != '[')
  }

  predicate DistinctKeys(es: seq<Entry>) {
    forall i, j :: 0 <= i < j < |es| ==> es[i].key != es[j].key
  }

  function KeySet(es: seq<Entry>): set<string> {
    set e | e in es :: e.key
  }

  function ToMap(es: seq<Entry>): (m: ListInstance)
    ensures m.Keys == KeySet(es)
  {
    if es == [] then map[]
    else
      var rest := ToMap(es[1..]);
      assert es == [es[0]] + es[1..];
      rest[es[0].key := es[0].value]
  }

  predicate IsFresh(es: seq<Entry>, pending: ListInstance) {
    forall e :: e in es ==> e.key !in pending
  }

  /** Reading one key-value pair is reading one entry. */
  lemma ReadKeyValueIsEntry(foreign: ForeignParser, spec: ListSpec, s: string)
    requires s != "" && s[0] == '['
    ensures var r := ReadKeyValue(foreign, spec, s[1..]);
            r.Some? && r.value.2 != "" && r.value.2[0] == ']' ==>
              && HasEntry(foreign, spec, Entry(r.value.0, r.value.1), s)
              && AfterEntry(foreign, spec, Entry(r.value.0, r.value.1), s) == r.value.2[1..]
  {
    var body := s[1..];
    var n := IdentifierRun(body);
    if n < |body| {
      BodyOfEntry(s, n);
      assert n > 0 ==> body[..n][0] == body[0];
      hide ParseLeaf, IdentifierRun;
    }
  }

  lemma BodyOfEntry(s: string, n: nat)
    requires s != "" && s[0] == '[' && n < |s[1..]|
    ensures s[n + 2..] == s[1..][n + 1..]
    ensures s[1..][n] == '=' ==> "[" + s[1..][..n] + "=" == s[..n + 2]
  {
    var body := s[1..];
    assert "[" + body[..n] == s[..n + 1];
    assert body[n] == '=' ==> s[..n + 1] + "=" == s[..n + 2];
  }

  lemma EntryIsReadKeyValue(foreign: ForeignParser, spec: ListSpec, e: Entry, s: string)
    requires HasEntry(foreign, spec, e, s)
    ensures s[0] == '['
    ensures ReadKeyValue(foreign, spec, s[1..])
         == Some((e.key, e.value, ParseLeaf(foreign, spec.types[e.key], s[|e.key| + 2..]).value.1))
  {
    var head, body, n := "[" + e.key + "=", s[1..], |e.key|;
    assert s == head + s[n + 2..];
    assert forall i :: 0 <= i < n ==> body[i] == e.key[i];
    assert body[n] == '=';
    assert IdentifierRun(body) == n;
    assert body[..n] == e.key;
    assert body[n + 1..] == s[n + 2..];
  }

  /** Adding one entry to the pending keys and then the others is adding them all. */
  lemma PendingStep(pending: ListInstance, e: Entry, more: seq<Entry>)
    requires forall x :: x in more ==> x.key != e.key
    ensures pending[e.key := e.value] + ToMap(more) == pending + ToMap([e] + more)
  {
    assert ([e] + more)[1..] == more;
    assert e.key !in KeySet(more);
    MapAlgebra(pending, e, ToMap(more));
  }

  lemma MapAlgebra(pending: ListInstance, e: Entry, m: ListInstance)
    requires e.key !in m
    ensures pending[e.key := e.value] + m == pending + m[e.key := e.value]
  {
  }

  lemma FreshFirst(pending: ListInstance, e: Entry, more: seq<Entry>)
    requires e.key !in pending && DistinctKeys(more) && IsFresh(more, pending[e.key := e.value])
    ensures DistinctKeys([e] + more) && IsFresh([e] + more, pending)
    ensures forall x :: x in more ==> x.key != e.key
  {
  }

  lemma {:induction false} LoopReadsEntries(foreign: ForeignParser, spec: ListSpec, pending: ListInstance, s: string)
    returns (es: seq<Entry>)
    requires KeyLoop(foreign, spec, pending, s).Done?
    ensures var r := KeyLoop(foreign, spec, pending, s);
            Reads(foreign, spec, es, s, r.rest) && r.pending == pending + ToMap(es)
    ensures DistinctKeys(es) && IsFresh(es, pending)
    decreases |s|
  {
    assert DistinctKeys([]) && IsFresh([], pending) && ToMap([]) == map[] && pending + map[] == pending;
    hide ReadKeyValue, HasEntry, AfterEntry, ParseLeaf, DistinctKeys, IsFresh, ToMap, KeySet;
    if s == "" || s[0] != '[' {
      es := [];
    } else {
      ReadKeyValueIsEntry(foreign, spec, s);
      var (k, v, rest) := ReadKeyValue(foreign, spec, s[1..]).value;
      var more := LoopReadsEntries(foreign, spec, pending[k := v], rest[1..]);
      es := [Entry(k, v)] + more;
      assert es[1..] == more;
      FreshFirst(pending, Entry(k, v), more);
      PendingStep(pending, Entry(k, v), more);
    }
  }

  lemma LoopStep(foreign: ForeignParser, spec: ListSpec, pending: ListInstance, e: Entry, s: string)
    requires HasEntry(foreign, spec, e, s) && e.key !in pending
    ensures KeyLoop(foreign, spec, pending, s)
         == KeyLoop(foreign, spec, pending[e.key := e.value], AfterEntry(foreign, spec, e, s))
  {
    EntryIsReadKeyValue(foreign, spec, e, s);
  }

  lemma {:induction false} EntriesDriveLoop(foreign: ForeignParser, spec: ListSpec, pending: ListInstance,
                                            es: seq<Entry>, s: string, rest: string)
    requires Reads(foreign, spec, es, s, rest)
    requires DistinctKeys(es) && IsFresh(es, pending)
    ensures KeyLoop(foreign, spec, pending, s) == Done(pending + ToMap(es), rest)
    decreases |es|
  {
    hide HasEntry, AfterEntry, DistinctKeys, IsFresh;
    if es == [] {
      assert pending + map[] == pending;
    } else {
      var e, more := es[0], es[1..];
      FirstIsFree(pending, es);
      LoopStep(foreign, spec, pending, e, s);
      assert es == [e] + more;
      PendingStep(pending, e, more);
      hide KeyLoop, ToMap;
      EntriesDriveLoop(foreign, spec, pending[e.key := e.value], more, AfterEntry(foreign, spec, e, s), rest);
    }
  }

  lemma FirstIsFree(pending: ListInstance, es: seq<Entry>)
    requires es != [] && DistinctKeys(es) && IsFresh(es, pending)
    ensures es[0].key !in pending && DistinctKeys(es[1..]) && IsFresh(es[1..], pending[es[0].key := es[0].value])
  {
  }

  /** s writes every key of the list once, none of them pending, and keys are the written values. */
  predicate WritesTheKeys(foreign: ForeignParser, spec: ListSpec, pending: ListInstance, es: seq<Entry>,
                          s: string, keys: ListInstance, rest: string) {
    && Reads(foreign, spec, es, s, rest) && DistinctKeys(es) && IsFresh(es, pending)
    && KeySet(es) == spec.needed && keys == ToMap(es)
  }

  /** The list suffix is accepted exactly when it writes every key of the list once, in any order,
      each with a value of its type and none still pending; the keys are then those written. */
  lemma SuffixAcceptsExactlyTheKeys(foreign: ForeignParser, spec: ListSpec, pending: ListInstance,
                                    s: string, keys: ListInstance, rest: string)
    ensures ParseListSuffix(foreign, spec, pending, s) == Accepted(keys, rest)
       <==> exists es :: WritesTheKeys(foreign, spec, pending, es, s, keys, rest)
  {
    if ParseListSuffix(foreign, spec, pending, s) == Accepted(keys, rest) {
      var es := LoopReadsEntries(foreign, spec, pending, s);
      FreshKeysRemain(pending, es);
      assert WritesTheKeys(foreign, spec, pending, es, s, keys, rest);
    }
    if es :| WritesTheKeys(foreign, spec, pending, es, s, keys, rest) {
      EntriesDriveLoop(foreign, spec, pending, es, s, rest);
      FreshKeysRemain(pending, es);
    }
  }

  /** What is read but does not give every key of the list is no match, and all of it stays pending. */
  lemma OtherKeysStayPending(foreign: ForeignParser, spec: ListSpec, pending: ListInstance, es: seq<Entry>,
                             s: string, rest: string)
    requires Reads(foreign, spec, es, s, rest) && DistinctKeys(es) && IsFresh(es, pending)
    requires KeySet(es) != spec.needed
    ensures ParseListSuffix(foreign, spec, pending, s) == Rejected(pending + ToMap(es))
  {
    EntriesDriveLoop(foreign, spec, pending, es, s, rest);
    FreshKeysRemain(pending, es);
  }

  lemma FreshKeysRemain(pending: ListInstance, es: seq<Entry>)
    requires IsFresh(es, pending)
    ensures (pending + ToMap(es)) - pending.Keys == ToMap(es)
  {
  }

  /** A key left pending by an earlier list that the next list also needs makes it unacceptable,
      which is why an accepted suffix must clear the pending keys. */
  lemma StaleKeyBlocksAcceptance(foreign: ForeignParser, spec: ListSpec, pending: ListInstance, s: string, k: string)
    requires k in pending && k in spec.needed
    ensures !ParseListSuffix(foreign, spec, pending, s).Accepted?
  {
    var r := KeyLoop(foreign, spec, pending, s);
    assert r.Done? ==> k !in (r.pending - pending.Keys).Keys;
  }

  /** Entries in another order give the same keys. */
  lemma {:induction false} ToMapLookup(es: seq<Entry>, e: Entry)
    requires DistinctKeys(es) && e in es
    ensures e.key in ToMap(es) && ToMap(es)[e.key] == e.value
    decreases |es|
  {
    assert es == [es[0]] + es[1..];
    if e != es[0] {
      ToMapLookup(es[1..], e);
    }
  }

  lemma OrderDoesNotMatter(es: seq<Entry>, es': seq<Entry>)
    requires DistinctKeys(es) && DistinctKeys(es')
    requires forall e :: e in es <==> e in es'
    ensures ToMap(es) == ToMap(es')
  {
    forall e | e in es
      ensures ToMap(es)[e.key] == ToMap(es')[e.key]
    {
      ToMapLookup(es, e);
      ToMapLookup(es', e);
    }
  }

  /** The keys of an instance as entries in a given order. */
  function Along(order: seq<string>, keys: ListInstance): (es: seq<Entry>)
    requires forall k :: k in order ==> k in keys
    ensures |es| == |order|
    ensures forall n :: 0 <= n < |order| ==> es[n] == Entry(order[n], keys[order[n]])
  {
    seq(|order|, n requires 0 <= n < |order| => Entry(order[n], keys[order[n]]))
  }

  lemma AlongHasKey(order: seq<string>, keys: ListInstance, k: string)
    requires (forall x :: x in order ==> x in keys) && k in order
    ensures Entry(k, keys[k]) in Along(order, keys)
  {
    var n :| 0 <= n < |order| && order[n] == k;
    assert Along(order, keys)[n] == Entry(k, keys[k]);
  }

  lemma AlongKeySet(order: seq<string>, keys: ListInstance)
    requires forall k :: k in order <==> k in keys
    ensures KeySet(Along(order, keys)) == keys.Keys
  {
    hide Along;
    forall k | k in keys
      ensures k in KeySet(Along(order, keys))
    {
      AlongHasKey(order, keys, k);
    }
  }

  lemma AlongGivesKeys(order: seq<string>, keys: ListInstance)
    requires NoDuplicates(order) && forall k :: k in order <==> k in keys
    ensures DistinctKeys(Along(order, keys))
    ensures ToMap(Along(order, keys)) == keys
  {
    var es := Along(order, keys);
    assert DistinctKeys(es);
    AlongKeySet(order, keys);
    hide ToMap, DistinctKeys, Along, NoDuplicates, KeySet;
    forall k | k in keys
      ensures ToMap(es)[k] == keys[k]
    {
      AlongHasKey(order, keys, k);
      ToMapLookup(es, Entry(k, keys[k]));
    }
  }

  // ---- string-typed keys ----

  predicate IsStringKey(spec: ListSpec, k: string) {
    IsIdentifier(k) && k in spec.needed && k in spec.types && ReadsStrings(spec.types[k])
  }

  /** Every key is an identifier with a leaf whose values are strings. */
  predicate IsStringKeyed(spec: ListSpec) {
    forall k :: k in spec.needed ==> IsStringKey(spec, k)
  }

  /** A key as typed: its text between two of either quote the text does not contain. */
  datatype KeyText = KeyText(key: string, text: string, quote: char)

  /** A key as it is printed. */
  function KeyTextOf(k: string, v: LeafData): KeyText {
    KeyText(k, LeafDataToString(v), QuoteFor(LeafDataToString(v)))
  }

  predicate IsWritable(t: KeyText) {
    t.quote in {'\'', '"'} && t.quote !in t.text
  }

  function Written(ts: seq<KeyText>): string {
    if ts == [] then ""
    else "[" + ts[0].key + "=" + ([ts[0].quote] + ts[0].text + [ts[0].quote] + "]" + Written(ts[1..]))
  }

  function EntriesOf(ts: seq<KeyText>): (es: seq<Entry>)
    ensures |es| == |ts|
    ensures forall i :: 0 <= i < |ts| ==> es[i] == Entry(ts[i].key, Str(ts[i].text))
  {
    seq(|ts|, i requires 0 <= i < |ts| => Entry(ts[i].key, Str(ts[i].text)))
  }

  /** A text in either quotes is read as that text. */
  ghost predicate QuotesAreRead(foreign: ForeignParser, t: LeafType) {
    forall q: char, text: string, tail: string :: q in {'\'', '"'} && q !in text ==>
      ParseLeaf(foreign, t, [q] + text + [q] + tail) == Some((Str(text), tail))
  }

  ghost predicate ReadsQuotedKeys(foreign: ForeignParser, spec: ListSpec) {
    forall k :: k in spec.needed ==> IsIdentifier(k) && k in spec.types && QuotesAreRead(foreign, spec.types[k])
  }

  lemma StringKeysAreRead(foreign: ForeignParser, spec: ListSpec)
    requires IsStringKeyed(spec)
    ensures ReadsQuotedKeys(foreign, spec)
  {
    forall k, q: char, text: string, tail: string | k in spec.needed && q in {'\'', '"'} && q !in text
      ensures ParseLeaf(foreign, spec.types[k], [q] + text + [q] + tail) == Some((Str(text), tail))
    {
      ReadsQuotedStrings(foreign, spec.types[k], [q] + text + [q] + tail);
      QuotedWith(q, text, tail);
    }
  }

  lemma WrittenEntry(foreign: ForeignParser, spec: ListSpec, t: KeyText, after: string)
    requires IsIdentifier(t.key) && t.key in spec.needed && t.key in spec.types
    requires QuotesAreRead(foreign, spec.types[t.key]) && IsWritable(t)
    ensures var s, e := "[" + t.key + "=" + ([t.quote] + t.text + [t.quote] + "]" + after), Entry(t.key, Str(t.text));
            HasEntry(foreign, spec, e, s) && AfterEntry(foreign, spec, e, s) == after
  {
    var head, value := "[" + t.key + "=", [t.quote] + t.text + [t.quote] + "]" + after;
    assert (head + value)[|t.key| + 2..] == value;
    assert head <= head + value;
    hide ParseLeaf;
    assert value == [t.quote] + t.text + [t.quote] + ("]" + after);
    assert ParseLeaf(foreign, spec.types[t.key], [t.quote] + t.text + [t.quote] + ("]" + after))
        == Some((Str(t.text), "]" + after));
    assert ("]" + after)[1..] == after;
  }

  lemma {:induction false} WrittenReads(foreign: ForeignParser, spec: ListSpec, ts: seq<KeyText>, rest: string)
    requires ReadsQuotedKeys(foreign, spec)
    requires forall t :: t in ts ==> t.key in spec.needed && IsWritable(t)
    requires rest == "" || rest[0] != '['
    ensures Reads(foreign, spec, EntriesOf(ts), Written(ts) + rest, rest)
    decreases |ts|
  {
    hide HasEntry, AfterEntry, ParseLeaf, QuotesAreRead;
    if ts == [] {
      assert "" + rest == rest;
    } else {
      var t, more := ts[0], ts[1..];
      WrittenEntry(foreign, spec, t, Written(more) + rest);
      WrittenReads(foreign, spec, more, rest);
      WrittenAlgebra("[" + t.key + "=", [t.quote] + t.text + [t.quote] + "]", Written(more), rest);
      assert EntriesOf(ts)[1..] == EntriesOf(more);
    }
  }

  lemma WrittenAlgebra(head: string, value: string, more: string, rest: string)
    ensures (head + (value + more)) + rest == head + (value + (more + rest))
  {
  }

  /** Whatever the order and the quotes, writing each key once, where quoted texts are read is accepted, and gives the
      written values. */
  lemma WrittenKeysAreAccepted(foreign: ForeignParser, spec: ListSpec, ts: seq<KeyText>, rest: string)
    requires ReadsQuotedKeys(foreign, spec)
    requires forall t :: t in ts ==> IsWritable(t)
    requires DistinctKeys(EntriesOf(ts)) && KeySet(EntriesOf(ts)) == spec.needed
    requires rest == "" || rest[0] != '['
    ensures ParseListSuffix(foreign, spec, map[], Written(ts) + rest) == Accepted(ToMap(EntriesOf(ts)), rest)
  {
    var es := EntriesOf(ts);
    forall t | t in ts
      ensures t.key in spec.needed
    {
      var i :| 0 <= i < |ts| && ts[i] == t;
      assert es[i].key in KeySet(es);
    }
    WrittenReads(foreign, spec, ts, rest);
    assert WritesTheKeys(foreign, spec, map[], es, Written(ts) + rest, ToMap(es), rest);
    SuffixAcceptsExactlyTheKeys(foreign, spec, map[], Written(ts) + rest, ToMap(es), rest);
  }

  lemma ReadValueIsPrintable(foreign: ForeignParser, spec: ListSpec, s: string)
    requires IsStringKeyed(spec)
    ensures var r := ReadKeyValue(foreign, spec, s); r.Some? ==> IsPrintableValue(r.value.1)
  {
    var n := IdentifierRun(s);
    if ReadKeyValue(foreign, spec, s).Some? {
      ReadsQuotedStrings(foreign, spec.types[s[..n]], s[n + 1..]);
      ParsedStringIsPrintable(s[n + 1..]);
    }
  }

  /** Accepted values of string keys are strings without both kinds of quotes. */
  lemma {:induction false} AcceptedValuesArePrintable(foreign: ForeignParser, spec: ListSpec, pending: ListInstance,
                                                      s: string)
    requires IsStringKeyed(spec)
    requires KeyLoop(foreign, spec, pending, s).Done?
    requires forall k :: k in pending ==> IsPrintableValue(pending[k])
    ensures forall k :: k in KeyLoop(foreign, spec, pending, s).pending ==>
              IsPrintableValue(KeyLoop(foreign, spec, pending, s).pending[k])
    decreases |s|
  {
    hide ReadKeyValue, HasEntry, AfterEntry, ParseLeaf, LongestSymbol, BitsLoop, IdentifierRun;
    if s != "" && s[0] == '[' {
      ReadValueIsPrintable(foreign, spec, s[1..]);
      var (k, v, rest) := ReadKeyValue(foreign, spec, s[1..]).value;
      AcceptedValuesArePrintable(foreign, spec, pending[k := v], rest[1..]);
    }
  }
}
