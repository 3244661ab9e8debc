/** What the user is offered while the keys of a list element are typed. The handlers suggest
    missing keys and stored values (src/ast_handlers.hpp:272-337), but the leaf parser that runs right
    after them may replace their suggestions (src/leaf_data.hpp:109-184). */
module KeyOffers {
  import opened Wrappers
  import opened Text
  import opened AstPath
  import opened LeafParsers
  import opened ListSuffix
  import opened KeyCompletion

  // ---- the suggestions of a parse ----

  /** createValueSuggestions_class, which only looks at stored instances (the query) when completing;
      None is an exception. */
  ghost function OfferedValues(query: Option<seq<ListInstance>>, pending: ListInstance, key: string,
                               before: set<string>)
    : Option<set<string>>
  {
    match query
    case None => Some(before)
    case Some(instances) => StoredValues(instances, pending, key)
  }

  /** keyValue: what is read, and what is suggested then. */
  ghost function KeyValueStep(foreign: ForeignParser, spec: ListSpec, query: Option<seq<ListInstance>>,
                              pending: ListInstance, s: string, before: set<string>)
    : (r: (Option<(string, LeafData, string)>, set<string>))
    ensures r.0.Some? ==> r.0 == ReadKeyValue(foreign, spec, s)
  {
    var n := IdentifierRun(s);
    if n == 0 || !IsIdentifierStart(s[0]) || s[..n] !in spec.needed || n == |s| || s[n] != '=' then (None, before)
    else
      match OfferedValues(query, pending, s[..n], before)
      case None => (None, before)
      case Some(offered) =>
        if s[..n] !in spec.types then (None, offered)
        else (ReadKeyValue(foreign, spec, s), LeafSuggestions(foreign, spec.types[s[..n]], s[n + 1..], offered))
  }

  /** The bracket loop: its result, and the suggestions it leaves. */
  ghost function CompletingLoop(foreign: ForeignParser, spec: ListSpec, query: Option<seq<ListInstance>>,
                                pending: ListInstance, s: string, before: set<string>): (LoopResult, set<string>)
    decreases |s|
  {
    if s == "" || s[0] != '[' then (Done(pending, s), before)
    else
      var (kv, after) := KeyValueStep(foreign, spec, query, pending, s[1..], KeySuggestions(spec.needed, pending));
      match kv
      case None => (Abort, after)
      case Some((k, v, rest)) =>
        if k in pending then (Abort, after)
        else
          var ended := {EndSuggestion(spec.needed, pending[k := v])};
          if rest == "" || rest[0] != ']' then (Abort, ended)
          else CompletingLoop(foreign, spec, query, pending[k := v], rest[1..], ended)
  }

  /** Every stored instance has the keys of its list, if stored instances are looked at. */
  predicate IsCompleteQuery(spec: ListSpec, query: Option<seq<ListInstance>>) {
    query.Some? ==> forall i :: i in query.value ==> spec.needed <= i.Keys
  }

  /** Completing reads what parsing reads. */
  lemma {:induction false} CompletingReadsTheSame(foreign: ForeignParser, spec: ListSpec,
                                                  query: Option<seq<ListInstance>>,
                                                  pending: ListInstance, s: string, before: set<string>)
    requires IsCompleteQuery(spec, query) && pending.Keys <= spec.needed
    ensures CompletingLoop(foreign, spec, query, pending, s, before).0 == KeyLoop(foreign, spec, pending, s)
    decreases |s|
  {
    hide EndSuggestion, KeySuggestions, StoredValues, ParseLeaf, LeafSuggestions;
    if s != "" && s[0] == '[' {
      var keys := KeySuggestions(spec.needed, pending);
      StepReadsTheSame(foreign, spec, query, pending, s[1..], keys);
      var kv := ReadKeyValue(foreign, spec, s[1..]);
      if kv.Some? {
        var (k, v, rest) := kv.value;
        KeyIsNeeded(foreign, spec, s[1..]);
        if k !in pending && rest != "" && rest[0] == ']' {
          CompletingReadsTheSame(foreign, spec, query, pending[k := v], rest[1..],
                                 {EndSuggestion(spec.needed, pending[k := v])});
        }
      }
    }
  }

  lemma KeyIsNeeded(foreign: ForeignParser, spec: ListSpec, s: string)
    requires ReadKeyValue(foreign, spec, s).Some?
    ensures ReadKeyValue(foreign, spec, s).value.0 in spec.needed
  {
  }

  lemma StepReadsTheSame(foreign: ForeignParser, spec: ListSpec, query: Option<seq<ListInstance>>,
                         pending: ListInstance, s: string, before: set<string>)
    requires IsCompleteQuery(spec, query) && pending.Keys <= spec.needed
    ensures KeyValueStep(foreign, spec, query, pending, s, before).0 == ReadKeyValue(foreign, spec, s)
  {
    hide StoredValues, ParseLeaf, LeafSuggestions;
    var n := IdentifierRun(s);
    if query.Some? && n > 0 && s[..n] in spec.needed {
      StoredValuesOfComplete(query.value, pending, s[..n]);
    }
  }

  // ---- what is offered at the end of a line ----

  /** The suggestions for a line that ends with s, inside the suffix of a list with these instances. */
  ghost function Offered(foreign: ForeignParser, spec: ListSpec, instances: seq<ListInstance>, s: string): set<string> {
    CompletingLoop(foreign, spec, Some(instances), map[], s, {}).1
  }

  lemma LoopGoesOn(foreign: ForeignParser, spec: ListSpec, query: Option<seq<ListInstance>>, pending: ListInstance,
                   s: string, before: set<string>, k: string, v: LeafData, rest: string)
    requires s != "" && s[0] == '[' && k !in pending && rest != "" && rest[0] == ']'
    requires KeyValueStep(foreign, spec, query, pending, s[1..], KeySuggestions(spec.needed, pending)).0
          == Some((k, v, rest))
    ensures CompletingLoop(foreign, spec, query, pending, s, before)
         == CompletingLoop(foreign, spec, query, pending[k := v], rest[1..],
                           {EndSuggestion(spec.needed, pending[k := v])})
  {
    hide KeyValueStep, KeySuggestions, EndSuggestion;
  }

  /** One entry becomes pending. */
  lemma EntryIsTaken(foreign: ForeignParser, spec: ListSpec, query: Option<seq<ListInstance>>, pending: ListInstance,
                     e: Entry, s: string, before: set<string>)
    requires HasEntry(foreign, spec, e, s) && e.key !in pending
    requires IsCompleteQuery(spec, query) && pending.Keys <= spec.needed
    ensures CompletingLoop(foreign, spec, query, pending, s, before)
         == CompletingLoop(foreign, spec, query, pending[e.key := e.value], AfterEntry(foreign, spec, e, s),
                           {EndSuggestion(spec.needed, pending[e.key := e.value])})
  {
    EntryIsReadKeyValue(foreign, spec, e, s);
    var rest := ParseLeaf(foreign, spec.types[e.key], s[|e.key| + 2..]).value.1;
    hide CompletingLoop, ReadKeyValue, KeyValueStep, EndSuggestion, KeySuggestions, IsCompleteQuery, ParseLeaf;
    StepReadsTheSame(foreign, spec, query, pending, s[1..], KeySuggestions(spec.needed, pending));
    LoopGoesOn(foreign, spec, query, pending, s, before, e.key, e.value, rest);
  }

  lemma OthersDiffer(es: seq<Entry>)
    requires es != [] && DistinctKeys(es)
    ensures forall x :: x in es[1..] ==> x.key != es[0].key
  {
  }

  lemma FirstOfTyped(pending: ListInstance, es: seq<Entry>)
    requires es != [] && DistinctKeys(es) && IsFresh(es, pending)
    ensures var e, more := es[0], es[1..];
            var now := pending[e.key := e.value];
            && e.key !in pending && DistinctKeys(more) && IsFresh(more, now)
            && pending + ToMap(es) == now + ToMap(more)
            && (more == [] ==> now + ToMap(more) == now)
  {
    var e, more := es[0], es[1..];
    assert es == [e] + more;
    FirstIsFree(pending, es);
    OthersDiffer(es);
    hide ToMap, KeySet, DistinctKeys, IsFresh;
    PendingStep(pending, e, more);
    EmptyMap(pending[e.key := e.value], more);
  }

  lemma EmptyMap(pending: ListInstance, es: seq<Entry>)
    ensures es == [] ==> pending + ToMap(es) == pending
  {
  }

  /** Entries become pending one after another, however they are written. */
  lemma {:induction false} LineIsTaken(foreign: ForeignParser, spec: ListSpec, query: Option<seq<ListInstance>>,
                                       pending: ListInstance, es: seq<Entry>, s: string, tail: string,
                                       before: set<string>)
    requires LeadsTo(foreign, spec, es, s, tail) && DistinctKeys(es) && IsFresh(es, pending)
    requires IsCompleteQuery(spec, query) && pending.Keys <= spec.needed
    ensures CompletingLoop(foreign, spec, query, pending, s, before)
         == CompletingLoop(foreign, spec, query, pending + ToMap(es), tail,
                           if es == [] then before else {EndSuggestion(spec.needed, pending + ToMap(es))})
    decreases |es|
  {
    if es == [] {
      assert pending + map[] == pending;
    } else {
      FirstOfTyped(pending, es);
      var e, more := es[0], es[1..];
      EntryIsTaken(foreign, spec, query, pending, e, s, before);
      assert e.key in spec.needed;
      hide CompletingLoop, EndSuggestion, DistinctKeys, IsFresh, ToMap, IsCompleteQuery, HasEntry, AfterEntry;
      var now := pending[e.key := e.value];
      LineIsTaken(foreign, spec, query, now, more, AfterEntry(foreign, spec, e, s), tail,
                  {EndSuggestion(spec.needed, now)});
    }
  }

  /** What is suggested once some entries were typed. */
  function AfterTyped(spec: ListSpec, es: seq<Entry>): set<string> {
    if es == [] then {} else {EndSuggestion(spec.needed, ToMap(es))}
  }

  lemma LineFromNothing(foreign: ForeignParser, spec: ListSpec, instances: seq<ListInstance>, es: seq<Entry>,
                        s: string, tail: string)
    requires LeadsTo(foreign, spec, es, s, tail) && DistinctKeys(es) && IsCompleteQuery(spec, Some(instances))
    ensures Offered(foreign, spec, instances, s)
         == CompletingLoop(foreign, spec, Some(instances), ToMap(es), tail, AfterTyped(spec, es)).1
  {
    FreshFromNothing(es);
    hide CompletingLoop, DistinctKeys, IsFresh, ToMap, EndSuggestion, IsCompleteQuery, LeadsTo;
    LineIsTaken(foreign, spec, Some(instances), map[], es, s, tail, {});
  }

  lemma FreshFromNothing(es: seq<Entry>)
    ensures IsFresh(es, map[]) && map[] + ToMap(es) == ToMap(es)
  {
  }

  lemma {:induction false} LeadingKeysAreNeeded(foreign: ForeignParser, spec: ListSpec, es: seq<Entry>, s: string,
                                                tail: string)
    requires LeadsTo(foreign, spec, es, s, tail)
    ensures ToMap(es).Keys <= spec.needed
    decreases |es|
  {
    hide AfterEntry, KeySet;
    if es != [] {
      LeadingKeysAreNeeded(foreign, spec, es[1..], AfterEntry(foreign, spec, es[0], s), tail);
    }
  }

  /** After an opening bracket exactly the missing keys are offered, whatever the types. */
  lemma KeysAreOffered(foreign: ForeignParser, spec: ListSpec, instances: seq<ListInstance>, es: seq<Entry>, s: string)
    requires LeadsTo(foreign, spec, es, s, "[") && DistinctKeys(es) && IsCompleteQuery(spec, Some(instances))
    ensures Offered(foreign, spec, instances, s) == KeySuggestions(spec.needed, ToMap(es))
  {
    hide DistinctKeys, Offered, ToMap, CompletingLoop, IsCompleteQuery, LeadsTo;
    LineFromNothing(foreign, spec, instances, es, s, "[");
    BracketAlone(foreign, spec, instances, ToMap(es), AfterTyped(spec, es));
  }

  lemma BracketAlone(foreign: ForeignParser, spec: ListSpec, instances: seq<ListInstance>, pending: ListInstance,
                     before: set<string>)
    ensures CompletingLoop(foreign, spec, Some(instances), pending, "[", before).1
         == KeySuggestions(spec.needed, pending)
  {
    assert "["[1..] == "";
  }

  // ---- what is offered for a value ----

  predicate IsTypedKey(spec: ListSpec, k: string) {
    IsIdentifier(k) && k in spec.needed && k in spec.types
  }

  /** A key and what was typed of its value. */
  function KeyStart(k: string, text: string): string {
    "[" + ((k + "=") + text)
  }

  lemma KeyHead(k: string, value: string)
    requires IsIdentifier(k)
    ensures var s := (k + "=") + value;
            && IdentifierRun(s) == |k| && IsIdentifierStart(s[0])
            && s[..|k|] == k && s[|k|] == '=' && s[|k| + 1..] == value
  {
    var s := (k + "=") + value;
    assert forall i :: 0 <= i < |k| ==> s[i] == k[i];
    assert s[|k|] == '=';
  }

  lemma BracketHead(k: string, text: string)
    ensures var s := KeyStart(k, text); s != "" && s[0] == '[' && s[1..] == (k + "=") + text
  {
  }

  /** The text is no value followed by the closing bracket. */
  predicate IsOpenValue(foreign: ForeignParser, t: LeafType, text: string) {
    var r := ParseLeaf(foreign, t, text);
    r.Some? && r.value.1 != "" ==> r.value.1[0] != ']'
  }

  /** What the leaf parser leaves of the stored values that fit when it fails on the text, and the
      bracket that ends the key when it reads a value. */
  function TextsAtValue(foreign: ForeignParser, spec: ListSpec, instances: seq<ListInstance>, pending: ListInstance,
                        k: string, text: string): set<string>
    requires k in spec.types
  {
    match ParseLeaf(foreign, spec.types[k], text)
    case None => LeafSuggestions(foreign, spec.types[k], text, ValueSuggestions(instances, pending, k))
    case Some((v, _)) => {EndSuggestion(spec.needed, pending[k := v])}
  }

  lemma KeyAlone(foreign: ForeignParser, spec: ListSpec, instances: seq<ListInstance>, pending: ListInstance, k: string,
                 text: string, before: set<string>)
    requires IsCompleteQuery(spec, Some(instances)) && pending.Keys <= spec.needed
    requires IsTypedKey(spec, k) && k !in pending && IsOpenValue(foreign, spec.types[k], text)
    ensures CompletingLoop(foreign, spec, Some(instances), pending, KeyStart(k, text), before).1
         == TextsAtValue(foreign, spec, instances, pending, k, text)
  {
    KeyHead(k, text);
    BracketHead(k, text);
    StoredValuesOfComplete(instances, pending, k);
    hide EndSuggestion, KeySuggestions, StoredValues, ValueSuggestions, ParseLeaf, LeafSuggestions, KeyStart;
    hide IdentifierRun, IsIdentifier, IsIdentifierStart, IsCompleteQuery;
  }

  /** At the end of a line that stops inside or right behind the value of a key. */
  lemma PartialValueIsOffered(foreign: ForeignParser, spec: ListSpec, instances: seq<ListInstance>, es: seq<Entry>,
                              s: string, k: string, text: string)
    requires LeadsTo(foreign, spec, es, s, KeyStart(k, text)) && DistinctKeys(es)
    requires IsCompleteQuery(spec, Some(instances)) && IsTypedKey(spec, k) && k !in ToMap(es)
    requires IsOpenValue(foreign, spec.types[k], text)
    ensures Offered(foreign, spec, instances, s) == TextsAtValue(foreign, spec, instances, ToMap(es), k, text)
  {
    LeadingKeysAreNeeded(foreign, spec, es, s, KeyStart(k, text));
    hide DistinctKeys, Offered, ToMap, CompletingLoop, IsTypedKey, TextsAtValue, IsOpenValue, LeadsTo, KeyStart;
    LineFromNothing(foreign, spec, instances, es, s, KeyStart(k, text));
    KeyAlone(foreign, spec, instances, ToMap(es), k, text, AfterTyped(spec, es));
  }

  /** Right behind a value "]/" is offered when it is the last key that was missing, and "][" else. */
  lemma EndIsOffered(foreign: ForeignParser, spec: ListSpec, instances: seq<ListInstance>, es: seq<Entry>,
                     s: string, k: string, text: string, v: LeafData)
    requires LeadsTo(foreign, spec, es, s, KeyStart(k, text)) && DistinctKeys(es)
    requires IsCompleteQuery(spec, Some(instances)) && IsTypedKey(spec, k) && k !in ToMap(es)
    requires ParseLeaf(foreign, spec.types[k], text) == Some((v, ""))
    ensures Offered(foreign, spec, instances, s)
         == {if MissingKeys(spec.needed, ToMap(es)) == {k} then "]/" else "]["}
  {
    hide DistinctKeys, Offered, ToMap, ParseLeaf, LeadsTo, KeyStart, IsCompleteQuery;
    PartialValueIsOffered(foreign, spec, instances, es, s, k, text);
    LastKeyEnds(spec.needed, ToMap(es), k, v);
  }

  lemma LastKeyEnds(needed: set<string>, pending: ListInstance, k: string, v: LeafData)
    requires k in needed && k !in pending
    ensures EndSuggestion(needed, pending[k := v]) == if MissingKeys(needed, pending) == {k} then "]/" else "]["
  {
    assert MissingKeys(needed, pending[k := v]) == MissingKeys(needed, pending) - {k};
    if MissingKeys(needed, pending) - {k} == {} {
      assert MissingKeys(needed, pending) == {k};
    }
  }

  function OfferedTexts(offer: Offer, stored: set<string>, needed: set<string>, pending: ListInstance, k: string)
    : set<string>
  {
    match offer
    case Stored => stored
    case Fixed(texts) => texts
    case Ended(v) => {EndSuggestion(needed, pending[k := v])}
  }

  /** After a key and its '=' it depends on the type alone whether the stored values that fit are
      offered, or a fixed set of values, or the bracket that ends the key. */
  lemma ValuesAreOffered(foreign: ForeignParser, spec: ListSpec, instances: seq<ListInstance>, es: seq<Entry>,
                         s: string, k: string)
    requires LeadsTo(foreign, spec, es, s, KeyStart(k, "")) && DistinctKeys(es)
    requires IsCompleteQuery(spec, Some(instances)) && IsTypedKey(spec, k) && k !in ToMap(es)
    ensures Offered(foreign, spec, instances, s)
         == OfferedTexts(OfferOf(foreign, spec.types[k]), ValueSuggestions(instances, ToMap(es), k), spec.needed,
                         ToMap(es), k)
  {
    OfferIsMade(foreign, spec.types[k], ValueSuggestions(instances, ToMap(es), k));
    hide DistinctKeys, Offered, ToMap, ParseLeaf, LeafSuggestions, OfferOf, ValueSuggestions, LeadsTo, KeyStart;
    hide EndSuggestion, IsCompleteQuery;
    PartialValueIsOffered(foreign, spec, instances, es, s, k, "");
  }

  /** When nothing is completed, no stored instance is looked at: the leaf parser finds the suggestions
      for keys. */
  lemma NothingIsLookedUp(foreign: ForeignParser, spec: ListSpec, pending: ListInstance, k: string, before: set<string>)
    requires IsTypedKey(spec, k) && k !in pending
    ensures CompletingLoop(foreign, spec, None, pending, KeyStart(k, ""), before).1
         == OfferedTexts(OfferOf(foreign, spec.types[k]), KeySuggestions(spec.needed, pending), spec.needed, pending, k)
  {
    KeyHead(k, "");
    BracketHead(k, "");
    OfferIsMade(foreign, spec.types[k], KeySuggestions(spec.needed, pending));
    hide EndSuggestion, KeySuggestions, ParseLeaf, LeafSuggestions, OfferOf, KeyStart;
    hide IdentifierRun, IsIdentifier, IsIdentifierStart;
  }

  /** A key that is entered again ends the parse once its value is read, and leaves what the leaf parser
      left; a key without a leaf ends it at once, and leaves the stored values. */
  lemma RefusedKeyOffers(foreign: ForeignParser, spec: ListSpec, instances: seq<ListInstance>, pending: ListInstance,
                         k: string, text: string, before: set<string>)
    requires IsCompleteQuery(spec, Some(instances)) && pending.Keys <= spec.needed
    requires IsIdentifier(k) && k in spec.needed && (k in spec.types ==> k in pending)
    ensures CompletingLoop(foreign, spec, Some(instances), pending, KeyStart(k, text), before)
         == (Abort, if k in spec.types
                    then LeafSuggestions(foreign, spec.types[k], text, ValueSuggestions(instances, pending, k))
                    else ValueSuggestions(instances, pending, k))
  {
    KeyHead(k, text);
    BracketHead(k, text);
    StoredValuesOfComplete(instances, pending, k);
    hide EndSuggestion, KeySuggestions, StoredValues, ValueSuggestions, ParseLeaf, LeafSuggestions, KeyStart;
    hide IdentifierRun, IsIdentifier, IsIdentifierStart, IsCompleteQuery;
  }

  // ---- which types have their stored values offered ----

  /** The values a leaf of this type can have; of a type that is not modelled, those its parser gives. */
  ghost predicate IsValueOf(foreign: ForeignParser, t: LeafType, v: LeafData)
    decreases t
  {
    match t
    case StringType => v.Str?
    case EnumType(allowed) => v.Enum? && v.name in allowed
    case BitsType(allowed) => v.Bits? && forall b :: b in v.bits ==> b in allowed
    case UnionType(members) => exists m :: m in members && IsValueOf(foreign, m, v)
    case LeafRefType(target) => IsValueOf(foreign, target, v)
    case ForeignType(kind, _) => exists s: string :: foreign(kind, s).Some? && foreign(kind, s).value.0 == v
  }

  /** Instances with the keys of the list, and values of their types. */
  ghost predicate HaveTypes(foreign: ForeignParser, spec: ListSpec, instances: seq<ListInstance>) {
    && AreComplete(spec.needed, instances)
    && forall i, k :: i in instances && k in spec.needed && k in spec.types ==> IsValueOf(foreign, spec.types[k], i[k])
  }

  /** For any stored instances and any keys typed before, exactly the stored values that fit are
      offered for this key: nothing else (soundness), and all of them (completeness). */
  ghost predicate OffersStoredValues(foreign: ForeignParser, spec: ListSpec, k: string) {
    forall instances: seq<ListInstance>, es: seq<Entry>, s: string ::
      HaveTypes(foreign, spec, instances) && k !in ToMap(es) && IsLineFor(foreign, spec, es, s, k) ==>
        Offered(foreign, spec, instances, s) == ValueSuggestions(instances, ToMap(es), k)
  }

  /** The line enters es, and then the key. */
  predicate IsLineFor(foreign: ForeignParser, spec: ListSpec, es: seq<Entry>, s: string, k: string) {
    LeadsTo(foreign, spec, es, s, KeyStart(k, "")) && DistinctKeys(es)
  }

  ghost predicate CanHaveInstances(foreign: ForeignParser, spec: ListSpec) {
    exists i: ListInstance :: HaveTypes(foreign, spec, [i])
  }

  /** The completion of a key's values is sound and complete if and only if the key's type keeps the
      suggestions: strings do, and leafrefs to and unions of types that do; enumerations, identityrefs
      and bits do not, nor does a union with one of them. The one other case is a type without values
      to offer, in a list that cannot have instances. */
  lemma StoredValuesOfferedIff(foreign: ForeignParser, spec: ListSpec, k: string)
    requires IsTypedKey(spec, k)
    ensures OffersStoredValues(foreign, spec, k)
       <==> || OfferOf(foreign, spec.types[k]).Stored?
            || (OfferOf(foreign, spec.types[k]) == Fixed({}) && !CanHaveInstances(foreign, spec))
  {
    hide Offered, ToMap, ValueSuggestions, OfferOf, HaveTypes, IsLineFor, OffersStoredValues;
    var offer := OfferOf(foreign, spec.types[k]);
    if offer.Stored? || (offer == Fixed({}) && !CanHaveInstances(foreign, spec)) {
      StoredIsOffered(foreign, spec, k);
    } else {
      OtherOfferFails(foreign, spec, k);
    }
  }

  lemma TypedAreComplete(foreign: ForeignParser, spec: ListSpec, instances: seq<ListInstance>)
    requires HaveTypes(foreign, spec, instances)
    ensures IsCompleteQuery(spec, Some(instances))
    ensures instances != [] ==> HaveTypes(foreign, spec, [instances[0]])
  {
    hide IsValueOf;
  }

  lemma StoredIsOffered(foreign: ForeignParser, spec: ListSpec, k: string)
    requires IsTypedKey(spec, k)
    requires var offer := OfferOf(foreign, spec.types[k]);
             offer.Stored? || (offer == Fixed({}) && !CanHaveInstances(foreign, spec))
    ensures OffersStoredValues(foreign, spec, k)
  {
    hide Offered, ToMap, LeadsTo, ValueSuggestions, OfferOf, HaveTypes, KeyStart, IsCompleteQuery;
    forall instances: seq<ListInstance>, es: seq<Entry>, s: string |
      HaveTypes(foreign, spec, instances) && k !in ToMap(es) && IsLineFor(foreign, spec, es, s, k)
      ensures Offered(foreign, spec, instances, s) == ValueSuggestions(instances, ToMap(es), k)
    {
      TypedAreComplete(foreign, spec, instances);
      ValuesAreOffered(foreign, spec, instances, es, s, k);
      NothingStored(ToMap(es), k);
    }
  }

  /** Without stored instances nothing should be offered, and with one something. */
  lemma OtherOfferFails(foreign: ForeignParser, spec: ListSpec, k: string)
    requires IsTypedKey(spec, k) && !OfferOf(foreign, spec.types[k]).Stored?
    requires OfferOf(foreign, spec.types[k]) == Fixed({}) ==> CanHaveInstances(foreign, spec)
    ensures !OffersStoredValues(foreign, spec, k)
  {
    hide Offered, LeadsTo, OfferOf, KeyStart, EndSuggestion, IsValueOf, IsCompleteQuery, ValueSuggestions;
    var s := KeyStart(k, "");
    assert ToMap([]) == map[];
    assert IsLineFor(foreign, spec, [], s, k) by { NothingLeads(foreign, spec, s); }
    if OfferOf(foreign, spec.types[k]) == Fixed({}) {
      var i: ListInstance :| HaveTypes(foreign, spec, [i]);
      TypedAreComplete(foreign, spec, [i]);
      ValuesAreOffered(foreign, spec, [i], [], s, k);
      OneStored(i, k);
    } else {
      assert HaveTypes(foreign, spec, []);
      TypedAreComplete(foreign, spec, []);
      ValuesAreOffered(foreign, spec, [], [], s, k);
      NothingStored(map[], k);
    }
  }

  lemma NothingLeads(foreign: ForeignParser, spec: ListSpec, s: string)
    ensures LeadsTo(foreign, spec, [], s, s)
  {
  }

  lemma NothingStored(pending: ListInstance, k: string)
    ensures ValueSuggestions([], pending, k) == {}
  {
  }

  lemma OneStored(i: ListInstance, k: string)
    requires k in i
    ensures LeafDataToCompletion(i[k]) in ValueSuggestions([i], map[], k)
  {
    assert Fits(map[], i);
    assert i[k] in ValueChoices([i], map[], k);
  }

  // ---- typing what is offered ----

  /** The completion text of the value is read back as the value. */
  ghost predicate ReadsBack(foreign: ForeignParser, t: LeafType, v: LeafData) {
    forall rest: string :: ParseLeaf(foreign, t, LeafDataToCompletion(v) + ("]" + rest)) == Some((v, "]" + rest))
  }

  /** Enumeration values and bits, which are not quoted, are read back when no name holds a bracket. */
  lemma EnumsReadBack(foreign: ForeignParser, allowed: set<string>, name: string)
    requires name in allowed && name != "" && forall v :: v in allowed ==> ']' !in v
    ensures ReadsBack(foreign, EnumType(allowed), Enum(name))
  {
    forall rest: string
      ensures ParseLeaf(foreign, EnumType(allowed), LeafDataToCompletion(Enum(name)) + ("]" + rest))
           == Some((Enum(name), "]" + rest))
    {
      EnumRoundTrip(foreign, allowed, name, "]" + rest);
    }
  }

  lemma BitsReadBack(foreign: ForeignParser, allowed: set<string>, bits: seq<string>)
    requires forall b :: b in allowed ==> IsBitName(b) && ']' !in b
    requires NoDuplicates(bits) && forall b :: b in bits ==> b in allowed
    ensures ReadsBack(foreign, BitsType(allowed), Bits(bits))
  {
    forall rest: string
      ensures ParseLeaf(foreign, BitsType(allowed), LeafDataToCompletion(Bits(bits)) + ("]" + rest))
           == Some((Bits(bits), "]" + rest))
    {
      assert allowed - {""} == allowed;
      BitsRoundTrip(allowed, bits, "]" + rest);
    }
  }

  /** So is a value of another type that its parser reads back from its print: the completion of a
      number or an identity adds nothing to it, an identity being written with its module if it has one. */
  lemma OthersReadBack(foreign: ForeignParser, kind: string, offers: Option<set<string>>, v: LeafData, text: string)
    requires || (v.Foreign? && text == v.shown)
             || (v.Identity? && text == if v.mod.Some? then v.mod.value + ":" + v.name else v.name)
    requires forall rest: string :: foreign(kind, text + ("]" + rest)) == Some((v, |text|))
    ensures ReadsBack(foreign, ForeignType(kind, offers), v)
  {
    forall rest: string
      ensures ParseLeaf(foreign, ForeignType(kind, offers), LeafDataToCompletion(v) + ("]" + rest))
           == Some((v, "]" + rest))
    {
      assert (text + ("]" + rest))[|text|..] == "]" + rest;
    }
  }

  ghost predicate IsTypeable(foreign: ForeignParser, spec: ListSpec, e: Entry) {
    IsTypedKey(spec, e.key) && ReadsBack(foreign, spec.types[e.key], e.value)
  }

  ghost predicate AreTypeable(foreign: ForeignParser, spec: ListSpec, es: seq<Entry>) {
    forall e :: e in es ==> IsTypeable(foreign, spec, e)
  }

  lemma TypedHead(es: seq<Entry>, tail: string)
    requires es != []
    ensures Typed(es) + tail
         == KeyStart(es[0].key, LeafDataToCompletion(es[0].value) + ("]" + (Typed(es[1..]) + tail)))
  {
    var key, value, more := es[0].key + "=", LeafDataToCompletion(es[0].value), Typed(es[1..]);
    TypedAlgebra2(key, value, more, tail);
  }

  lemma TypedAlgebra2(key: string, value: string, more: string, tail: string)
    ensures ("[" + key + (value + "]" + more)) + tail == "[" + (key + (value + ("]" + (more + tail))))
  {
  }

  lemma KeyStartParts(k: string, text: string)
    ensures "[" + k + "=" <= KeyStart(k, text) && KeyStart(k, text)[|k| + 2..] == text
  {
    assert KeyStart(k, text) == ("[" + k + "=") + text;
  }

  lemma EntryIsRead(foreign: ForeignParser, spec: ListSpec, e: Entry, tail: string)
    requires IsTypeable(foreign, spec, e)
    ensures var s := KeyStart(e.key, LeafDataToCompletion(e.value) + ("]" + tail));
            HasEntry(foreign, spec, e, s) && AfterEntry(foreign, spec, e, s) == tail
  {
    KeyStartParts(e.key, LeafDataToCompletion(e.value) + ("]" + tail));
    assert ("]" + tail)[1..] == tail;
    hide LeafDataToCompletion, IsIdentifier, ParseLeaf, KeyStart;
  }

  /** What is typed by taking what is offered enters the entries. */
  lemma {:induction false} TypedLeads(foreign: ForeignParser, spec: ListSpec, es: seq<Entry>, tail: string)
    requires AreTypeable(foreign, spec, es)
    ensures LeadsTo(foreign, spec, es, Typed(es) + tail, tail)
    decreases |es|
  {
    if es == [] {
      assert "" + tail == tail;
    } else {
      hide HasEntry, AfterEntry, IsTypeable, LeafDataToCompletion, Typed, KeyStart;
      TypedHead(es, tail);
      EntryIsRead(foreign, spec, es[0], Typed(es[1..]) + tail);
      TypedLeads(foreign, spec, es[1..], tail);
    }
  }

  lemma FirstIsTypeable(foreign: ForeignParser, spec: ListSpec, es: seq<Entry>)
    requires es != [] && AreTypeable(foreign, spec, es)
    ensures IsTypeable(foreign, spec, es[0]) && AreTypeable(foreign, spec, es[1..])
  {
    hide IsTypeable;
  }

  ghost function OfferedFor(foreign: ForeignParser, spec: ListSpec, instances: seq<ListInstance>, es: seq<Entry>,
                            k: string)
    : set<string>
  {
    Offered(foreign, spec, instances, Typed(es) + KeyStart(k, ""))
  }

  /** What is offered after typing entries that were offered. */
  lemma TypedAreOffered(foreign: ForeignParser, spec: ListSpec, instances: seq<ListInstance>, es: seq<Entry>, k: string)
    requires AreTypeable(foreign, spec, es) && DistinctKeys(es) && IsCompleteQuery(spec, Some(instances))
    ensures Offered(foreign, spec, instances, Typed(es) + "[") == KeySuggestions(spec.needed, ToMap(es))
    ensures IsTypedKey(spec, k) && k !in ToMap(es) ==>
              OfferedFor(foreign, spec, instances, es, k)
              == OfferedTexts(OfferOf(foreign, spec.types[k]), ValueSuggestions(instances, ToMap(es), k), spec.needed,
                              ToMap(es), k)
  {
    hide AreTypeable, DistinctKeys, Offered, Typed, ToMap, LeadsTo, KeyStart, IsTypedKey, ValueSuggestions, OfferOf;
    hide OfferedTexts, KeySuggestions;
    TypedLeads(foreign, spec, es, "[");
    KeysAreOffered(foreign, spec, instances, es, Typed(es) + "[");
    if IsTypedKey(spec, k) && k !in ToMap(es) {
      TypedLeads(foreign, spec, es, KeyStart(k, ""));
      ValuesAreOffered(foreign, spec, instances, es, Typed(es) + KeyStart(k, ""), k);
    }
  }

  // ---- following what is offered ----

  /** Each key, and then its value, is among what is offered after everything typed before. */
  ghost predicate Follows(foreign: ForeignParser, spec: ListSpec, instances: seq<ListInstance>,
                          done: seq<Entry>, es: seq<Entry>)
    decreases |es|
  {
    es == []
    || (&& es[0].key + "=" in Offered(foreign, spec, instances, Typed(done) + "[")
        && LeafDataToCompletion(es[0].value) in OfferedFor(foreign, spec, instances, done, es[0].key)
        && Follows(foreign, spec, instances, done + [es[0]], es[1..]))
  }

  /** Every key has a type that keeps the suggestions. */
  predicate KeepsSuggestions(foreign: ForeignParser, spec: ListSpec) {
    forall k :: k in spec.needed ==> IsTypedKey(spec, k) && OfferOf(foreign, spec.types[k]).Stored?
  }

  /** The stored instances have the keys of the list, with values of their types. */
  ghost predicate AreStored(foreign: ForeignParser, spec: ListSpec, instances: seq<ListInstance>) {
    && AreComplete(spec.needed, instances)
    && forall i, k :: i in instances && k in spec.needed ==> k in spec.types && ReadsBack(foreign, spec.types[k], i[k])
  }

  lemma KeyIsMissingIff(needed: set<string>, pending: ListInstance, k: string)
    ensures k + "=" in KeySuggestions(needed, pending) <==> k in MissingKeys(needed, pending)
  {
    if k + "=" in KeySuggestions(needed, pending) {
      var other :| other in MissingKeys(needed, pending) && other + "=" == k + "=";
      assert k == (k + "=")[..|k|] == (other + "=")[..|other|] == other;
    }
  }

  /** A text is read back as one value. */
  lemma SameTextSameValue(foreign: ForeignParser, t: LeafType, v: LeafData, w: LeafData)
    requires ReadsBack(foreign, t, v) && ReadsBack(foreign, t, w)
    requires LeafDataToCompletion(v) == LeafDataToCompletion(w)
    ensures v == w
  {
    assert ParseLeaf(foreign, t, LeafDataToCompletion(v) + ("]" + "")) == Some((v, "]" + ""));
    assert ParseLeaf(foreign, t, LeafDataToCompletion(w) + ("]" + "")) == Some((w, "]" + ""));
  }

  lemma ValueIsStoredIff(foreign: ForeignParser, spec: ListSpec, instances: seq<ListInstance>, pending: ListInstance,
                         e: Entry)
    requires AreStored(foreign, spec, instances) && IsTypeable(foreign, spec, e)
    ensures LeafDataToCompletion(e.value) in ValueSuggestions(instances, pending, e.key)
       <==> e.value in ValueChoices(instances, pending, e.key)
  {
    hide ReadsBack, LeafDataToCompletion, Fits;
    if LeafDataToCompletion(e.value) in ValueSuggestions(instances, pending, e.key) {
      var v :| v in ValueChoices(instances, pending, e.key) && LeafDataToCompletion(v) == LeafDataToCompletion(e.value);
      SameTextSameValue(foreign, spec.types[e.key], v, e.value);
    }
  }

  lemma OneMoreKey(done: seq<Entry>, e: Entry)
    requires DistinctKeys(done) && e.key !in KeySet(done)
    ensures DistinctKeys(done + [e])
  {
    var all := done + [e];
    forall i, j | 0 <= i < j < |all|
      ensures all[i].key != all[j].key
    {
      assert all[i] in done;
    }
  }

  lemma {:induction false} OneMoreDone(done: seq<Entry>, e: Entry)
    requires e.key !in ToMap(done)
    ensures ToMap(done + [e]) == ToMap(done)[e.key := e.value]
    decreases |done|
  {
    hide KeySet;
    if done == [] {
      assert done + [e] == [e] && [e][1..] == [];
    } else {
      var d := done[0];
      assert (done + [e])[1..] == done[1..] + [e];
      OneMoreDone(done[1..], e);
      InsertsCommute(ToMap(done[1..]), d, e);
    }
  }

  lemma InsertsCommute(m: ListInstance, d: Entry, e: Entry)
    requires d.key != e.key
    ensures m[e.key := e.value][d.key := d.value] == m[d.key := d.value][e.key := e.value]
  {
  }

  /** One step: what is offered is what is stored and still fits. */
  lemma OfferIsSuggestion(foreign: ForeignParser, spec: ListSpec, instances: seq<ListInstance>, done: seq<Entry>,
                          e: Entry)
    requires KeepsSuggestions(foreign, spec) && AreStored(foreign, spec, instances)
    requires AreTypeable(foreign, spec, done) && DistinctKeys(done) && IsTypeable(foreign, spec, e)
    ensures e.key + "=" in Offered(foreign, spec, instances, Typed(done) + "[")
       <==> e.key in MissingKeys(spec.needed, ToMap(done))
    ensures e.key !in ToMap(done) ==>
              (LeafDataToCompletion(e.value) in OfferedFor(foreign, spec, instances, done, e.key)
               <==> e.value in ValueChoices(instances, ToMap(done), e.key))
  {
    assert IsCompleteQuery(spec, Some(instances));
    assert OfferOf(foreign, spec.types[e.key]).Stored? && IsTypedKey(spec, e.key);
    KeyIsMissingIff(spec.needed, ToMap(done), e.key);
    ValueIsStoredIff(foreign, spec, instances, ToMap(done), e);
    hide Offered, OfferedFor, Typed, ToMap, AreTypeable, IsTypeable, KeySuggestions, MissingKeys, ValueSuggestions;
    hide ValueChoices, KeepsSuggestions, AreStored, IsCompleteQuery, OfferOf, IsTypedKey, LeafDataToCompletion;
    TypedAreOffered(foreign, spec, instances, done, e.key);
  }

  /** Following what is offered is following the stored values, when every key keeps the suggestions. */
  lemma {:induction false} FollowsIffSuggested(foreign: ForeignParser, spec: ListSpec, instances: seq<ListInstance>,
                                               done: seq<Entry>, es: seq<Entry>)
    requires KeepsSuggestions(foreign, spec) && AreStored(foreign, spec, instances)
    requires AreTypeable(foreign, spec, done) && DistinctKeys(done) && AreTypeable(foreign, spec, es)
    ensures Follows(foreign, spec, instances, done, es) <==> Suggested(spec.needed, instances, ToMap(done), es)
    decreases |es|
  {
    if es != [] {
      FirstIsTypeable(foreign, spec, es);
      var e := es[0];
      OfferIsSuggestion(foreign, spec, instances, done, e);
      if e.key in MissingKeys(spec.needed, ToMap(done)) {
        OneMoreKey(done, e);
        OneMoreDone(done, e);
        OneMoreTypeable(foreign, spec, done, e);
        hide Offered, OfferedFor, ToMap, AreTypeable, IsTypeable, KeepsSuggestions, AreStored, DistinctKeys;
        hide ValueChoices, LeafDataToCompletion, Typed;
        FollowsIffSuggested(foreign, spec, instances, done + [e], es[1..]);
      }
    }
  }

  lemma OneMoreTypeable(foreign: ForeignParser, spec: ListSpec, done: seq<Entry>, e: Entry)
    requires AreTypeable(foreign, spec, done) && IsTypeable(foreign, spec, e)
    ensures AreTypeable(foreign, spec, done + [e])
  {
    hide IsTypeable;
  }

  /** Soundness of whole completions: whoever follows the offers until no key is missing has typed the
      keys of a stored instance. */
  lemma FollowedOffersEndAtAnInstance(foreign: ForeignParser, spec: ListSpec, instances: seq<ListInstance>,
                                      es: seq<Entry>)
    requires KeepsSuggestions(foreign, spec) && AreStored(foreign, spec, instances) && instances != []
    requires AreTypeable(foreign, spec, es) && Follows(foreign, spec, instances, [], es)
    requires MissingKeys(spec.needed, ToMap(es)) == {}
    ensures ToMap(es) in instances
  {
    hide Follows, Suggested, IsTypeable, ReadsBack, KeepsSuggestions;
    assert ToMap([]) == map[];
    FollowsIffSuggested(foreign, spec, instances, [], es);
    FollowingSuggestionsEndsAtAnInstance(spec.needed, instances, es);
  }

  /** Completeness: every stored instance can be typed by following the offers, its keys in any order. */
  lemma EveryInstanceIsOffered(foreign: ForeignParser, spec: ListSpec, instances: seq<ListInstance>,
                               order: seq<string>, i: ListInstance)
    requires KeepsSuggestions(foreign, spec) && AreStored(foreign, spec, instances) && i in instances
    requires NoDuplicates(order) && forall k :: k in order <==> k in spec.needed
    ensures Follows(foreign, spec, instances, [], Along(order, i)) && ToMap(Along(order, i)) == i
  {
    var es := Along(order, i);
    forall e | e in es
      ensures IsTypeable(foreign, spec, e)
    {
      var n :| 0 <= n < |es| && es[n] == e;
      assert order[n] in spec.needed;
    }
    hide Follows, Suggested, ReadsBack, Along;
    EveryInstanceIsReachable(spec.needed, instances, order, i);
    assert ToMap([]) == map[];
    FollowsIffSuggested(foreign, spec, instances, [], es);
  }

  /** String keys keep the suggestions, and their printable values are read back. */
  lemma StringKeysAreCompleted(foreign: ForeignParser, spec: ListSpec)
    requires IsStringKeyed(spec)
    ensures KeepsSuggestions(foreign, spec)
    ensures forall k, v :: k in spec.needed && IsPrintableValue(v) ==> ReadsBack(foreign, spec.types[k], v)
  {
    forall k | k in spec.needed
      ensures OfferOf(foreign, spec.types[k]).Stored?
    {
      StringsKeepSuggestions(foreign, spec.types[k]);
    }
    forall k, v, rest: string | k in spec.needed && IsPrintableValue(v)
      ensures ParseLeaf(foreign, spec.types[k], LeafDataToCompletion(v) + ("]" + rest)) == Some((v, "]" + rest))
    {
      ReadsQuotedStrings(foreign, spec.types[k], LeafDataToCompletion(v) + ("]" + rest));
      QuotedRoundTrip(v.text, "]" + rest);
    }
  }

  // ---- where following the offers fails ----

  function EnumKeyed(): ListSpec {
    ListSpec({"k"}, map["k" := EnumType({"a", "b"})])
  }

  function BitsKeyed(): ListSpec {
    ListSpec({"k"}, map["k" := BitsType({"x"})])
  }

  lemma NothingTyped(foreign: ForeignParser, spec: ListSpec, i: ListInstance)
    requires spec.needed == {"k"} && "k" in spec.types && i.Keys == {"k"}
    ensures "k" + "=" in Offered(foreign, spec, [i], Typed([]) + "[")
    ensures OfferedFor(foreign, spec, [i], [], "k")
         == OfferedTexts(OfferOf(foreign, spec.types["k"]), ValueSuggestions([i], map[], "k"), spec.needed, map[], "k")
  {
    assert AreTypeable(foreign, spec, []) && DistinctKeys([]) && IsCompleteQuery(spec, Some([i])) && ToMap([]) == map[];
    assert IsIdentifier("k");
    KeyIsMissingIff(spec.needed, map[], "k");
    hide Offered, Typed, OfferOf, EndSuggestion, ValueSuggestions, IsTypeable;
    TypedAreOffered(foreign, spec, [i], [], "k");
  }

  /** An enumeration key offers all its values: with a alone stored, b is offered too, and typing it
      leaves no key missing and ends at no stored instance. */
  lemma EnumKeyOffersUnstoredValue(foreign: ForeignParser)
    ensures var instances, es := [map["k" := Enum("a")]], [Entry("k", Enum("b"))];
            && Follows(foreign, EnumKeyed(), instances, [], es)
            && MissingKeys({"k"}, ToMap(es)) == {} && ToMap(es) !in instances
  {
    var i, e := map["k" := Enum("a")], Entry("k", Enum("b"));
    NothingTyped(foreign, EnumKeyed(), i);
    assert OfferOf(foreign, EnumKeyed().types["k"]) == Fixed({"a", "b"});
    assert LeafDataToCompletion(e.value) == "b";
    hide Offered, OfferedFor, Typed, EnumKeyed;
    assert [e][1..] == [];
    assert Follows(foreign, EnumKeyed(), [i], [] + [e], []);
    assert ToMap([e]) == map["k" := Enum("b")];
    assert i["k"] != e.value by { assert "a"[0] != "b"[0]; }
  }

  /** A bits key is ended at once: its stored value is never offered. */
  lemma BitsKeyHidesStoredValue(foreign: ForeignParser)
    ensures var i, es := map["k" := Bits(["x"])], [Entry("k", Bits(["x"]))];
            ToMap(es) == i && !Follows(foreign, BitsKeyed(), [i], [], es)
  {
    var i, e := map["k" := Bits(["x"])], Entry("k", Bits(["x"]));
    NothingTyped(foreign, BitsKeyed(), i);
    assert OfferOf(foreign, BitsKeyed().types["k"]) == Ended(Bits([]));
    assert LeafDataToCompletion(e.value) == "x";
    assert EndSuggestion({"k"}, map["k" := Bits([])]) in {"]/", "]["};
    assert |"x"| != |"]/"| && |"x"| != |"]["|;
    hide Offered, OfferedFor, Typed, BitsKeyed;
    assert [e][1..] == [] && ToMap([e]) == i;
  }
}
