/** Completion of list keys (src/ast_handlers.hpp:272-337, src/ast_handlers.cpp). */
module KeyCompletion {
  import opened Wrappers
  import opened Ordering
  import opened AstPath
  import opened PathPrinter
  import opened LeafParsers
  import opened ListSuffix

  // ---- what is suggested ----

  function MissingKeys(needed: set<string>, pending: ListInstance): set<string> {
    needed - pending.Keys
  }

  function KeySuggestions(needed: set<string>, pending: ListInstance): set<string> {
    set k | k in MissingKeys(needed, pending) :: k + "="
  }

  /** partialFitsComplete: the instance has every value entered so far. */
  predicate Fits(pending: ListInstance, instance: ListInstance) {
    forall k | k in pending :: k in instance && instance[k] == pending[k]
  }

  /** The values of a key among the stored instances that fit what was entered so far. */
  function ValueChoices(instances: seq<ListInstance>, pending: ListInstance, key: string): set<LeafData> {
    set i | i in instances && Fits(pending, i) && key in i :: i[key]
  }

  /** leafDataToCompletion: only string values are quoted. */
  function LeafDataToCompletion(v: LeafData): string {
    if v.Str? then EscapeListKeyString(LeafDataToString(v)) else LeafDataToString(v)
  }

  function ValueSuggestions(instances: seq<ListInstance>, pending: ListInstance, key: string): set<string> {
    set v | v in ValueChoices(instances, pending, key) :: LeafDataToCompletion(v)
  }

  /** suggestKeysEnd: the bracket that ends this key, and what follows it. */
  function EndSuggestion(needed: set<string>, pending: ListInstance): (r: string)
    ensures r == "]/" <==> MissingKeys(needed, pending) == {}
  {
    if KeySuggestions(needed, pending) == {} then
      assert forall k :: k in MissingKeys(needed, pending) ==> k + "=" in KeySuggestions(needed, pending);
      "]/"
    else "]["
  }

  // ---- the suggesting loops ----

  /** generateMissingKeyCompletionSet. */
  method GenerateMissingKeyCompletionSet(needed: set<string>, current: ListInstance) returns (res: set<string>)
    ensures res == KeySuggestions(needed, current)
  {
    var left, missing := needed, {};
    while left != {}
      invariant left <= needed
      invariant missing == (needed - left) - current.Keys
      decreases left
    {
      var k :| k in left;
      if k !in current {
        missing := missing + {k};
      }
      left := left - {k};
    }
    res := set k | k in missing :: k + "=";
  }

  /** partialFitsComplete compares in key order and stops at the first difference; None is the
      exception of .at for a key that the stored instance does not have. */
  function FitsInOrder(order: seq<string>, pending: ListInstance, instance: ListInstance): Option<bool>
    requires forall k :: k in order ==> k in pending
  {
    if order == [] then Some(true)
    else if order[0] !in instance then None
    else if instance[order[0]] != pending[order[0]] then Some(false)
    else FitsInOrder(order[1..], pending, instance)
  }

  ghost function PartialFits(pending: ListInstance, instance: ListInstance): Option<bool> {
    FitsInOrder(SortedKeys(pending.Keys), pending, instance)
  }

  /** The instances that fit, or None when looking at one of them throws. */
  ghost function Filtered(instances: seq<ListInstance>, pending: ListInstance): Option<seq<ListInstance>> {
    if instances == [] then Some([])
    else
      var last := instances[|instances| - 1];
      match (Filtered(instances[..|instances| - 1], pending), PartialFits(pending, last))
      case (Some(before), Some(fits)) => Some(if fits then before + [last] else before)
      case _ => None
  }

  /** The values that createValueSuggestions_class suggests for a key; None is an exception. */
  ghost function StoredValues(instances: seq<ListInstance>, pending: ListInstance, key: string): Option<set<string>> {
    match Filtered(instances, pending)
    case None => None
    case Some(filtered) =>
      if forall i :: i in filtered ==> key in i then Some(set i | i in filtered :: LeafDataToCompletion(i[key]))
      else None
  }

  lemma FitsInOrderStep(pending: ListInstance, rest: set<string>, k: string, instance: ListInstance)
    requires rest <= pending.Keys && IsLeast(k, rest)
    ensures SortedKeys(rest) == [k] + SortedKeys(rest - {k})
    ensures FitsInOrder(SortedKeys(rest), pending, instance)
         == if k !in instance then None
            else if instance[k] != pending[k] then Some(false)
            else FitsInOrder(SortedKeys(rest - {k}), pending, instance)
  {
    SortedKeysStep(rest, k);
    assert ([k] + SortedKeys(rest - {k}))[1..] == SortedKeys(rest - {k});
  }

  method PartialFitsComplete(pending: ListInstance, instance: ListInstance) returns (r: Option<bool>)
    ensures r == PartialFits(pending, instance)
  {
    var rest := pending.Keys;
    while rest != {}
      invariant rest <= pending.Keys
      invariant FitsInOrder(SortedKeys(rest), pending, instance) == PartialFits(pending, instance)
      decreases rest
    {
      LeastExists(rest);
      var k :| k in rest && IsLeast(k, rest);
      FitsInOrderStep(pending, rest, k, instance);
      if k !in instance {
        return None;
      }
      if instance[k] != pending[k] {
        return Some(false);
      }
      rest := rest - {k};
    }
    return Some(true);
  }

  /** The filtering and collecting of createValueSuggestions_class. */
  method GenerateValueSuggestions(instances: seq<ListInstance>, pending: ListInstance, key: string)
    returns (res: Option<set<string>>)
    ensures res == StoredValues(instances, pending, key)
  {
    hide PartialFits;
    var filtered: seq<ListInstance> := [];
    for n := 0 to |instances|
      invariant Filtered(instances[..n], pending) == Some(filtered)
    {
      assert instances[..n + 1][..n] == instances[..n];
      var fits := PartialFitsComplete(pending, instances[n]);
      if fits.None? {
        FilteredThrows(instances, n + 1, pending);
        return None;
      }
      if fits.value {
        filtered := filtered + [instances[n]];
      }
    }
    assert instances[..|instances|] == instances;
    if forall i :: i in filtered ==> key in i {
      return Some(set i | i in filtered :: LeafDataToCompletion(i[key]));
    }
    return None;
  }

  lemma {:induction false} FilteredThrows(instances: seq<ListInstance>, n: nat, pending: ListInstance)
    requires n <= |instances| && Filtered(instances[..n], pending).None?
    ensures Filtered(instances, pending).None?
    decreases |instances|
  {
    if n < |instances| {
      var front := instances[..|instances| - 1];
      assert front[..n] == instances[..n];
      FilteredThrows(front, n, pending);
    } else {
      assert instances[..n] == instances;
    }
  }

  /** The instance has the first keys of the order, with the values that were entered. */
  predicate AgreesUpTo(order: seq<string>, pending: ListInstance, instance: ListInstance, i: int)
    requires forall k :: k in order ==> k in pending
  {
    && 0 <= i <= |order|
    && forall j :: 0 <= j < i ==> order[j] in instance && instance[order[j]] == pending[order[j]]
  }

  predicate LacksAt(order: seq<string>, pending: ListInstance, instance: ListInstance, i: int)
    requires forall k :: k in order ==> k in pending
  {
    0 <= i < |order| && order[i] !in instance && AgreesUpTo(order, pending, instance, i)
  }

  lemma OneMoreAgrees(order: seq<string>, pending: ListInstance, instance: ListInstance, i: nat)
    requires forall k :: k in order ==> k in pending
    requires order != [] && order[0] in instance && instance[order[0]] == pending[order[0]] && i < |order|
    ensures AgreesUpTo(order, pending, instance, i + 1) <==> AgreesUpTo(order[1..], pending, instance, i)
    ensures LacksAt(order, pending, instance, i + 1) <==> LacksAt(order[1..], pending, instance, i)
  {
    var more := order[1..];
    assert forall j :: 0 <= j < |more| ==> more[j] == order[j + 1];
    if AgreesUpTo(more, pending, instance, i) {
      forall j | 0 <= j < i + 1
        ensures order[j] in instance && instance[order[j]] == pending[order[j]]
      {
        if j > 0 {
          assert order[j] == more[j - 1];
        }
      }
    }
  }

  /** Comparing a stored instance throws exactly when it lacks a key that was entered and no key before
      that differs. */
  lemma {:induction false} FittingThrowsIff(order: seq<string>, pending: ListInstance, instance: ListInstance)
    requires forall k :: k in order ==> k in pending
    ensures FitsInOrder(order, pending, instance).None? <==> exists i :: LacksAt(order, pending, instance, i)
    ensures FitsInOrder(order, pending, instance) == Some(true) <==> AgreesUpTo(order, pending, instance, |order|)
    decreases |order|
  {
    hide AgreesUpTo, LacksAt;
    if order == [] {
      NothingLacks(order, pending, instance);
    } else if order[0] in instance && instance[order[0]] == pending[order[0]] {
      FittingThrowsIff(order[1..], pending, instance);
      OneMoreAgrees(order, pending, instance, |order| - 1);
      if i :| LacksAt(order[1..], pending, instance, i) {
        LackIsInside(order[1..], pending, instance, i);
        OneMoreAgrees(order, pending, instance, i);
      }
      if i :| LacksAt(order, pending, instance, i) {
        LackIsInside(order, pending, instance, i);
        OneMoreAgrees(order, pending, instance, i - 1);
      }
    } else {
      FirstDecides(order, pending, instance);
    }
  }

  lemma NothingLacks(order: seq<string>, pending: ListInstance, instance: ListInstance)
    requires order == []
    ensures AgreesUpTo(order, pending, instance, 0) && forall i :: !LacksAt(order, pending, instance, i)
  {
  }

  lemma LackIsInside(order: seq<string>, pending: ListInstance, instance: ListInstance, i: int)
    requires (forall k :: k in order ==> k in pending) && LacksAt(order, pending, instance, i)
    ensures 0 <= i < |order| && order[i] !in instance
  {
  }

  lemma FirstDecides(order: seq<string>, pending: ListInstance, instance: ListInstance)
    requires (forall k :: k in order ==> k in pending) && order != []
    requires order[0] !in instance || instance[order[0]] != pending[order[0]]
    ensures !AgreesUpTo(order, pending, instance, |order|)
    ensures order[0] !in instance ==> LacksAt(order, pending, instance, 0)
    ensures order[0] in instance ==> forall i :: !LacksAt(order, pending, instance, i)
  {
  }

  lemma {:induction false} CompleteFits(order: seq<string>, pending: ListInstance, instance: ListInstance)
    requires forall k :: k in order ==> k in pending && k in instance
    ensures FitsInOrder(order, pending, instance) == Some(forall k :: k in order ==> instance[k] == pending[k])
  {
    if order != [] {
      assert order == [order[0]] + order[1..];
      CompleteFits(order[1..], pending, instance);
    }
  }

  lemma {:induction false} CompleteFiltered(instances: seq<ListInstance>, pending: ListInstance)
    requires forall i :: i in instances ==> pending.Keys <= i.Keys
    ensures Filtered(instances, pending).Some?
    ensures forall i :: i in Filtered(instances, pending).value <==> i in instances && Fits(pending, i)
  {
    hide PartialFits;
    if instances != [] {
      var front, last := instances[..|instances| - 1], instances[|instances| - 1];
      assert instances == front + [last];
      CompleteFiltered(front, pending);
      CompletePartialFits(pending, last);
    }
  }

  lemma CompletePartialFits(pending: ListInstance, instance: ListInstance)
    requires pending.Keys <= instance.Keys
    ensures PartialFits(pending, instance) == Some(Fits(pending, instance))
  {
    CompleteFits(SortedKeys(pending.Keys), pending, instance);
  }

  /** When the stored instances have the keys, nothing throws and the fitting values are suggested. */
  lemma StoredValuesOfComplete(instances: seq<ListInstance>, pending: ListInstance, key: string)
    requires forall i :: i in instances ==> pending.Keys <= i.Keys && key in i
    ensures StoredValues(instances, pending, key) == Some(ValueSuggestions(instances, pending, key))
  {
    CompleteFiltered(instances, pending);
    SuggestionsFromFiltered(instances, Filtered(instances, pending).value, pending, key);
  }

  lemma SuggestionsFromFiltered(instances: seq<ListInstance>, filtered: seq<ListInstance>, pending: ListInstance,
                                key: string)
    requires forall i :: i in instances ==> key in i
    requires forall i :: i in filtered <==> i in instances && Fits(pending, i)
    ensures (set i | i in filtered :: LeafDataToCompletion(i[key])) == ValueSuggestions(instances, pending, key)
  {
    forall i | i in filtered
      ensures LeafDataToCompletion(i[key]) in ValueSuggestions(instances, pending, key)
    {
      assert i[key] in ValueChoices(instances, pending, key);
    }
  }

  // ---- following the suggestions ----

  /** A sequence of suggested keys, each with a suggested value, from the pending keys on. */
  predicate Suggested(needed: set<string>, instances: seq<ListInstance>, pending: ListInstance, es: seq<Entry>)
    decreases |es|
  {
    es == []
    || (&& es[0].key in MissingKeys(needed, pending)
        && es[0].value in ValueChoices(instances, pending, es[0].key)
        && Suggested(needed, instances, pending[es[0].key := es[0].value], es[1..]))
  }

  /** Stored instances carry every key of their list and nothing else. */
  predicate AreComplete(needed: set<string>, instances: seq<ListInstance>) {
    forall i :: i in instances ==> i.Keys == needed
  }

  /** Each accepted suggestion leaves one key fewer missing. */
  lemma MissingKeysDecrease(needed: set<string>, pending: ListInstance, e: Entry)
    requires e.key in MissingKeys(needed, pending)
    ensures MissingKeys(needed, pending[e.key := e.value]) == MissingKeys(needed, pending) - {e.key}
    ensures |MissingKeys(needed, pending[e.key := e.value])| == |MissingKeys(needed, pending)| - 1
  {
    assert MissingKeys(needed, pending[e.key := e.value]) == MissingKeys(needed, pending) - {e.key};
  }

  /** Suggested keys are distinct keys of the list that were still missing. */
  lemma {:induction false} SuggestedKeysAreMissing(needed: set<string>, instances: seq<ListInstance>,
                                                   pending: ListInstance, es: seq<Entry>)
    requires Suggested(needed, instances, pending, es)
    ensures DistinctKeys(es) && IsFresh(es, pending)
    ensures forall e :: e in es ==> e.key in needed
    decreases |es|
  {
    if es != [] {
      assert es == [es[0]] + es[1..];
      SuggestedKeysAreMissing(needed, instances, pending[es[0].key := es[0].value], es[1..]);
    }
  }

  /** Following suggestions always keeps a stored instance that fits what was entered. */
  lemma {:induction false} SuggestionsStayConsistent(needed: set<string>, instances: seq<ListInstance>,
                                                     pending: ListInstance, es: seq<Entry>)
    returns (fitting: ListInstance)
    requires Suggested(needed, instances, pending, es)
    requires es != [] || exists i :: i in instances && Fits(pending, i)
    ensures fitting in instances && Fits(pending + ToMap(es), fitting)
    decreases |es|
  {
    if es == [] {
      fitting :| fitting in instances && Fits(pending, fitting);
      assert pending + ToMap(es) == pending;
    } else {
      var e, more := es[0], es[1..];
      SuggestedKeysAreMissing(needed, instances, pending[e.key := e.value], more);
      assert es == [e] + more;
      PendingStep(pending, e, more);
      var i :| i in instances && Fits(pending, i) && e.key in i && i[e.key] == e.value;
      assert Fits(pending[e.key := e.value], i);
      fitting := SuggestionsStayConsistent(needed, instances, pending[e.key := e.value], more);
    }
  }

  lemma FullFit(entered: ListInstance, i: ListInstance)
    requires Fits(entered, i) && entered.Keys == i.Keys
    ensures entered == i
  {
  }

  lemma NoneMissing(needed: set<string>, es: seq<Entry>)
    requires forall e :: e in es ==> e.key in needed
    requires MissingKeys(needed, ToMap(es)) == {}
    ensures KeySet(es) == needed
  {
    forall k | k in needed
      ensures k in KeySet(es)
    {
      assert k !in MissingKeys(needed, ToMap(es));
    }
  }

  /** Soundness: once no key is missing, the keys entered by following suggestions are those of a
      stored instance. */
  lemma FollowingSuggestionsEndsAtAnInstance(needed: set<string>, instances: seq<ListInstance>, es: seq<Entry>)
    requires AreComplete(needed, instances) && instances != []
    requires Suggested(needed, instances, map[], es)
    requires MissingKeys(needed, ToMap(es)) == {}
    ensures ToMap(es) in instances
  {
    NothingPending(instances[0], es);
    hide Fits, ToMap, KeySet, Suggested, MissingKeys;
    var i := SuggestionsStayConsistent(needed, instances, map[], es);
    SuggestedKeysAreMissing(needed, instances, map[], es);
    NoneMissing(needed, es);
    FullFit(ToMap(es), i);
  }

  lemma NothingPending(i: ListInstance, es: seq<Entry>)
    ensures Fits(map[], i) && map[] + ToMap(es) == ToMap(es) && ToMap(es).Keys == KeySet(es)
  {
  }

  lemma {:induction false} InstanceIsSuggested(needed: set<string>, instances: seq<ListInstance>,
                                               pending: ListInstance, order: seq<string>, i: ListInstance)
    requires i in instances && Fits(pending, i) && i.Keys == needed
    requires NoDuplicates(order) && forall k :: k in order ==> k in needed && k !in pending
    ensures Suggested(needed, instances, pending, Along(order, i))
    decreases |order|
  {
    if order != [] {
      var k := order[0];
      assert i[k] in ValueChoices(instances, pending, k);
      assert Along(order, i)[1..] == Along(order[1..], i);
      InstanceIsSuggested(needed, instances, pending[k := i[k]], order[1..], i);
    }
  }

  /** Completeness: every stored instance can be reached through suggestions, whatever the order in
      which its keys are entered. */
  lemma EveryInstanceIsReachable(needed: set<string>, instances: seq<ListInstance>, order: seq<string>, i: ListInstance)
    requires AreComplete(needed, instances) && i in instances
    requires NoDuplicates(order) && forall k :: k in order <==> k in needed
    ensures Suggested(needed, instances, map[], Along(order, i))
    ensures ToMap(Along(order, i)) == i
  {
    InstanceIsSuggested(needed, instances, map[], order, i);
    AlongGivesKeys(order, i);
  }

  // ---- what is typed by accepting suggestions ----

  /** The brackets typed when each key suggestion, value suggestion and closing bracket is taken. */
  function Typed(es: seq<Entry>): string
    decreases |es|
  {
    if es == [] then ""
    else "[" + (es[0].key + "=") + (LeafDataToCompletion(es[0].value) + "]" + Typed(es[1..]))
  }

  function AsKeyTexts(es: seq<Entry>): (ts: seq<KeyText>)
    ensures |ts| == |es|
  {
    seq(|es|, n requires 0 <= n < |es| => KeyTextOf(es[n].key, es[n].value))
  }

  lemma {:induction false} TypedIsWritten(es: seq<Entry>)
    requires forall e :: e in es ==> IsPrintableValue(e.value)
    ensures Typed(es) == Written(AsKeyTexts(es))
    decreases |es|
  {
    if es != [] {
      var more := es[1..];
      KeyIsWritable(es[0].key, es[0].value);
      TypedUnfolds(es);
      WrittenUnfolds(AsKeyTexts(es));
      TextsOfMore(es);
      hide Typed, Written, AsKeyTexts, LeafDataToCompletion, KeyTextOf, IsPrintableValue, IsWritable;
      var t, rest := AsKeyTexts(es)[0], Written(AsKeyTexts(more));
      TypedIsWritten(more);
      TypedAlgebra(t.key, [t.quote] + t.text + [t.quote], rest);
      assert Typed(es) == "[" + (t.key + "=") + ([t.quote] + t.text + [t.quote] + "]" + rest);
    }
  }

  lemma TextsOfMore(es: seq<Entry>)
    requires es != []
    ensures AsKeyTexts(es)[0] == KeyTextOf(es[0].key, es[0].value) && AsKeyTexts(es)[1..] == AsKeyTexts(es[1..])
    ensures forall e :: e in es[1..] ==> e in es
  {
  }

  lemma TypedUnfolds(es: seq<Entry>)
    requires es != []
    ensures Typed(es) == "[" + (es[0].key + "=") + (LeafDataToCompletion(es[0].value) + "]" + Typed(es[1..]))
  {
  }

  lemma WrittenUnfolds(ts: seq<KeyText>)
    requires ts != []
    ensures Written(ts)
         == "[" + ts[0].key + "=" + ([ts[0].quote] + ts[0].text + [ts[0].quote] + "]" + Written(ts[1..]))
  {
  }

  lemma TextsAreEntries(es: seq<Entry>)
    requires forall e :: e in es ==> IsPrintableValue(e.value)
    ensures EntriesOf(AsKeyTexts(es)) == es
    ensures forall t :: t in AsKeyTexts(es) ==> IsWritable(t)
  {
    var ts := AsKeyTexts(es);
    forall i | 0 <= i < |es|
      ensures IsWritable(ts[i]) && EntriesOf(ts)[i] == es[i]
    {
      assert es[i] in es;
      KeyIsWritable(es[i].key, es[i].value);
    }
  }

  lemma KeyIsWritable(k: string, v: LeafData)
    requires IsPrintableValue(v)
    ensures var t := KeyTextOf(k, v);
            && IsWritable(t) && t.key == k && Str(t.text) == v
            && LeafDataToCompletion(v) == [t.quote] + t.text + [t.quote]
  {
  }

  lemma TypedAlgebra(key: string, value: string, more: string)
    ensures "[" + (key + "=") + (value + "]" + more) == "[" + key + "=" + (value + "]" + more)
  {
  }

  /** For string keys the text typed by following suggestions to the end is an accepted list
      suffix, and its keys are those of a stored instance. */
  lemma CompletedSuffixIsAccepted(foreign: ForeignParser, spec: ListSpec, instances: seq<ListInstance>,
                                  es: seq<Entry>, rest: string)
    requires IsStringKeyed(spec) && AreComplete(spec.needed, instances) && instances != []
    requires forall e :: e in es ==> IsPrintableValue(e.value)
    requires Suggested(spec.needed, instances, map[], es) && MissingKeys(spec.needed, ToMap(es)) == {}
    requires rest == "" || rest[0] != '['
    ensures ToMap(es) in instances
    ensures ParseListSuffix(foreign, spec, map[], Typed(es) + rest) == Accepted(ToMap(es), rest)
  {
    FollowingSuggestionsEndsAtAnInstance(spec.needed, instances, es);
    SuggestedKeysAreMissing(spec.needed, instances, map[], es);
    TypedIsWritten(es);
    TextsAreEntries(es);
    NoneMissing(spec.needed, es);
    StringKeysAreRead(foreign, spec);
    WrittenKeysAreAccepted(foreign, spec, AsKeyTexts(es), rest);
  }
}
