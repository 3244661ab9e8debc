/** The state that a parse threads through its handlers (src/parser_context.cpp,
    src/ast_handlers.hpp) and the parsers that update it (src/path_parser.hpp), each proved against
    the corresponding function of ListSuffix and PathParser. The iterator pair of the source is
    the unread input here. */
module ParserContext {
  import opened Wrappers
  import opened Text
  import opened AstPath
  import opened LeafParsers
  import opened StaticSchema
  import opened ListSuffix
  import opened KeyCompletion
  import opened KeyOffers

  class ParserContext {
    const index: Index
    const foreign: ForeignParser
    /** m_dataquery->listKeys: the stored instances of a list. */
    const storedInstances: seq<DataNode> -> seq<ListInstance>
    const curPathOrig: DataPath
    const completing: bool

    /** The data path alternative of m_curPath; the schema alternative belongs to the fallback for
        schema paths. */
    var curPath: DataPath
    var tmpListPath: seq<DataNode>
    var tmpListKeys: ListInstance
    var tmpLeafLocation: seq<DataNode>
    var tmpLeafNode: NodePair
    /** Only the texts of m_suggestions. */
    var suggestions: set<string>

    constructor (index: Index, foreign: ForeignParser, storedInstances: seq<DataNode> -> seq<ListInstance>,
                 curDir: DataPath, completing: bool)
      ensures this.index == index && this.foreign == foreign && this.storedInstances == storedInstances
      ensures this.curPathOrig == curDir && this.completing == completing && this.curPath == curDir
      ensures tmpListKeys == map[] && suggestions == {}
    {
      this.index, this.foreign, this.storedInstances := index, foreign, storedInstances;
      this.curPathOrig, this.completing, this.curPath := curDir, completing, curDir;
      tmpListPath, tmpListKeys := [], map[];
      tmpLeafLocation, tmpLeafNode := [], NodePair(None, "");
      suggestions := {};
    }

    // ---- the context path ----

    method ClearPath()
      modifies `curPath
      ensures curPath == DataPath(Absolute, [])
    {
      curPath := DataPath(Absolute, []);
    }

    method ResetPath()
      modifies `curPath
      ensures curPath == curPathOrig
    {
      curPath := curPathOrig;
    }

    /** Returns false for the std::logic_error of an impossible path. */
    method PushPathFragment(node: DataNode) returns (ok: bool)
      modifies `curPath
      ensures ok <==> PushFragment(old(curPath.nodes), node).Some?
      ensures ok ==> curPath == DataPath(old(curPath.scope), Push(old(curPath.nodes), node))
    {
      curPath := curPath.(nodes := Push(curPath.nodes, node));
      ok := ValidDataNodes(curPath.nodes);
    }

    /** initializePath_class::on_success */
    method InitializePath()
      modifies this
      ensures curPath == curPathOrig && tmpListPath == [] && tmpListKeys == map[] && suggestions == {}
    {
      ResetPath();
      tmpListPath, tmpListKeys, suggestions := [], map[], {};
    }

    // ---- handlers of the list suffix ----

    /** key_identifier_class::on_success: false is REJECT_PARSING. */
    method KeyIdentifierSuccess(key: string, needed: set<string>) returns (pass: bool)
      requires tmpListPath != [] && ListKeys(index, tmpListPath) == Some(needed)
      modifies `tmpLeafLocation, `tmpLeafNode
      ensures pass <==> key in needed
      ensures pass ==> tmpLeafLocation == tmpListPath
      ensures pass ==> tmpLeafNode == NodePair(tmpListPath[|tmpListPath| - 1].prefix, key)
    {
      pass := key in needed;
      if pass {
        tmpLeafLocation := tmpListPath;
        tmpLeafNode := NodePair(tmpListPath[|tmpListPath| - 1].prefix, key);
      }
    }

    /** keyValue_class::on_success: a key entered twice is refused, another becomes pending. */
    method KeyValueSuccess(key: string, value: LeafData) returns (pass: bool)
      modifies `tmpListKeys
      ensures pass <==> key !in old(tmpListKeys)
      ensures tmpListKeys == if pass then old(tmpListKeys)[key := value] else old(tmpListKeys)
    {
      pass := key !in tmpListKeys;
      if pass {
        tmpListKeys := tmpListKeys[key := value];
      }
    }

    /** createKeySuggestions_class::on_success */
    method CreateKeySuggestions(needed: set<string>)
      modifies `suggestions
      ensures suggestions == KeySuggestions(needed, tmpListKeys)
    {
      suggestions := GenerateMissingKeyCompletionSet(needed, tmpListKeys);
    }

    /** The stored instances that a completion looks at. */
    function Query(): Option<seq<ListInstance>>
      reads this
    {
      if completing then Some(storedInstances(tmpListPath)) else None
    }

    /** createValueSuggestions_class::on_success, which does nothing unless completing; false is the
        exception for a stored instance that lacks a key. */
    method CreateValueSuggestions() returns (ok: bool)
      modifies `suggestions
      ensures var offered := OfferedValues(Query(), tmpListKeys, tmpLeafNode.name, old(suggestions));
              ok == offered.Some? && suggestions == if ok then offered.value else old(suggestions)
    {
      ok := true;
      if completing {
        var texts := GenerateValueSuggestions(storedInstances(tmpListPath), tmpListKeys, tmpLeafNode.name);
        ok := texts.Some?;
        if ok {
          suggestions := texts.value;
        }
      }
    }

    /** leaf_data: the parser of the leaf's type runs, and may change the suggestions; None is a failed
        match or the exception of an unknown leaf. */
    method ParseLeafData(s: string) returns (r: Option<(LeafData, string)>)
      modifies `suggestions
      ensures var t := LeafTypeAt(index, tmpLeafLocation, tmpLeafNode);
              && r == (if t.None? then None else ParseLeaf(foreign, t.value, s))
              && suggestions == if t.None? then old(suggestions)
                                else LeafSuggestions(foreign, t.value, s, old(suggestions))
    {
      var leafType := LeafTypeAt(index, tmpLeafLocation, tmpLeafNode);
      if leafType.None? {
        return None;
      }
      suggestions := LeafSuggestions(foreign, leafType.value, s, suggestions);
      return ParseLeaf(foreign, leafType.value, s);
    }

    /** suggestKeysEnd_class::on_success */
    method SuggestKeysEnd(needed: set<string>)
      modifies `suggestions
      ensures suggestions == {EndSuggestion(needed, tmpListKeys)}
    {
      var missing := GenerateMissingKeyCompletionSet(needed, tmpListKeys);
      suggestions := {if missing == {} then "]/" else "]["};
    }

    // ---- list suffix ----

    /** keyValue, after an opening bracket; None is a failed expectation or an exception. */
    method ParseKeyValue(spec: ListSpec, s: string) returns (r: Option<(string, LeafData, string)>)
      requires tmpListPath != [] && SpecOf(index, tmpListPath) == Some(spec)
      modifies this
      ensures tmpListPath == old(tmpListPath) && curPath == old(curPath)
      ensures var (kv, offered) := KeyValueStep(foreign, spec, Query(), old(tmpListKeys), s, old(suggestions));
              && r == (if kv.Some? && kv.value.0 in old(tmpListKeys) then None else kv)
              && suggestions == offered
      ensures tmpListKeys == if r.Some? then old(tmpListKeys)[r.value.0 := r.value.1] else old(tmpListKeys)
    {
      var n := IdentifierRun(s);
      if n == 0 || !IsIdentifierStart(s[0]) {
        return None;
      }
      var key := s[..n];
      var pass := KeyIdentifierSuccess(key, spec.needed);
      if !pass || n == |s| || s[n] != '=' {
        return None;
      }
      pass := CreateValueSuggestions();
      if !pass {
        return None;
      }
      var value := ParseLeafData(s[n + 1..]);
      if value.None? {
        return None;
      }
      pass := KeyValueSuccess(key, value.value.0);
      return if pass then Some((key, value.value.0, value.value.1)) else None;
    }

    /** listSuffix, the bracket loop and listSuffix_class::on_success: what it reads, and what it leaves
        suggested. */
    method ParseListSuffix(s: string) returns (r: SuffixResult)
      requires tmpListPath != []
      modifies this
      ensures tmpListPath == old(tmpListPath) && curPath == old(curPath)
      ensures SpecOf(index, tmpListPath).None? ==> r == Aborted && suggestions == old(suggestions)
      ensures SpecOf(index, tmpListPath).Some? ==>
                var spec := SpecOf(index, tmpListPath).value;
                var (loop, offered) := CompletingLoop(foreign, spec, Query(), old(tmpListKeys), s, old(suggestions));
                r == SuffixOf(spec, old(tmpListKeys), loop) && suggestions == offered
      ensures r.Accepted? ==> tmpListKeys == map[]
      ensures r.Rejected? ==> tmpListKeys == r.pending
    {
      hide ReadKeyValue, KeyValueStep, SpecOf, EndSuggestion, KeySuggestions;
      var spec := SpecOf(index, tmpListPath);
      if spec.None? {
        return Aborted;
      }
      var needed, first := spec.value.needed, s;
      var ast: ListInstance := map[];
      ghost var start, query := tmpListKeys, Query();
      ghost var whole := CompletingLoop(foreign, spec.value, query, start, s, suggestions);
      while first != "" && first[0] == '['
        invariant tmpListPath == old(tmpListPath) && curPath == old(curPath) && Query() == query
        invariant ast == tmpListKeys - start.Keys && start.Keys <= tmpListKeys.Keys
        invariant CompletingLoop(foreign, spec.value, query, tmpListKeys, first, suggestions) == whole
        decreases |first|
      {
        CreateKeySuggestions(needed);
        var kv := ParseKeyValue(spec.value, first[1..]);
        if kv.None? {
          return Aborted;
        }
        SuggestKeysEnd(needed);
        ast := ast[kv.value.0 := kv.value.1];
        var rest := kv.value.2;
        if rest == "" || rest[0] != ']' {
          return Aborted;
        }
        first := rest[1..];
      }
      if ast.Keys != needed {
        return Rejected(tmpListKeys);
      }
      tmpListKeys := map[];
      return Accepted(ast, first);
    }
  }
}
