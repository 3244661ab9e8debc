# A verified model of netconf-cli

netconf-cli is an interactive shell over YANG data. This project models the logic that is its own:
the schema-driven path language and its printer, the resolution of ".." against the working
directory, the flat schema index, the RPC/action input mode of the interpreter, and the loops over
data trees. libyang, sysrepo, NETCONF and Boost.Spirit are outside; what they answer enters as
parameters (an abstract leaf parser for each numeric or binary type, with the values it suggests, and
the `Answers` of one command: whether the factory returns a store, whether a datastore takes a call,
and so on).

Check everything with `dafny verify dfyconfig.toml`.

## How the source is represented

- Strings are `seq<char>`. A pair of iterators is the unread input. A failed X3 rule gives the input
  back (`NodeFail`, `Rejected`), a failed expectation or an exception ends the command (`NodeThrow`,
  `Aborted`, a `None` result, or `ok == false`).
- Paths are copied by value everywhere in the source, so they are values here. `ParserContext`,
  `StaticSchema`, `Parser`, `ProxyDatastore`, `Interpreter` and `YangAccess` are classes whose
  methods update their fields. Each such method is proved equal to a function of the old state, and
  the theorems are lemmas about those functions.
- A datastore is the history of the calls it was given and of whether it took them. The items of an
  input datastore are determined by that history, so `Execute` records the history itself.
- `std::map` and `std::set` order matters only where keys are printed; `Ordering.SortedKeys` is that
  order.

## The modules

- `Text`, `Ordering`, `Wrappers`: string helpers, key order, optional values.
- `AstPath`: paths, `pushFragment`, `realPath`, `toCanonicalPath`, and the laws of resolution.
- `PathPrinter`, `UniqueReadability`: printing, and reading a printed path in only one way.
- `LeafParsers`: longest-match symbols, quoted strings, the bits loop, unions.
- `StaticSchema`, `Identities`: the flat index as a tree, and the derivation graph.
- `ListSuffix`: the `[key=value]` suffix.
- `KeyCompletion`, `KeyOffers`: the suggestions of the handlers for keys and values, and what is left
  of them once the leaf parsers, which write suggestions too, have run.
- `PathParser`, `ParserContext`, `NodeParser`: the path grammar as functions, and the stateful
  parsers proved against them.
- `RoundTrip`, `RoundTripLimits`: parsing and printing undo each other, and where they do not.
- `PathEnds`: what a path leaves unread, the trailing slash, and elements that are not complete.
- `Example`: a small schema that meets the hypotheses of these theorems.
- `InputMode`, `InputRuns`, `Interpreter`: the interpreter as a state machine, what its runs keep, and
  the objects that implement it.
- `InputBoundary`, `InputLimits`: in terms of path nodes, which commands leave an input, and an input
  for each way out.
- `SchemaWalk`: what the parser accepts and where the interpreter goes with it stays in the schema.
- `DataTree`: grouping leaf-list entries and printing the tree.
- `YangAccess`: removing and moving nodes in the ring of siblings.

## Where the code is not what one expects

- An absolute path with ".." passes the input-mode guard as written but is routed as resolved, so it
  can leave the input (`InputLimits.AbsoluteDotsEscape`; `InputBoundary.EditGoesToInputIff` says which
  paths do).
- A relative `move` source is routed unresolved and always reaches the main datastore
  (`InputLimits.RelativeMoveEscapes`). tests/interpreter.cpp:491-495 expects this.
  `InputBoundary.MainChangesIffSomeStepLeaves` puts the two ways out together, for whole runs.
- `exec` resets the working directory before anything can throw, so `exec <path>` over an active
  input leaves the prompt out of range (`InputLimits.ExecWithPathLosesTheCwd`); so does a `prepare`
  whose first `createItem` throws (`InputLimits.FailedPrepareStaysActive`).
  `InputBoundary.StepKeepsInsideIff` has all cases.
- `cd` to an absolute path with ".." keeps the ".." in the working directory, which is then no node of
  the schema (`SchemaWalk.CdStaysInSchemaIff` says exactly when).
- Routing by string prefix is not containment of nodes: `/m:run` is a prefix of `/m:runs`
  (`UniqueReadability.StringPrefixIsNotContainment`; `UniqueReadability.PrintedBeginsIff` says what
  it is).
- The stored values of a key are suggested and then replaced by the parser of the key's leaf:
  enumerations and identityrefs offer all their values, stored or not, and bits match nothing at once,
  so that the bracket is offered instead (`KeyOffers.EnumKeyOffersUnstoredValue`,
  `KeyOffers.BitsKeyHidesStoredValue`; `KeyOffers.StoredValuesOfferedIff` says for which types the
  stored values are offered).
- Leaf-list elements print as `[.='x']` but parse as `['x']`, and keys that are not strings print
  quoted but parse unquoted (`RoundTripLimits`).
- A leaf whose name continues the name of a preceding leaf-list makes `printTree` throw
  (`DataTree.LongerNameBreaksPrinting`), and so does a second leaf-list of such a name behind a
  container without an entry, which ends the run for grouping and not for printing
  (`DataTree.ContainerKeepsTheRun`). `DataTree.GroupedTreePrintsIff` says exactly when it throws.
- An identity name that is added twice can close a cycle, on which `getIdentSet` would not end
  (`Identities.ReusedNameMakesCycle`); it does if and only if the new base derives from the name
  (`Identities.AddedBaseKeepsAcyclicIff`).

## Model

| member | source | states |
|---|---|---|
| Text.JoinPathsAssociative | src/utils.cpp:14-36 | joinPaths is associative on every three strings, with or without slashes at their ends |
| Text.JoinPathsUnit | src/utils.cpp:20-26 | the empty string is its unit on both sides |
| Text.JoinedPathSplits | src/utils.cpp:38-50 | cutting the last node off a location joined with a slash-free name gives back the location and the name |
| Text.JoinedPathInjective | src/utils.cpp:14-50 | two locations joined with slash-free names are equal only if locations and names are |
| Text.IdentifierIff | src/path_parser.hpp:53-54 | identifiers, by character codes, are those of section 6.2 of RFC 7950 |
| Text.SpaceIff | src/common_parsers.hpp:25-26 | the six spaces of the C locale |
| Ordering.SortedKeysIncrease | src/ast_path.cpp:234-236 | the keys are printed in strictly increasing std::string order |
| Ordering.LessIff | src/ast_path.cpp:234-236 | in that order the first position that differs decides, and a shorter text comes before its continuations |
| AstPath.ComputePushAll | src/ast_path.cpp:370-374 | the pushing loop computes the resolution, and fails when a push throws |
| AstPath.ComputeRealPath | src/ast_path.cpp:364-375 | realPath returns an absolute path as it is and resolves a relative one |
| AstPath.ComputeCanonicalPath | src/interpreter.cpp:361-380 | toCanonicalPath resolves an absolute path from the root and any other from the cwd |
| AstPath.ResolveConcat | src/ast_path.cpp:338-375 | resolving p and then q is resolving p followed by q, exceptions included |
| AstPath.ResolveIsSaturatingAction | src/ast_path.cpp:338-349 | a path acts on every start by climbing some levels, saturating at the root, and then appending |
| AstPath.ResolveHasNoNodeUp | src/ast_path.cpp:342-346 | resolution from a start without ".." leaves no ".." |
| AstPath.PushSucceedsIff | src/ast_path.cpp:340-362 | a node is pushed onto a valid path unless that ends in a leaf, a leaf-list, an element of one or a list without keys; ".." always pops, and stays at the root |
| AstPath.PushSchemaSucceedsIff | src/ast_path.cpp:340-356 | on schema paths, unless that ends in a leaf or a leaf-list |
| AstPath.ResolveIsValid | src/ast_path.cpp:137-169 | only containers, list elements, RPCs, actions and ".." have nodes behind them in a resolved path |
| AstPath.ResolveFromRootIff | src/ast_path.cpp:137-169 | a path without ".." resolves, to itself, if and only if nothing follows a leaf, a leaf-list, an element of one or a list without keys |
| AstPath.ResolveSchemaFromRootIff | src/ast_path.cpp:137-169 | the same on schema paths, where nothing follows a leaf or a leaf-list |
| AstPath.ResolveDotFree | src/ast_path.cpp:346-362 | a path without ".." is simply appended, and no push throws when the result is valid |
| AstPath.ToSchemaCommutesWithResolve | src/ast_path.cpp:300-362 | dataPathToSchemaPath commutes with resolution by pushFragment |
| AstPath.SameSchemaNodeIff | src/ast_path.cpp:300-325 | two data nodes become the same schema node exactly when they differ in keys or values alone |
| AstPath.RealPathVersusCanonical | src/interpreter.cpp:361-380 | the two resolvers agree exactly on relative paths and on paths without ".." |
| PathPrinter.PrintNode | src/ast_path.cpp:229-253 | the visitor prints keys in order, quoted, and separated by "][" |
| PathPrinter.QuotesAre | src/ast_path.cpp:218-227 | a text is put between single quotes unless it holds one, and then between double quotes |
| PathPrinter.PathToDataString | src/ast_path.cpp:260-276 | the printing loop joins the printed nodes |
| PathPrinter.PathToSchemaString | src/ast_path.cpp:278-293 | the same for schema paths, where keys and values are not written |
| PathPrinter.PrintingIsHomomorphism | src/ast_path.cpp:260-276 | in mode WhenNeeded, printing a followed by b joins the print of a with the relative print of b |
| PathPrinter.DataStringIsSlashed | src/ast_path.cpp:260-276 | a printed path is its node texts, each after one slash |
| UniqueReadability.NodeTextUnique | src/ast_path.cpp:218-253 | two printed nodes, each followed by the end or a slash, are equal only if prefix, name and keys as strings are |
| UniqueReadability.PrintedPrefixIffNodePrefix | src/ast_path.cpp:229-276 | one printed absolute path continues another at a slash exactly when its nodes begin with the other's, whatever the key values hold |
| UniqueReadability.PrintedBeginsIff | src/proxy_datastore.cpp:102-109 | one printed path is a string prefix of another, as routing asks, exactly when its nodes but the last begin the other's and the text of its last node begins that of the next |
| UniqueReadability.StringPrefixIsNotContainment | src/proxy_datastore.cpp:102-109 | without that boundary a string prefix is no containment |
| LeafParsers.LongestSymbolIs | src/path_parser.hpp:180 | a symbol before a character that no symbol contains is matched whole, also when it is a prefix of others |
| LeafParsers.QuotedRoundTrip | src/leaf_data.hpp:31-33 | a printed string without both quote kinds is read back and nothing more is consumed |
| LeafParsers.ParsedStringIsPrintable | src/leaf_data.hpp:31-33 | a parsed string never holds both quote kinds |
| LeafParsers.ParseBits | src/leaf_data.hpp:159-184 | the do-while loop ends on every input and computes the specified list, rest and suggestions |
| LeafParsers.BitsAreAllowedOnce | src/leaf_data.hpp:171-179 | on every input the bits are allowed ones, none of them twice |
| LeafParsers.BitsRoundTrip | src/leaf_data.hpp:159-184 | the space-joined print of any duplicate-free list of allowed bits is read back whole, also when bit names are prefixes of one another |
| LeafParsers.EnumRoundTrip | src/leaf_data.hpp:126-141 | the print of any enumeration value is read back whole, also when values are prefixes of one another |
| LeafParsers.BitsAreSuggested | src/leaf_data.hpp:159-184 | all bits are suggested at first, the others behind one, none behind a space |
| LeafParsers.UnionTakesTheFirstMatch | src/leaf_data.hpp:185-190 | a union fails when all alternatives do, and else gives what the first matching one gives |
| LeafParsers.OfferIsMade | src/leaf_data.hpp:109-190 | at the end of the input the type alone decides whether the leaf parser keeps any suggestions, replaces them by fixed ones, or matches |
| LeafParsers.ReadsQuotedStrings | src/leaf_data.hpp:155-190 | a leafref to strings and a union of them read what a string reads |
| Identities.AddIdentityContents | src/static_schema.cpp:114-121 | a call adds the name and the one step from its base, and changes no other identity |
| Identities.AddIdentityKeepsClosed | src/static_schema.cpp:114-121 | every derived identity can still be looked up |
| Identities.AddedBaseKeepsAcyclicIff | src/static_schema.cpp:114-121 | adding any name, known or not, under a base keeps derivation acyclic (section 7.18.2 of RFC 7950) if and only if the base does not derive from the name |
| Identities.AddedRootKeepsAcyclic | src/static_schema.cpp:120 | adding any name without a base keeps derivation acyclic |
| Identities.DerivationIsAntisymmetric | src/static_schema.cpp:123-130 | on an acyclic graph two identities that derive from each other are the same |
| Identities.ReusedNameMakesCycle | src/static_schema.cpp:114-121 | the smallest case: a, b under a, and a again under b |
| Identities.GetIdentSet | src/static_schema.cpp:123-130 | on every closed acyclic graph, shared bases included, the recursion without a visited check ends, no lookup fails, and it adds exactly the identity and all derived from it |
| Identities.ValidIdentities | src/static_schema.cpp:87-93 | the result is the base and everything derived from it through any number of steps |
| StaticSchema.AddNodeContents | src/static_schema.cpp:28-107 | a builder call adds exactly the child and its locations, and keeps what was there |
| StaticSchema.AddNodeKeepsTree | src/static_schema.cpp:28-107 | it keeps the index a tree: every child has its own location, and no other child changes |
| StaticSchema.ChildKeysAreDistinct | src/static_schema.cpp:33-34 | different (location, name) pairs have different keys |
| StaticSchema.LocationOfChild | src/ast_path.cpp:278-298 | the location of a path with one more node joins the node's qualified name |
| StaticSchema.LookupRoutesAgree | src/static_schema.cpp:235-292 | for each listed child the string lookup and the (location, node) lookup find the same entry, with or without the same-module prefix |
| StaticSchema.ListKeysOfChild | src/static_schema.cpp:71-77 | listKeys finds the keys of a list whichever way its prefix is written, and throws for every other child |
| StaticSchema.LeafTypeOfChild | src/static_schema.cpp:132-145 | leafType finds the type of a leaf and of a leaf-list, and throws for every other child |
| StaticSchema.FullNodeNamesAgree | src/static_schema.cpp:235-292 | the overload on schema paths and the one on strings complete a bare name alike, and fail for the root alone |
| StaticSchema.StaticSchema.constructor | src/static_schema.cpp:13-16 | the index starts with an empty root |
| StaticSchema.StaticSchema.AddPlainNode | src/static_schema.cpp:28-35 | addContainer, addList, addLeaf, addLeafList and addAction: the specified index for every name, unchanged when the location is unknown, and a tree still when the name is qualified |
| StaticSchema.StaticSchema.AddRpc | src/static_schema.cpp:37-46 | an RPC, of any name, also brings the locations of its input and output |
| StaticSchema.StaticSchema.AddIdentity | src/static_schema.cpp:114-121 | an unknown base changes nothing; else the specified graph, acyclic if and only if the base does not derive from the name |
| StaticSchema.StaticSchema.ValidIdentitiesOf | src/static_schema.cpp:87-93 | exactly the identities derived from the base, while no builder call has closed a cycle |
| ListSuffix.SuffixAcceptsExactlyTheKeys | src/path_parser.hpp:62-73 | the suffix is accepted exactly when it gives every key of the list once, in any order, each with a value of its type, none still pending (section 7.8.2 of RFC 7950) |
| ListSuffix.OrderDoesNotMatter | src/path_parser.hpp:72-73 | the same entries in another order give the same keys |
| ListSuffix.StaleKeyBlocksAcceptance | src/ast_handlers.hpp:105-106 | a key left pending makes the next list that needs it unacceptable |
| ListSuffix.OtherKeysStayPending | src/ast_handlers.hpp:95-118 | entries that do not give every key are no match, and all stay pending |
| ListSuffix.SpecOfChild | src/ast_handlers.hpp:56-72 | the leaf of a key is the child of the list in the list's own module, whether that was written or not |
| ListSuffix.WrittenKeysAreAccepted | src/path_parser.hpp:53-73 | quoted keys in any order and either quote style are accepted with the written values, whenever the types of the keys read quoted strings |
| ListSuffix.StringKeysAreRead | src/leaf_data.hpp:155-190 | string keys do, and leafrefs to and unions of strings |
| ListSuffix.AcceptedValuesArePrintable | src/leaf_data.hpp:31-33 | accepted values of such keys can be printed and read back |
| KeyCompletion.GenerateMissingKeyCompletionSet | src/ast_handlers.cpp:2-16 | the loop offers each key of the list that is not pending, followed by "=" |
| KeyCompletion.GenerateValueSuggestions | src/ast_handlers.hpp:299-318 | the values of the key among the instances that fit what was entered, or the exception of a missing key |
| KeyCompletion.FittingThrowsIff | src/ast_handlers.hpp:303-309 | comparing a stored instance throws exactly when it lacks a key before any that differs |
| KeyCompletion.EndSuggestion | src/ast_handlers.hpp:331-335 | "]/" is offered exactly when no key is missing |
| KeyCompletion.MissingKeysDecrease | src/ast_handlers.cpp:2-16 | an accepted suggestion leaves one key fewer missing |
| KeyCompletion.StoredValuesOfComplete | src/ast_handlers.hpp:303-318 | nothing throws when the stored instances have the keys, and the result is the values of those that fit |
| KeyCompletion.CompletedSuffixIsAccepted | src/ast_handlers.hpp:272-337 | for string keys, the text typed by following the stored values is an accepted suffix of that instance |
| KeyOffers.CompletingReadsTheSame | src/path_parser.hpp:62-73 | completing reads exactly what parsing reads |
| KeyOffers.KeysAreOffered | src/path_parser.hpp:72 | a line that ends after any accepted entries, however they are written, and an opening bracket leaves exactly the missing keys suggested |
| KeyOffers.PartialValueIsOffered | src/path_parser.hpp:62-73 | a line that ends inside or right behind a value leaves what the leaf parser makes of the stored values that fit, or the bracket that ends the key |
| KeyOffers.EndIsOffered | src/ast_handlers.hpp:322-337 | right behind a value "]/" is left suggested when it is the last key that was missing, and "][" else |
| KeyOffers.ValuesAreOffered | src/path_parser.hpp:62-63 | a line that ends after a key and "=" leaves the stored values that fit suggested, or what the key's leaf parser puts in their place |
| KeyOffers.StoredValuesOfferedIff | src/leaf_data.hpp:109-190 | exactly the stored values that fit are offered, for all instances of the list's types and keys typed before, if and only if the type of the key keeps the suggestions (or has none to offer, in a list that cannot have instances) |
| KeyOffers.FollowedOffersEndAtAnInstance | src/ast_handlers.hpp:288-320 | for such types, following what is left suggested until no key is missing ends at a stored instance |
| KeyOffers.EveryInstanceIsOffered | src/ast_handlers.hpp:288-320 | and every stored instance can be typed that way, its keys in any order |
| KeyOffers.StringKeysAreCompleted | src/leaf_data.hpp:31-33 | string keys are of such types, and their values are read back from what is offered |
| KeyOffers.EnumsReadBack | src/ast_handlers.cpp:18-24 | enumeration values are read back from what is offered, when no name holds a bracket |
| KeyOffers.BitsReadBack | src/ast_handlers.cpp:18-24 | so are bits |
| KeyOffers.OthersReadBack | src/ast_handlers.cpp:18-24 | so is any other value that its parser reads back from its print, to which nothing is added |
| KeyOffers.NothingIsLookedUp | src/ast_handlers.hpp:288-296 | when nothing is completed the suggestions are those for keys, as far as the leaf parser keeps them |
| KeyOffers.RefusedKeyOffers | src/ast_handlers.hpp:31-43 | a key entered again, or without a leaf, ends the parse, and what is left suggested then |
| KeyOffers.EnumKeyOffersUnstoredValue | src/leaf_data.hpp:109-141 | with one enumeration key, an offered value that no stored instance has |
| KeyOffers.BitsKeyHidesStoredValue | src/leaf_data.hpp:159-184 | with one bits key, a stored value that is not offered |
| ParserContext.ParserContext.PushPathFragment | src/parser_context.cpp:40-47 | the context path is pushed onto, or popped by "..", or the push throws |
| ParserContext.ParserContext.InitializePath | src/ast_handlers.hpp:258-268 | the context path is the working directory again and nothing is pending |
| ParserContext.ParserContext.KeyIdentifierSuccess | src/ast_handlers.hpp:56-72 | only keys of the list pass, and the leaf to be read is recorded |
| ParserContext.ParserContext.KeyValueSuccess | src/ast_handlers.hpp:31-43 | a key entered twice is refused, any other becomes pending |
| ParserContext.ParserContext.CreateKeySuggestions | src/ast_handlers.hpp:272-284 | the missing keys are suggested |
| ParserContext.ParserContext.CreateValueSuggestions | src/ast_handlers.hpp:288-320 | only while completing, the fitting values are suggested; it throws when a stored instance lacks a key that is asked for |
| ParserContext.ParserContext.ParseLeafData | src/leaf_data.hpp:109-190 | the leaf is read by the parser of its type, which leaves the suggestions as its type says |
| ParserContext.ParserContext.SuggestKeysEnd | src/ast_handlers.hpp:322-337 | the bracket that ends the key is suggested |
| ParserContext.ParserContext.ParseKeyValue | src/path_parser.hpp:62-63 | the rule and its handlers read one entry and make it pending, and leave suggested what the specification says, also when they fail |
| ParserContext.ParserContext.ParseListSuffix | src/path_parser.hpp:68-73 | the loop over brackets and its handlers is the specified suffix parser, with its suggestions on every way out, and an accepted suffix leaves nothing pending |
| PathParser.ShortNameIsIdentifier | src/static_schema.cpp:192-198 | a name offered without its module is an identifier and names one child |
| NodeParser.BuildTable | src/path_parser.hpp:100-172 | the loop over the children builds the symbol table: qualified names, bare names of the top-level module, and ".." |
| NodeParser.SymbolsWithChild | src/path_parser.hpp:104-171 | one more child brings exactly its own symbols, which were not there |
| NodeParser.ParseElement | src/path_parser.hpp:182-230 | keys or value are read at the right schema location |
| NodeParser.ParseNode | src/path_parser.hpp:91-246 | the node parser is the specified one; a match leaves the context path on the node and nothing pending, a failure leaves the context path alone |
| NodeParser.ParsePath | src/path_parser.hpp:304-329 | the path parser is the specified one, and the context path ends where its nodes lead |
| RoundTrip.OfferedIffSymbol | src/path_parser.hpp:100-172 | what is written as a symbol stands for a node if and only if the schema has a child here of that module, name and kind that the filter lets through |
| RoundTrip.ParsedKindIsSchemaKind | src/path_parser.hpp:117-163 | a node is read as a leaf, a container, a list element and so on exactly when the schema says that the child is a leaf, a container, a list and so on |
| RoundTrip.ParsedNodePassedTheFilter | src/path_parser.hpp:104-116 | for every node read the filter was asked, and agreed, with a path string under which the schema finds that very child |
| RoundTrip.NodeRoundTrip | src/path_parser.hpp:178-244 | a schema-valid node, printed, is read back whatever its keys contain |
| RoundTrip.ParseUndoesPrint | src/path_parser.hpp:304-329 | a schema-valid data path is read back whole from its printed form, as the same scope and nodes |
| RoundTrip.ParsedPathIsValid | src/path_parser.hpp:304-329 | every accepted path over lists keyed by strings, or leafrefs to or unions of them, is schema-valid |
| RoundTrip.NormalisationIsStable | src/ast_path.cpp:260-276 | printing an accepted path and parsing it again gives the same path, whatever the key order, quotes and trailing slash were |
| RoundTrip.ParserAndInterpreterAgree | src/parser_context.cpp:40-47 | after any accepted parse the context path is the interpreter's canonical path, and realPath's exactly when relative or without ".." |
| PathEnds.PathLeavesSuffix | src/path_parser.hpp:304-329 | what a path leaves unread is the end of the line, whatever the types |
| PathEnds.AcceptedPathStops | src/path_parser.hpp:304-329 | an accepted path stops at the end, at a space, at a slash or behind one; without nodes only at the end or at a space |
| PathEnds.TrailingSlashIsRead | src/path_parser.hpp:325-328 | a path accepted to its last character is accepted with one more slash as the same path, and the slash is read; only at an unknown location the parser throws |
| PathEnds.StringsStop | src/leaf_data.hpp:31-33 | the values of strings, and of leafrefs to and unions of strings, are read the same whatever follows the closing bracket |
| PathEnds.EnumsStop | src/leaf_data.hpp:126-141 | so are enumeration values without a bracket in them |
| PathEnds.PrintedWithSlashIsReadBack | src/path_parser.hpp:325-328 | so a schema-valid path is read back from its printed form with a trailing slash |
| PathEnds.ListWithoutKeysFails | src/path_parser.hpp:182-215 | a list without keys is no data node |
| PathEnds.BrokenKeyThrows | src/path_parser.hpp:62-73 | a bracket without a key and value behind it ends the command |
| PathEnds.LeafListElementIsRead | src/path_parser.hpp:77-78 | an element of a leaf-list of any type is read from its value between brackets |
| RoundTripLimits.QuoteIsRead | src/leaf_data.hpp:31-190 | the type, with the kinds whose parsers match without taking anything (empty), decides whether a quoted text is read as a string, not at all, or by taking nothing of it |
| RoundTripLimits.DotIsRead | src/leaf_data.hpp:51-190 | of a text that starts with ".=" only an enumeration value takes anything |
| RoundTripLimits.KeysReadBackIff | src/ast_path.cpp:236 | printed keys are read back exactly when every value is a string without both kinds of quotes and every type reads quoted texts as strings; enumeration values and bits that start with a quote are excluded |
| RoundTripLimits.LeafListElementIsNotReadBack | src/ast_path.cpp:240-243 | the printed element of a leaf-list of any type is never read back, whatever its value, and is no node at all unless an enumeration value starts with a dot |
| Example.ElementIsReadBack | src/ast_path.cpp:229-239 | inside an RPC with a list keyed by a string, an element is read back for every text that can be quoted |
| InputMode.Next | src/interpreter.cpp:82-293 | on every command, throwing or not, input path and input store are both set or both unset |
| InputMode.EditIsSent | src/interpreter.cpp:130-140 | a create, delete or move that passes the guard asks the picked store for exactly that, a create or delete at the path it resolves to and a move at the path as entered, and changes nothing else |
| InputMode.SetIsSent | src/interpreter.cpp:94-108 | so does set, with the module filled in |
| InputMode.RefusedChangesNothing | src/interpreter.cpp:60-80 | a command that is refused, or whose path or identity cannot be resolved, changes nothing |
| InputMode.ReadingChangesNothing | src/interpreter.cpp:110-122 | get and the commands that show something change nothing |
| InputMode.GetReadsThere | src/interpreter.cpp:110-122 | which path string get reads, and when it fails |
| InputMode.CdGoesThere | src/interpreter.cpp:124-128 | cd goes to a relative path from the working directory and to an absolute one as written, and changes nothing else |
| InputMode.MainIsReached | src/interpreter.cpp:82-92 | commit, discard, copy and switch, without an input, do just that to the main datastore |
| InputMode.CancelForgets | src/interpreter.cpp:284-288 | cancel drops the input and goes to the root; the main datastore never hears of the input |
| InputMode.PrepareStarts | src/interpreter.cpp:266-271 | prepare starts an input with the createItem of its resolved path and goes there, with what is left of that when the factory or the createItem throws |
| InputMode.ExecWithPathExecutes | src/interpreter.cpp:273-282 | exec with a path, without an input, executes that path with its createItem, and otherwise leaves the main datastore alone |
| InputMode.ExecHandsOver | src/interpreter.cpp:273-282 | exec without a path executes the active input, and ends it however that turns out |
| InputMode.WhatAStepChanges | src/interpreter.cpp:60-293 | which commands can change the working directory, the target, the input and the main datastore, whose history only grows |
| InputMode.SetNeverSendsABareIdentity | src/interpreter.cpp:94-108 | set sends the entered value, an identity always with a module |
| InputMode.MoveGoesToInputIff | src/interpreter.cpp:255-259 | a move that passes the guard goes to the input exactly when its source is absolute |
| InputRuns.RunWhileActive | src/proxy_datastore.cpp:23-41 | until the input ends, a run only appends its accepted edits, in order, to the store their path picks |
| InputRuns.InputIsIsolated | src/interpreter.cpp:60-140 | no run of directed commands changes the main datastore while an input is active |
| InputRuns.RunStaysInside | src/interpreter.cpp:124-128 | over every disciplined run an active input path is a prefix of the current node |
| InputRuns.PromptShowsTheCwd | src/cli.cpp:268-276 | then the prompt's substr is in range, and the prompt shows the input path and the remainder of the current node |
| InputRuns.IdlePromptIsTheCwd | src/cli.cpp:268-276 | without an input the prompt is the current node |
| InputRuns.ExecDeliversThePreparedInput | src/proxy_datastore.cpp:63-90 | exec gives the main datastore the prepared path with its createItem and the routed edits in order, nothing of earlier inputs, and ends the input |
| InputRuns.ExecIsPrepareThenExecIff | src/interpreter.cpp:266-282 | exec with a path does what prepare and exec do, if and only if the new store does not refuse its first item |
| InputRuns.ExecLeavesAnInputIff | src/interpreter.cpp:273-282 | when an input is still active after exec, and that the cwd is the root |
| InputRuns.EveryExecutionIsOfItsOwnInput | src/proxy_datastore.cpp:73-84 | in every run, whatever is executed begins with the item of its path and holds only edits under it |
| InputRuns.RunStaysRooted | src/interpreter.cpp:266-288 | working directories and input paths stay absolute |
| InputBoundary.StartedInputHasNodes | src/interpreter.cpp:266-271 | a prepare starts an input for the nodes that its path resolves to, whatever the answers to its first createItem |
| InputBoundary.GuardIff | src/interpreter.cpp:67-80 | the guard lets a path through exactly when its nodes, as written if absolute and as resolved if relative, lie under the nodes of the input |
| InputBoundary.EditGoesToInputIff | src/interpreter.cpp:94-140 | a set, create or delete that passes the guard goes to the input exactly when it is relative or what remains of its path after all climbing lies under the nodes of the input |
| InputBoundary.EscapesIffLeaves | src/proxy_datastore.cpp:23-41 | a command is routed out of the input exactly when it is a relative move, or an absolute edit whose path as written lies under the input and as resolved does not |
| InputBoundary.MainChangesIffSomeStepLeaves | src/proxy_datastore.cpp:102-109 | a run before the input ends changes the main datastore if and only if some command is such a one where it is entered |
| InputBoundary.StepKeepsInsideIff | src/interpreter.cpp:266-288 | a step keeps the cwd inside the input exactly when a condition on path nodes and answers holds: a prepare may not leave by ".." nor fail outside, an exec with a path never keeps an input |
| InputLimits.AbsoluteDotsEscape | src/interpreter.cpp:67-80 | an absolute path with ".." that passes the guard and changes the main datastore |
| InputLimits.PreparedAfterPrepare | src/interpreter.cpp:266-271 | the state of these examples is the one after a successful prepare |
| InputLimits.RelativeMoveEscapes | src/interpreter.cpp:255-259 | a relative move of an accepted list instance inside the input that is sent to the main datastore |
| InputLimits.ExecWithPathLosesTheCwd | src/interpreter.cpp:273-279 | exec with any path over an active input leaves the prompt out of range |
| InputLimits.FailedPrepareStaysActive | src/proxy_datastore.cpp:63-71 | a prepare whose first createItem throws leaves the input active and the cwd outside |
| SchemaWalk.SymbolSpellsChild | src/path_parser.hpp:104-172 | every symbol but ".." spells a child of the current location |
| SchemaWalk.NodeStaysInSchema | src/path_parser.hpp:178-244 | reading a node keeps the context path on locations of the schema |
| SchemaWalk.ParseStaysInSchema | src/path_parser.hpp:304-329 | from a working directory in the schema every accepted path leads to a node in the schema, where parsing can go on |
| SchemaWalk.TrailingSlashIsAlwaysRead | src/path_parser.hpp:325-328 | so from there a trailing slash is always read with the path |
| SchemaWalk.CdStaysInSchemaIff | src/interpreter.cpp:124-128 | cd to an accepted path stays in the schema if and only if the path is relative or has no ".." |
| SchemaWalk.ParsedMoveEscapesIff | src/interpreter.cpp:255-259 | a move of an accepted source escapes an active input exactly when the source is relative |
| SchemaWalk.RunStaysInSchema | src/parser.cpp:86-89 | over every run of accepted commands without absolute ".." paths the working directory is a node of the schema |
| Interpreter.Parser.ChangeNode | src/parser.cpp:86-89 | the working directory becomes the real path, or stays when resolving throws |
| Interpreter.ProxyDatastore.PickDatastore | src/proxy_datastore.cpp:102-109 | the input store is picked exactly for paths that start with the input path |
| Interpreter.ProxyDatastore.Edit | src/proxy_datastore.cpp:23-41 | the edit is added to the picked store and to no other |
| Interpreter.ProxyDatastore.Initiate | src/proxy_datastore.cpp:63-71 | a fresh store gets the first item; with one in progress, or when the factory throws, nothing changes |
| Interpreter.ProxyDatastore.Execute | src/proxy_datastore.cpp:73-84 | the input is handed over and cancelled on every way out |
| Interpreter.ProxyDatastore.Cancel | src/proxy_datastore.cpp:86-90 | input store and input path are both unset |
| Interpreter.Interpreter.EnforceInContext | src/interpreter.cpp:67-80 | the guard on commands with a path |
| Interpreter.Interpreter.ExecuteSet | src/interpreter.cpp:94-108 | set is its step of the state machine, with the module added to a bare identity |
| Interpreter.Interpreter.ExecuteCreate | src/interpreter.cpp:130-134 | create is its step |
| Interpreter.Interpreter.ExecuteDelete | src/interpreter.cpp:136-140 | delete is its step |
| Interpreter.Interpreter.ExecuteMove | src/interpreter.cpp:255-259 | move is its step |
| Interpreter.Interpreter.ExecuteCd | src/interpreter.cpp:124-128 | cd is its step |
| Interpreter.Interpreter.ExecuteOnMain | src/interpreter.cpp:82-92 | commit, discard and copy are refused during an input and otherwise go to the main datastore |
| Interpreter.Interpreter.ExecuteSwitch | src/interpreter.cpp:290-294 | switch is refused during an input and otherwise sets the target |
| Interpreter.Interpreter.ExecutePrepare | src/interpreter.cpp:266-271 | prepare is its step |
| Interpreter.Interpreter.ExecuteExec | src/interpreter.cpp:273-282 | exec is its step |
| Interpreter.Interpreter.ExecuteCancel | src/interpreter.cpp:284-288 | cancel is its step |
| Interpreter.Interpreter.ExecuteGet | src/interpreter.cpp:110-122 | get reads the picked store under the wanted target and restores the old target however it ends |
| Interpreter.GetSeesThePickedStore | src/interpreter.cpp:110-122 | what get sees: the input when its path is inside one, else the main datastore, under the wanted target |
| DataTree.AppendNodes | src/libyang_utils.cpp:62-86 | one entry for each presence container, list, leaf and leaf-list node, in order |
| DataTree.LyNodesToTree | src/libyang_utils.cpp:89-105 | the nested loops end and make one pass that opens a run at each leaf-list instance outside a run |
| DataTree.GroupingConservesEntries | src/libyang_utils.cpp:89-105 | without the markers, the tree is every item's own entries in order |
| DataTree.LeafListsLieInRuns | src/libyang_utils.cpp:93-99 | every leaf-list instance lies in a run opened by a marker, all of whose items start with the marker's path |
| DataTree.BracketedItemsAreGrouped | src/utils.cpp:258-263 | grouping does not throw when every leaf-list path has its bracket |
| DataTree.PrintTree | src/interpreter.cpp:35-51 | one line for each entry in order, taken ones without their last bracket; it throws exactly when a taken entry has none |
| DataTree.NodeIsPrinted | src/ast_values.cpp:118-128 | the line of a presence container, a list instance, a leaf and a leaf-list instance alone; other nodes have none |
| DataTree.LeafListIsPrinted | src/interpreter.cpp:39-46 | a leaf-list instance is printed under its marker and without its bracket |
| DataTree.IgnoredPrefixIsCut | src/libyang_utils.cpp:64-66 | a path that starts with the ignored prefix loses it, one without it is kept, and one that holds it further on loses as many characters of its front |
| DataTree.SeparateNamesPrint | src/interpreter.cpp:43-46 | printing succeeds when no path without a bracket starts with a marker's path |
| DataTree.GroupedTreePrintsIff | src/interpreter.cpp:35-51 | the tree made from any items prints if and only if, walking the items with one marker for grouping and one for printing, every entry and marker taken into the run of an earlier leaf-list has a bracket in its path |
| DataTree.EntryItemsPrintIff | src/interpreter.cpp:35-51 | when every item has an entry of its own, above nodes that continue its path, one marker and the items' own paths decide |
| DataTree.ContainerKeepsTheRun | src/libyang_utils.cpp:62-73 | a container without an entry between two leaf-lists makes printing throw where that condition holds |
| DataTree.LongerNameBreaksPrinting | src/interpreter.cpp:43-46 | a leaf whose name continues a leaf-list's name makes printing throw |
| YangAccess.BackMeetsEverySibling | src/yang_access.cpp:68-76 | stepping back meets every other sibling within one turn |
| YangAccess.YangAccess.Unlink | src/yang_access.cpp:62-80 | the walk ends within one turn; the handle is empty exactly when all other siblings are from ietf-yang-library, else the nearest preceding one that is not; removing any other node leaves it |
| YangAccess.LibraryIsSkipped | src/yang_access.cpp:62-80 | a new handle is never a node of ietf-yang-library, and none is left only when all others are |
| YangAccess.UnlinkedIsGone | src/yang_access.cpp:79 | unlinking takes out exactly the one node and keeps the others in order |
| YangAccess.YangAccess.RemoveNode | src/yang_access.cpp:83-96 | the two errors change nothing; else the node is gone and the handle is live or replaced |
| YangAccess.YangAccess.MoveItem | src/yang_access.cpp:139-191 | the two errors change nothing; else the siblings are the specified ones, and the handle is the first of them after a move to an end, and otherwise kept |
| YangAccess.MovedKeepsTheRest | src/yang_access.cpp:139-174 | a move loses no sibling and keeps the order of all others |
| YangAccess.MovedIsBeside | src/yang_access.cpp:169-173 | before and after put the node right beside the destination |
| YangAccess.MovedToTheEnd | src/yang_access.cpp:146-159 | begin and end put it before or after all other instances of its list |
| YangAccess.MoveKeepsOtherLists | src/yang_access.cpp:139-174 | the instances of every other list stay as they were |

## Left out

- The path parser modes other than DataPath (AnyPath with its fallback to schema paths, DataPathListEnd, DataPathAbsolute) and the node parser modes other than CompleteDataNode: their second parse of a list end starts with keys still pending from the first.
- Suggestions for node names and the completion iterator (src/path_parser.hpp:117-173), and the filtering and suffixes of completeCommand (src/parser.cpp:52-84): only the suggestions for keys and values are modelled.
- The command grammar around the path parser, error messages, help texts and describe.
- Leaf values that are numbers, decimals, booleans, binary, empty, identities or instance identifiers: their parsers are one abstract function of the type and the unread input, and their suggestions a set that belongs to the type. Not captured are that an identityref takes its module, if none is written, from the first node of the context path (src/leaf_data.hpp:148-154), and that a parsed instance identifier resets the parser context and suggests nodes of its own.
- The backends, libyang, XPath, validation and the session with the server; ls with recursion; the module branch of StaticSchema::availableNodes, which looks up a location that the constructor never creates.
- The contents of data that a command prints; get is modelled up to which datastore it reads, and printing up to the lines of printTree.
- A factory that returns a null store (YANG_CLI) is undefined behaviour in initiate and is not modelled; a factory that throws is.
- Identities.ValidIdentities: requires a closed and acyclic graph; on a cycle the recursion of the source does not end.
- NodeParser.ParsePath: while completing, stored instances are assumed to have the keys of their list; ParserContext.ParserContext.ParseListSuffix covers the exception that is thrown otherwise.
- RoundTrip.ParseUndoesPrint: does not cover leaf-list elements and lists with keys other than strings and leafrefs to or unions of them, because the property is false there; RoundTripLimits.KeysReadBackIff and RoundTripLimits.LeafListElementIsNotReadBack say how far.
- RoundTripLimits.KeysReadBackIff: enumeration values and bits that start with a quote are left out; such a name can match the printed text itself, and then it depends on the other names how much it takes. The parsers that are not modelled are assumed to take nothing of a text that starts with a quote, whether they fail there (numbers, booleans, binary, identities, instance identifiers) or match (empty).
- RoundTripLimits.LeafListElementIsNotReadBack: bits that start with a dot are left out; they are no identifiers. The parsers that are not modelled are assumed to take nothing of a text that starts with ".=", where decimals fail for want of a digit and empty matches.
- PathEnds.TrailingSlashIsRead: assumes of the types of the keys and leaf-lists on the way that their parsers stop at a closing bracket, as those of strings and enumerations do; a union can read a longer text in another way, when an alternative that failed matches once more text follows.
- YangAccess.YangAccess.MoveItem: covers instances among the top-level siblings, and destinations that exist; for lists further down the XPath of the schema node can also select instances under other parents, and a missing destination is undefined behaviour.
- DataTree.LyNodesToTree: the order in which libyang visits nodes is given; the marker of a leaf-list is written without stripping the ignored prefix, as in the source.
