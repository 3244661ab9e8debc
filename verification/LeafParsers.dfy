/** Parsers of leaf values (src/leaf_data.hpp) and the symbol tables they and the node parser use.

    A parser consumes a prefix of the unread input and returns the value with what is left unread;
    None is a failed match, which leaves the input where it was. */
module LeafParsers {
  import opened Wrappers
  import opened Text
  import opened AstPath
  import opened PathPrinter

  /** yang::LeafDataType. ForeignType stands for the types whose parsers are not modelled, with the
      values that they suggest if, as for an identityref, they suggest any; such a
      parser is any function from the unread input to a value and a number of characters. */
  datatype LeafType =
    | StringType
    | EnumType(allowed: set<string>)
    | BitsType(allowed: set<string>)
    | UnionType(members: seq<LeafType>)
    | LeafRefType(target: LeafType)
    | ForeignType(kind: string, offers: Option<set<string>>)

  type ForeignParser = (string, string) -> Option<(LeafData, nat)>

  // ---- x3::symbols ----

  /** The longest prefix of s, of at most n characters, that is a symbol; 0 when there is none. */
  function LongestWithin(table: set<string>, s: string, n: nat): (r: nat)
    requires n <= |s|
    ensures r <= n
    ensures r > 0 ==> s[..r] in table
    ensures forall m :: r < m <= n ==> s[..m] !in table
  {
    if n == 0 then 0
    else if s[..n] in table then n
    else LongestWithin(table, s, n - 1)
  }

  function LongestSymbol(table: set<string>, s: string): (r: nat)
    ensures r <= |s|
  {
    LongestWithin(table, s, |s|)
  }

  /** A symbol followed by a character no symbol contains is matched whole, even when it is a
      prefix of other symbols. */
  lemma LongestSymbolIs(table: set<string>, symbol: string, tail: string)
    requires symbol in table && symbol != ""
    requires tail == "" || forall x :: x in table ==> tail[0] !in x
    ensures LongestSymbol(table, symbol + tail) == |symbol|
  {
    var s := symbol + tail;
    forall m | |symbol| < m <= |s|
      ensures s[..m] !in table
    {
      assert s[..m][|symbol|] == tail[0];
    }
    assert s[..|symbol|] == symbol;
    LongestDrops(table, s, |s|, |symbol|);
  }

  lemma {:induction false} LongestDrops(table: set<string>, s: string, n: nat, r: nat)
    requires 0 < r <= n <= |s| && s[..r] in table
    requires forall m :: r < m <= n ==> s[..m] !in table
    ensures LongestWithin(table, s, n) == r
  {
    if n > r {
      LongestDrops(table, s, n - 1, r);
    }
  }

  // ---- quoted strings ----

  /** leaf_data_string: no escapes, the value ends at the first repetition of the opening quote. */
  function ParseQuoted(s: string): Option<(LeafData, string)> {
    if s == "" || s[0] !in {'\'', '"'} then None
    else
      var n := Find(s[1..], s[0]);
      if n < |s| - 1 then Some((Str(s[1..n + 1]), s[n + 2..])) else None
  }

  /** A string that printing can quote. */
  predicate IsPrintableValue(v: LeafData) {
    v.Str? && !HoldsBothQuotes(v.text)
  }

  /** A parsed string never holds both kinds of quotes, and printing quotes it so that it parses back. */
  lemma ParsedStringIsPrintable(s: string)
    requires ParseQuoted(s).Some?
    ensures var (v, rest) := ParseQuoted(s).value;
            && IsPrintableValue(v) && |rest| < |s|
  {
  }

  lemma QuotedRoundTrip(text: string, tail: string)
    requires !HoldsBothQuotes(text)
    ensures ParseQuoted(EscapeListKeyString(text) + tail) == Some((Str(text), tail))
  {
    var q := QuoteFor(text);
    QuotedWith(q, text, tail);
    assert EscapeListKeyString(text) + tail == [q] + text + [q] + tail;
  }

  lemma QuotedWith(q: char, text: string, tail: string)
    requires q in {'\'', '"'} && q !in text
    ensures ParseQuoted([q] + text + [q] + tail) == Some((Str(text), tail))
  {
    var s := [q] + text + [q] + tail;
    var body := s[1..];
    assert body == text + [q] + tail;
    assert forall i :: 0 <= i < |text| ==> body[i] == text[i];
    assert body[|text|] == q;
    assert Find(body, q) == |text|;
    assert s[1..|text| + 1] == text && s[|text| + 2..] == tail;
  }

  // ---- bits ----

  function SpaceRun(s: string): (n: nat)
    ensures n <= |s|
    ensures n < |s| ==> !IsSpace(s[n])
    ensures n == 0 <==> s == "" || !IsSpace(s[0])
  {
    if s == "" || !IsSpace(s[0]) then 0 else 1 + SpaceRun(s[1..])
  }

  /** The bits loop: a bit still in the table or nothing, then repeat after each run of spaces. */
  function BitsLoop(table: set<string>, s: string): (r: (seq<string>, string))
    ensures |r.1| <= |s|
    decreases |s|
  {
    var n := LongestSymbol(table, s);
    var found := if n > 0 then [s[..n]] else [];
    var spaces := SpaceRun(s[n..]);
    if spaces == 0 then (found, s[n..])
    else
      var (more, rest) := BitsLoop(table - {s[..n]}, s[n..][spaces..]);
      (found + more, rest)
  }

  /** What the loop leaves suggested: a bit read is taken out, and the first space clears everything. */
  function BitsSuggestions(allowed: set<string>, s: string): set<string> {
    var n := LongestSymbol(allowed - {""}, s);
    if SpaceRun(s[n..]) > 0 then {} else if n > 0 then allowed - {s[..n]} else allowed
  }

  method ParseBits(allowed: set<string>, s: string) returns (attr: seq<string>, first: string, suggestions: set<string>)
    ensures (attr, first) == BitsLoop(allowed - {""}, s)
    ensures suggestions == BitsSuggestions(allowed, s)
  {
    var table := allowed - {""};
    ghost var (whole, end) := BitsLoop(table, s);
    ghost var cleared := SpaceRun(s[LongestSymbol(table, s)..]) > 0;
    assert cleared ==> BitsSuggestions(allowed, s) == {};
    attr, first, suggestions := [], s, allowed;
    while true
      invariant "" !in table
      invariant attr + BitsLoop(table, first).0 == whole
      invariant BitsLoop(table, first).1 == end
      invariant (first == s && table == allowed - {""} && suggestions == allowed)
             || (cleared && suggestions == {})
      decreases |first|
    {
      var n := LongestSymbol(table, first);
      var bit := first[..n];
      var found := if n > 0 then [bit] else [];
      var left := if n > 0 then table - {bit} else table;
      assert left == table - {bit};
      suggestions := if n > 0 then suggestions - {bit} else suggestions;
      var spaces := SpaceRun(first[n..]);
      if spaces == 0 {
        return attr + found, first[n..], suggestions;
      }
      ConcatAssociative(attr, found, BitsLoop(left, first[n..][spaces..]).0);
      attr, table, first, suggestions := attr + found, left, first[n..][spaces..], {};
    }
  }

  predicate NoDuplicates(s: seq<string>) {
    forall i, j :: 0 <= i < j < |s| ==> s[i] != s[j]
  }

  /** On every input the loop yields a duplicate-free list of allowed bits. */
  lemma {:induction false} BitsAreAllowedOnce(table: set<string>, s: string)
    ensures NoDuplicates(BitsLoop(table, s).0)
    ensures forall b :: b in BitsLoop(table, s).0 ==> b in table
    decreases |s|
  {
    var n := LongestSymbol(table, s);
    var spaces := SpaceRun(s[n..]);
    if spaces > 0 {
      BitsAreAllowedOnce(table - {s[..n]}, s[n..][spaces..]);
    }
  }

  predicate IsBitName(b: string) {
    b != "" && forall i :: 0 <= i < |b| ==> !IsSpace(b[i])
  }

  /** What may follow a printed bits value: nothing, or a character that neither separates bits
      nor continues one. */
  predicate EndsBits(table: set<string>, tail: string) {
    tail == "" || (!IsSpace(tail[0]) && forall b :: b in table ==> tail[0] !in b)
  }

  /** The space-joined print of any duplicate-free list of allowed bits parses back to that list
      and is consumed whole, prefixes among the bit names notwithstanding
      (section 9.7.2 of RFC 7950). */
  lemma BitsRoundTrip(table: set<string>, bits: seq<string>, tail: string)
    requires forall b :: b in table ==> IsBitName(b)
    requires NoDuplicates(bits) && forall b :: b in bits ==> b in table
    requires EndsBits(table, tail)
    ensures BitsLoop(table, LeafDataToString(Bits(bits)) + tail) == (bits, tail)
  {
    JoinedBitsParse(table, bits, tail);
  }

  lemma {:induction false} JoinedBitsParse(table: set<string>, bits: seq<string>, tail: string)
    requires forall b :: b in table ==> IsBitName(b)
    requires NoDuplicates(bits) && forall b :: b in bits ==> b in table
    requires EndsBits(table, tail)
    ensures BitsLoop(table, Joined(bits, " ") + tail) == (bits, tail)
    decreases |bits|
  {
    if bits == [] {
      assert "" + tail == tail && tail[..0] == "" && tail[0..] == tail;
      NoSymbolAt(table, tail);
    } else {
      var bit, more := bits[0], bits[1..];
      assert bits == [bit] + more;
      assert forall b :: b in more ==> b in table - {bit};
      JoinedSplits(bits, tail);
      if more == [] {
        LastBit(table, bit, tail);
        assert bits == [bit];
      } else {
        JoinedBitsParse(table - {bit}, more, tail);
        assert more[0] in table;
        JoinedStart(more, tail);
        OneMoreBit(table, bit, Joined(more, " ") + tail);
      }
    }
  }

  function AfterFirst(bits: seq<string>, tail: string): string
    requires bits != []
  {
    if |bits| == 1 then tail else " " + (Joined(bits[1..], " ") + tail)
  }

  lemma JoinedSplits(bits: seq<string>, tail: string)
    requires bits != []
    ensures Joined(bits, " ") + tail == bits[0] + AfterFirst(bits, tail)
  {
    if |bits| > 1 {
      ConcatAssociative(bits[0] + " ", Joined(bits[1..], " "), tail);
      ConcatAssociative(bits[0], " ", Joined(bits[1..], " ") + tail);
    }
  }

  lemma LastBit(table: set<string>, bit: string, tail: string)
    requires bit in table && IsBitName(bit)
    requires EndsBits(table, tail)
    ensures BitsLoop(table, bit + tail) == ([bit], tail)
  {
    LongestSymbolIs(table, bit, tail);
    assert (bit + tail)[..|bit|] == bit && (bit + tail)[|bit|..] == tail;
  }

  lemma OneMoreBit(table: set<string>, bit: string, rest: string)
    requires bit in table && forall b :: b in table ==> IsBitName(b)
    requires rest != "" && !IsSpace(rest[0])
    ensures var (more, r) := BitsLoop(table - {bit}, rest);
            BitsLoop(table, bit + (" " + rest)) == ([bit] + more, r)
  {
    var after := " " + rest;
    LongestSymbolIs(table, bit, after);
    assert (bit + after)[..|bit|] == bit && (bit + after)[|bit|..] == after;
    OneSpace(rest);
  }

  lemma NoSymbolAt(table: set<string>, tail: string)
    requires forall b :: b in table ==> b != ""
    requires EndsBits(table, tail)
    ensures LongestSymbol(table, tail) == 0 && SpaceRun(tail) == 0
  {
    var n := LongestSymbol(table, tail);
    if n > 0 {
      FirstIsIn(tail, n);
    }
  }

  lemma FirstIsIn(s: string, n: nat)
    requires 0 < n <= |s|
    ensures s[0] in s[..n] && s[..n][0] == s[0]
  {
    assert s[..n][0] == s[0];
  }

  lemma OneSpace(rest: string)
    requires rest != "" && !IsSpace(rest[0])
    ensures SpaceRun(" " + rest) == 1 && (" " + rest)[1..] == rest
  {
  }

  lemma JoinedStart(parts: seq<string>, tail: string)
    requires parts != [] && IsBitName(parts[0])
    ensures var rest := Joined(parts, " ") + tail; rest != "" && !IsSpace(rest[0])
  {
    assert (Joined(parts, " ") + tail)[0] == parts[0][0];
  }

  // ---- any leaf ----

  /** impl_LeafData: dispatch on the type; a union takes its first alternative that matches. */
  function ParseLeaf(foreign: ForeignParser, t: LeafType, s: string): (r: Option<(LeafData, string)>)
    ensures r.Some? ==> |r.value.1| <= |s|
    decreases t, if t.UnionType? then |t.members| + 1 else 0
  {
    match t
    case StringType => ParsedStringLength(s); ParseQuoted(s)
    case EnumType(allowed) =>
      var n := LongestSymbol(allowed, s);
      if n == 0 then None else Some((Enum(s[..n]), s[n..]))
    case BitsType(allowed) =>
      var (bits, rest) := BitsLoop(allowed - {""}, s);
      Some((Bits(bits), rest))
    case UnionType(members) => ParseUnion(foreign, t, 0, s)
    case LeafRefType(target) => ParseLeaf(foreign, target, s)
    case ForeignType(kind, _) =>
      match foreign(kind, s)
      case None => None
      case Some((v, n)) => Some((v, if n <= |s| then s[n..] else ""))
  }

  function ParseUnion(foreign: ForeignParser, t: LeafType, i: nat, s: string): (r: Option<(LeafData, string)>)
    requires t.UnionType? && i <= |t.members|
    ensures r.Some? ==> |r.value.1| <= |s|
    decreases t, |t.members| - i
  {
    if i == |t.members| then None
    else
      var r := ParseLeaf(foreign, t.members[i], s);
      if r.Some? then r else ParseUnion(foreign, t, i + 1, s)
  }

  /** The print of an enumeration value is read back as the value, before anything that continues no
      value, also when values are prefixes of one another. */
  lemma EnumRoundTrip(foreign: ForeignParser, allowed: set<string>, name: string, tail: string)
    requires name in allowed && name != ""
    requires tail == "" || forall v :: v in allowed ==> tail[0] !in v
    ensures ParseLeaf(foreign, EnumType(allowed), LeafDataToString(Enum(name)) + tail) == Some((Enum(name), tail))
  {
    LongestSymbolIs(allowed, name, tail);
    assert (name + tail)[..|name|] == name && (name + tail)[|name|..] == tail;
  }

  // ---- what a leaf parser suggests ----

  /** The suggestions after a leaf parser ran on s, whether it matched or not. Enumerations and
      identityrefs replace them by all their values before they look at the input, bits replace and
      then reduce them, and the other types leave them alone. */
  function LeafSuggestions(foreign: ForeignParser, t: LeafType, s: string, before: set<string>): set<string>
    decreases t, if t.UnionType? then |t.members| + 1 else 0
  {
    match t
    case StringType => before
    case EnumType(allowed) => allowed
    case BitsType(allowed) => BitsSuggestions(allowed, s)
    case UnionType(_) => UnionSuggestions(foreign, t, 0, s, before)
    case LeafRefType(target) => LeafSuggestions(foreign, target, s, before)
    case ForeignType(_, offers) => if offers.Some? then offers.value else before
  }

  function UnionSuggestions(foreign: ForeignParser, t: LeafType, i: nat, s: string, before: set<string>): set<string>
    requires t.UnionType? && i <= |t.members|
    decreases t, |t.members| - i
  {
    if i == |t.members| then before
    else
      var after := LeafSuggestions(foreign, t.members[i], s, before);
      if ParseLeaf(foreign, t.members[i], s).Some? then after
      else UnionSuggestions(foreign, t, i + 1, s, after)
  }

  /** While bits are typed, all of them are suggested at first, the others behind the first one, and
      none behind a space. */
  lemma BitsAreSuggested(allowed: set<string>, bit: string, rest: string)
    requires bit in allowed && IsBitName(bit)
    ensures BitsSuggestions(allowed, "") == allowed
    ensures BitsSuggestions(allowed, bit) == allowed - {bit}
    ensures (forall b :: b in allowed ==> ' ' !in b) ==> BitsSuggestions(allowed, bit + (" " + rest)) == {}
  {
    var table := allowed - {""};
    LongestSymbolIs(table, bit, "");
    assert bit + "" == bit && bit[..|bit|] == bit && bit[|bit|..] == "";
    if forall b :: b in allowed ==> ' ' !in b {
      LongestSymbolIs(table, bit, " " + rest);
      assert (bit + (" " + rest))[|bit|..] == " " + rest;
    }
  }

  /** What becomes of the suggestions when the value is still to be typed: the leaf parser keeps
      them, replaces them, or matches the empty input and so ends the value. */
  datatype Offer = Stored | Fixed(texts: set<string>) | Ended(value: LeafData)

  function OfferOf(foreign: ForeignParser, t: LeafType): Offer
    decreases t, if t.UnionType? then |t.members| + 1 else 0
  {
    match t
    case StringType => Stored
    case EnumType(allowed) => Fixed(allowed)
    case BitsType(_) => Ended(Bits([]))
    case UnionType(_) => UnionOffer(foreign, t, 0, Stored)
    case LeafRefType(target) => OfferOf(foreign, target)
    case ForeignType(kind, offers) =>
      match foreign(kind, "")
      case Some((v, _)) => Ended(v)
      case None => if offers.Some? then Fixed(offers.value) else Stored
  }

  /** The last alternative that replaces the suggestions wins, up to one that matches. */
  function UnionOffer(foreign: ForeignParser, t: LeafType, i: nat, before: Offer): Offer
    requires t.UnionType? && i <= |t.members|
    decreases t, |t.members| - i
  {
    if i == |t.members| then before
    else
      match OfferOf(foreign, t.members[i])
      case Stored => UnionOffer(foreign, t, i + 1, before)
      case Fixed(texts) => UnionOffer(foreign, t, i + 1, Fixed(texts))
      case Ended(v) => Ended(v)
  }

  predicate IsOffer(offer: Offer, result: Option<(LeafData, string)>, before: set<string>, after: set<string>) {
    match offer
    case Stored => result.None? && after == before
    case Fixed(texts) => result.None? && after == texts
    case Ended(v) => result == Some((v, ""))
  }

  /** The type alone decides what happens to any suggestions at the end of the input. */
  lemma {:induction false} OfferIsMade(foreign: ForeignParser, t: LeafType, before: set<string>)
    ensures IsOffer(OfferOf(foreign, t), ParseLeaf(foreign, t, ""), before, LeafSuggestions(foreign, t, "", before))
    decreases t, if t.UnionType? then |t.members| + 1 else 0
  {
    match t
    case LeafRefType(target) => OfferIsMade(foreign, target, before);
    case UnionType(_) => UnionOfferIsMade(foreign, t, 0, Stored, before, before);
    case _ =>
  }

  lemma {:induction false} UnionOfferIsMade(foreign: ForeignParser, t: LeafType, i: nat, offer: Offer,
                                            before: set<string>, now: set<string>)
    requires t.UnionType? && i <= |t.members|
    requires !offer.Ended? && IsOffer(offer, None, before, now)
    ensures IsOffer(UnionOffer(foreign, t, i, offer), ParseUnion(foreign, t, i, ""), before,
                    UnionSuggestions(foreign, t, i, "", now))
    decreases t, |t.members| - i
  {
    if i < |t.members| {
      var m := t.members[i];
      OfferIsMade(foreign, m, now);
      match OfferOf(foreign, m)
      case Stored => UnionOfferIsMade(foreign, t, i + 1, offer, before, now);
      case Fixed(texts) => UnionOfferIsMade(foreign, t, i + 1, Fixed(texts), before, texts);
      case Ended(_) =>
    }
  }

  /** Types all of whose values are strings keep the suggestions. */
  lemma {:induction false} StringsKeepSuggestions(foreign: ForeignParser, t: LeafType)
    requires ReadsStrings(t)
    ensures OfferOf(foreign, t) == Stored
    decreases t, if t.UnionType? then |t.members| + 1 else 0
  {
    match t
    case LeafRefType(target) => StringsKeepSuggestions(foreign, target);
    case UnionType(_) => UnionKeepsSuggestions(foreign, t, 0);
    case _ =>
  }

  lemma {:induction false} UnionKeepsSuggestions(foreign: ForeignParser, t: LeafType, i: nat)
    requires t.UnionType? && i <= |t.members| && ReadsStrings(t)
    ensures UnionOffer(foreign, t, i, Stored) == Stored
    decreases t, |t.members| - i
  {
    if i < |t.members| {
      StringsKeepSuggestions(foreign, t.members[i]);
      UnionKeepsSuggestions(foreign, t, i + 1);
    }
  }

  lemma ParsedStringLength(s: string)
    ensures ParseQuoted(s).Some? ==> |ParseQuoted(s).value.1| <= |s|
  {
  }

  /** Types all of whose values are strings: string itself, and leafrefs to and unions of such types. */
  predicate ReadsStrings(t: LeafType) {
    match t
    case StringType => true
    case LeafRefType(target) => ReadsStrings(target)
    case UnionType(members) => members != [] && forall m :: m in members ==> ReadsStrings(m)
    case _ => false
  }

  lemma {:induction false} ReadsQuotedStrings(foreign: ForeignParser, t: LeafType, s: string)
    requires ReadsStrings(t)
    ensures ParseLeaf(foreign, t, s) == ParseQuoted(s)
    decreases t
  {
    match t
    case LeafRefType(target) => ReadsQuotedStrings(foreign, target, s);
    case UnionType(members) =>
      forall m | m in members
        ensures ParseLeaf(foreign, m, s) == ParseQuoted(s)
      {
        ReadsQuotedStrings(foreign, m, s);
      }
      UnionTakesTheFirstMatch(foreign, t, 0, s);
    case _ =>
  }

  /** A union fails when all its alternatives do, and otherwise gives what the first that matches
      gives; later alternatives are never asked. */
  lemma {:induction false} UnionTakesTheFirstMatch(foreign: ForeignParser, t: LeafType, i: nat, s: string)
    requires t.UnionType? && i <= |t.members|
    ensures var r := ParseUnion(foreign, t, i, s);
            && (r.None? <==> forall j :: i <= j < |t.members| ==> ParseLeaf(foreign, t.members[j], s).None?)
            && (r.Some? ==> exists k :: IsFirstMatch(foreign, t, i, k, s) && r == ParseLeaf(foreign, t.members[k], s))
    decreases |t.members| - i
  {
    if i < |t.members| {
      if ParseLeaf(foreign, t.members[i], s).Some? {
        assert IsFirstMatch(foreign, t, i, i, s);
      } else {
        UnionTakesTheFirstMatch(foreign, t, i + 1, s);
        var r := ParseUnion(foreign, t, i, s);
        if k :| IsFirstMatch(foreign, t, i + 1, k, s) && r == ParseLeaf(foreign, t.members[k], s) {
          assert IsFirstMatch(foreign, t, i, k, s);
        }
      }
    }
  }

  predicate IsFirstMatch(foreign: ForeignParser, t: LeafType, i: int, k: int, s: string)
    requires t.UnionType? && 0 <= i
  {
    && i <= k < |t.members|
    && ParseLeaf(foreign, t.members[k], s).Some?
    && forall j :: i <= j < k ==> ParseLeaf(foreign, t.members[j], s).None?
  }
}
