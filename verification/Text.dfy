/** Character classes, string searches and path-string joining (src/utils.cpp, src/common_parsers.hpp). */
module Text {

  // ---- character classes of the grammar ----

  predicate IsAlpha(c: char) {
    'a' <= c <= 'z' || 'A' <= c <= 'Z'
  }

  predicate IsDigit(c: char) {
    '0' <= c <= '9'
  }

  /** What x3::space accepts in the "C" locale. */
  predicate IsSpace(c: char) {
    c in " \t\n\U{0B}\U{0C}\r"
  }

  predicate IsIdentifierStart(c: char) {
    IsAlpha(c) || c == '_'
  }

  predicate IsIdentifierChar(c: char) {
    IsAlpha(c) || IsDigit(c) || c == '_' || c == '-' || c == '.'
  }

  predicate IsIdentifier(s: string) {
    s != "" && IsIdentifierStart(s[0]) && forall i :: 0 <= i < |s| ==> IsIdentifierChar(s[i])
  }

  /** The identifiers of the grammar, by character codes: a letter or an underscore, and then letters,
      digits, underscores, hyphens and dots (section 6.2 of RFC 7950). */
  lemma IdentifierIff(s: string)
    ensures IsIdentifier(s)
       <==> && s != "" && !(s[0] == '-' || s[0] == '.' || 48 <= s[0] as int <= 57)
            && forall i :: 0 <= i < |s| ==>
                 var code := s[i] as int;
                 65 <= code <= 90 || 97 <= code <= 122 || 48 <= code <= 57 || code == 95 || code == 45 || code == 46
  {
    assert 'a' as int == 97 && 'z' as int == 122 && 'A' as int == 65 && 'Z' as int == 90;
    assert '0' as int == 48 && '9' as int == 57 && '_' as int == 95 && '-' as int == 45 && '.' as int == 46;
  }

  /** isspace of the "C" locale, by character codes. */
  lemma SpaceIff(c: char)
    ensures IsSpace(c) <==> 9 <= c as int <= 13 || c as int == 32
  {
    var spaces := " \t\n\U{0B}\U{0C}\r";
    assert |spaces| == 6;
    assert spaces[0] as int == 32 && spaces[1] as int == 9 && spaces[2] as int == 10;
    assert spaces[3] as int == 11 && spaces[4] as int == 12 && spaces[5] as int == 13;
  }

  // ---- searching ----

  /** std::string::find: the first position of c, or |s| when there is none. */
  function Find(s: string, c: char): (n: nat)
    ensures n <= |s|
    ensures forall i :: 0 <= i < n ==> s[i] != c
    ensures n < |s| ==> s[n] == c
  {
    if s == "" || s[0] == c then 0 else 1 + Find(s[1..], c)
  }

  /** std::string::find_last_of: the last position of c, or -1 when there is none. */
  function FindLast(s: string, c: char): (n: int)
    ensures -1 <= n < |s|
    ensures forall i :: n < i < |s| ==> s[i] != c
    ensures n >= 0 ==> s[n] == c
  {
    if s == "" then -1
    else if s[|s| - 1] == c then |s| - 1
    else FindLast(s[..|s| - 1], c)
  }

  /** How many leading characters an identifier may take; the key and node identifiers are greedy. */
  function IdentifierRun(s: string): (n: nat)
    ensures n <= |s|
    ensures forall i :: 0 <= i < n ==> IsIdentifierChar(s[i])
    ensures n < |s| ==> !IsIdentifierChar(s[n])
  {
    if s == "" || !IsIdentifierChar(s[0]) then 0 else 1 + IdentifierRun(s[1..])
  }

  /** Two readings of one string agree when each part is free of stop characters and is
      followed by a stop character or the end. */
  lemma SpanUnique(a: string, x: string, b: string, y: string, stop: set<char>)
    requires a + x == b + y
    requires forall i :: 0 <= i < |a| ==> a[i] !in stop
    requires forall i :: 0 <= i < |b| ==> b[i] !in stop
    requires x == "" || x[0] in stop
    requires y == "" || y[0] in stop
    ensures a == b && x == y
  {
    var t := a + x;
    assert forall i :: 0 <= i < |a| ==> t[i] == a[i];
    assert forall i :: 0 <= i < |b| ==> t[i] == b[i];
    assert x != "" ==> t[|a|] == x[0];
    assert y != "" ==> t[|b|] == y[0];
    assert |a| == |b|;
    assert a == (a + x)[..|a|] && b == (b + y)[..|b|];
    assert x == (a + x)[|a|..] && y == (b + y)[|b|..];
  }

  lemma ConcatAssociative<T>(a: seq<T>, b: seq<T>, c: seq<T>)
    ensures (a + b) + c == a + (b + c)
  {
  }

  // ---- joinPaths ----

  function StripTrailingSlash(s: string): string {
    if s != "" && s[|s| - 1] == '/' then s[..|s| - 1] else s
  }

  function StripLeadingSlash(s: string): string {
    if s != "" && s[0] == '/' then s[1..] else s
  }

  function JoinPaths(prefix: string, suffix: string): string {
    if prefix == "" then suffix
    else if suffix == "" then prefix
    else StripTrailingSlash(prefix) + "/" + StripLeadingSlash(suffix)
  }

  lemma StripConcat(a: string, b: string)
    ensures b != "" ==> StripTrailingSlash(a + b) == a + StripTrailingSlash(b)
    ensures a != "" ==> StripLeadingSlash(a + b) == StripLeadingSlash(a) + b
  {
  }

  /** joinPaths is associative on every three strings, slashes at the ends included. */
  lemma JoinPathsAssociative(a: string, b: string, c: string)
    ensures JoinPaths(JoinPaths(a, b), c) == JoinPaths(a, JoinPaths(b, c))
  {
    if a != "" && b != "" && c != "" {
      var front, back := StripTrailingSlash(a) + "/", "/" + StripLeadingSlash(c);
      var core := StripLeadingSlash(b);
      var ab, bc := front + core, StripTrailingSlash(b) + back;
      assert JoinPaths(a, b) == ab && JoinPaths(b, c) == bc by {
        assert front + core == StripTrailingSlash(a) + "/" + core;
        assert bc == StripTrailingSlash(b) + "/" + StripLeadingSlash(c);
      }
      assert StripTrailingSlash(ab) + back == front + StripLeadingSlash(bc) by {
        JoinCore(StripTrailingSlash(a), b, StripLeadingSlash(c));
      }
      JoinShape(ab, c);
      JoinShape(a, bc);
    }
  }

  lemma JoinShape(prefix: string, suffix: string)
    requires prefix != "" && suffix != ""
    ensures JoinPaths(prefix, suffix) == StripTrailingSlash(prefix) + ("/" + StripLeadingSlash(suffix))
    ensures JoinPaths(prefix, suffix) == (StripTrailingSlash(prefix) + "/") + StripLeadingSlash(suffix)
  {
  }

  lemma JoinCore(a: string, b: string, c: string)
    requires b != ""
    ensures StripTrailingSlash((a + "/") + StripLeadingSlash(b)) + ("/" + c)
         == (a + "/") + StripLeadingSlash(StripTrailingSlash(b) + ("/" + c))
  {
    if StripLeadingSlash(b) == "" {
      assert b == "/";
      StripConcat(a, "/");
      StripConcat("/", c);
      assert (a + "/") + "" == a + "/" && "" + ("/" + c) == "/" + c;
    } else {
      StripConcat(a + "/", StripLeadingSlash(b));
      JoinInnerStrip(b);
      StripConcat(StripTrailingSlash(b), "/" + c);
    }
  }

  /** The two ends of a string longer than one slash are stripped independently. */
  lemma JoinInnerStrip(b: string)
    requires StripLeadingSlash(b) != ""
    ensures StripTrailingSlash(b) != ""
    ensures StripTrailingSlash(StripLeadingSlash(b)) == StripLeadingSlash(StripTrailingSlash(b))
  {
  }

  /** The empty string is the unit of joinPaths. */
  lemma JoinPathsUnit(a: string)
    ensures JoinPaths("", a) == a && JoinPaths(a, "") == a
  {
  }

  // ---- taking a joined path apart again ----

  function StripLastNode(path: string): string {
    var pos := FindLast(path, '/');
    if pos == -1 then "" else if pos == 0 then "/" else path[..pos]
  }

  function LastNode(path: string): string {
    path[FindLast(path, '/') + 1..]
  }

  /** A location in the flat schema index: the root, or an absolute path without a trailing slash. */
  predicate IsLocation(s: string) {
    s == "/" || (|s| > 1 && s[0] == '/' && s[|s| - 1] != '/')
  }

  predicate SlashFree(s: string) {
    s != "" && forall i :: 0 <= i < |s| ==> s[i] != '/'
  }

  /** Joining a location and a slash-free name can be undone from the string alone. */
  lemma JoinedPathSplits(location: string, name: string)
    requires IsLocation(location) && SlashFree(name)
    ensures StripLastNode(JoinPaths(location, name)) == location
    ensures LastNode(JoinPaths(location, name)) == name
    ensures IsLocation(JoinPaths(location, name))
  {
    var joined := JoinPaths(location, name);
    var cut := |StripTrailingSlash(location)|;
    assert joined == StripTrailingSlash(location) + "/" + name;
    assert joined[cut] == '/' && joined[cut + 1..] == name;
    assert forall i :: cut < i < |joined| ==> joined[i] == name[i - cut - 1];
    assert FindLast(joined, '/') == cut;
    assert joined[..cut] == StripTrailingSlash(location);
  }

  /** Hence distinct (location, name) pairs have distinct keys. */
  lemma JoinedPathInjective(location: string, name: string, location': string, name': string)
    requires IsLocation(location) && SlashFree(name)
    requires IsLocation(location') && SlashFree(name')
    requires JoinPaths(location, name) == JoinPaths(location', name')
    ensures location == location' && name == name'
  {
    JoinedPathSplits(location, name);
    JoinedPathSplits(location', name');
  }

  // ---- module-qualified names ----

  /** What splitModuleNode separates at the first colon. */
  function ModuleOf(name: string): string {
    name[..Find(name, ':')]
  }

  function LocalNameOf(name: string): string
    requires ':' in name
  {
    name[Find(name, ':') + 1..]
  }

  predicate IsQualified(name: string) {
    ':' in name && IsIdentifier(ModuleOf(name)) && IsIdentifier(LocalNameOf(name))
  }

  lemma QualifiedNameSplits(mod: string, name: string)
    requires IsIdentifier(mod)
    ensures ':' in mod + ":" + name
    ensures ModuleOf(mod + ":" + name) == mod
    ensures LocalNameOf(mod + ":" + name) == name
  {
    var full := mod + ":" + name;
    assert full[|mod|] == ':';
    assert forall i :: 0 <= i < |mod| ==> full[i] == mod[i];
    assert Find(full, ':') == |mod|;
  }

  lemma QualifiedNameJoins(name: string)
    requires ':' in name
    ensures name == ModuleOf(name) + ":" + LocalNameOf(name)
  {
  }

  lemma TailHas(s: string, n: int, m: int)
    ensures 0 <= n < m < |s| ==> s[m] in s[n + 1..]
  {
    assert 0 <= n < m < |s| ==> s[n + 1..][m - n - 1] == s[m];
  }

  /** A qualified name has one colon, so it is written in only one way. */
  lemma QualifiedNameParts(mod: string, name: string)
    requires IsQualified(mod + ":" + name)
    ensures IsIdentifier(mod) && IsIdentifier(name)
    ensures ModuleOf(mod + ":" + name) == mod && LocalNameOf(mod + ":" + name) == name
  {
    var full := mod + ":" + name;
    var n := Find(full, ':');
    assert full[|mod|] == ':';
    IdentifierHasNoColon(LocalNameOf(full));
    TailHas(full, n, |mod|);
    assert n == |mod| && full[..n] == mod && full[n + 1..] == name;
  }

  lemma IdentifierHasNoColon(s: string)
    requires IsIdentifier(s)
    ensures ':' !in s && '/' !in s && SlashFree(s)
  {
  }

  lemma QualifiedIsSlashFree(name: string)
    requires IsQualified(name)
    ensures SlashFree(name)
  {
    QualifiedNameJoins(name);
  }
}
