/**
 * The three kinds of repeated header clause the ontology exporter turns into
 * nodes of their own: subset definitions, synonym-type definitions and
 * idspaces. Each parser returns the node's properties, or `None` where the
 * exporter's string handling throws (a missing token, an index of -1, or a
 * scope name that is not one of the synonym scopes).
 */
module HeaderDefinitions {
  import opened Wrappers
  import opened OboText

  type Props = map<string, string>

  /** The synonym scopes of the OBO 1.4 format, in declaration order. */
  const SCOPES: seq<string> := ["EXACT", "BROAD", "NARROW", "RELATED"]

  predicate EndsWith(s: string, suffix: string) {
    |suffix| <= |s| && s[|s| - |suffix|..] == suffix
  }

  /** Whether the whole clause text ends with one of the scope names. */
  predicate EndsWithScope(s: string) {
    exists j :: 0 <= j < |SCOPES| && EndsWith(s, SCOPES[j])
  }

  /** A subset definition `id "name"`: split into two tokens at the first run of spaces; the name is trimmed and unquoted. */
  function ParseSubsetDef(s: string): (r: Option<Props>)
    ensures r.Some? <==> ' ' in Collapse(s)
    ensures r.Some? ==> r.value.Keys == {"id", "name"} && IsToken(r.value["id"]) && Unquoted(r.value["name"])
  {
    var parts := Split(s, 2);
    TwoWords(s, 2);
    SplitTokens(s, 2);
    if |parts| < 2 then None
    else Some(map["id" := parts[0], "name" := StripQuotes(Trim(parts[1]))])
  }

  /**
   * A synonym-type definition `id "name" [SCOPE]`: the id is the text before
   * the first space. When the text ends with a scope name, the scope is the
   * text after the last space and the name lies between the two spaces.
   */
  function ParseSynonymTypeDef(s: string): (r: Option<Props>)
    ensures r.None? ==> ' ' !in s || EndsWithScope(s)
    ensures ' ' !in s ==> r.None?
    ensures r.Some? ==> "id" in r.value && "name" in r.value && Unquoted(r.value["name"])
    ensures r.Some? ==> ' ' !in r.value["id"] && |r.value["id"]| < |s| && s[..|r.value["id"]| + 1] == r.value["id"] + " "
    ensures r.Some? ==> ("scope" in r.value <==> EndsWithScope(s))
    ensures r.Some? && "scope" in r.value ==> r.value["scope"] in SCOPES
  {
    var i := SpaceIndex(s);
    SpaceIndexPrefix(s);
    if i == |s| then None
    else if EndsWithScope(s) then ParseScoped(s, i, LastSpaceIndex(s))
    else Some(SynonymTypeProps(s[..i], StripQuotes(Trim(s[i..])), None))
  }

  /** The scoped form: the name lies between the first space `i` and the last space `j`, the scope after `j`. */
  function ParseScoped(s: string, i: nat, j: int): (r: Option<Props>)
    requires i <= j < |s|
    ensures r.Some? <==> s[j + 1..] in SCOPES
    ensures r.Some? ==> r.value.Keys == {"id", "name", "scope"} && Unquoted(r.value["name"])
    ensures r.Some? ==> r.value["id"] == s[..i] && r.value["scope"] == s[j + 1..]
  {
    var scope := s[j + 1..];
    if scope !in SCOPES then None
    else Some(SynonymTypeProps(s[..i], StripQuotes(Trim(s[i..j])), Some(scope)))
  }

  /** An idspace `id iri ["name"]`: three tokens give a name as well, two give none. */
  function ParseIdspace(s: string): (r: Option<Props>)
    ensures r.Some? <==> ' ' in Collapse(s)
    ensures r.Some? ==> {"id", "iri"} <= r.value.Keys <= {"id", "iri", "name"}
    ensures r.Some? ==> IsToken(r.value["id"]) && IsToken(r.value["iri"])
    ensures r.Some? && "name" in r.value ==> Unquoted(r.value["name"])
  {
    var parts := Split(s, 3);
    TwoWords(s, 3);
    SplitTokens(s, 3);
    if |parts| == 3 then
      Some(map["id" := parts[0], "iri" := parts[1], "name" := StripQuotes(Trim(parts[2]))])
    else if |parts| == 2 then Some(map["id" := parts[0], "iri" := parts[1]])
    else None
  }

  /** How a subset definition is written in a header. */
  function SubsetDefText(id: string, name: string): string {
    id + " \"" + name + "\""
  }

  lemma {:induction false} SubsetDefRoundTrip(id: string, name: string)
    requires IsToken(id) && Unquoted(name)
    ensures ParseSubsetDef(SubsetDefText(id, name)) == Some(map["id" := id, "name" := name])
  {
    var q := "\"" + name + "\"";
    assert SubsetDefText(id, name) == id + [' '] + q;
    SplitAfterToken(id, q, 2);
    SplitLast(q);
    QuotedNameRoundTrip(name);
  }

  /** A clause text without a space has no name token, so the subset and synonym-type parses fail. */
  lemma NoSpaceFails(s: string)
    requires forall k :: 0 <= k < |s| ==> s[k] != ' '
    ensures ParseSubsetDef(s) == None
    ensures ParseSynonymTypeDef(s) == None
  {
    if s != [] {
      assert IsToken(s);
      SplitAfterToken(s, [], 2);
    }
  }

  /** How a synonym-type definition is written, with an optional scope after the quoted name. */
  function SynonymTypeDefText(id: string, name: string, scope: Option<string>): string {
    id + " \"" + name + "\"" + (if scope.Some? then " " + scope.value else "")
  }

  function SynonymTypeProps(id: string, name: string, scope: Option<string>): (p: Props)
    ensures p.Keys == {"id", "name"} + (if scope.Some? then {"scope"} else {})
    ensures p["id"] == id && p["name"] == name && (scope.Some? ==> p["scope"] == scope.value)
  {
    if scope.Some? then map["id" := id, "name" := name, "scope" := scope.value]
    else map["id" := id, "name" := name]
  }

  /** The text before the first space, then that space. */
  lemma SpaceIndexPrefix(s: string)
    ensures SpaceIndex(s) < |s| ==> ' ' !in s[..SpaceIndex(s)] && s[..SpaceIndex(s) + 1] == s[..SpaceIndex(s)] + " "
    ensures SpaceIndex(s) == |s| ==> ' ' !in s
  {
  }

  lemma ScopesAreTokens()
    ensures forall j :: 0 <= j < |SCOPES| ==> IsToken(SCOPES[j]) && SCOPES[j][|SCOPES[j]| - 1] != '"'
  {
  }

  lemma SynonymTypeDefRoundTrip(id: string, name: string, scope: Option<string>)
    requires IsToken(id) && Unquoted(name)
    requires scope.Some? ==> scope.value in SCOPES
    ensures ParseSynonymTypeDef(SynonymTypeDefText(id, name, scope)) == Some(SynonymTypeProps(id, name, scope))
  {
    if scope.Some? {
      ScopedSynonymTypeDef(id, name, scope.value);
    } else {
      UnscopedSynonymTypeDef(id, name);
    }
  }

  lemma {:induction false} ScopedSynonymTypeDef(id: string, name: string, sc: string)
    requires IsToken(id) && Unquoted(name) && sc in SCOPES
    ensures ParseSynonymTypeDef(SynonymTypeDefText(id, name, Some(sc))) == Some(SynonymTypeProps(id, name, Some(sc)))
  {
    var q := "\"" + name + "\"";
    var p := id + " " + q;
    var s := SynonymTypeDefText(id, name, Some(sc));
    assert s == p + " " + sc;
    ScopedPositions(id, q, sc, p, s);
    ScopedShape(s, |id|, |p|);
    QuotedNameRoundTrip(name);
  }

  /** Where the first and the last space of `id q sc` are, and what lies around them. */
  lemma ScopedPositions(id: string, q: string, sc: string, p: string, s: string)
    requires IsToken(id) && sc in SCOPES && p == id + " " + q && s == p + " " + sc
    ensures SpaceIndex(s) == |id| && s[..|id|] == id
    ensures LastSpaceIndex(s) == |p| && s[|p| + 1..] == sc
    ensures EndsWithScope(s)
    ensures s[|id|..|p|] == " " + q
  {
    IdPosition(id, q, p, s);
    ScopePosition(sc, p, s);
  }

  /** The id of `id "name" scope` ends at the first space, and the quoted name follows it. */
  lemma IdPosition(id: string, q: string, p: string, s: string)
    requires IsToken(id) && p == id + " " + q && |p| <= |s| && s[..|p|] == p
    ensures SpaceIndex(s) == |id| && s[..|id|] == id
    ensures s[|id|..|p|] == " " + q
  {
    PrefixSlice(s, p, 0);
    assert p[..|id|] == id;
    assert s[..|id|] == id;
    FirstSpaceAt(s, id);
    PrefixSlice(s, p, |id|);
    assert p[|id|..] == " " + q;
  }

  /** The scope of `id "name" scope` follows the last space. */
  lemma ScopePosition(sc: string, p: string, s: string)
    requires sc in SCOPES && s == p + " " + sc
    ensures |p| <= |s| && s[..|p|] == p
    ensures LastSpaceIndex(s) == |p| && s[|p| + 1..] == sc
    ensures EndsWithScope(s)
  {
    assert s[..|p|] == p;
    ScopesAreTokens();
    LastToken(p, sc);
    ScopeSuffix(s, sc);
  }

  /** A text that starts with a token and then a space has its first space right after the token. */
  lemma FirstSpaceAt(s: string, t: string)
    requires IsToken(t) && |t| < |s| && s[..|t|] == t && s[|t|] == ' '
    ensures SpaceIndex(s) == |t|
  {
    forall k | 0 <= k < |t| ensures s[k] != ' ' {
      assert s[k] == s[..|t|][k];
    }
  }

  lemma ScopeSuffix(s: string, sc: string)
    requires sc in SCOPES && EndsWith(s, sc)
    ensures EndsWithScope(s)
  {
    var k :| 0 <= k < |SCOPES| && SCOPES[k] == sc;
    assert EndsWith(s, SCOPES[k]);
  }

  lemma PrefixSlice(s: string, p: string, a: nat)
    requires |p| <= |s| && s[..|p|] == p && a <= |p|
    ensures s[a..|p|] == p[a..]
  {
    assert forall m :: a <= m < |p| ==> s[m] == s[..|p|][m];
  }

  /** The parse of a definition whose text ends with a scope name that is the whole last token. */
  lemma ScopedShape(s: string, i: nat, j: int)
    requires i == SpaceIndex(s) && j == LastSpaceIndex(s)
    requires i < |s| && EndsWithScope(s) && s[j + 1..] in SCOPES
    ensures i <= j
    ensures ParseSynonymTypeDef(s) == Some(SynonymTypeProps(s[..i], StripQuotes(Trim(s[i..j])), Some(s[j + 1..])))
  {
    FirstSpaceBeforeLast(s, i, j);
    ScopedBranch(s, i, j);
    ScopedValue(s, i, j);
  }

  lemma ScopedValue(s: string, i: nat, j: int)
    requires i <= j < |s| && s[j + 1..] in SCOPES
    ensures ParseScoped(s, i, j) == Some(SynonymTypeProps(s[..i], StripQuotes(Trim(s[i..j])), Some(s[j + 1..])))
  {
  }

  lemma FirstSpaceBeforeLast(s: string, i: nat, j: int)
    requires i == SpaceIndex(s) && j == LastSpaceIndex(s) && i < |s|
    ensures i <= j
  {
    assert s[i] == ' ';
  }

  lemma ScopedBranch(s: string, i: nat, j: int)
    requires i == SpaceIndex(s) && j == LastSpaceIndex(s) && i < |s| && i <= j && EndsWithScope(s)
    ensures ParseSynonymTypeDef(s) == ParseScoped(s, i, j)
  {
  }

  lemma {:induction false} UnscopedSynonymTypeDef(id: string, name: string)
    requires IsToken(id) && Unquoted(name)
    ensures ParseSynonymTypeDef(SynonymTypeDefText(id, name, None)) == Some(SynonymTypeProps(id, name, None))
  {
    var q := "\"" + name + "\"";
    var s := SynonymTypeDefText(id, name, None);
    assert s == id + (" " + q);
    SpaceIndexOfToken(id, " " + q);
    var i := SpaceIndex(s);
    assert s[..i] == id;
    ScopesAreTokens();
    QuotedNameRoundTrip(name);
    forall k | 0 <= k < |SCOPES| ensures !EndsWith(s, SCOPES[k]) {
      var sc := SCOPES[k];
      assert |sc| <= |s| ==> s[|s| - |sc|..][|sc| - 1] == '"';
    }
    assert s[i..] == " " + q;
  }

  /** A text that ends with a scope name inside a longer last token passes the scope test, and then fails on the scope lookup. */
  lemma {:induction false} ScopeSuffixOfLongerToken(id: string, word: string)
    requires IsToken(id) && IsToken(word) && word !in SCOPES
    requires EndsWith(word, "EXACT")
    ensures ParseSynonymTypeDef(id + " " + word) == None
  {
    var s := id + " " + word;
    SpaceIndexOfToken(id, " " + word);
    assert s[|s| - 5..] == word[|word| - 5..];
    assert EndsWith(s, SCOPES[0]);
    LastToken(id, word);
  }

  /** The text after the last space of `p w`, for a token `w`, is `w`; and `p w` ends with `w`. */
  lemma LastToken(p: string, w: string)
    requires IsToken(w)
    ensures LastSpaceIndex(p + " " + w) == |p|
    ensures (p + " " + w)[|p| + 1..] == w
    ensures EndsWith(p + " " + w, w)
  {
    LastSpaceBeforeWord(p, w);
    var s := p + " " + w;
    assert s[|p| + 1..] == w;
  }

  lemma {:induction false} LastSpaceBeforeWord(p: string, w: string)
    requires forall k :: 0 <= k < |w| ==> w[k] != ' '
    ensures LastSpaceIndex(p + " " + w) == |p|
    decreases |w|
  {
    var s := p + " " + w;
    if w == [] {
      assert s[|s| - 1] == ' ';
    } else {
      var v := w[..|w| - 1];
      assert s[|s| - 1] == w[|w| - 1];
      assert s[..|s| - 1] == p + " " + v;
      LastSpaceBeforeWord(p, v);
    }
  }

  /** How an idspace is written, with an optional quoted name after the iri. */
  function IdspaceText(id: string, iri: string, name: Option<string>): string {
    id + " " + iri + (if name.Some? then " \"" + name.value + "\"" else "")
  }

  lemma IdspaceRoundTrip(id: string, iri: string, name: Option<string>)
    requires IsToken(id) && IsToken(iri)
    requires name.Some? ==> Unquoted(name.value)
    ensures ParseIdspace(IdspaceText(id, iri, name)) ==
      if name.Some? then Some(map["id" := id, "iri" := iri, "name" := name.value])
      else Some(map["id" := id, "iri" := iri])
  {
    if name.Some? {
      NamedIdspace(id, iri, name.value);
    } else {
      UnnamedIdspace(id, iri);
    }
  }

  lemma {:induction false} NamedIdspace(id: string, iri: string, name: string)
    requires IsToken(id) && IsToken(iri) && Unquoted(name)
    ensures ParseIdspace(IdspaceText(id, iri, Some(name))) == Some(map["id" := id, "iri" := iri, "name" := name])
  {
    var q := "\"" + name + "\"";
    assert IdspaceText(id, iri, Some(name)) == id + [' '] + (iri + [' '] + q);
    ThreeTokens(id, iri, q);
    QuotedNameRoundTrip(name);
  }

  lemma {:induction false} ThreeTokens(a: string, b: string, rest: string)
    requires IsToken(a) && IsToken(b) && rest != [] && rest[0] != ' '
    ensures Split(a + [' '] + (b + [' '] + rest), 3) == [a, b, rest]
  {
    SplitAfterToken(a, b + [' '] + rest, 3);
    SplitAfterToken(b, rest, 2);
    SplitLast(rest);
  }

  lemma {:induction false} UnnamedIdspace(id: string, iri: string)
    requires IsToken(id) && IsToken(iri)
    ensures ParseIdspace(IdspaceText(id, iri, None)) == Some(map["id" := id, "iri" := iri])
  {
    assert IdspaceText(id, iri, None) == id + [' '] + iri;
    SplitAfterToken(id, iri, 3);
    SplitAfterToken(iri, [], 2);
  }
}
