/**
 * The string operations the ontology exporter applies to clause texts:
 * splitting on spaces with a token limit (Apache Commons `StringUtils.split`
 * with separator `" "`), Java's `String.trim`, stripping quote characters
 * (`StringUtils.strip(s, "\"")`), `indexOf`/`lastIndexOf` of a space, and
 * `equalsIgnoreCase`.
 */
module OboText {

  /** Drops the leading spaces of `s`. */
  function DropSpaces(s: string): (r: string)
    ensures |r| <= |s|
    ensures r == [] || r[0] != ' '
  {
    if s != [] && s[0] == ' ' then DropSpaces(s[1..]) else s
  }

  /** What `DropSpaces` drops is spaces, and what it keeps is the rest of the text. */
  lemma {:induction false} DroppedSpaces(s: string)
    ensures IsSuffix(DropSpaces(s), s)
    ensures AllSpaces(s[..|s| - |DropSpaces(s)|])
    decreases |s|
  {
    if s != [] && s[0] == ' ' {
      var u := s[1..];
      DroppedSpaces(u);
      var r := DropSpaces(u);
      assert u[|u| - |r|..] == s[|s| - |r|..];
      assert s[..|s| - |r|] == [' '] + u[..|u| - |r|];
    } else {
      assert s[..0] == [];
    }
  }

  /** Position of the first space of `s`, or `|s|` when there is none. */
  function SpaceIndex(s: string): (i: nat)
    ensures i <= |s|
    ensures forall k :: 0 <= k < i ==> s[k] != ' '
    ensures i < |s| ==> s[i] == ' '
  {
    if s == [] || s[0] == ' ' then 0
    else
      var j := SpaceIndex(s[1..]);
      assert forall k :: 1 <= k < 1 + j ==> s[k] == s[1..][k - 1];
      1 + j
  }

  /** Java's `s.lastIndexOf(' ')`: the position of the last space, or -1. */
  function LastSpaceIndex(s: string): (i: int)
    ensures -1 <= i < |s|
    ensures 0 <= i ==> s[i] == ' '
    ensures forall k :: i < k < |s| ==> s[k] != ' '
  {
    if s == [] then -1
    else if s[|s| - 1] == ' ' then |s| - 1
    else LastSpaceIndex(s[..|s| - 1])
  }

  /**
   * `StringUtils.split(s, " ", max)` for a positive `max`: runs of spaces
   * separate the tokens and none is empty; the `max`-th token is the rest of
   * the text from its first non-space character on, spaces included.
   */
  function Split(s: string, max: nat): (r: seq<string>)
    requires 1 <= max
    ensures |r| <= max
    ensures forall j :: 0 <= j < |r| ==> r[j] != [] && r[j][0] != ' '
    decreases |s|
  {
    var t := DropSpaces(s);
    if t == [] then []
    else if max == 1 then [t]
    else
      var i := SpaceIndex(t);
      assert 1 <= i;
      Prepend(t[..i], Split(t[i..], max - 1))
  }

  /** The tokens of a split rebuild the text they come from. */
  lemma {:induction false} SplitWords(s: string, max: nat)
    requires 1 <= max
    ensures SplitRebuilds(s, max, Split(s, max))
    decreases |s|, 1
  {
    var t := DropSpaces(s);
    if t == [] || max == 1 {
      SplitWordsLast(s, max);
    } else {
      SplitWordsStep(s, max);
    }
  }

  /** A text of spaces has no tokens; a single token is all of the text from its first non-space on. */
  lemma SplitWordsLast(s: string, max: nat)
    requires 1 <= max && (DropSpaces(s) == [] || max == 1)
    ensures SplitRebuilds(s, max, Split(s, max))
  {
    var t := DropSpaces(s);
    CollapseDropSpaces(s);
    DroppedSpaces(s);
    if t != [] {
      assert Split(s, max) == [t];
      SplitDropped(s, t, [t], max);
    }
  }

  /**
   * The tokens `r` rebuild `s`: there are none exactly when `s` is all
   * spaces; joined by single spaces they collapse to what `s` collapses to,
   * and give exactly that when there are fewer than `max` of them; with `max`
   * of them the last is a suffix of `s`.
   */
  predicate SplitRebuilds(s: string, max: nat, r: seq<string>) {
    (r == [] <==> AllSpaces(s)) &&
    Collapse(Join(r)) == Collapse(s) &&
    (|r| < max ==> Join(r) == Collapse(s)) &&
    (|r| == max ==> 1 <= max && IsSuffix(r[max - 1], s))
  }

  /** The recursive case of `SplitWords`: the first word in front of the split of the rest. */
  lemma {:induction false} SplitWordsStep(s: string, max: nat)
    requires 2 <= max && DropSpaces(s) != []
    ensures SplitRebuilds(s, max, Split(s, max))
    decreases |s|, 0
  {
    var t := DropSpaces(s);
    var i := SpaceIndex(t);
    FirstWord(t);
    SplitWords(t[i..], max - 1);
    var rest := Split(t[i..], max - 1);
    SplitStep(t[..i], t[i..], rest, max);
    assert Split(s, max) == Prepend(t[..i], rest);
    CollapseDropSpaces(s);
    SplitDropped(s, t, Prepend(t[..i], rest), max);
  }

  /** What a split of the text without its leading spaces says about the text itself. */
  lemma SplitDropped(s: string, t: string, r: seq<string>, max: nat)
    requires t == DropSpaces(s) && t != [] && r != []
    requires Collapse(Join(r)) == Collapse(t)
    requires |r| < max ==> Join(r) == Collapse(t)
    requires |r| == max ==> IsSuffix(r[max - 1], t)
    ensures !AllSpaces(s)
    ensures Collapse(Join(r)) == Collapse(s)
    ensures |r| < max ==> Join(r) == Collapse(s)
    ensures |r| == max ==> IsSuffix(r[max - 1], s)
  {
    CollapseDropSpaces(s);
    DroppedSpaces(s);
    assert s[|s| - |t|] == t[0];
    if |r| == max {
      SuffixTrans(r[max - 1], t, s);
    }
  }

  /** Every character of `s` is a space. */
  predicate AllSpaces(s: string) {
    forall k :: 0 <= k < |s| ==> s[k] == ' '
  }

  predicate IsSuffix(x: string, s: string) {
    |x| <= |s| && x == s[|s| - |x|..]
  }

  /** The words of `ws` separated by single spaces. */
  function Join(ws: seq<string>): string {
    if ws == [] then [] else if |ws| == 1 then ws[0] else ws[0] + " " + Join(ws[1..])
  }

  /** `s` without its leading and trailing spaces, each inner run of spaces cut to one. */
  function Collapse(s: string): string {
    if s == [] then []
    else if s[0] == ' ' then Collapse(s[1..])
    else
      var c := Collapse(s[1..]);
      [s[0]] + (if |s| > 1 && s[1] == ' ' && c != [] then " " else []) + c
  }

  lemma {:induction false} CollapseAllSpaces(s: string)
    ensures Collapse(s) == [] <==> AllSpaces(s)
    decreases |s|
  {
    if s != [] {
      CollapseAllSpaces(s[1..]);
      assert AllSpaces(s) <==> s[0] == ' ' && AllSpaces(s[1..]);
    }
  }

  lemma CollapseNonEmpty(s: string)
    requires s != [] && s[0] != ' '
    ensures Collapse(s) != [] && !AllSpaces(s)
  {
  }

  lemma {:induction false} CollapseDropSpaces(s: string)
    ensures Collapse(DropSpaces(s)) == Collapse(s)
    decreases |s|
  {
    if s != [] && s[0] == ' ' {
      CollapseDropSpaces(s[1..]);
    }
  }

  /** A word followed by nothing or by a space: the word, then one space when more words follow. */
  lemma {:induction false} CollapseWord(w: string, y: string)
    requires IsToken(w)
    requires y == [] || y[0] == ' '
    ensures Collapse(w + y) == w + (if Collapse(y) == [] then [] else " " + Collapse(y))
    decreases |w|
  {
    var s := w + y;
    var tail := if Collapse(y) == [] then [] else " " + Collapse(y);
    assert s[0] == w[0] && s[1..] == w[1..] + y;
    if |w| == 1 {
      assert s[1..] == y && w == [w[0]];
      assert Collapse(s) == [w[0]] + tail;
    } else {
      var v := w[1..];
      assert IsToken(v) by {
        assert forall k :: 0 <= k < |v| ==> v[k] == w[k + 1];
      }
      CollapseWord(v, y);
      assert s[1] == w[1] != ' ';
      assert Collapse(s) == [w[0]] + Collapse(v + y);
      assert w == [w[0]] + v;
    }
  }

  /** One step of `Split`: the first word `h` in front of the split of the text `y` after it. */
  lemma SplitStep(h: string, y: string, rest: seq<string>, max: nat)
    requires 2 <= max && IsToken(h) && (y == [] || y[0] == ' ')
    requires rest == [] <==> AllSpaces(y)
    requires Collapse(Join(rest)) == Collapse(y)
    requires |rest| < max - 1 ==> Join(rest) == Collapse(y)
    requires |rest| == max - 1 ==> IsSuffix(rest[max - 2], y)
    ensures Collapse(Join(Prepend(h, rest))) == Collapse(h + y)
    ensures |rest| < max - 1 ==> Join(Prepend(h, rest)) == Collapse(h + y)
    ensures |rest| == max - 1 ==> IsSuffix(Prepend(h, rest)[max - 1], h + y)
  {
    CollapseWord(h, y);
    CollapseAllSpaces(y);
    JoinPrepend(h, rest);
    if rest == [] {
      CollapseWord(h, []);
      assert h + [] == h;
    } else {
      CollapseWord(h, " " + Join(rest));
      CollapseSpaceFirst(Join(rest));
      assert h + " " + Join(rest) == h + (" " + Join(rest));
    }
    if |rest| == max - 1 {
      SuffixTrans(rest[max - 2], y, h + y);
    }
  }

  /** A text that starts with a non-space: its first word, then nothing or a space. */
  lemma FirstWord(t: string)
    requires t != [] && t[0] != ' '
    ensures var i := SpaceIndex(t);
      IsToken(t[..i]) && t == t[..i] + t[i..] && (t[i..] == [] || t[i..][0] == ' ')
  {
  }

  lemma JoinPrepend(h: string, rest: seq<string>)
    ensures Join(Prepend(h, rest)) == if rest == [] then h else h + (" " + Join(rest))
  {
    var r := Prepend(h, rest);
    if rest != [] {
      assert r[1..] == rest;
    }
  }

  lemma CollapseSpaceFirst(x: string)
    ensures Collapse(" " + x) == Collapse(x)
  {
    assert (" " + x)[1..] == x;
  }

  lemma SuffixTrans(x: string, y: string, s: string)
    requires IsSuffix(x, y) && IsSuffix(y, s)
    ensures IsSuffix(x, s)
  {
    assert s[|s| - |x|..] == s[|s| - |y|..][|y| - |x|..];
  }

  /** A split into at least two tokens yields two exactly when the collapsed text holds a space, that is, has two words. */
  lemma TwoWords(s: string, max: nat)
    requires 2 <= max
    ensures |Split(s, max)| >= 2 <==> ' ' in Collapse(s)
  {
    var r := Split(s, max);
    SplitWords(s, max);
    SplitTokens(s, max);
    if |r| >= 2 {
      var rest := r[1..];
      JoinPrepend(r[0], rest);
      assert r == Prepend(r[0], rest);
      var j := Join(rest);
      assert j != [] && j[0] != ' ' by {
        JoinStart(rest);
      }
      CollapseWord(r[0], " " + j);
      CollapseSpaceFirst(j);
      CollapseNonEmpty(j);
      assert r[0] + " " + j == r[0] + (" " + j);
      assert Collapse(Join(r)) == r[0] + (" " + Collapse(j));
      assert Collapse(Join(r))[|r[0]|] == ' ';
    } else if r != [] {
      assert Join(r) == r[0] && IsToken(r[0]);
    }
  }

  /** The joined words start with the first word. */
  lemma JoinStart(ws: seq<string>)
    requires ws != [] && ws[0] != [] && ws[0][0] != ' '
    ensures Join(ws) != [] && Join(ws)[0] != ' '
  {
  }

  /** Every token of a split but the last is free of spaces. */
  lemma {:induction false} SplitTokens(s: string, max: nat)
    requires 1 <= max
    ensures forall j :: 0 <= j < |Split(s, max)| - 1 ==> IsToken(Split(s, max)[j])
    ensures |Split(s, max)| < max ==> forall j :: 0 <= j < |Split(s, max)| ==> IsToken(Split(s, max)[j])
    decreases |s|
  {
    var t := DropSpaces(s);
    if t != [] && max > 1 {
      var i := SpaceIndex(t);
      var rest := Split(t[i..], max - 1);
      var r := Split(s, max);
      assert r == Prepend(t[..i], rest);
      SplitTokens(t[i..], max - 1);
      assert IsToken(t[..i]);
      forall j | 0 <= j < |r| && (j < |r| - 1 || |r| < max) ensures IsToken(r[j]) {
        if j > 0 {
          assert r[j] == rest[j - 1];
        }
      }
    }
  }

  function Prepend(head: string, rest: seq<string>): (r: seq<string>)
    ensures |r| == |rest| + 1 && r[0] == head
    ensures forall j :: 1 <= j < |r| ==> r[j] == rest[j - 1]
  {
    [head] + rest
  }

  /** A token: non-empty and without spaces. */
  predicate IsToken(s: string) {
    s != [] && forall k :: 0 <= k < |s| ==> s[k] != ' '
  }

  lemma SpaceIndexOfToken(t: string, rest: string)
    requires IsToken(t)
    ensures SpaceIndex(t + rest) >= |t|
    ensures rest != [] && rest[0] == ' ' ==> SpaceIndex(t + rest) == |t|
  {
    var s := t + rest;
    assert forall k :: 0 <= k < |t| ==> s[k] == t[k];
    if rest != [] && rest[0] == ' ' {
      assert s[|t|] == ' ';
    }
  }

  /** Splitting a token followed by one space and a text that does not start with a space: the token, then the split of that text. */
  lemma SplitAfterToken(t: string, rest: string, max: nat)
    requires IsToken(t) && 2 <= max
    requires rest == [] || rest[0] != ' '
    ensures rest != [] ==> Split(t + [' '] + rest, max) == [t] + Split(rest, max - 1)
    ensures Split(t, max) == [t]
  {
    var s := t + [' '] + rest;
    assert s[0] == t[0];
    assert DropSpaces(s) == s;
    SpaceIndexOfToken(t, [' '] + rest);
    assert s == t + ([' '] + rest);
    assert s[..|t|] == t;
    assert DropSpaces(s[|t|..]) == rest by {
      assert s[|t|..] == [' '] + rest;
      assert ([' '] + rest)[1..] == rest;
    }
    if rest != [] {
      assert Split(s[|t|..], max - 1) == Split(rest, max - 1);
    }
    assert DropSpaces(t) == t;
    SpaceIndexOfToken(t, []);
    assert t + [] == t;
    assert t[|t|..] == [];
  }

  /** The whole of a text that does not start with a space, as the last token. */
  lemma SplitLast(s: string)
    requires s != [] && s[0] != ' '
    ensures Split(s, 1) == [s]
  {
  }

  /** `r` is the part of `s` that starts at position `a`. */
  predicate SliceAt(s: string, r: string, a: int) {
    0 <= a && a + |r| <= |s| && r == s[a..a + |r|]
  }

  /** Java's `Character` test used by `String.trim`: code points up to the space are removed. */
  predicate IsTrimmed(c: char) {
    c <= ' '
  }

  function TrimStart(s: string): (r: string)
    ensures |r| <= |s|
    ensures r == [] || !IsTrimmed(r[0])
  {
    if s != [] && IsTrimmed(s[0]) then TrimStart(s[1..]) else s
  }

  function TrimEnd(s: string): (r: string)
    ensures |r| <= |s| && r == s[..|r|]
    ensures r == [] || !IsTrimmed(r[|r| - 1])
  {
    if s != [] && IsTrimmed(s[|s| - 1]) then TrimEnd(s[..|s| - 1]) else s
  }

  /** `r` sits at position `a` of `s`, with only trimmed characters before and after it. */
  predicate TrimmedAround(s: string, r: string, a: int) {
    SliceAt(s, r, a) &&
    (forall k :: 0 <= k < a ==> IsTrimmed(s[k])) &&
    (forall k :: a + |r| <= k < |s| ==> IsTrimmed(s[k]))
  }

  /** `TrimStart` keeps a suffix of the text and drops only trimmed characters. */
  lemma {:induction false} TrimmedStart(s: string)
    ensures IsSuffix(TrimStart(s), s)
    ensures forall k :: 0 <= k < |s| - |TrimStart(s)| ==> IsTrimmed(s[k])
    decreases |s|
  {
    if s != [] && IsTrimmed(s[0]) {
      var r := TrimStart(s);
      var u := s[1..];
      TrimmedStart(u);
      assert r == TrimStart(u);
      assert u[|u| - |r|..] == s[|s| - |r|..];
      forall k | 0 <= k < |s| - |r| ensures IsTrimmed(s[k]) {
        if k > 0 {
          assert s[k] == u[k - 1];
        }
      }
    }
  }

  /** `TrimEnd` drops only trimmed characters. */
  lemma {:induction false} TrimmedEnd(s: string)
    ensures forall k :: |TrimEnd(s)| <= k < |s| ==> IsTrimmed(s[k])
    decreases |s|
  {
    if s != [] && IsTrimmed(s[|s| - 1]) {
      TrimmedEnd(s[..|s| - 1]);
    }
  }

  /** `String.trim`: removes every leading and trailing character up to the space. */
  function Trim(s: string): (r: string)
    ensures exists a :: TrimmedAround(s, r, a)
    ensures r == [] || (!IsTrimmed(r[0]) && !IsTrimmed(r[|r| - 1]))
  {
    TrimAround(s);
    TrimEnd(TrimStart(s))
  }

  lemma TrimAround(s: string)
    ensures TrimmedAround(s, TrimEnd(TrimStart(s)), |s| - |TrimStart(s)|)
  {
    var t := TrimStart(s);
    var r := TrimEnd(t);
    var a := |s| - |t|;
    TrimmedStart(s);
    TrimmedEnd(t);
    assert SliceAt(s, r, a);
    assert forall k :: a + |r| <= k < |s| ==> s[k] == t[k - a];
  }

  function StripStart(s: string, c: char): (r: string)
    ensures r == [] || r[0] != c
  {
    if s != [] && s[0] == c then StripStart(s[1..], c) else s
  }

  function StripEnd(s: string, c: char): (r: string)
    ensures r == [] || r[|r| - 1] != c
    ensures |r| <= |s| && r == s[..|r|]
  {
    if s != [] && s[|s| - 1] == c then StripEnd(s[..|s| - 1], c) else s
  }

  /** `StripStart` keeps a suffix of the text and drops only `c`. */
  lemma {:induction false} StrippedStart(s: string, c: char)
    ensures IsSuffix(StripStart(s, c), s)
    ensures forall k :: 0 <= k < |s| - |StripStart(s, c)| ==> s[k] == c
    decreases |s|
  {
    if s != [] && s[0] == c {
      var r := StripStart(s, c);
      var u := s[1..];
      StrippedStart(u, c);
      assert r == StripStart(u, c);
      assert u[|u| - |r|..] == s[|s| - |r|..];
      forall k | 0 <= k < |s| - |r| ensures s[k] == c {
        if k > 0 {
          assert s[k] == u[k - 1];
        }
      }
    }
  }

  /** `StripEnd` drops only `c`. */
  lemma {:induction false} StrippedEnd(s: string, c: char)
    ensures forall k :: |StripEnd(s, c)| <= k < |s| ==> s[k] == c
    decreases |s|
  {
    if s != [] && s[|s| - 1] == c {
      StrippedEnd(s[..|s| - 1], c);
    }
  }

  /** `r` sits at position `a` of `s`, with only double quotes before and after it. */
  predicate QuotedAround(s: string, r: string, a: int) {
    SliceAt(s, r, a) &&
    (forall k :: 0 <= k < a ==> s[k] == '"') &&
    (forall k :: a + |r| <= k < |s| ==> s[k] == '"')
  }

  /** `StringUtils.strip(s, "\"")`: removes every leading and trailing double quote. */
  function StripQuotes(s: string): (r: string)
    ensures exists a :: QuotedAround(s, r, a)
    ensures r == [] || (r[0] != '"' && r[|r| - 1] != '"')
  {
    StripAround(s);
    StripEnd(StripStart(s, '"'), '"')
  }

  lemma StripAround(s: string)
    ensures QuotedAround(s, StripEnd(StripStart(s, '"'), '"'), |s| - |StripStart(s, '"')|)
  {
    var t := StripStart(s, '"');
    var r := StripEnd(t, '"');
    var a := |s| - |t|;
    StrippedStart(s, '"');
    StrippedEnd(t, '"');
    assert SliceAt(s, r, a);
    assert forall k :: a + |r| <= k < |s| ==> s[k] == t[k - a];
  }

  /** A name that survives quoting: it neither starts nor ends with a double quote. */
  predicate Unquoted(name: string) {
    name == [] || (name[0] != '"' && name[|name| - 1] != '"')
  }

  /** Trimming and stripping the quotes of a quoted name, with or without a leading space, gives the name back. */
  lemma {:induction false} QuotedNameRoundTrip(name: string)
    requires Unquoted(name)
    ensures StripQuotes(Trim(" " + ("\"" + name + "\""))) == name
    ensures StripQuotes(Trim("\"" + name + "\"")) == name
  {
    var q := "\"" + name + "\"";
    QuotedTrim(q);
    QuotedStrip(name);
  }

  /** A quoted text survives trimming, with or without one leading space. */
  lemma QuotedTrim(q: string)
    requires |q| >= 2 && q[0] == '"' && q[|q| - 1] == '"'
    ensures Trim(q) == q && Trim(" " + q) == q
  {
    assert TrimStart(q) == q by {
      assert !IsTrimmed(q[0]);
    }
    assert TrimEnd(q) == q by {
      assert !IsTrimmed(q[|q| - 1]);
    }
    var sq := " " + q;
    assert TrimStart(sq) == TrimStart(q) by {
      assert sq[0] == ' ' && sq[1..] == q;
    }
  }

  /** Stripping the quotes around a name that neither starts nor ends with a quote gives the name. */
  lemma QuotedStrip(name: string)
    requires Unquoted(name)
    ensures StripQuotes("\"" + name + "\"") == name
  {
    var q := "\"" + name + "\"";
    var t := name + "\"";
    assert q[0] == '"' && q[1..] == t;
    assert t[|t| - 1] == '"' && t[..|t| - 1] == name;
    if name == [] {
      assert StripStart(t, '"') == StripStart([], '"');
      assert StripQuotes(q) == StripEnd([], '"');
    } else {
      assert t[0] == name[0];
      assert StripStart(q, '"') == t;
      assert StripEnd(t, '"') == StripEnd(name, '"');
    }
  }

  function LowerAscii(c: char): char {
    if 'A' <= c <= 'Z' then (c as int + 32) as char else c
  }

  /** `String.equalsIgnoreCase`, with case folding of the ASCII letters. */
  predicate EqualsIgnoreCase(a: string, b: string) {
    |a| == |b| && forall i :: 0 <= i < |a| ==> LowerAscii(a[i]) == LowerAscii(b[i])
  }

  /** Equal to "true" ignoring case exactly when each of the four letters is in either case. */
  lemma EqualsTrueIgnoringCase(v: string)
    ensures EqualsIgnoreCase(v, "true") <==>
      |v| == 4 && v[0] in "tT" && v[1] in "rR" && v[2] in "uU" && v[3] in "eE"
  {
    if |v| == 4 && v[0] in "tT" && v[1] in "rR" && v[2] in "uU" && v[3] in "eE" {
      assert forall i :: 0 <= i < 4 ==> LowerAscii(v[i]) == LowerAscii("true"[i]);
    }
    if EqualsIgnoreCase(v, "true") {
      assert LowerAscii(v[0]) == 't' && LowerAscii(v[1]) == 'r';
      assert LowerAscii(v[2]) == 'u' && LowerAscii(v[3]) == 'e';
    }
  }
}
