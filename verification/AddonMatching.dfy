/** addons.c: translating include and exclude patterns to regular expressions, and deciding
    whether an addon runs on a page. */
module AddonMatching {
  import opened Wrappers

  // ----- Patterns: `*` stands for any text within a line, spaces for nothing -----

  predicate IsNewline(c: char) {
    c == '\n' || c == '\r'
  }

  function NoSpaces(p: string): string {
    if p == [] then [] else (if p[0] == ' ' then [] else [p[0]]) + NoSpaces(p[1..])
  }

  /** `p` matches all of `s`. */
  predicate Glob(p: string, s: string)
    decreases |p| + |s|
  {
    if p == [] then s == []
    else if p[0] == '*' then Glob(p[1..], s) || (s != [] && !IsNewline(s[0]) && Glob(p, s[1..]))
    else s != [] && s[0] == p[0] && Glob(p[1..], s[1..])
  }

  /** `p` matches some prefix of `s`. */
  ghost predicate GlobsPrefix(p: string, s: string) {
    exists n :: 0 <= n <= |s| && Glob(p, s[..n])
  }

  // ----- The regular expressions that translation produces -----

  datatype Item = Literal(c: char) | AnyCharacters

  /** The characters with a meaning of their own in a regular expression. */
  predicate IsSpecial(c: char) {
    c in "^$*+?{[|()"
  }

  predicate IsAlphanumeric(c: char) {
    'a' <= c <= 'z' || 'A' <= c <= 'Z' || '0' <= c <= '9'
  }

  /** Reads literals, escaped characters and `.*`; `None` for anything else. */
  function ParseItems(s: string): Option<seq<Item>>
    decreases |s|
  {
    if s == [] then Some([])
    else if s[0] == '\\' then
      (if |s| < 2 || IsAlphanumeric(s[1]) then None else Prepend(Literal(s[1]), ParseItems(s[2..])))
    else if s[0] == '.' then
      (if |s| < 2 || s[1] != '*' then None else Prepend(AnyCharacters, ParseItems(s[2..])))
    else if IsSpecial(s[0]) then None
    else Prepend(Literal(s[0]), ParseItems(s[1..]))
  }

  function Prepend(i: Item, rest: Option<seq<Item>>): Option<seq<Item>> {
    if rest.None? then None else Some([i] + rest.value)
  }

  /** The items match some prefix of `s`; a dot matches anything but a line end. */
  predicate MatchesPrefix(items: seq<Item>, s: string)
    decreases |items|
  {
    if items == [] then true
    else match items[0]
      case Literal(c) => s != [] && s[0] == c && MatchesPrefix(items[1..], s[1..])
      case AnyCharacters =>
        exists k :: 0 <= k <= |s| && (forall i :: 0 <= i < k ==> !IsNewline(s[i])) && MatchesPrefix(items[1..], s[k..])
  }

  /** `g_regex_match_simple` on an anchored expression of the kind above. */
  predicate RegexpMatches(re: string, s: string) {
    re != [] && re[0] == '^' && ParseItems(re[1..]).Some? && MatchesPrefix(ParseItems(re[1..]).value, s)
  }

  // ----- Translation -----

  predicate IsEscaped(c: char) {
    c in ".?^$+{[|()]\\"
  }

  function TranslateChar(c: char): string {
    if c == '*' then ['.', c] else if IsEscaped(c) then ['\\', c] else if c == ' ' then [] else [c]
  }

  function TranslateAll(p: string): string {
    if p == [] then [] else TranslateChar(p[0]) + TranslateAll(p[1..])
  }

  function Translate(p: string): string {
    ['^'] + TranslateAll(p)
  }

  function Items(p: string): seq<Item> {
    if p == [] then [] else [if p[0] == '*' then AnyCharacters else Literal(p[0])] + Items(p[1..])
  }

  lemma ParseTranslatedChar(c: char, rest: string)
    ensures ParseItems(TranslateChar(c) + rest) ==
            if c == ' ' then ParseItems(rest)
            else Prepend(if c == '*' then AnyCharacters else Literal(c), ParseItems(rest))
  {
    var s := TranslateChar(c) + rest;
    assert s[|TranslateChar(c)|..] == rest;
  }

  /** A space anywhere in a pattern makes no difference to its translation. */
  lemma {:induction false} SpaceMakesNoDifference(a: string, b: string)
    ensures TranslateAll(a + (" " + b)) == TranslateAll(a + b)
    decreases a
  {
    var p, q := a + (" " + b), a + b;
    if a == [] {
      assert p == " " + b && p[1..] == b && q == b;
    } else {
      SpaceMakesNoDifference(a[1..], b);
      assert p[1..] == a[1..] + (" " + b) && q[1..] == a[1..] + b;
    }
  }

  /** And without spaces a pattern stands for itself. */
  lemma {:induction false} NoSpacesStays(p: string)
    requires ' ' !in p
    ensures NoSpaces(p) == p
    decreases p
  {
    if p != [] {
      NoSpacesStays(p[1..]);
      assert p == [p[0]] + p[1..];
    }
  }

  /** Translated patterns are well-formed, and mean the pattern's items. */
  lemma {:induction false} TranslateParses(p: string)
    ensures ParseItems(TranslateAll(p)) == Some(Items(NoSpaces(p)))
  {
    if p != [] {
      var c, rest := p[0], TranslateAll(p[1..]);
      TranslateParses(p[1..]);
      ParseTranslatedChar(c, rest);
      if c == ' ' {
        assert NoSpaces(p) == NoSpaces(p[1..]);
      } else {
        assert NoSpaces(p) == [c] + NoSpaces(p[1..]);
        assert ([c] + NoSpaces(p[1..]))[1..] == NoSpaces(p[1..]);
      }
    }
  }

  lemma {:induction false} StarGlob(p: string, s: string)
    requires p != [] && p[0] == '*'
    ensures GlobsPrefix(p, s) <==>
            exists k :: 0 <= k <= |s| && (forall i :: 0 <= i < k ==> !IsNewline(s[i])) && GlobsPrefix(p[1..], s[k..])
    decreases |s|
  {
    if GlobsPrefix(p, s) {
      var n :| 0 <= n <= |s| && Glob(p, s[..n]);
      if Glob(p[1..], s[..n]) {
        assert s[0..] == s;
        assert GlobsPrefix(p[1..], s[0..]);
      } else {
        assert s[..n][1..] == s[1..][..n - 1];
        assert GlobsPrefix(p, s[1..]);
        StarGlob(p, s[1..]);
        var k :| 0 <= k <= |s[1..]| && (forall i :: 0 <= i < k ==> !IsNewline(s[1..][i]))
                 && GlobsPrefix(p[1..], s[1..][k..]);
        assert s[1..][k..] == s[k + 1..];
        assert forall i :: 0 < i < k + 1 ==> s[i] == s[1..][i - 1];
      }
    }
    if k :| 0 <= k <= |s| && (forall i :: 0 <= i < k ==> !IsNewline(s[i])) && GlobsPrefix(p[1..], s[k..]) {
      var n :| 0 <= n <= |s[k..]| && Glob(p[1..], s[k..][..n]);
      assert s[k..][..n] == s[..k + n][k..];
      StarSkips(p, s[..k + n], k);
    }
  }

  lemma {:induction false} StarSkips(p: string, s: string, k: nat)
    requires p != [] && p[0] == '*' && k <= |s| && (forall i :: 0 <= i < k ==> !IsNewline(s[i])) && Glob(p[1..], s[k..])
    ensures Glob(p, s)
    decreases k
  {
    if k == 0 {
      assert s[0..] == s;
    } else {
      assert s[1..][k - 1..] == s[k..];
      StarSkips(p, s[1..], k - 1);
    }
  }

  lemma LiteralGlob(p: string, s: string)
    requires p != [] && p[0] != '*'
    ensures GlobsPrefix(p, s) <==> s != [] && s[0] == p[0] && GlobsPrefix(p[1..], s[1..])
  {
    if GlobsPrefix(p, s) {
      var n :| 0 <= n <= |s| && Glob(p, s[..n]);
      assert s[..n][1..] == s[1..][..n - 1];
    }
    if s != [] && s[0] == p[0] && GlobsPrefix(p[1..], s[1..]) {
      var n :| 0 <= n <= |s[1..]| && Glob(p[1..], s[1..][..n]);
      assert s[..n + 1][1..] == s[1..][..n];
      assert Glob(p, s[..n + 1]);
    }
  }

  lemma {:induction false} ItemsMeanGlob(p: string, s: string)
    ensures MatchesPrefix(Items(p), s) <==> GlobsPrefix(p, s)
    decreases |p|
  {
    if p == [] {
      assert Glob(p, s[..0]);
    } else {
      assert Items(p)[1..] == Items(p[1..]);
      if p[0] == '*' {
        StarGlob(p, s);
        forall k | 0 <= k <= |s| ensures MatchesPrefix(Items(p[1..]), s[k..]) <==> GlobsPrefix(p[1..], s[k..]) {
          ItemsMeanGlob(p[1..], s[k..]);
        }
      } else {
        LiteralGlob(p, s);
        if s != [] {
          ItemsMeanGlob(p[1..], s[1..]);
        }
      }
    }
  }

  /** The translation of a pattern matches exactly the texts of which the pattern, spaces removed,
      matches a prefix. */
  lemma TranslateMeaning(p: string, s: string)
    ensures RegexpMatches(Translate(p), s) <==> GlobsPrefix(NoSpaces(p), s)
  {
    TranslateParses(p);
    assert Translate(p)[1..] == TranslateAll(p);
    ItemsMeanGlob(NoSpaces(p), s);
  }

  /** On text without line ends `*` matches anything at all. */
  lemma StarMatchesAnything(s: string)
    requires forall i :: 0 <= i < |s| ==> !IsNewline(s[i])
    ensures Glob("*", s)
  {
    assert "*"[1..] == "" && s[|s|..] == [];
    StarSkips("*", s, |s|);
  }

  // ----- The code -----

  lemma {:induction false} TranslateAppend(p: string, c: char)
    ensures TranslateAll(p + [c]) == TranslateAll(p) + TranslateChar(c)
  {
    if p == [] {
      assert p + [c] == [c] && [c][1..] == [];
    } else {
      assert (p + [c])[1..] == p[1..] + [c];
      TranslateAppend(p[1..], c);
    }
  }

  lemma TranslateStep(p: string, i: nat)
    requires i < |p|
    ensures Translate(p[..i + 1]) == Translate(p[..i]) + TranslateChar(p[i])
  {
    assert p[..i + 1] == p[..i] + [p[i]];
    TranslateAppend(p[..i], p[i]);
  }

  /** One turn of the loop: writes what the character becomes at `pos`. */
  method EmitChar(dest: array<char>, pos: nat, c: char) returns (next: nat)
    requires pos + 2 <= dest.Length
    modifies dest
    ensures pos <= next <= pos + 2 && dest[..next] == old(dest[..pos]) + TranslateChar(c)
    ensures forall j :: next <= j < dest.Length ==> dest[j] == old(dest[j])
  {
    next := pos;
    if c == '*' {
      dest[pos] := '.';
      dest[pos + 1] := c;
      next := pos + 2;
    } else if IsEscaped(c) {
      dest[pos] := '\\';
      dest[pos + 1] := c;
      next := pos + 2;
    } else if c == ' ' {
    } else {
      dest[pos] := c;
      next := pos + 1;
    }
  }

  /** Writes into a zeroed buffer of 2 * len + 2 characters; what it writes and a final NUL fit. */
  method ConvertToSimpleRegexp(pattern: string) returns (dest: array<char>)
    ensures fresh(dest) && dest.Length == 2 * |pattern| + 2 && |Translate(pattern)| < dest.Length
    ensures dest[..|Translate(pattern)|] == Translate(pattern)
    ensures forall i :: |Translate(pattern)| <= i < dest.Length ==> dest[i] == '\0'
  {
    dest := new char[2 * |pattern| + 2](_ => '\0');
    dest[0] := '^';
    var pos, i := 1, 0;
    while i < |pattern|
      invariant i <= |pattern| && 1 <= pos <= 2 * i + 1
      invariant dest[..pos] == Translate(pattern[..i])
      invariant forall j :: pos <= j < dest.Length ==> dest[j] == '\0'
    {
      TranslateStep(pattern, i);
      pos := EmitChar(dest, pos, pattern[i]);
      i := i + 1;
    }
    assert pattern[..i] == pattern;
  }

  ghost predicate SomeMatches(res: seq<string>, uri: string) {
    exists i :: 0 <= i < |res| && RegexpMatches(res[i], uri)
  }

  method MayRun(uri: string, includes: seq<string>, excludes: seq<string>) returns (matched: bool)
    ensures matched <==> (includes == [] || SomeMatches(includes, uri)) && !SomeMatches(excludes, uri)
  {
    matched := includes == [];
    var i := 0;
    while i < |includes|
      invariant i <= |includes| && matched == (includes == [])
      invariant forall j :: 0 <= j < i ==> !RegexpMatches(includes[j], uri)
    {
      if RegexpMatches(includes[i], uri) {
        matched := true;
        break;
      }
      i := i + 1;
    }
    if !matched {
      return false;
    }
    i := 0;
    while i < |excludes|
      invariant i <= |excludes| && matched
      invariant forall j :: 0 <= j < i ==> !RegexpMatches(excludes[j], uri)
    {
      if RegexpMatches(excludes[i], uri) {
        matched := false;
        break;
      }
      i := i + 1;
    }
  }

  datatype AddonElement = AddonElement(enabled: bool, broken: bool, includes: seq<string>, excludes: seq<string>)

  /** What the code decides from the lists of expressions. */
  ghost predicate Skips(element: AddonElement, uri: string) {
    !(&& element.enabled && !element.broken
      && (element.includes == [] || SomeMatches(element.includes, uri))
      && !SomeMatches(element.excludes, uri))
  }

  method SkipElement(element: AddonElement, uri: string) returns (skip: bool)
    ensures skip <==> Skips(element, uri)
  {
    if !element.enabled || element.broken {
      return true;
    }
    if element.includes != [] || element.excludes != [] {
      var mayRun := MayRun(uri, element.includes, element.excludes);
      if !mayRun {
        return true;
      }
    }
    return false;
  }

  function TranslateEach(patterns: seq<string>): seq<string> {
    seq(|patterns|, i requires 0 <= i < |patterns| => Translate(patterns[i]))
  }

  ghost predicate SomeGlobs(patterns: seq<string>, uri: string) {
    exists i :: 0 <= i < |patterns| && GlobsPrefix(NoSpaces(patterns[i]), uri)
  }

  /** For lists of translated patterns, as the loader builds them, the decision is about the
      patterns. */
  lemma TranslatedListsMeanPatterns(patterns: seq<string>, uri: string)
    ensures SomeMatches(TranslateEach(patterns), uri) <==> SomeGlobs(patterns, uri)
    ensures TranslateEach(patterns) == [] <==> patterns == []
  {
    forall i | 0 <= i < |patterns|
      ensures RegexpMatches(TranslateEach(patterns)[i], uri) <==> GlobsPrefix(NoSpaces(patterns[i]), uri)
    {
      TranslateMeaning(patterns[i], uri);
    }
  }

  /** An addon as the loader builds it from its patterns. */
  function Load(enabled: bool, broken: bool, includes: seq<string>, excludes: seq<string>): AddonElement {
    AddonElement(enabled, broken, TranslateEach(includes), TranslateEach(excludes))
  }

  /** Such an addon is skipped on a page unless it is enabled, not broken, has no include pattern or
      one that matches, and has no exclude pattern that matches. */
  lemma LoadedAddonRuns(enabled: bool, broken: bool, includes: seq<string>, excludes: seq<string>, uri: string)
    ensures !Skips(Load(enabled, broken, includes, excludes), uri) <==>
            && enabled && !broken
            && (includes == [] || SomeGlobs(includes, uri))
            && !SomeGlobs(excludes, uri)
  {
    TranslatedListsMeanPatterns(includes, uri);
    TranslatedListsMeanPatterns(excludes, uri);
  }
}
