/** Stylesheets of plain rules, comments and at-rules, and what stripping leaves of them. */
module StyleSheet {
  import opened StyleStripping

  // ----- Stylesheets -----

  /** The pieces of a stylesheet: text, a comment, the opening of an at-rule up to the brace that the
      pass takes for its own, an at-rule without such a brace, the braces of a rule inside an at-rule,
      and the brace that ends the at-rule.  The pass looks for '-' or 'n' behind the '@' and for a
      brace after that. */
  datatype Piece = Text(text: string) | Comment(body: string)
                 | OpenWrapper(name: string, mark: char, header: string) | Unclosed(rest: string)
                 | OpenRule | CloseRule | CloseWrapper

  function Source(p: Piece): string {
    match p
    case Text(text) => text
    case Comment(body) => "/*" + body + "*/"
    case OpenWrapper(name, mark, header) => "@" + (name + [mark] + header) + "{"
    case Unclosed(rest) => "@" + rest
    case OpenRule => "{"
    case CloseRule => "}"
    case CloseWrapper => "}"
  }

  function SourceAll(ps: seq<Piece>): string {
    if ps == [] then [] else Source(ps[0]) + SourceAll(ps[1..])
  }

  predicate HasPair(s: string, a: char, b: char) {
    exists i :: 0 <= i < |s| - 1 && s[i] == a && s[i + 1] == b
  }

  predicate StartsComment(s: string, i: nat)
    requires i < |s|
  {
    s[i] == '/' && After(s, i) == '*'
  }

  /** Characters without a meaning for the wrapper counter, outside, in a wrapper and in a rule. */
  predicate PlainAt(meta: nat, c: char) {
    match meta
    case 0 => c != '@'
    case 3 => c != '{' && c != '}'
    case 4 => c != '}'
    case _ => false
  }

  predicate PlainText(meta: nat, s: string) {
    (meta == 0 || meta == 3 || meta == 4) && forall i :: 0 <= i < |s| ==> PlainAt(meta, s[i])
  }

  predicate IsMark(c: char) {
    c == '-' || c == 'n'
  }

  predicate NoMark(s: string) {
    forall i :: 0 <= i < |s| ==> !IsMark(s[i])
  }

  /** No brace follows a mark. */
  predicate NeverOpens(s: string) {
    forall i, j :: 0 <= i < j < |s| && IsMark(s[i]) ==> s[j] != '{'
  }

  /** Where a piece may stand, by the value of the wrapper counter there.  A comment ends at the first
      star that a slash follows. */
  predicate Fits(p: Piece, meta: nat) {
    match p
    case Text(text) => PlainText(meta, text) && !HasPair(text, '/', '*')
    case Comment(body) => PlainText(meta, body) && !HasPair(body, '*', '/')
    case OpenWrapper(name, mark, header) =>
      && meta == 0 && NoMark(name) && IsMark(mark) && '{' !in header
      && !HasPair(name + [mark] + header, '/', '*')
    case Unclosed(rest) => meta == 0 && NeverOpens(rest)
    case OpenRule => meta == 3
    case CloseRule => meta == 4
    case CloseWrapper => meta == 3
  }

  function MetaAfter(p: Piece, meta: nat): nat {
    match p
    case OpenWrapper(_, _, _) => 3
    case OpenRule => 4
    case CloseRule => 3
    case CloseWrapper => 0
    case _ => meta
  }

  predicate StartsWithStar(s: string) {
    s != [] && s[0] == '*'
  }

  /** A slash that ends a text and a star after it do not make up a comment; an at-rule without a
      brace goes on to the end. */
  predicate Joins(p: Piece, rest: string) {
    && (p.Text? && p.text != [] && p.text[|p.text| - 1] == '/' ==> !StartsWithStar(rest))
    && (p.Unclosed? ==> rest == [])
  }

  /** A sheet of these pieces. */
  predicate WellFormed(ps: seq<Piece>, meta: nat) {
    ps == [] || (Fits(ps[0], meta) && Joins(ps[0], SourceAll(ps[1..])) && WellFormed(ps[1..], MetaAfter(ps[0], meta)))
  }

  /** `text` normalised, without the spaces that follow a space. */
  function Squeeze(prev: char, text: string): string
    decreases text
  {
    if text == [] then []
    else
      var c := Norm(text[0]);
      (if c == ' ' && prev == ' ' then [] else [c]) + Squeeze(c, text[1..])
  }

  function Last(prev: char, s: string): char {
    if s == [] then prev else Norm(s[|s| - 1])
  }

  /** What is left of a piece. */
  function Output(prev: char, p: Piece): string {
    match p
    case Text(text) => Squeeze(prev, text)
    case OpenRule => "{"
    case CloseRule => "}"
    case _ => []
  }

  function OutputAll(prev: char, ps: seq<Piece>): string
    decreases ps
  {
    if ps == [] then [] else Output(prev, ps[0]) + OutputAll(Last(prev, Source(ps[0])), ps[1..])
  }

  // ----- Comments that the pass gets right -----

  /** The positions from `p` up to `q` where a comment would start. */
  function Openers(s: string, p: nat, q: nat): nat
    requires p <= q <= |s|
    decreases q - p
  {
    if p == q then 0 else (if StartsComment(s, p) then 1 else 0) + Openers(s, p + 1, q)
  }

  /** A slash after the opening star that is not itself followed by a star: the pass takes the two for
      the end of the comment. */
  predicate Lead(body: string) {
    |body| >= 2 && body[0] == '/' && body[1] != '*'
  }

  /** Unless a further opener follows at once, what is behind that slash is output. */
  predicate Leaks(body: string) {
    Lead(body) && !StartsComment(body + "*", 1)
  }

  /** The comment counter before the star that ends the comment. */
  function Depth(body: string): nat {
    Openers(body + "*", 0, |body|) + if Lead(body) then 0 else 1
  }

  /** What the pass needs of the comments of a sheet: none leaks; one that holds at most one opener is
      not directly followed by a star; behind one that holds more there is nothing to output. */
  predicate Sound(ps: seq<Piece>, prev: char) {
    || ps == []
    || (&& (ps[0].Comment? ==> !Leaks(ps[0].body) && (Depth(ps[0].body) <= 2 ==> !StartsWithStar(SourceAll(ps[1..]))))
        && if ps[0].Comment? && Depth(ps[0].body) > 2 then OutputAll(Last(prev, Source(ps[0])), ps[1..]) == []
           else Sound(ps[1..], Last(prev, Source(ps[0]))))
  }

  // ----- Segments of the pass -----

  /** Positions `i` to `j` of `s` append `out` and take the counters from (meta, 0) to (meta', 0). */
  ghost predicate Segment(f: Stepper, s: string, i: nat, j: nat, meta: nat, meta': nat, out: string) {
    i <= j <= |s| && Run(f, s, i, meta, 0) == out + Run(f, s, j, meta', 0)
  }

  lemma TextStep(s: string, i: nat, meta: nat)
    requires i < |s| && PlainAt(meta, s[i]) && !(s[i] == '/' && After(s, i) == '*')
    ensures Step(s, i, meta, 0) ==
            (if Norm(s[i]) == ' ' && Before(s, i) == ' ' then [] else [Norm(s[i])], meta, 0)
  {
  }

  lemma {:induction false} TextSegment(f: Stepper, s: string, i: nat, j: nat, meta: nat)
    requires Follows(f, s)
    requires i <= j <= |s|
    requires forall k :: i <= k < j ==> PlainAt(meta, s[k]) && !(s[k] == '/' && After(s, k) == '*')
    ensures Segment(f, s, i, j, meta, meta, Squeeze(Before(s, i), s[i..j]))
    decreases j - i
  {
    if i == j {
      assert s[i..j] == [];
    } else {
      TextStep(s, i, meta);
      TextSegment(f, s, i + 1, j, meta);
      var out, more, rest := Step(s, i, meta, 0).0, Squeeze(Before(s, i + 1), s[i + 1..j]), Run(f, s, j, meta, 0);
      assert s[i..j][1..] == s[i + 1..j] && s[i..j][0] == s[i];
      assert Squeeze(Before(s, i), s[i..j]) == out + more;
      assert out + (more + rest) == (out + more) + rest;
    }
  }

  /** A wrapper's header, up to its brace. */
  lemma {:induction false} HeaderBody(f: Stepper, s: string, i: nat, j: nat)
    requires Follows(f, s)
    requires i <= j < |s| && s[j] == '{'
    requires forall k :: i <= k < j ==> s[k] != '{' && !StartsComment(s, k)
    ensures Run(f, s, i, 2, 0) == Run(f, s, j + 1, 3, 0)
    decreases j - i
  {
    if i < j {
      assert Step(s, i, 2, 0) == ([], 2, 0);
      HeaderBody(f, s, i + 1, j);
    } else {
      assert Step(s, i, 2, 0) == ([], 3, 0);
    }
  }

  /** The name of an at-rule, up to its mark. */
  lemma {:induction false} NameBody(f: Stepper, s: string, i: nat, m: nat)
    requires Follows(f, s)
    requires i <= m < |s| && IsMark(s[m])
    requires forall k :: i <= k < m ==> !IsMark(s[k]) && !StartsComment(s, k)
    ensures Run(f, s, i, 1, 0) == Run(f, s, m + 1, 2, 0)
    decreases m - i
  {
    if i < m {
      assert Step(s, i, 1, 0) == ([], 1, 0);
      NameBody(f, s, i + 1, m);
    } else {
      assert Step(s, i, 1, 0) == ([], 2, 0);
    }
  }

  /** An at-rule's opening stands at `i` to `j`, with its mark at `m`. */
  predicate OpenAt(s: string, i: nat, m: nat, j: nat) {
    && i < m && m + 2 <= j <= |s| && s[i] == '@' && IsMark(s[m]) && s[j - 1] == '{'
    && (forall k :: i < k < m ==> !IsMark(s[k]) && !StartsComment(s, k))
    && (forall k :: m < k < j - 1 ==> s[k] != '{' && !StartsComment(s, k))
  }

  lemma OpenSegment(f: Stepper, s: string, i: nat, m: nat, j: nat)
    requires Follows(f, s) && OpenAt(s, i, m, j)
    ensures Segment(f, s, i, j, 0, 3, [])
  {
    assert Step(s, i, 0, 0) == ([], 1, 0);
    NameBody(f, s, i + 1, m);
    HeaderBody(f, s, m + 1, j - 1);
  }

  // ----- At-rules without a brace -----

  lemma {:induction false} HeaderToTheEnd(f: Stepper, s: string, i: nat, comment: nat)
    requires Follows(f, s)
    requires i <= |s| && forall k :: i <= k < |s| ==> s[k] != '{'
    ensures Run(f, s, i, 2, comment) == []
    decreases |s| - i
  {
    if i < |s| {
      var k := Step(s, i, 2, comment).2;
      assert Step(s, i, 2, comment) == ([], 2, k);
      HeaderToTheEnd(f, s, i + 1, k);
    }
  }

  /** Whatever the comment counter, nothing of the rest is output. */
  lemma {:induction false} NameToTheEnd(f: Stepper, s: string, i: nat, comment: nat)
    requires Follows(f, s)
    requires i <= |s| && forall k, l :: i <= k < l < |s| && IsMark(s[k]) ==> s[l] != '{'
    ensures Run(f, s, i, 1, comment) == []
    decreases |s| - i
  {
    if i < |s| {
      var r := Step(s, i, 1, comment);
      assert r == ([], if IsMark(s[i]) then 2 else 1, r.2);
      if IsMark(s[i]) {
        HeaderToTheEnd(f, s, i + 1, r.2);
      } else {
        NameToTheEnd(f, s, i + 1, r.2);
      }
    }
  }

  lemma UnclosedToTheEnd(f: Stepper, s: string, i: nat, p: Piece, comment: nat)
    requires Follows(f, s)
    requires i <= |s| && s[i..] == Source(p) && p.Unclosed? && Fits(p, 0) && comment != 1
    ensures Run(f, s, i, 0, comment) == []
  {
    assert forall k :: i < k < |s| ==> s[k] == s[i..][k - i] == p.rest[k - i - 1];
    assert s[i] == s[i..][0] == '@';
    assert Step(s, i, 0, comment) == ([], 1, comment);
    forall k, l | i + 1 <= k < l < |s| && IsMark(s[k]) ensures s[l] != '{' {
      assert IsMark(p.rest[k - i - 1]) && s[l] == p.rest[l - i - 1];
    }
    NameToTheEnd(f, s, i + 1, comment);
  }

  // ----- Comments -----

  predicate InBody(s: string, k: nat, meta: nat)
    requires k + 1 < |s|
  {
    PlainAt(meta, s[k]) && !(s[k] == '*' && s[k + 1] == '/')
  }

  /** The rest of a comment that ends before `j`, from `p` on. */
  predicate BodyAt(s: string, p: nat, j: nat, meta: nat) {
    && 1 <= p && p + 2 <= j <= |s| && s[j - 2] == '*' && s[j - 1] == '/'
    && (meta == 0 || meta == 3 || meta == 4)
    && forall k :: p <= k < j - 2 ==> InBody(s, k, meta)
  }

  /** Here a slash would be taken for the end of the comment. */
  predicate EndsEarly(s: string, p: nat)
    requires 1 <= p < |s|
  {
    s[p - 1] == '*' && s[p] == '/' && !StartsComment(s, p)
  }

  lemma BodyStep(f: Stepper, s: string, p: nat, meta: nat, comment: nat)
    requires Follows(f, s)
    requires 1 <= p && p + 1 < |s| && InBody(s, p, meta) && comment >= 1 && (comment == 1 ==> !EndsEarly(s, p))
    ensures Run(f, s, p, meta, comment) ==
            Run(f, s, p + 1, meta, comment + if StartsComment(s, p) then 1 else 0)
  {
    var k := comment + if StartsComment(s, p) then 1 else 0;
    assert Step(s, p, meta, comment) == ([], meta, k);
  }

  /** Inside a comment the counter counts the openers, up to `total`. */
  lemma {:induction false} BodyRun(f: Stepper, s: string, p: nat, j: nat, meta: nat, comment: nat, total: nat)
    requires Follows(f, s)
    requires BodyAt(s, p, j, meta) && comment >= 1 && (comment == 1 ==> !EndsEarly(s, p))
    requires total == comment + Openers(s, p, j - 2)
    ensures Run(f, s, p, meta, comment) == Run(f, s, j - 2, meta, total)
    decreases j - p
  {
    if p < j - 2 {
      assert InBody(s, p, meta);
      BodyStep(f, s, p, meta, comment);
      var next := comment + if StartsComment(s, p) then 1 else 0;
      assert total == next + Openers(s, p + 1, j - 2);
      BodyRun(f, s, p + 1, j, meta, next, total);
    }
  }

  /** The counter after a comment that is left with the given one, before `j`. */
  function AfterClose(s: string, j: nat, comment: nat): nat {
    var star := j < |s| && s[j] == '*';
    if comment <= 2 then (if star then 2 else 0) else if star then comment + 1 else comment
  }

  lemma CloseRun(f: Stepper, s: string, j: nat, meta: nat, comment: nat)
    requires Follows(f, s)
    requires 2 <= j <= |s| && s[j - 2] == '*' && s[j - 1] == '/' && comment >= 1
    requires meta == 0 || meta == 3 || meta == 4
    ensures Run(f, s, j - 2, meta, comment) == Run(f, s, j, meta, AfterClose(s, j, comment))
  {
    var k := if comment == 2 then 1 else comment;
    assert Step(s, j - 2, meta, comment) == ([], meta, k);
    assert Step(s, j - 1, meta, k) == ([], meta, AfterClose(s, j, comment));
  }

  /** From inside a comment to its end. */
  lemma LeaveComment(f: Stepper, s: string, p: nat, j: nat, meta: nat, comment: nat)
    requires Follows(f, s)
    requires BodyAt(s, p, j, meta) && comment >= 1 && (comment == 1 ==> !EndsEarly(s, p))
    ensures Run(f, s, p, meta, comment) == Run(f, s, j, meta, AfterClose(s, j, comment + Openers(s, p, j - 2)))
  {
    BodyRun(f, s, p, j, meta, comment, comment + Openers(s, p, j - 2));
    CloseRun(f, s, j, meta, comment + Openers(s, p, j - 2));
  }

  predicate CommentAt(s: string, i: nat, j: nat, meta: nat) {
    i + 4 <= j && BodyAt(s, i + 2, j, meta) && s[i] == '/' && s[i + 1] == '*'
  }

  lemma OpenRun(f: Stepper, s: string, i: nat, meta: nat)
    requires Follows(f, s)
    requires i + 2 < |s| && s[i] == '/' && s[i + 1] == '*' && (meta == 0 || meta == 3 || meta == 4)
    ensures Run(f, s, i, meta, 0) == Run(f, s, i + 2, meta, 1)
  {
    assert Step(s, i, meta, 0) == ([], meta, 1);
    assert Step(s, i + 1, meta, 1) == ([], meta, 1);
  }

  /** The slash that ends a comment early, and the opener behind it. */
  lemma EndEarly(f: Stepper, s: string, p: nat, meta: nat)
    requires Follows(f, s)
    requires 1 <= p && p + 1 < |s| && EndsEarly(s, p) && (meta == 0 || meta == 3 || meta == 4)
    ensures Run(f, s, p, meta, 1) == Run(f, s, p + 1, meta, 0)
    ensures StartsComment(s, p + 1) ==> Run(f, s, p, meta, 1) == Run(f, s, p + 2, meta, 1)
  {
    assert Step(s, p, meta, 1) == ([], meta, 0);
    if StartsComment(s, p + 1) {
      assert Step(s, p + 1, meta, 0) == ([], meta, 1);
    }
  }

  /** The body of a comment with the counter at one: the same comment, or the one that starts after an
      early end. */
  lemma FirstBody(f: Stepper, s: string, p: nat, j: nat, meta: nat)
    requires Follows(f, s)
    requires BodyAt(s, p, j, meta) && s[p - 1] == '*' && (EndsEarly(s, p) ==> StartsComment(s, p + 1))
    ensures var depth := Openers(s, p, j - 2) + if EndsEarly(s, p) then 0 else 1;
            Run(f, s, p, meta, 1) == Run(f, s, j, meta, AfterClose(s, j, depth))
  {
    if EndsEarly(s, p) {
      EndEarly(f, s, p, meta);
      EarlyOpeners(s, p, j);
      BodyLater(s, p, j, meta);
      LeaveComment(f, s, p + 2, j, meta, 1);
    } else {
      LeaveComment(f, s, p, j, meta, 1);
    }
  }

  lemma BodyLater(s: string, p: nat, j: nat, meta: nat)
    requires BodyAt(s, p, j, meta) && s[p] == '/' && StartsComment(s, p + 1)
    ensures BodyAt(s, p + 2, j, meta) && !EndsEarly(s, p + 2)
  {
  }

  lemma EarlyOpeners(s: string, p: nat, j: nat)
    requires 1 <= p && p + 2 <= j <= |s| && s[j - 2] == '*' && EndsEarly(s, p) && StartsComment(s, p + 1)
    ensures p + 4 <= j && Openers(s, p, j - 2) == 1 + Openers(s, p + 2, j - 2)
  {
    assert Openers(s, p, j - 2) == Openers(s, p + 1, j - 2);
  }

  // ----- Pieces -----

  lemma Standing(s: string, i: nat, src: string, rest: string, j: nat)
    requires i <= |s| && s[i..] == src + rest && j == i + |src|
    ensures j <= |s| && s[j..] == rest && forall k :: 0 <= k < |src| ==> s[i + k] == src[k]
    ensures rest != [] ==> j < |s| && s[j] == rest[0]
  {
    var u := src + rest;
    assert |s| == i + |u|;
    forall k | 0 <= k < |src| ensures s[i + k] == src[k] {
      assert s[i + k] == s[i..][k] == u[k];
    }
    assert s[j..] == s[i..][|src|..] == rest;
  }

  lemma StandingLast(s: string, i: nat, src: string, j: nat)
    requires i <= |s| && j == i + |src| <= |s| && forall k :: 0 <= k < |src| ==> s[i + k] == src[k]
    ensures Before(s, j) == Last(Before(s, i), src)
  {
    if src != [] {
      assert s[i + (|src| - 1)] == src[|src| - 1];
    }
  }

  lemma PieceAt(s: string, i: nat, p: Piece, rest: string, j: nat)
    requires i <= |s| && s[i..] == Source(p) + rest && j == i + |Source(p)|
    ensures j <= |s| && s[j..] == rest && Before(s, j) == Last(Before(s, i), Source(p))
    ensures forall k :: 0 <= k < |Source(p)| ==> s[i + k] == Source(p)[k]
    ensures rest != [] ==> j < |s| && s[j] == rest[0]
  {
    Standing(s, i, Source(p), rest, j);
    StandingLast(s, i, Source(p), j);
  }

  lemma PieceText(f: Stepper, s: string, i: nat, p: Piece, meta: nat, rest: string)
    requires Follows(f, s)
    requires i <= |s| && s[i..] == Source(p) + rest && p.Text? && Fits(p, meta) && Joins(p, rest)
    ensures Segment(f, s, i, i + |p.text|, meta, meta, Squeeze(Before(s, i), p.text))
  {
    var j := i + |p.text|;
    assert s[i..j] == s[i..][..|p.text|] == p.text;
    forall k | i <= k < j ensures PlainAt(meta, s[k]) && !(s[k] == '/' && After(s, k) == '*') {
      assert s[k] == p.text[k - i];
      if k + 1 < j {
        assert s[k + 1] == p.text[k + 1 - i];
      } else if k + 1 < |s| {
        assert s[k + 1] == s[i..][j - i] == rest[0];
      }
    }
    TextSegment(f, s, i, j, meta);
  }

  /** The text `h` of an at-rule's opening, between '@' and '{', stands behind `i`. */
  predicate OpeningText(s: string, i: nat, h: string) {
    && i + |h| + 2 <= |s| && s[i] == '@' && s[i + 1 + |h|] == '{'
    && forall k :: 0 <= k < |h| ==> s[i + 1 + k] == h[k]
  }

  lemma OpeningTextAt(s: string, i: nat, h: string, rest: string)
    requires i <= |s| && s[i..] == ("@" + h + "{") + rest
    ensures OpeningText(s, i, h)
  {
    var u := ("@" + h + "{") + rest;
    assert |s| - i == |u|;
    assert s[i] == s[i..][0] == u[0];
    assert s[i + 1 + |h|] == s[i..][1 + |h|] == u[1 + |h|];
    forall k | 0 <= k < |h| ensures s[i + 1 + k] == h[k] {
      assert s[i + 1 + k] == s[i..][1 + k] == u[1 + k];
    }
  }

  lemma OpeningIsQuiet(s: string, i: nat, h: string)
    requires OpeningText(s, i, h) && !HasPair(h, '/', '*')
    ensures forall k :: i < k < i + 1 + |h| ==> !StartsComment(s, k)
  {
    forall k | i < k < i + 1 + |h| ensures !StartsComment(s, k) {
      var b := k - i - 1;
      assert s[i + 1 + b] == h[b];
      if b + 1 < |h| {
        assert s[i + 1 + (b + 1)] == h[b + 1];
      }
    }
  }

  /** The three parts of an opening. */
  lemma OpeningParts(s: string, i: nat, name: string, mark: char, header: string, h: string, m: nat, j: nat)
    requires h == name + [mark] + header && OpeningText(s, i, h) && m == i + 1 + |name| && j == i + 2 + |h|
    requires NoMark(name) && '{' !in header
    ensures i < m && m + 2 <= j <= |s| && s[m] == mark
    ensures forall k :: i < k < m ==> !IsMark(s[k])
    ensures forall k :: m < k < j - 1 ==> s[k] != '{'
  {
    assert s[i + 1 + |name|] == h[|name|] == mark;
    forall k | i < k < m ensures !IsMark(s[k]) {
      var b := k - i - 1;
      assert s[i + 1 + b] == h[b] == name[b];
    }
    forall k | m < k < j - 1 ensures s[k] != '{' {
      var b := k - m - 1;
      assert s[i + 1 + (|name| + 1 + b)] == h[|name| + 1 + b] == header[b];
    }
  }

  lemma OpeningAt(s: string, i: nat, p: Piece, rest: string, m: nat, j: nat)
    requires i <= |s| && s[i..] == Source(p) + rest && p.OpenWrapper? && Fits(p, 0)
    requires m == i + 1 + |p.name| && j == i + |Source(p)|
    ensures OpenAt(s, i, m, j)
  {
    var h := p.name + [p.mark] + p.header;
    OpeningTextAt(s, i, h, rest);
    OpeningIsQuiet(s, i, h);
    OpeningParts(s, i, p.name, p.mark, p.header, h, m, j);
  }

  lemma PieceOpen(f: Stepper, s: string, i: nat, p: Piece, rest: string)
    requires Follows(f, s)
    requires i <= |s| && s[i..] == Source(p) + rest && p.OpenWrapper? && Fits(p, 0)
    ensures Segment(f, s, i, i + |Source(p)|, 0, 3, [])
  {
    var m, j := i + 1 + |p.name|, i + |Source(p)|;
    OpeningAt(s, i, p, rest, m, j);
    OpenSegment(f, s, i, m, j);
  }

  lemma PieceUnclosed(f: Stepper, s: string, i: nat, p: Piece)
    requires Follows(f, s)
    requires i <= |s| && s[i..] == Source(p) && p.Unclosed? && Fits(p, 0)
    ensures Segment(f, s, i, |s|, 0, 0, [])
  {
    UnclosedToTheEnd(f, s, i, p, 0);
  }

  lemma BraceSegment(f: Stepper, s: string, i: nat, p: Piece, meta: nat)
    requires Follows(f, s)
    requires i < |s| && (p.OpenRule? || p.CloseRule? || p.CloseWrapper?) && Fits(p, meta) && s[i] == Source(p)[0]
    ensures Segment(f, s, i, i + 1, meta, MetaAfter(p, meta), Output(Before(s, i), p))
  {
    assert Step(s, i, meta, 0) == (Output(Before(s, i), p), MetaAfter(p, meta), 0);
  }

  /** All pieces but comments. */
  lemma PieceSegment(f: Stepper, s: string, i: nat, p: Piece, meta: nat, rest: string)
    requires Follows(f, s)
    requires i <= |s| && s[i..] == Source(p) + rest && !p.Comment? && Fits(p, meta) && Joins(p, rest)
    ensures Segment(f, s, i, i + |Source(p)|, meta, MetaAfter(p, meta), Output(Before(s, i), p))
  {
    assert |s[i..]| == |Source(p)| + |rest|;
    if p.Text? {
      PieceText(f, s, i, p, meta, rest);
    } else if p.OpenWrapper? {
      PieceOpen(f, s, i, p, rest);
    } else if p.Unclosed? {
      assert Source(p) + [] == Source(p);
      PieceUnclosed(f, s, i, p);
    } else {
      assert s[i] == s[i..][0] == Source(p)[0];
      BraceSegment(f, s, i, p, meta);
    }
  }

  lemma {:induction false} OpenersShift(s: string, b: string, off: nat, p: nat, q: nat)
    requires p <= q < |b| && off + q < |s| && forall k :: p <= k <= q ==> s[off + k] == b[k]
    ensures Openers(s, off + p, off + q) == Openers(b, p, q)
    decreases q - p
  {
    if p < q {
      assert s[off + p] == b[p] && s[off + (p + 1)] == b[p + 1];
      OpenersShift(s, b, off, p + 1, q);
    }
  }

  lemma CommentText(s: string, i: nat, p: Piece, rest: string, j: nat)
    requires i <= |s| && s[i..] == Source(p) + rest && j == i + |Source(p)| && p.Comment?
    ensures i + 4 <= j <= |s| && j - 2 == i + 2 + |p.body|
    ensures s[i] == '/' && s[i + 1] == '*' && s[j - 2] == '*' && s[j - 1] == '/'
    ensures forall k :: 0 <= k <= |p.body| ==> s[i + 2 + k] == (p.body + "*")[k]
  {
    PieceAt(s, i, p, rest, j);
    var src := Source(p);
    assert s[i + 0] == src[0] && s[i + 1] == src[1];
    assert s[i + (|src| - 2)] == src[|src| - 2] && s[i + (|src| - 1)] == src[|src| - 1];
    forall k | 0 <= k <= |p.body| ensures s[i + 2 + k] == (p.body + "*")[k] {
      assert s[i + (2 + k)] == src[2 + k];
    }
  }

  lemma CommentInside(s: string, i: nat, p: Piece, meta: nat, rest: string, j: nat)
    requires i <= |s| && s[i..] == Source(p) + rest && j == i + |Source(p)| && p.Comment? && Fits(p, meta)
    ensures CommentAt(s, i, j, meta)
  {
    CommentText(s, i, p, rest, j);
    forall k | i + 2 <= k < j - 2 ensures InBody(s, k, meta) {
      var b := k - i - 2;
      assert s[i + 2 + b] == (p.body + "*")[b] == p.body[b];
      assert s[i + 2 + (b + 1)] == (p.body + "*")[b + 1];
    }
  }

  /** What the body says is what stands in the sheet. */
  lemma BodyLevel(s: string, i: nat, p: Piece, rest: string, j: nat)
    requires i <= |s| && s[i..] == Source(p) + rest && j == i + |Source(p)| && p.Comment?
    ensures i + 4 <= j <= |s|
    ensures Openers(s, i + 2, j - 2) == Openers(p.body + "*", 0, |p.body|)
    ensures EndsEarly(s, i + 2) <==> Lead(p.body)
    ensures Lead(p.body) ==> (StartsComment(s, i + 3) <==> StartsComment(p.body + "*", 1))
  {
    CommentText(s, i, p, rest, j);
    var b := p.body + "*";
    OpenersShift(s, b, i + 2, 0, |p.body|);
    assert s[i + 2 + 0] == b[0];
    if |p.body| >= 1 {
      assert s[i + 2 + 1] == b[1];
    }
    if |p.body| >= 2 {
      assert s[i + 2 + 2] == b[2];
    }
  }

  /** A comment met with the counter at zero. */
  lemma PieceComment(f: Stepper, s: string, i: nat, p: Piece, meta: nat, rest: string, j: nat)
    requires Follows(f, s)
    requires i <= |s| && s[i..] == Source(p) + rest && j == i + |Source(p)| <= |s| && p.Comment? && Fits(p, meta)
    requires !Leaks(p.body)
    ensures Run(f, s, i, meta, 0) == Run(f, s, j, meta, AfterClose(s, j, Depth(p.body)))
  {
    var b, depth := i + 2, Depth(p.body);
    CommentInside(s, i, p, meta, rest, j);
    BodyLevel(s, i, p, rest, j);
    assert depth == Openers(s, b, j - 2) + if EndsEarly(s, b) then 0 else 1;
    OpenRun(f, s, i, meta);
    FirstBody(f, s, b, j, meta);
  }

  /** With the counter above two nothing is ever output again. */
  lemma {:induction false} Stuck(f: Stepper, s: string, i: nat, meta: nat, comment: nat)
    requires Follows(f, s)
    requires i <= |s| && comment > 2
    ensures Run(f, s, i, meta, comment) == []
    decreases |s| - i
  {
    if i < |s| {
      var r := Step(s, i, meta, comment);
      assert r.0 == [] && r.2 > 2;
      Stuck(f, s, i + 1, r.1, r.2);
    }
  }

  lemma {:induction false} RunPieces(f: Stepper, s: string, i: nat, ps: seq<Piece>, meta: nat)
    requires Follows(f, s)
    requires i <= |s| && s[i..] == SourceAll(ps) && WellFormed(ps, meta) && Sound(ps, Before(s, i))
    ensures Run(f, s, i, meta, 0) == OutputAll(Before(s, i), ps)
    decreases ps
  {
    if ps != [] {
      var p, rest, j := ps[0], SourceAll(ps[1..]), i + |Source(ps[0])|;
      PieceAt(s, i, p, rest, j);
      if !p.Comment? {
        PieceSegment(f, s, i, p, meta, rest);
        RunPieces(f, s, j, ps[1..], MetaAfter(p, meta));
      } else {
        PieceComment(f, s, i, p, meta, rest, j);
        if Depth(p.body) > 2 {
          Stuck(f, s, j, meta, AfterClose(s, j, Depth(p.body)));
        } else {
          RunPieces(f, s, j, ps[1..], meta);
        }
      }
    }
  }

  /** Of every sheet whose comments are sound exactly the normalised text and rules are left: comments,
      the openings of at-rules and the braces that end them, and the blanks that follow a blank in the
      source are gone. */
  lemma StripMeaning(ps: seq<Piece>)
    requires WellFormed(ps, 0) && Sound(ps, '\0')
    ensures Strip(SourceAll(ps)) == OutputAll('\0', ps)
  {
    var s := SourceAll(ps);
    assert s[0..] == s;
    RunPieces(StepOf(s), s, 0, ps, 0);
  }

  // ----- Comments that the pass gets wrong -----

  /** After a comment that is directly followed by a star the counter never gets back to zero when no
      slash follows, and the rest of the sheet is lost. */
  lemma StarAfterCommentLosesTheRest(rest: string)
    requires forall i :: 0 <= i < |rest| ==> rest[i] != '/'
    ensures Strip("/**/*" + rest) == []
  {
    var s := "/**/*" + rest;
    assert s[0] == '/' && s[1] == '*' && s[2] == '*' && s[3] == '/' && s[4] == '*';
    assert BodyAt(s, 2, 4, 0);
    var f := StepOf(s);
    OpenRun(f, s, 0, 0);
    LeaveComment(f, s, 2, 4, 0, 1);
    assert forall i :: 4 <= i < |s| ==> s[i] != '/';
    StuckInComment(f, s, 4, 0);
  }

  lemma {:induction false} StuckInComment(f: Stepper, s: string, i: nat, meta: nat)
    requires Follows(f, s)
    requires i <= |s| && forall j :: i <= j < |s| ==> s[j] != '/'
    ensures Run(f, s, i, meta, 2) == []
    decreases |s| - i
  {
    if i < |s| {
      var m := MetaStep(meta, Norm(s[i])).0;
      assert Step(s, i, meta, 2) == ([], m, 2);
      StuckInComment(f, s, i + 1, m);
    }
  }
}
