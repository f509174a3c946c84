/** Stripped stylesheets at large: every sheet without comments is one of the modelled ones, at-rules
    other than `@-...` and `@n...` are lost, and blanks are not always single. */
module StyleRules {
  import opened StyleStripping
  import opened StyleSheet

  // ----- Every sheet without comments -----

  predicate NoComments(ps: seq<Piece>) {
    forall i :: 0 <= i < |ps| ==> !ps[i].Comment?
  }

  lemma {:induction false} NoCommentsIsSound(ps: seq<Piece>, prev: char)
    requires NoComments(ps)
    ensures Sound(ps, prev)
    decreases ps
  {
    if ps != [] {
      NoCommentsIsSound(ps[1..], Last(prev, Source(ps[0])));
    }
  }

  lemma NoPairInSlice(s: string, i: nat, j: nat)
    requires i <= j <= |s| && !HasPair(s, '/', '*')
    ensures !HasPair(s[i..j], '/', '*')
  {
    forall k | 0 <= k < |s[i..j]| - 1 ensures !(s[i..j][k] == '/' && s[i..j][k + 1] == '*') {
      assert s[i..j][k] == s[i + k] && s[i..j][k + 1] == s[i + k + 1];
    }
  }

  lemma {:induction false} FirstMark(s: string, i: nat) returns (k: nat)
    requires i < |s| && IsMark(s[i])
    ensures k <= i && IsMark(s[k]) && NoMark(s[..k])
    decreases i
  {
    if j: nat :| j < i && IsMark(s[j]) {
      k := FirstMark(s, j);
    } else {
      k := i;
    }
  }

  lemma {:induction false} FirstBrace(s: string, from: nat, i: nat) returns (k: nat)
    requires from <= i < |s| && s[i] == '{'
    ensures from <= k <= i && s[k] == '{' && '{' !in s[from..k]
    decreases i
  {
    if j: nat :| from <= j < i && s[j] == '{' {
      k := FirstBrace(s, from, j);
    } else {
      k := i;
    }
  }

  lemma OpeningPrefix(s: string, t: string, l: nat)
    requires s == "@" + t && l < |t| && t[l] == '{'
    ensures s[..l + 2] == "@" + t[..l] + "{" && s[1..l + 1] == t[..l]
  {
    assert |s| == |t| + 1;
    forall k | 0 <= k < l + 1 ensures s[k + 1] == t[k] {
    }
  }

  lemma MarkedPrefix(t: string, k: nat, l: nat)
    requires k < l <= |t|
    ensures t[..k] + [t[k]] + t[k + 1..l] == t[..l]
  {
  }

  /** The mark and the brace that the pass finds behind an '@'. */
  lemma MarkAndBrace(t: string) returns (k: nat, l: nat)
    requires !NeverOpens(t)
    ensures k < l < |t| && IsMark(t[k]) && NoMark(t[..k]) && t[l] == '{' && '{' !in t[k + 1..l]
  {
    var i, j :| 0 <= i < j < |t| && IsMark(t[i]) && t[j] == '{';
    k := FirstMark(t, i);
    l := FirstBrace(t, k + 1, j);
  }

  /** The opening that they make up. */
  lemma OpeningOf(s: string, t: string) returns (p: Piece, n: nat)
    requires s == "@" + t && !NeverOpens(t) && !HasPair(s, '/', '*')
    ensures p.OpenWrapper? && Fits(p, 0) && 0 < n <= |s| && Source(p) == s[..n]
  {
    var k, l := MarkAndBrace(t);
    OpeningPrefix(s, t, l);
    MarkedPrefix(t, k, l);
    NoPairInSlice(s, 1, l + 1);
    p, n := OpenWrapper(t[..k], t[k], t[k + 1..l]), l + 2;
  }

  predicate Covers(ps: seq<Piece>, s: string, meta: nat) {
    SourceAll(ps) == s && WellFormed(ps, meta) && NoComments(ps)
  }

  lemma CoversMore(p: Piece, ps: seq<Piece>, s: string, n: nat, meta: nat)
    requires n <= |s| && Source(p) == s[..n] && Covers(ps, s[n..], MetaAfter(p, meta))
    requires !p.Comment? && Fits(p, meta) && Joins(p, s[n..])
    ensures Covers([p] + ps, s, meta)
  {
    assert ([p] + ps)[1..] == ps;
    assert s[..n] + s[n..] == s;
  }

  /** The piece that a sheet starts with. */
  lemma FirstPiece(s: string, meta: nat) returns (p: Piece, n: nat)
    requires s != [] && !HasPair(s, '/', '*') && (meta == 0 || meta == 3 || meta == 4)
    ensures 0 < n <= |s| && Source(p) == s[..n] && !p.Comment? && Fits(p, meta) && Joins(p, s[n..])
  {
    var t := s[1..];
    if meta == 0 && s[0] == '@' {
      assert s == "@" + t;
      if NeverOpens(t) {
        p, n := Unclosed(t), |s|;
      } else {
        p, n := OpeningOf(s, t);
      }
    } else {
      n := 1;
      p := if meta == 3 && s[0] == '{' then OpenRule else if meta == 3 && s[0] == '}' then CloseWrapper
           else if meta == 4 && s[0] == '}' then CloseRule else Text(s[..1]);
    }
  }

  lemma {:induction false} Pieces(s: string, meta: nat) returns (ps: seq<Piece>)
    requires !HasPair(s, '/', '*') && (meta == 0 || meta == 3 || meta == 4)
    ensures Covers(ps, s, meta)
    decreases |s|
  {
    if s == [] {
      ps := [];
    } else {
      var p, n := FirstPiece(s, meta);
      NoPairInSlice(s, n, |s|);
      assert s[n..|s|] == s[n..];
      var rest := Pieces(s[n..], MetaAfter(p, meta));
      CoversMore(p, rest, s, n, meta);
      ps := [p] + rest;
    }
  }

  /** So what is left is known of every sheet without comments. */
  lemma EverySheetWithoutComments(s: string)
    requires !HasPair(s, '/', '*')
    ensures exists ps :: Covers(ps, s, 0) && Strip(s) == OutputAll('\0', ps)
  {
    var ps := Pieces(s, 0);
    NoCommentsIsSound(ps, '\0');
    StripMeaning(ps);
  }

  // ----- Other at-rules -----

  /** The openings that the pass is after: `@-...`, as in `@-moz-document`, and `@n...`, for a
      namespace in front of one. */
  predicate IsWrapper(p: Piece) {
    p.OpenWrapper? && p.name == []
  }

  predicate OnlyWrappers(ps: seq<Piece>) {
    forall i :: 0 <= i < |ps| ==> !ps[i].Unclosed? && (ps[i].OpenWrapper? ==> IsWrapper(ps[i]))
  }

  /** What is left of a piece when only wrappers are dropped and other at-rules are kept as text;
      `other` says that the at-rule around the piece is such a one. */
  function Kept(prev: char, p: Piece, other: bool): string {
    match p
    case OpenWrapper(_, _, _) => if IsWrapper(p) then [] else Squeeze(prev, Source(p))
    case Unclosed(_) => Squeeze(prev, Source(p))
    case CloseWrapper => if other then "}" else []
    case _ => Output(prev, p)
  }

  function KeptAll(prev: char, ps: seq<Piece>, other: bool): string
    decreases ps
  {
    if ps == [] then []
    else
      Kept(prev, ps[0], other)
      + KeptAll(Last(prev, Source(ps[0])), ps[1..], if ps[0].OpenWrapper? then !IsWrapper(ps[0]) else other)
  }

  lemma AtRuleIsText(prev: char, p: Piece)
    requires p.OpenWrapper? || p.Unclosed?
    ensures Squeeze(prev, Source(p)) != []
  {
    assert Source(p)[0] == '@';
  }

  lemma {:induction false} KeptBound(prev: char, ps: seq<Piece>, other: bool)
    ensures |OutputAll(prev, ps)| <= |KeptAll(prev, ps, other)|
    ensures !OnlyWrappers(ps) ==> |OutputAll(prev, ps)| < |KeptAll(prev, ps, other)|
    ensures OnlyWrappers(ps) && !other ==> OutputAll(prev, ps) == KeptAll(prev, ps, other)
    decreases ps
  {
    if ps != [] {
      var p, last := ps[0], Last(prev, Source(ps[0]));
      var inner := if p.OpenWrapper? then !IsWrapper(p) else other;
      KeptBound(last, ps[1..], inner);
      if p.OpenWrapper? || p.Unclosed? {
        AtRuleIsText(prev, p);
      }
      assert ps == [p] + ps[1..];
      if OnlyWrappers(ps) {
        assert !ps[0].Unclosed? && (ps[0].OpenWrapper? ==> IsWrapper(ps[0]));
      }
    }
  }

  /** A sheet with sound comments keeps everything but its wrappers exactly when it has no other
      at-rules; otherwise text is lost. */
  lemma AtRulesKeptExactly(ps: seq<Piece>)
    requires WellFormed(ps, 0) && Sound(ps, '\0')
    ensures Strip(SourceAll(ps)) == KeptAll('\0', ps, false) <==> OnlyWrappers(ps)
    ensures !OnlyWrappers(ps) ==> |Strip(SourceAll(ps))| < |KeptAll('\0', ps, false)|
  {
    StripMeaning(ps);
    KeptBound('\0', ps, false);
  }

  /** Everything behind an '@' is lost when no brace follows a mark. */
  lemma UnclosedIsLost(rest: string)
    requires NeverOpens(rest)
    ensures Strip("@" + rest) == []
  {
    var ps := [Unclosed(rest)];
    assert ps[1..] == [];
    assert SourceAll(ps) == "@" + rest;
    StripMeaning(ps);
    assert OutputAll('\0', ps) == [];
  }

  /** A media rule is taken for a wrapper. */
  lemma MediaRule(p: Piece)
    requires p == OpenWrapper("media scree", 'n', " ")
    ensures Source(p) == "@media screen {" && Fits(p, 0) && !IsWrapper(p)
  {
  }

  // ----- Blanks -----

  /** A text starts with a blank that is kept: there is none before it in the source. */
  predicate KeepsBlank(prev: char, text: string) {
    text != [] && Norm(text[0]) == ' ' && prev != ' '
  }

  /** No blank that is kept follows one in the output.  `prev` is the last character of the source so
      far, `shown` the last one that was output: they differ behind a comment, the opening of an
      at-rule or the brace that ends one. */
  predicate BlanksApart(ps: seq<Piece>, prev: char, shown: char) {
    || ps == []
    || (&& !(ps[0].Text? && KeepsBlank(prev, ps[0].text) && shown == ' ')
        && BlanksApart(ps[1..], Last(prev, Source(ps[0])), Last(shown, Output(prev, ps[0]))))
  }

  predicate TwoBlanks(s: string) {
    HasPair(s, ' ', ' ')
  }

  lemma TwoBlanksCons(a: char, s: string)
    requires s != []
    ensures TwoBlanks([a] + s) <==> (a == ' ' && s[0] == ' ') || TwoBlanks(s)
  {
    var t := [a] + s;
    if i :| 0 <= i < |s| - 1 && s[i] == ' ' && s[i + 1] == ' ' {
      assert t[i + 1] == ' ' && t[i + 1 + 1] == ' ';
    }
    if i :| 0 <= i < |t| - 1 && t[i] == ' ' && t[i + 1] == ' ' {
      assert i > 0 ==> s[i - 1] == ' ' && s[i - 1 + 1] == ' ';
    }
    if a == ' ' && s[0] == ' ' {
      assert t[0] == ' ' && t[0 + 1] == ' ';
    }
  }

  /** Within a text blanks come out single. */
  lemma {:induction false} SqueezeBlanks(shown: char, prev: char, text: string)
    ensures TwoBlanks([shown] + Squeeze(prev, text)) <==> KeepsBlank(prev, text) && shown == ' '
    decreases text
  {
    if text != [] {
      var c, rest := Norm(text[0]), Squeeze(Norm(text[0]), text[1..]);
      if c == ' ' && prev == ' ' {
        SqueezeBlanks(shown, c, text[1..]);
        assert [] + rest == rest;
      } else {
        SqueezeBlanks(c, c, text[1..]);
        TwoBlanksCons(shown, [c] + rest);
      }
    }
  }

  lemma {:induction false} TwoBlanksSplit(a: char, s: string, t: string)
    requires forall i :: 0 <= i < |s| ==> Norm(s[i]) == s[i]
    ensures TwoBlanks([a] + (s + t)) <==> TwoBlanks([a] + s) || TwoBlanks([Last(a, s)] + t)
    decreases s
  {
    if s == [] {
      assert s + t == t;
    } else {
      TwoBlanksSplit(s[0], s[1..], t);
      assert [s[0]] + s[1..] == s && [s[0]] + (s[1..] + t) == s + t;
      TwoBlanksCons(a, s);
      TwoBlanksCons(a, s + t);
    }
  }

  lemma {:induction false} SqueezeIsNormal(prev: char, text: string)
    ensures forall i :: 0 <= i < |Squeeze(prev, text)| ==> Norm(Squeeze(prev, text)[i]) == Squeeze(prev, text)[i]
    decreases text
  {
    if text != [] {
      SqueezeIsNormal(Norm(text[0]), text[1..]);
    }
  }

  lemma PieceBlanks(shown: char, prev: char, p: Piece)
    ensures TwoBlanks([shown] + Output(prev, p)) <==> p.Text? && KeepsBlank(prev, p.text) && shown == ' '
    ensures forall i :: 0 <= i < |Output(prev, p)| ==> Norm(Output(prev, p)[i]) == Output(prev, p)[i]
  {
    if p.Text? {
      SqueezeBlanks(shown, prev, p.text);
      SqueezeIsNormal(prev, p.text);
    }
  }

  lemma {:induction false} OutputBlanks(shown: char, prev: char, ps: seq<Piece>)
    ensures !TwoBlanks([shown] + OutputAll(prev, ps)) <==> BlanksApart(ps, prev, shown)
    decreases ps
  {
    if ps != [] {
      var out, last := Output(prev, ps[0]), Last(prev, Source(ps[0]));
      PieceBlanks(shown, prev, ps[0]);
      TwoBlanksSplit(shown, out, OutputAll(last, ps[1..]));
      OutputBlanks(Last(shown, out), last, ps[1..]);
    }
  }

  /** The stripped sheet has two blanks in a row exactly when a text starts with a blank behind
      something that was dropped, and a blank was the last thing output. */
  lemma SingleBlanksExactly(ps: seq<Piece>)
    requires WellFormed(ps, 0) && Sound(ps, '\0')
    ensures !TwoBlanks(Strip(SourceAll(ps))) <==> BlanksApart(ps, '\0', '\0')
  {
    var out := OutputAll('\0', ps);
    StripMeaning(ps);
    OutputBlanks('\0', '\0', ps);
    if out != [] {
      TwoBlanksCons('\0', out);
    }
  }

  lemma LastTextAlone(q: Piece, prev: char)
    requires q.Text? && Fits(q, 0)
    ensures SourceAll([q]) == q.text && WellFormed([q], 0) && Sound([q], prev)
  {
    assert [q][1..] == [];
    assert q.text + [] == q.text;
    assert Joins(q, SourceAll([q][1..]));
  }

  lemma EmptyCommentBefore(c: Piece, q: Piece, prev: char, shown: char)
    requires c == Comment("") && q.Text? && Fits(q, 0) && !StartsWithStar(q.text)
    ensures WellFormed([c, q], 0) && Sound([c, q], prev)
    ensures KeepsBlank('/', q.text) && shown == ' ' ==> !BlanksApart([c, q], prev, shown)
  {
    assert [c, q][1..] == [q];
    LastTextAlone(q, '/');
    assert Source(c) == "/**/" && Last(prev, Source(c)) == '/';
    assert Openers("" + "*", 0, 0) == 0 && Depth("") == 1 && !Leaks("");
    assert Last(shown, Output(prev, c)) == shown;
  }

  lemma SqueezeEnd(prev: char, text: string)
    requires text == "a "
    ensures Last(prev, Squeeze(prev, text)) == ' '
  {
    assert text[1..] == " " && " "[1..] == [];
    assert Squeeze('a', " ") == " " + Squeeze(' ', []) == " ";
    assert Squeeze(prev, text) == "a" + " ";
  }

  lemma TextBefore(p: Piece, more: seq<Piece>, prev: char, shown: char)
    requires p.Text? && Fits(p, 0) && Joins(p, SourceAll(more)) && WellFormed(more, 0)
    requires Sound(more, Last(prev, p.text))
    ensures WellFormed([p] + more, 0) && Sound([p] + more, prev)
    ensures !BlanksApart(more, Last(prev, p.text), Last(shown, Output(prev, p))) ==>
              !BlanksApart([p] + more, prev, shown)
  {
    assert ([p] + more)[1..] == more;
  }

  /** A comment between two blanks leaves both. */
  lemma BlanksAroundComment(p: Piece, c: Piece, q: Piece)
    requires p == Text("a ") && c == Comment("") && q == Text(" b")
    ensures var ps := [p] + [c, q]; WellFormed(ps, 0) && Sound(ps, '\0') && !BlanksApart(ps, '\0', '\0')
  {
    assert KeepsBlank('/', q.text);
    EmptyCommentBefore(c, q, ' ', ' ');
    SqueezeEnd('\0', p.text);
    TextBefore(p, [c, q], '\0', '\0');
  }
}
