/** The conditions on comments are the exact ones: of every other sheet some of the text gets lost, or
    part of a comment is output. */
module StyleLoss {
  import opened Sequences
  import opened StyleStripping
  import opened StyleSheet

  // ----- Out of step -----

  /** Where the comment counter can be outside comments: at one only between a star and a slash. */
  predicate Allowed(s: string, i: nat, comment: nat) {
    comment == 1 ==> 0 < i < |s| && s[i - 1] == '*' && s[i] == '/'
  }

  /** Where no comment starts, a raised counter only ever suppresses output. */
  lemma QuietStep(s: string, i: nat, meta: nat, comment: nat)
    requires i < |s| && Allowed(s, i, comment) && !StartsComment(s, i)
    ensures var r := Step(s, i, meta, comment);
            var q := Step(s, i, meta, 0);
            Allowed(s, i + 1, r.2) && r.1 == q.1 && |r.0| <= |q.0| && q.2 == 0
  {
  }

  lemma {:induction false} LossyText(f: Stepper, s: string, i: nat, j: nat, meta: nat, comment: nat)
    returns (after: nat)
    requires Follows(f, s)
    requires i <= j <= |s| && Allowed(s, i, comment)
    requires forall k :: i <= k < j ==> PlainAt(meta, s[k]) && !StartsComment(s, k)
    ensures Allowed(s, j, after)
    ensures |Run(f, s, i, meta, comment)| <= |Squeeze(Before(s, i), s[i..j])| + |Run(f, s, j, meta, after)|
    decreases j - i
  {
    if i == j {
      after := comment;
    } else {
      QuietStep(s, i, meta, comment);
      TextStep(s, i, meta);
      var r := Step(s, i, meta, comment);
      after := LossyText(f, s, i + 1, j, meta, r.2);
      assert s[i..j][1..] == s[i + 1..j] && s[i..j][0] == s[i];
    }
  }

  lemma HeaderStep(s: string, i: nat, comment: nat)
    requires i < |s| && Allowed(s, i, comment) && !StartsComment(s, i)
    ensures var r := Step(s, i, 2, comment);
            r.0 == [] && r.1 == (if s[i] == '{' then 3 else 2) && Allowed(s, i + 1, r.2)
  {
  }

  lemma {:induction false} LossyHeader(f: Stepper, s: string, i: nat, j: nat, comment: nat) returns (after: nat)
    requires Follows(f, s)
    requires i <= j < |s| && s[j] == '{' && Allowed(s, i, comment)
    requires forall k :: i <= k < j ==> s[k] != '{' && !StartsComment(s, k)
    ensures Allowed(s, j + 1, after) && |Run(f, s, i, 2, comment)| <= |Run(f, s, j + 1, 3, after)|
    decreases j - i
  {
    HeaderStep(s, i, comment);
    var k := Step(s, i, 2, comment).2;
    if i < j {
      after := LossyHeader(f, s, i + 1, j, k);
    } else {
      after := k;
    }
  }

  // ----- Pieces -----

  /** Where no comment starts in a text piece. */
  lemma TextIsQuiet(s: string, i: nat, p: Piece, meta: nat, rest: string, j: nat)
    requires i <= |s| && s[i..] == Source(p) + rest && j == i + |Source(p)| <= |s|
    requires p.Text? && Fits(p, meta) && Joins(p, rest)
    ensures s[i..j] == p.text && forall k :: i <= k < j ==> PlainAt(meta, s[k]) && !StartsComment(s, k)
  {
    PieceAt(s, i, p, rest, j);
    assert s[i..j] == p.text;
    forall k | i <= k < j ensures PlainAt(meta, s[k]) && !StartsComment(s, k) {
      assert s[k] == p.text[k - i];
      if k + 1 < j {
        assert s[k + 1] == p.text[k + 1 - i];
      }
    }
  }

  lemma NameStep(s: string, i: nat, comment: nat)
    requires i < |s| && Allowed(s, i, comment) && !StartsComment(s, i)
    ensures var r := Step(s, i, 1, comment);
            r.0 == [] && r.1 == (if IsMark(s[i]) then 2 else 1) && Allowed(s, i + 1, r.2)
  {
  }

  lemma {:induction false} LossyName(f: Stepper, s: string, i: nat, m: nat, comment: nat) returns (after: nat)
    requires Follows(f, s)
    requires i <= m < |s| && IsMark(s[m]) && Allowed(s, i, comment)
    requires forall k :: i <= k < m ==> !IsMark(s[k]) && !StartsComment(s, k)
    ensures Allowed(s, m + 1, after) && Run(f, s, i, 1, comment) == Run(f, s, m + 1, 2, after)
    decreases m - i
  {
    NameStep(s, i, comment);
    var k := Step(s, i, 1, comment).2;
    if i < m {
      after := LossyName(f, s, i + 1, m, k);
    } else {
      after := k;
    }
  }

  lemma LossyOpen(f: Stepper, s: string, i: nat, m: nat, j: nat, comment: nat) returns (after: nat)
    requires Follows(f, s)
    requires OpenAt(s, i, m, j) && comment != 1
    ensures Allowed(s, j, after) && |Run(f, s, i, 0, comment)| <= |Run(f, s, j, 3, after)|
  {
    assert Step(s, i, 0, comment) == ([], 1, comment);
    var k := LossyName(f, s, i + 1, m, comment);
    after := LossyHeader(f, s, m + 1, j - 1, k);
  }

  lemma LossyBrace(f: Stepper, s: string, i: nat, p: Piece, meta: nat, comment: nat)
    requires Follows(f, s)
    requires i < |s| && (p.OpenRule? || p.CloseRule? || p.CloseWrapper?) && Fits(p, meta) && s[i] == Source(p)[0]
    requires comment != 1
    ensures |Run(f, s, i, meta, comment)| <= |Output(Before(s, i), p)| + |Run(f, s, i + 1, MetaAfter(p, meta), comment)|
  {
    var r := Step(s, i, meta, comment);
    assert r.1 == MetaAfter(p, meta) && r.2 == comment && |r.0| <= |Output(Before(s, i), p)|;
  }

  lemma OpenRaised(f: Stepper, s: string, i: nat, meta: nat, comment: nat)
    requires Follows(f, s)
    requires i + 2 < |s| && s[i] == '/' && s[i + 1] == '*' && (meta == 0 || meta == 3 || meta == 4) && comment >= 1
    ensures Run(f, s, i, meta, comment) ==
            Run(f, s, i + 2, meta, if comment == 1 && s[i + 2] == '/' then 1 else comment + 1)
  {
    var k := if comment == 1 && s[i + 2] == '/' then 1 else comment + 1;
    assert Step(s, i, meta, comment) == ([], meta, comment + 1);
    assert Step(s, i + 1, meta, comment + 1) == ([], meta, k);
  }

  lemma RaisedAt(f: Stepper, s: string, i: nat, j: nat, meta: nat, comment: nat) returns (after: nat)
    requires Follows(f, s)
    requires CommentAt(s, i, j, meta) && comment >= 1 && (EndsEarly(s, i + 2) ==> StartsComment(s, i + 3))
    ensures after != 1 && Run(f, s, i, meta, comment) == Run(f, s, j, meta, after)
  {
    OpenRaised(f, s, i, meta, comment);
    var b := i + 2;
    if comment == 1 && s[b] == '/' {
      FirstBody(f, s, b, j, meta);
      after := AfterClose(s, j, Openers(s, b, j - 2) + if EndsEarly(s, b) then 0 else 1);
    } else {
      LeaveComment(f, s, b, j, meta, comment + 1);
      after := AfterClose(s, j, comment + 1 + Openers(s, b, j - 2));
    }
  }

  /** A comment met with a raised counter. */
  lemma RaisedComment(f: Stepper, s: string, i: nat, p: Piece, meta: nat, rest: string, j: nat, comment: nat)
    returns (after: nat)
    requires Follows(f, s)
    requires i <= |s| && s[i..] == Source(p) + rest && j == i + |Source(p)| <= |s| && p.Comment? && Fits(p, meta)
    requires !Leaks(p.body) && comment >= 1
    ensures after != 1 && Run(f, s, i, meta, comment) == Run(f, s, j, meta, after)
  {
    CommentInside(s, i, p, meta, rest, j);
    BodyLevel(s, i, p, rest, j);
    after := RaisedAt(f, s, i, j, meta, comment);
  }

  /** Whatever the counter, a piece leaves no more than it should, unless it is a comment that leaks. */
  lemma LossyPiece(f: Stepper, s: string, i: nat, p: Piece, meta: nat, rest: string, j: nat, comment: nat)
    returns (after: nat)
    requires Follows(f, s)
    requires i <= |s| && s[i..] == Source(p) + rest && j == i + |Source(p)| <= |s|
    requires Fits(p, meta) && Joins(p, rest) && Allowed(s, i, comment) && (p.Comment? ==> !Leaks(p.body))
    ensures Allowed(s, j, after)
    ensures |Run(f, s, i, meta, comment)| <= |Output(Before(s, i), p)| + |Run(f, s, j, MetaAfter(p, meta), after)|
  {
    match p
    case Text(_) =>
      TextIsQuiet(s, i, p, meta, rest, j);
      after := LossyText(f, s, i, j, meta, comment);
    case Comment(_) =>
      if comment == 0 {
        PieceComment(f, s, i, p, meta, rest, j);
        after := AfterClose(s, j, Depth(p.body));
      } else {
        after := RaisedComment(f, s, i, p, meta, rest, j, comment);
      }
    case OpenWrapper(name, _, _) =>
      var m := i + 1 + |name|;
      OpeningAt(s, i, p, rest, m, j);
      after := LossyOpen(f, s, i, m, j, comment);
    case Unclosed(_) =>
      assert Source(p) + [] == Source(p);
      assert s[i] == s[i..][0] == '@';
      UnclosedToTheEnd(f, s, i, p, comment);
      after := 0;
    case _ =>
      PieceAt(s, i, p, rest, j);
      assert s[i] == s[i + 0] == Source(p)[0];
      LossyBrace(f, s, i, p, meta, comment);
      after := comment;
  }

  predicate LeakFree(ps: seq<Piece>) {
    forall i :: 0 <= i < |ps| && ps[i].Comment? ==> !Leaks(ps[i].body)
  }

  lemma {:induction false} LossyPieces(f: Stepper, s: string, i: nat, ps: seq<Piece>, meta: nat, comment: nat)
    requires Follows(f, s)
    requires i <= |s| && s[i..] == SourceAll(ps) && WellFormed(ps, meta) && LeakFree(ps) && Allowed(s, i, comment)
    ensures |Run(f, s, i, meta, comment)| <= |OutputAll(Before(s, i), ps)|
    decreases ps
  {
    if ps != [] {
      var rest, j := SourceAll(ps[1..]), i + |Source(ps[0])|;
      PieceAt(s, i, ps[0], rest, j);
      var after := LossyPiece(f, s, i, ps[0], meta, rest, j, comment);
      LossyPieces(f, s, j, ps[1..], MetaAfter(ps[0], meta), after);
    }
  }

  lemma StarInText(f: Stepper, s: string, i: nat, j: nat, meta: nat, comment: nat) returns (after: nat)
    requires Follows(f, s)
    requires i < j <= |s| && comment >= 2 && s[i] == '*'
    requires forall k :: i <= k < j ==> PlainAt(meta, s[k]) && !StartsComment(s, k)
    ensures Allowed(s, j, after)
    ensures |Run(f, s, i, meta, comment)| < |Squeeze(Before(s, i), s[i..j])| + |Run(f, s, j, meta, after)|
  {
    assert PlainAt(meta, s[i]);
    var k := Step(s, i, meta, comment).2;
    assert Step(s, i, meta, comment) == ([], meta, k) && Allowed(s, i + 1, k);
    after := LossyText(f, s, i + 1, j, meta, k);
    assert s[i..j][1..] == s[i + 1..j] && s[i..j][0] == s[i];
  }

  /** With the counter raised before a star, that star is lost. */
  lemma {:induction false} LosesStar(f: Stepper, s: string, i: nat, ps: seq<Piece>, meta: nat, comment: nat)
    requires Follows(f, s)
    requires i < |s| && s[i..] == SourceAll(ps) && WellFormed(ps, meta) && LeakFree(ps) && comment >= 2 && s[i] == '*'
    ensures |Run(f, s, i, meta, comment)| < |OutputAll(Before(s, i), ps)|
    decreases ps
  {
    var p, rest, j := ps[0], SourceAll(ps[1..]), i + |Source(ps[0])|;
    PieceAt(s, i, p, rest, j);
    if j == i {
      LosesStar(f, s, i, ps[1..], MetaAfter(p, meta), comment);
    } else {
      assert s[i + 0] == Source(p)[0];
      TextIsQuiet(s, i, p, meta, rest, j);
      var after := StarInText(f, s, i, j, meta, comment);
      LossyPieces(f, s, j, ps[1..], meta, after);
    }
  }

  lemma InPhase(f: Stepper, s: string, i: nat, p: Piece, meta: nat, rest: string, j: nat)
    requires Follows(f, s)
    requires i <= |s| && s[i..] == Source(p) + rest && j == i + |Source(p)| <= |s| && Fits(p, meta) && Joins(p, rest)
    requires p.Comment? ==> !Leaks(p.body) && Depth(p.body) <= 2 && !StartsWithStar(rest)
    ensures Run(f, s, i, meta, 0) == Output(Before(s, i), p) + Run(f, s, j, MetaAfter(p, meta), 0)
  {
    if p.Comment? {
      PieceAt(s, i, p, rest, j);
      PieceComment(f, s, i, p, meta, rest, j);
    } else {
      PieceSegment(f, s, i, p, meta, rest);
    }
  }

  /** A comment with too many openers loses what follows, and a star behind a comment is lost. */
  lemma LosesAfterComment(f: Stepper, s: string, i: nat, ps: seq<Piece>, meta: nat)
    requires Follows(f, s)
    requires i <= |s| && s[i..] == SourceAll(ps) && WellFormed(ps, meta) && ps != [] && ps[0].Comment?
    requires !Leaks(ps[0].body) && LeakFree(ps[1..])
    requires if Depth(ps[0].body) > 2 then OutputAll(Last(Before(s, i), Source(ps[0])), ps[1..]) != []
             else StartsWithStar(SourceAll(ps[1..]))
    ensures |Run(f, s, i, meta, 0)| < |OutputAll(Before(s, i), ps)|
  {
    var p, rest, j := ps[0], SourceAll(ps[1..]), i + |Source(ps[0])|;
    PieceAt(s, i, p, rest, j);
    PieceComment(f, s, i, p, meta, rest, j);
    if Depth(p.body) > 2 {
      Stuck(f, s, j, meta, AfterClose(s, j, Depth(p.body)));
    } else {
      LosesStar(f, s, j, ps[1..], meta, 2);
    }
  }

  lemma {:induction false} LosesText(f: Stepper, s: string, i: nat, ps: seq<Piece>, meta: nat)
    requires Follows(f, s)
    requires i <= |s| && s[i..] == SourceAll(ps) && WellFormed(ps, meta) && LeakFree(ps) && !Sound(ps, Before(s, i))
    ensures |Run(f, s, i, meta, 0)| < |OutputAll(Before(s, i), ps)|
    decreases ps
  {
    var p, rest, j := ps[0], SourceAll(ps[1..]), i + |Source(ps[0])|;
    PieceAt(s, i, p, rest, j);
    assert p.Comment? ==> !Leaks(p.body);
    if p.Comment? && (Depth(p.body) > 2 || StartsWithStar(rest)) {
      LosesAfterComment(f, s, i, ps, meta);
    } else {
      LosesText(f, s, j, ps[1..], MetaAfter(p, meta));
      InPhase(f, s, i, p, meta, rest, j);
    }
  }

  /** A sheet without leaking comments is stripped to what is meant exactly when its comments are
      sound; otherwise text is lost. */
  lemma StripExactly(ps: seq<Piece>)
    requires WellFormed(ps, 0) && LeakFree(ps)
    ensures Strip(SourceAll(ps)) == OutputAll('\0', ps) <==> Sound(ps, '\0')
    ensures !Sound(ps, '\0') ==> |Strip(SourceAll(ps))| < |OutputAll('\0', ps)|
  {
    var s := SourceAll(ps);
    assert s[0..] == s;
    if Sound(ps, '\0') {
      StripMeaning(ps);
    } else {
      LosesText(StepOf(s), s, 0, ps, 0);
    }
  }

  // ----- Leaking comments -----

  lemma LeakAt(f: Stepper, s: string, i: nat, j: nat, meta: nat)
    requires Follows(f, s)
    requires CommentAt(s, i, j, meta) && EndsEarly(s, i + 2) && !StartsComment(s, i + 3)
    ensures Run(f, s, i, meta, 0) == [Norm(s[i + 3])] + Run(f, s, i + 4, meta, 0)
  {
    OpenRun(f, s, i, meta);
    EndEarly(f, s, i + 2, meta);
    assert InBody(s, i + 3, meta);
    TextStep(s, i + 3, meta);
  }

  /** A comment that leaks puts out at least one character. */
  lemma LeakShows(f: Stepper, s: string, i: nat, p: Piece, meta: nat, rest: string, j: nat)
    requires Follows(f, s)
    requires i <= |s| && s[i..] == Source(p) + rest && j == i + |Source(p)| && p.Comment? && Fits(p, meta)
    requires Leaks(p.body)
    ensures Run(f, s, i, meta, 0) != []
  {
    CommentInside(s, i, p, meta, rest, j);
    BodyLevel(s, i, p, rest, j);
    LeakAt(f, s, i, j, meta);
  }

  /** Nothing, and then a star. */
  predicate StarPiece(ps: seq<Piece>) {
    && ps != []
    && if Source(ps[0]) == [] then StarPiece(ps[1..]) else |ps| == 1 && Source(ps[0])[0] == '*'
  }

  /** The sheet ends with the first thing that goes wrong. */
  predicate FaultyEnd(ps: seq<Piece>, prev: char) {
    && ps != []
    && var more, last := ps[1..], Last(prev, Source(ps[0]));
       if !ps[0].Comment? then FaultyEnd(more, last)
       else if Leaks(ps[0].body) then more == []
       else if Depth(ps[0].body) > 2 then OutputAll(last, more) != []
       else StarPiece(more) || (!StartsWithStar(SourceAll(more)) && FaultyEnd(more, last))
  }

  lemma {:induction false} StarPieceStarts(ps: seq<Piece>, meta: nat)
    requires StarPiece(ps) && WellFormed(ps, meta)
    ensures StartsWithStar(SourceAll(ps)) && LeakFree(ps)
    decreases ps
  {
    if Source(ps[0]) == [] {
      StarPieceStarts(ps[1..], MetaAfter(ps[0], meta));
      assert ps == [ps[0]] + ps[1..];
    }
  }

  lemma {:induction false} FaultyEndShows(f: Stepper, s: string, i: nat, ps: seq<Piece>, meta: nat)
    requires Follows(f, s)
    requires i <= |s| && s[i..] == SourceAll(ps) && WellFormed(ps, meta) && FaultyEnd(ps, Before(s, i))
    ensures Run(f, s, i, meta, 0) != OutputAll(Before(s, i), ps)
    decreases ps
  {
    var p, rest, j := ps[0], SourceAll(ps[1..]), i + |Source(ps[0])|;
    PieceAt(s, i, p, rest, j);
    if p.Comment? && Leaks(p.body) {
      LeakShows(f, s, i, p, meta, rest, j);
    } else if p.Comment? && Depth(p.body) > 2 {
      PieceComment(f, s, i, p, meta, rest, j);
      Stuck(f, s, j, meta, AfterClose(s, j, Depth(p.body)));
    } else if p.Comment? && StarPiece(ps[1..]) {
      StarPieceStarts(ps[1..], meta);
      LosesAfterComment(f, s, i, ps, meta);
    } else {
      FaultyEndShows(f, s, j, ps[1..], MetaAfter(p, meta));
      InPhase(f, s, i, p, meta, rest, j);
      DifferBehind(Output(Before(s, i), p), Run(f, s, j, MetaAfter(p, meta), 0), OutputAll(Before(s, j), ps[1..]));
    }
  }

  lemma DifferBehind(a: string, b: string, c: string)
    requires b != c
    ensures a + b != a + c
  {
    assert (a + b)[|a|..] == b && (a + c)[|a|..] == c;
  }

  // ----- Sheets that are right as far as they go -----

  lemma {:induction false} SourceOfPrefix(ps: seq<Piece>, n: nat)
    requires n <= |ps|
    ensures SourceAll(ps[..n]) <= SourceAll(ps)
    decreases ps
  {
    if n > 0 {
      TailOfPrefix(ps, n - 1);
      SourceOfPrefix(ps[1..], n - 1);
    }
  }

  lemma {:induction false} OutputOfPrefix(ps: seq<Piece>, n: nat, prev: char)
    requires n <= |ps|
    ensures OutputAll(prev, ps[..n]) <= OutputAll(prev, ps)
    decreases ps
  {
    if n > 0 {
      TailOfPrefix(ps, n - 1);
      OutputOfPrefix(ps[1..], n - 1, Last(prev, Source(ps[0])));
    }
  }

  lemma {:induction false} PrefixIsWellFormed(ps: seq<Piece>, n: nat, meta: nat)
    requires n <= |ps| && WellFormed(ps, meta)
    ensures WellFormed(ps[..n], meta)
    decreases ps
  {
    if n > 0 {
      TailOfPrefix(ps, n - 1);
      SourceOfPrefix(ps[1..], n - 1);
      PrefixIsWellFormed(ps[1..], n - 1, MetaAfter(ps[0], meta));
    }
  }

  lemma {:induction false} PrefixIsSound(ps: seq<Piece>, n: nat, prev: char)
    requires n <= |ps| && Sound(ps, prev)
    ensures Sound(ps[..n], prev)
    decreases ps
  {
    if n > 0 {
      var last := Last(prev, Source(ps[0]));
      TailOfPrefix(ps, n - 1);
      SourceOfPrefix(ps[1..], n - 1);
      if ps[0].Comment? && Depth(ps[0].body) > 2 {
        OutputOfPrefix(ps[1..], n - 1, last);
      } else {
        PrefixIsSound(ps[1..], n - 1, last);
      }
    }
  }

  lemma {:induction false} StarPrefix(ps: seq<Piece>, meta: nat) returns (n: nat)
    requires WellFormed(ps, meta) && StartsWithStar(SourceAll(ps))
    ensures n <= |ps| && StarPiece(ps[..n])
    decreases ps
  {
    if Source(ps[0]) == [] {
      var k := StarPrefix(ps[1..], MetaAfter(ps[0], meta));
      n := k + 1;
      TailOfPrefix(ps, k);
    } else {
      n := 1;
    }
  }

  lemma {:induction false} FaultyPrefix(ps: seq<Piece>, prev: char, meta: nat) returns (n: nat)
    requires WellFormed(ps, meta) && !Sound(ps, prev)
    ensures n <= |ps| && FaultyEnd(ps[..n], prev)
    decreases ps
  {
    var p, more, last := ps[0], ps[1..], Last(prev, Source(ps[0]));
    if p.Comment? && Leaks(p.body) {
      n := 1;
    } else if p.Comment? && Depth(p.body) > 2 {
      n := |ps|;
      assert ps[..n] == ps;
    } else if p.Comment? && StartsWithStar(SourceAll(more)) {
      var k := StarPrefix(more, meta);
      n := k + 1;
      TailOfPrefix(ps, k);
    } else {
      var k := FaultyPrefix(more, last, MetaAfter(p, meta));
      n := k + 1;
      TailOfPrefix(ps, k);
      SourceOfPrefix(more, k);
    }
  }

  /** The first `n` pieces are stripped to what is meant. */
  predicate RightUpTo(ps: seq<Piece>, n: nat)
    requires n <= |ps|
  {
    Strip(SourceAll(ps[..n])) == OutputAll('\0', ps[..n])
  }

  /** A sheet is right as far as it goes, after every piece, exactly when its comments are sound. */
  lemma RightThroughoutExactly(ps: seq<Piece>)
    requires WellFormed(ps, 0)
    ensures (forall n :: 0 <= n <= |ps| ==> RightUpTo(ps, n)) <==> Sound(ps, '\0')
  {
    if Sound(ps, '\0') {
      forall n | 0 <= n <= |ps| ensures RightUpTo(ps, n) {
        PrefixIsWellFormed(ps, n, 0);
        PrefixIsSound(ps, n, '\0');
        StripMeaning(ps[..n]);
      }
    } else {
      var n := FaultyPrefix(ps, '\0', 0);
      PrefixIsWellFormed(ps, n, 0);
      var s := SourceAll(ps[..n]);
      assert s[0..] == s;
      FaultyEndShows(StepOf(s), s, 0, ps[..n], 0);
      assert !RightUpTo(ps, n);
    }
  }

  // ----- Right by accident -----

  /** A text that leaks out of a comment as it is, and a comment behind which everything is lost. */
  predicate Accidental(x: string, deep: string) {
    && x != [] && x[0] != '*' && PlainText(0, x) && !HasPair(x + "*", '/', '*') && !HasPair(x, '*', '/')
    && Fits(Comment(deep), 0) && !Leaks(deep) && Depth(deep) > 2
  }

  function Accident(x: string, deep: string): seq<Piece> {
    [Comment("/" + x), Text(x + "*/"), Comment(deep), Text(x + "*/")]
  }

  lemma AccidentTails(x: string, deep: string)
    ensures var ps, t := Accident(x, deep), x + "*/";
            && ps[1..] == [Text(t), Comment(deep), Text(t)] && ps[1..][1..] == [Comment(deep), Text(t)]
            && ps[1..][1..][1..] == [Text(t)] && ps[1..][1..][1..][1..] == []
            && SourceAll([Text(t)]) == t && SourceAll([Comment(deep), Text(t)]) == Source(Comment(deep)) + t
            && SourceAll([Text(t), Comment(deep), Text(t)]) == t + (Source(Comment(deep)) + t)
  {
    var t := x + "*/";
    assert [Text(t)][1..] == [] && [Comment(deep), Text(t)][1..] == [Text(t)];
    assert [Text(t), Comment(deep), Text(t)][1..] == [Comment(deep), Text(t)];
    assert t + [] == t;
  }

  lemma AccidentPieces(x: string, deep: string)
    requires Accidental(x, deep)
    ensures Fits(Comment("/" + x), 0) && Leaks("/" + x) && Fits(Text(x + "*/"), 0)
  {
    var t, b := x + "*/", "/" + x + "*";
    forall i | 0 <= i < |t| - 1 ensures !(t[i] == '/' && t[i + 1] == '*') {
      if i < |x| {
        assert t[i] == (x + "*")[i] && t[i + 1] == (x + "*")[i + 1];
      }
    }
    forall i | 0 <= i < |"/" + x| - 1 ensures !(("/" + x)[i] == '*' && ("/" + x)[i + 1] == '/') {
      if i > 0 {
        assert ("/" + x)[i] == x[i - 1] && ("/" + x)[i + 1] == x[i];
      }
    }
    assert b[1] == (x + "*")[0] && b[2] == (x + "*")[1];
  }

  lemma AccidentIsWellFormed(x: string, deep: string)
    requires Accidental(x, deep)
    ensures WellFormed(Accident(x, deep), 0) && !Sound(Accident(x, deep), '\0')
  {
    var ps := Accident(x, deep);
    AccidentTails(x, deep);
    AccidentPieces(x, deep);
    assert WellFormed(ps[1..][1..][1..], 0);
    assert Source(Comment(deep))[0] == '/';
    assert WellFormed(ps[1..][1..], 0);
    assert WellFormed(ps[1..], 0);
  }

  lemma LeakedIsText(s: string, x: string, rest: string, j: nat)
    requires x != [] && PlainText(0, x) && !HasPair(x + "*", '/', '*') && x[0] != '*' && j == |x| + 5
    requires s == "/*/" + ((x + "*/") + rest) && !StartsWithStar(rest)
    ensures 5 <= j <= |s| && s[3..j] == x + "*/" && s[j..] == rest
    ensures s[0] == '/' && s[1] == '*' && EndsEarly(s, 2) && Before(s, j) == '/'
    ensures forall k :: 3 <= k < j ==> PlainAt(0, s[k]) && !(s[k] == '/' && After(s, k) == '*')
  {
    var t := (x + "*/") + rest;
    forall k | 3 <= k < j ensures PlainAt(0, s[k]) && !(s[k] == '/' && After(s, k) == '*') {
      assert s[k] == t[k - 3];
      if k + 1 < |s| {
        assert s[k + 1] == t[k - 2];
      }
      if k < j - 2 {
        assert t[k - 3] == (x + "*")[k - 3] && t[k - 2] == (x + "*")[k - 2];
      }
    }
  }

  lemma LeakedRun(f: Stepper, s: string, j: nat)
    requires Follows(f, s)
    requires 5 <= j <= |s| && s[0] == '/' && s[1] == '*' && EndsEarly(s, 2)
    requires forall k :: 3 <= k < j ==> PlainAt(0, s[k]) && !(s[k] == '/' && After(s, k) == '*')
    ensures Run(f, s, 0, 0, 0) == Squeeze('/', s[3..j]) + Run(f, s, j, 0, 0)
  {
    OpenRun(f, s, 0, 0);
    EndEarly(f, s, 2, 0);
    TextSegment(f, s, 3, j, 0);
  }

  lemma LeakingSource(x: string, rest: string)
    ensures Source(Comment("/" + x)) + rest == "/*/" + ((x + "*/") + rest)
  {
  }

  lemma LeakedText(f: Stepper, s: string, x: string, rest: string, j: nat)
    requires Follows(f, s)
    requires x != [] && PlainText(0, x) && !HasPair(x + "*", '/', '*') && x[0] != '*' && j == |x| + 5
    requires s == "/*/" + ((x + "*/") + rest) && !StartsWithStar(rest)
    ensures j <= |s| && Run(f, s, 0, 0, 0) == Squeeze('/', x + "*/") + Run(f, s, j, 0, 0)
  {
    LeakedIsText(s, x, rest, j);
    LeakedRun(f, s, j);
  }

  lemma AccidentRuns(f: Stepper, s: string, j: nat, t: string, deep: string)
    requires Follows(f, s)
    requires Fits(Text(t), 0) && Fits(Comment(deep), 0) && !Leaks(deep) && Depth(deep) > 2
    requires j <= |s| && s[j..] == t + (Source(Comment(deep)) + t)
    ensures Run(f, s, j, 0, 0) == Squeeze(Before(s, j), t)
  {
    var c, k := Comment(deep), j + |t|;
    assert (Source(c) + t)[0] == '/';
    PieceText(f, s, j, Text(t), 0, Source(c) + t);
    PieceAt(s, j, Text(t), Source(c) + t, k);
    DeepRun(f, s, k, deep, t, k + |Source(c)|);
  }

  lemma DeepRun(f: Stepper, s: string, i: nat, deep: string, rest: string, j: nat)
    requires Follows(f, s)
    requires i <= |s| && s[i..] == Source(Comment(deep)) + rest && j == i + |Source(Comment(deep))|
    requires Fits(Comment(deep), 0) && !Leaks(deep) && Depth(deep) > 2
    ensures Run(f, s, i, 0, 0) == []
  {
    PieceAt(s, i, Comment(deep), rest, j);
    PieceComment(f, s, i, Comment(deep), 0, rest, j);
    Stuck(f, s, j, 0, AfterClose(s, j, Depth(deep)));
  }

  lemma AccidentOutput(x: string, deep: string)
    ensures OutputAll('\0', Accident(x, deep)) == Squeeze('/', x + "*/") + Squeeze('/', x + "*/")
  {
    var ps, t := Accident(x, deep), x + "*/";
    AccidentTails(x, deep);
    var q := Squeeze('/', t);
    assert OutputAll('/', ps[1..][1..][1..]) == q + [] == q;
    assert OutputAll('/', ps[1..][1..]) == [] + q == q;
    assert OutputAll('/', ps[1..]) == q + q;
  }

  /** Looking at the whole sheet alone is not enough: a sheet can come out right by accident, when what
      leaks out of one comment makes up for what is lost behind another. */
  lemma LeakAndLossCancel(x: string, deep: string)
    requires Accidental(x, deep)
    ensures var ps := Accident(x, deep);
            WellFormed(ps, 0) && !Sound(ps, '\0') && Strip(SourceAll(ps)) == OutputAll('\0', ps)
  {
    var ps, t := Accident(x, deep), x + "*/";
    var s := SourceAll(ps);
    AccidentIsWellFormed(x, deep);
    AccidentPieces(x, deep);
    AccidentTails(x, deep);
    var rest, j := t + (Source(Comment(deep)) + t), |x| + 5;
    LeakingSource(x, rest);
    LeakedIsText(s, x, rest, j);
    LeakedText(StepOf(s), s, x, rest, j);
    AccidentRuns(StepOf(s), s, j, t, deep);
    AccidentOutput(x, deep);
  }

  /** Such texts exist. */
  lemma AccidentExists()
    ensures Accidental("a", "x/*x/*")
  {
    var b := "x/*x/*" + "*";
    assert Openers(b, 4, 6) == 1 + Openers(b, 5, 6);
    assert Openers(b, 1, 6) == 1 + Openers(b, 2, 6) && Openers(b, 2, 6) == Openers(b, 3, 6) == Openers(b, 4, 6);
  }
}
