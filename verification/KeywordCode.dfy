/** The generated lookup code: what `printSubTreeAsC` prints, line by line, and what running the
    printed lines does. */
module KeywordCode {
  import opened KeywordTrie
  import opened KeywordCompare
  import opened KeywordWeights
  import Sequences

  // ----- The printed code -----

  /** One printed statement.  `Accept` is the block that returns a token when the character
      after the first `length` is not an identifier part; `If` and `ElseIf` open a branch and
      `End` is the brace that closes a chain of branches. */
  datatype Line =
    | Accept(length: nat, name: Text, token: Token)
    | If(base: nat, chars: Text)
    | ElseIf(base: nat, chars: Text)
    | End

  /** Where a child's test starts and the characters it compares: an edge of three characters
      is widened by the one before it, which makes a four character compare. */
  function TestBase(t: Trie, rootIndex: nat): nat {
    if rootIndex > 0 && |t.prefix| == 3 then rootIndex - 1 else rootIndex
  }

  function TestChars(t: Trie, rootIndex: nat): Text
    requires rootIndex <= |t.fullPrefix|
  {
    if rootIndex > 0 && |t.prefix| == 3 then [t.fullPrefix[rootIndex - 1]] + t.prefix else t.prefix
  }

  function Emit(t: Trie): seq<Line>
    requires Annotated(t)
    decreases t
  {
    (if t.value.Some? then [Accept(|t.fullPrefix|, t.fullPrefix, t.value.value)] else [])
    + EmitArms(t.keys, 0, t.fullPrefix)
  }

  ghost predicate AnnotatedAmong(keys: seq<Trie>, root: Text) {
    forall i :: 0 <= i < |keys| ==> keys[i].fullPrefix == root + keys[i].prefix && Annotated(keys[i])
  }

  /** The chain of branches from child `i` on. */
  function EmitArms(keys: seq<Trie>, i: nat, root: Text): seq<Line>
    requires i <= |keys| && AnnotatedAmong(keys, root)
    decreases keys, |keys| - i
  {
    if i == |keys| then []
    else [ArmLine(keys[i], i, root)] + Emit(keys[i]) + (if i + 1 == |keys| then [End] else [])
         + EmitArms(keys, i + 1, root)
  }

  function ArmLine(t: Trie, i: nat, root: Text): Line
    requires |root| <= |t.fullPrefix|
  {
    var base, chars := TestBase(t, |root|), TestChars(t, |root|);
    if i == 0 then If(base, chars) else ElseIf(base, chars)
  }

  function MaxLength(t: Trie): nat
    decreases t
  {
    MaxLengthAmong(t.keys, |t.fullPrefix|)
  }

  function MaxLengthAmong(keys: seq<Trie>, max: nat): nat
    decreases keys
  {
    if keys == [] then max
    else var l := MaxLength(keys[0]);
         MaxLengthAmong(keys[1..], if l > max then l else max)
  }

  function MaxTokenLength(t: Trie): nat {
    MaxLength(t) + 1
  }

  // ----- Running the printed code -----

  /** The lexer that the code runs in: `code` are the characters from the current position up
      to the end of the source, `test` evaluates a printed comparison. */
  datatype Lexer = Lexer(code: Text, isIdentPart: CodeUnit -> bool, test: (nat, Text) -> Verdict)

  /** The lexer for one preprocessor configuration and character type. */
  function LexerFor(cpu: Cpu, wide: bool, isIdentPart: CodeUnit -> bool, code: Text): Lexer {
    Lexer(code, isIdentPart, (i: nat, chars: Text) => Compare(cpu, wide, code, i, chars))
  }

  /** `Matched`: the token returned, the characters consumed and the identifier's name. */
  datatype Outcome = Matched(token: Token, consumed: nat, name: Text) | Ident | ReadPastEnd | DoesNotCompile

  /** The lines from the next `else if` or closing brace of the current chain on. */
  function NextArm(lines: seq<Line>, depth: nat): (r: seq<Line>)
    ensures |r| <= |lines| && (r != [] ==> r[0].ElseIf? || r[0].End?)
  {
    if lines == [] then []
    else match lines[0]
      case Accept(_, _, _) => NextArm(lines[1..], depth)
      case If(_, _) => NextArm(lines[1..], depth + 1)
      case ElseIf(_, _) => if depth == 0 then lines else NextArm(lines[1..], depth)
      case End => if depth == 0 then lines else NextArm(lines[1..], depth - 1)
  }

  /** The lines after the current chain of branches. */
  function AfterEnd(lines: seq<Line>): (r: seq<Line>)
    ensures |r| <= |lines|
    decreases |lines|
  {
    var q := NextArm(lines, 0);
    if q == [] then [] else if q[0].End? then q[1..] else AfterEnd(q[1..])
  }

  function Exec(lines: seq<Line>, e: Lexer): Outcome
    decreases |lines|, 1
  {
    if lines == [] then Ident
    else match lines[0]
      case Accept(n, name, token) =>
        if n >= |e.code| then ReadPastEnd
        else if !e.isIdentPart(e.code[n]) then Matched(token, n, name)
        else Exec(lines[1..], e)
      case If(_, _) => Choose(lines, e)
      case ElseIf(_, _) => Exec(AfterEnd(lines[1..]), e)
      case End => Exec(lines[1..], e)
  }

  /** Evaluates the test on the first line and takes the branch or goes on to the next one. */
  function Choose(lines: seq<Line>, e: Lexer): Outcome
    requires lines != [] && (lines[0].If? || lines[0].ElseIf?)
    decreases |lines|, 0
  {
    match e.test(lines[0].base, lines[0].chars)
    case Holds => Exec(lines[1..], e)
    case Fails =>
      var q := NextArm(lines[1..], 0);
      if q == [] then Ident else if q[0].End? then Exec(q[1..], e) else Choose(q, e)
    case OutOfRange => ReadPastEnd
    case NoMacro => DoesNotCompile
  }

  // ----- The lines nest as the trie does -----

  /** What a test leads to, given where its branch and the next one lead. */
  function Tested(v: Verdict, taken: Outcome, next: Outcome): Outcome {
    match v
    case Holds => taken
    case Fails => next
    case OutOfRange => ReadPastEnd
    case NoMacro => DoesNotCompile
  }

  /** What a subtree's code does, read off the subtree. */
  function Run(t: Trie, e: Lexer): Outcome
    requires Annotated(t)
    decreases t
  {
    if t.value.Some? && |t.fullPrefix| >= |e.code| then ReadPastEnd
    else if t.value.Some? && !e.isIdentPart(e.code[|t.fullPrefix|]) then
      Matched(t.value.value, |t.fullPrefix|, t.fullPrefix)
    else RunArms(t.keys, 0, t.fullPrefix, e)
  }

  function RunArms(keys: seq<Trie>, i: nat, root: Text, e: Lexer): Outcome
    requires i <= |keys| && AnnotatedAmong(keys, root)
    decreases keys, |keys| - i
  {
    if i == |keys| then Ident
    else Tested(e.test(TestBase(keys[i], |root|), TestChars(keys[i], |root|)),
                Run(keys[i], e), RunArms(keys, i + 1, root, e))
  }

  /** A piece of code that falls through is followed by the lines after it. */
  function AndThen(r: Outcome, rest: seq<Line>, e: Lexer): Outcome {
    if r == Ident then Exec(rest, e) else r
  }

  /** The lines after child `i`: a closing brace or the next branch, then `rest`. */
  function AfterArm(keys: seq<Trie>, i: nat, root: Text, rest: seq<Line>): seq<Line>
    requires i < |keys| && AnnotatedAmong(keys, root)
  {
    if i + 1 == |keys| then [End] + rest else EmitArms(keys, i + 1, root) + rest
  }

  lemma ArmsSplit(keys: seq<Trie>, i: nat, root: Text, rest: seq<Line>)
    requires i < |keys| && AnnotatedAmong(keys, root)
    ensures var lines := EmitArms(keys, i, root) + rest;
            && lines != [] && lines[0] == ArmLine(keys[i], i, root)
            && lines[1..] == Emit(keys[i]) + AfterArm(keys, i, root, rest)
  {
    var end, others := if i + 1 == |keys| then [End] else [], EmitArms(keys, i + 1, root);
    Sequences.HeadAndTail(ArmLine(keys[i], i, root), Emit(keys[i]), end, others, rest);
    assert end + others + rest == AfterArm(keys, i, root, rest);
  }

  lemma {:induction false} SkipSubtree(t: Trie, rest: seq<Line>, depth: nat)
    requires Annotated(t)
    ensures NextArm(Emit(t) + rest, depth) == NextArm(rest, depth)
    decreases t, 0
  {
    var arms := EmitArms(t.keys, 0, t.fullPrefix);
    if t.value.Some? {
      assert (Emit(t) + rest)[1..] == arms + rest;
    } else {
      assert Emit(t) + rest == arms + rest;
    }
    if t.keys == [] {
      assert arms + rest == rest;
    } else {
      ArmsSplit(t.keys, 0, t.fullPrefix, rest);
      SkipArm(t.keys, 0, t.fullPrefix, rest, depth);
    }
  }

  /** Skipping child `i` and what follows it closes one level. */
  lemma {:induction false} SkipArm(keys: seq<Trie>, i: nat, root: Text, rest: seq<Line>, depth: nat)
    requires i < |keys| && AnnotatedAmong(keys, root)
    ensures NextArm(Emit(keys[i]) + AfterArm(keys, i, root, rest), depth + 1) == NextArm(rest, depth)
    decreases keys, |keys| - i
  {
    var after := AfterArm(keys, i, root, rest);
    SkipSubtree(keys[i], after, depth + 1);
    if i + 1 == |keys| {
      assert after[1..] == rest;
    } else {
      ArmsSplit(keys, i + 1, root, rest);
      SkipArm(keys, i + 1, root, rest, depth);
    }
  }

  /** From the end of a taken branch, execution continues after the chain. */
  lemma {:induction false} LeaveChain(keys: seq<Trie>, i: nat, root: Text, rest: seq<Line>)
    requires i < |keys| && AnnotatedAmong(keys, root)
    ensures AfterEnd(Emit(keys[i]) + AfterArm(keys, i, root, rest)) == rest
    decreases |keys| - i
  {
    var after := AfterArm(keys, i, root, rest);
    SkipSubtree(keys[i], after, 0);
    if i + 1 == |keys| {
      assert after[1..] == rest;
    } else {
      ArmsSplit(keys, i + 1, root, rest);
      LeaveChain(keys, i + 1, root, rest);
    }
  }

  /** Running the printed lines of a subtree, then `rest`, is running the subtree, then `rest`. */
  lemma {:induction false} ExecSubtree(t: Trie, rest: seq<Line>, e: Lexer)
    requires Annotated(t)
    ensures Exec(Emit(t) + rest, e) == AndThen(Run(t, e), rest, e)
    decreases t, 0
  {
    var arms := EmitArms(t.keys, 0, t.fullPrefix);
    if t.value.Some? {
      assert (Emit(t) + rest)[0] == Accept(|t.fullPrefix|, t.fullPrefix, t.value.value);
      assert (Emit(t) + rest)[1..] == arms + rest;
    } else {
      assert Emit(t) + rest == arms + rest;
    }
    if t.keys == [] {
      assert arms + rest == rest;
    } else {
      ArmsSplit(t.keys, 0, t.fullPrefix, rest);
      ChooseArm(t.keys, 0, t.fullPrefix, rest, arms + rest, e);
      assert Exec(arms + rest, e) == Choose(arms + rest, e);
    }
  }

  lemma ExecAfterArm(keys: seq<Trie>, i: nat, root: Text, rest: seq<Line>, e: Lexer)
    requires i < |keys| && AnnotatedAmong(keys, root)
    ensures Exec(AfterArm(keys, i, root, rest), e) == Exec(rest, e)
  {
    var after := AfterArm(keys, i, root, rest);
    if i + 1 == |keys| {
      assert after[1..] == rest;
    } else {
      ArmsSplit(keys, i + 1, root, rest);
      LeaveChain(keys, i + 1, root, rest);
    }
  }

  /** A failed test leads to the lines after its branch. */
  lemma SkipToNextArm(keys: seq<Trie>, i: nat, root: Text, rest: seq<Line>)
    requires i < |keys| && AnnotatedAmong(keys, root)
    ensures var after := AfterArm(keys, i, root, rest);
            && NextArm(Emit(keys[i]) + after, 0) == after && after != []
            && if i + 1 == |keys| then after[0].End? && after[1..] == rest else after[0].ElseIf?
  {
    SkipSubtree(keys[i], AfterArm(keys, i, root, rest), 0);
    if i + 1 < |keys| {
      ArmsSplit(keys, i + 1, root, rest);
    }
  }

  lemma {:induction false} TakeArm(keys: seq<Trie>, i: nat, root: Text, rest: seq<Line>, after: seq<Line>, e: Lexer)
    requires i < |keys| && AnnotatedAmong(keys, root) && after == AfterArm(keys, i, root, rest)
    ensures Exec(Emit(keys[i]) + after, e) == AndThen(Run(keys[i], e), rest, e)
    decreases keys, |keys| - i, 0
  {
    ExecSubtree(keys[i], after, e);
    ExecAfterArm(keys, i, root, rest, e);
  }

  lemma ChooseStep(
    lines: seq<Line>, tail: seq<Line>, after: seq<Line>, rest: seq<Line>, taken: Outcome, next: Outcome, e: Lexer)
    requires lines != [] && (lines[0].If? || lines[0].ElseIf?) && lines[1..] == tail
    requires Exec(tail, e) == AndThen(taken, rest, e)
    requires NextArm(tail, 0) == after && after != []
    requires if after[0].End? then next == Ident && after[1..] == rest
             else Choose(after, e) == AndThen(next, rest, e)
    ensures Choose(lines, e) == AndThen(Tested(e.test(lines[0].base, lines[0].chars), taken, next), rest, e)
  {
  }

  /** The lines of child `i` behind the first, and what comes after them. */
  lemma ArmLines(keys: seq<Trie>, i: nat, root: Text, rest: seq<Line>, lines: seq<Line>)
    returns (tail: seq<Line>, after: seq<Line>)
    requires i < |keys| && AnnotatedAmong(keys, root) && lines == EmitArms(keys, i, root) + rest
    ensures after == AfterArm(keys, i, root, rest) && tail == Emit(keys[i]) + after
    ensures lines != [] && lines[0] == ArmLine(keys[i], i, root) && lines[1..] == tail
    ensures NextArm(tail, 0) == after && after != []
    ensures if i + 1 == |keys| then after[0].End? && after[1..] == rest
            else after == EmitArms(keys, i + 1, root) + rest && after[0].ElseIf?
  {
    after := AfterArm(keys, i, root, rest);
    tail := Emit(keys[i]) + after;
    ArmsSplit(keys, i, root, rest);
    SkipToNextArm(keys, i, root, rest);
  }

  /** The test of the last child: its branch is taken or the chain is left. */
  lemma LastDecides(
    keys: seq<Trie>, i: nat, root: Text, rest: seq<Line>, lines: seq<Line>, tail: seq<Line>, after: seq<Line>, e: Lexer)
    requires i + 1 == |keys| && AnnotatedAmong(keys, root)
    requires lines != [] && lines[0] == ArmLine(keys[i], i, root) && lines[1..] == tail
    requires Exec(tail, e) == AndThen(Run(keys[i], e), rest, e)
    requires NextArm(tail, 0) == after && after != [] && after[0].End? && after[1..] == rest
    ensures Choose(lines, e) == AndThen(RunArms(keys, i, root, e), rest, e)
  {
    ChooseStep(lines, tail, after, rest, Run(keys[i], e), Ident, e);
  }

  /** The test of another child decides between its branch and the later ones. */
  lemma EarlierDecides(
    keys: seq<Trie>, i: nat, root: Text, rest: seq<Line>, lines: seq<Line>, tail: seq<Line>, after: seq<Line>, e: Lexer)
    requires i + 1 < |keys| && AnnotatedAmong(keys, root)
    requires lines != [] && lines[0] == ArmLine(keys[i], i, root) && lines[1..] == tail
    requires Exec(tail, e) == AndThen(Run(keys[i], e), rest, e)
    requires NextArm(tail, 0) == after && after != [] && after[0].ElseIf?
    requires Choose(after, e) == AndThen(RunArms(keys, i + 1, root, e), rest, e)
    ensures Choose(lines, e) == AndThen(RunArms(keys, i, root, e), rest, e)
  {
    ChooseStep(lines, tail, after, rest, Run(keys[i], e), RunArms(keys, i + 1, root, e), e);
  }

  lemma {:induction false} ChooseArm(keys: seq<Trie>, i: nat, root: Text, rest: seq<Line>, lines: seq<Line>, e: Lexer)
    requires i < |keys| && AnnotatedAmong(keys, root) && lines == EmitArms(keys, i, root) + rest
    ensures lines != [] && (lines[0].If? || lines[0].ElseIf?)
    ensures Choose(lines, e) == AndThen(RunArms(keys, i, root, e), rest, e)
    decreases keys, |keys| - i, 1
  {
    var tail, after := ArmLines(keys, i, root, rest, lines);
    TakeArm(keys, i, root, rest, after, e);
    if i + 1 == |keys| {
      LastDecides(keys, i, root, rest, lines, tail, after, e);
    } else {
      ChooseArm(keys, i + 1, root, rest, after, e);
      EarlierDecides(keys, i, root, rest, lines, tail, after, e);
    }
  }
}
