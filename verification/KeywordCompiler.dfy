/** The generator as a compiler: for every keyword table, the printed code looks keywords up
    correctly in every buffer, in every configuration, and reads nothing out of range. */
module KeywordCompiler {
  import opened Wrappers
  import opened KeywordTrie
  import opened KeywordCompress
  import opened KeywordWeights
  import opened KeywordCompare
  import opened KeywordCode
  import opened KeywordEdges

  /** The driver: build, compress in place, fill out. */
  function Generate(entries: seq<Entry>, weights: Weights): Trie {
    FillOut(Compress(Build(entries)), [], weights)
  }

  // ----- Reference: scanning for the shortest keyword that ends an identifier -----

  /** Looks for the shortest `code[..n]`, n >= i, that has a value in `t` (below its first `base`
      characters) and is not followed by an identifier part. */
  function Scan(t: Trie, base: nat, i: nat, e: Lexer): Outcome
    requires base <= i
    decreases |e.code| - i
  {
    if i >= |e.code| then Ident
    else
      var v := Find(t, e.code[base..i]);
      if v.Some? && !e.isIdentPart(e.code[i]) then Matched(v.value, i, e.code[..i])
      else Scan(t, base, i + 1, e)
  }

  /** The keyword `code[..n]` ends where no identifier part follows. */
  ghost predicate StopsAt(table: map<Text, Token>, e: Lexer, n: nat) {
    n < |e.code| && e.code[..n] in table && !e.isIdentPart(e.code[n])
  }

  /** `r` is what the table says about the shortest keyword that stops. */
  ghost predicate IsShortestStop(table: map<Text, Token>, e: Lexer, r: Outcome) {
    match r
    case Matched(token, n, name) =>
      && StopsAt(table, e, n) && name == e.code[..n] && token == table[name]
      && forall m :: 0 <= m < n ==> !StopsAt(table, e, m)
    case Ident => forall m: nat :: !StopsAt(table, e, m)
    case _ => false
  }

  lemma {:induction false} ScanFindsShortest(t: Trie, table: map<Text, Token>, i: nat, e: Lexer)
    requires forall s :: Find(t, s) == Lookup(table, s)
    requires forall m :: 0 <= m < i ==> !StopsAt(table, e, m)
    ensures IsShortestStop(table, e, Scan(t, 0, i, e))
    decreases |e.code| - i
  {
    if i < |e.code| {
      assert e.code[0..i] == e.code[..i];
      if !StopsAt(table, e, i) {
        ScanFindsShortest(t, table, i + 1, e);
      }
    }
  }

  // ----- Scanning follows the trie -----

  /** The characters from `n` on start with the edge to `k`. */
  predicate Ahead(k: Trie, code: Text, n: nat) {
    n + |k.prefix| <= |code| && code[n..n + |k.prefix|] == k.prefix
  }

  /** Below a matching child, scanning the node is scanning the child. */
  lemma {:induction false} ScanChild(t: Trie, k: nat, base: nat, below: nat, i: nat, e: Lexer)
    requires WellFormed(t) && k < |t.keys| && Ahead(t.keys[k], e.code, base)
    requires below == base + |t.keys[k].prefix| <= i
    ensures Scan(t, base, i, e) == Scan(t.keys[k], below, i, e)
    decreases |e.code| - i
  {
    if i < |e.code| {
      var s, edge := e.code[base..i], t.keys[k].prefix;
      assert s[..|edge|] == e.code[base..below];
      FindAmongHit(t.keys, k, s);
      assert s[|edge|..] == e.code[below..i];
      ScanChild(t, k, base, below, i + 1, e);
    }
  }

  /** Inside the edge to a matching child nothing has a value. */
  lemma {:induction false} ScanEdge(t: Trie, k: nat, base: nat, below: nat, i: nat, e: Lexer)
    requires WellFormed(t) && k < |t.keys| && Ahead(t.keys[k], e.code, base)
    requires below == base + |t.keys[k].prefix| && base < i <= below
    ensures Scan(t, base, i, e) == Scan(t.keys[k], below, below, e)
    decreases |e.code| - i
  {
    if i == below {
      ScanChild(t, k, base, below, i, e);
    } else {
      var s, edge := e.code[base..i], t.keys[k].prefix;
      assert s[0] == e.code[base..below][0] == edge[0];
      FindAmongAt(t.keys, k, s);
      assert FindWhole(t.keys[k], s) == None;
      ScanEdge(t, k, base, below, i + 1, e);
    }
  }

  /** When no child matches, nothing longer has a value. */
  lemma {:induction false} ScanNothing(t: Trie, base: nat, i: nat, e: Lexer)
    requires base < i && base <= |e.code|
    requires forall k :: 0 <= k < |t.keys| ==> !Ahead(t.keys[k], e.code, base)
    ensures Scan(t, base, i, e) == Ident
    decreases |e.code| - i
  {
    if i < |e.code| {
      var s := e.code[base..i];
      forall k | 0 <= k < |t.keys| ensures !(t.keys[k].prefix <= s) {
        var n := |t.keys[k].prefix|;
        assert n <= |s| ==> s[..n] == e.code[base..base + n];
        assert !Ahead(t.keys[k], e.code, base);
      }
      FindAmongMiss(t.keys, s);
      ScanNothing(t, base, i + 1, e);
    }
  }

  // ----- Tests -----

  /** Every edge below `t` has a macro and literals that stand for themselves. */
  ghost predicate Testable(t: Trie)
    decreases t
  {
    forall i :: 0 <= i < |t.keys| ==>
      |t.keys[i].prefix| <= 8 && Literals(t.keys[i].prefix) && Testable(t.keys[i])
  }

  /** Tests compare characters one by one. */
  ghost predicate TestsCharacters(e: Lexer) {
    forall i: nat, chars: Text {:trigger e.test(i, chars)} ::
      1 <= |chars| <= 8 && Literals(chars) && i + |chars| <= |e.code| ==>
      e.test(i, chars) == Decide(e.code[i..i + |chars|] == chars)
  }

  /** In every configuration and for both character types. */
  lemma ConfigurationTestsCharacters(cpu: Cpu, wide: bool, isIdentPart: CodeUnit -> bool, code: Text)
    requires Fits(wide, code)
    ensures TestsCharacters(LexerFor(cpu, wide, isIdentPart, code))
  {
    forall i: nat, chars: Text | 1 <= |chars| <= 8 && Literals(chars) && i + |chars| <= |code|
      ensures Compare(cpu, wide, code, i, chars) == Decide(code[i..i + |chars|] == chars)
    {
      CompareMeaning(cpu, wide, code, i, chars);
    }
  }

  /** A printed test asks whether the buffer starts with the child's full prefix, given that it
      starts with the parent's: the character that widens a three character edge is known. */
  lemma TestMeaning(t: Trie, root: Text, e: Lexer)
    requires TestsCharacters(e)
    requires t.fullPrefix == root + t.prefix && root <= e.code && |t.fullPrefix| <= |e.code|
    requires 1 <= |t.prefix| <= 8 && Literals(t.prefix) && Literals(root)
    ensures e.test(TestBase(t, |root|), TestChars(t, |root|)) == Decide(Ahead(t, e.code, |root|))
  {
    var base, chars := TestBase(t, |root|), TestChars(t, |root|);
    var s, edge := e.code[base..base + |chars|], e.code[|root|..|t.fullPrefix|];
    assert e.test(base, chars) == Decide(s == chars);
    if base < |root| {
      assert s == [e.code[base]] + edge && chars == [e.code[base]] + t.prefix;
      assert s[1..] == edge && chars[1..] == t.prefix;
    }
  }

  // ----- Reading stays below maxTokenLength -----

  lemma {:induction false} MaxLengthAmongBounds(keys: seq<Trie>, max: nat)
    ensures max <= MaxLengthAmong(keys, max)
    ensures forall i :: 0 <= i < |keys| ==> MaxLength(keys[i]) <= MaxLengthAmong(keys, max)
    decreases keys
  {
    if keys != [] {
      var l := MaxLength(keys[0]);
      MaxLengthAmongBounds(keys[1..], if l > max then l else max);
    }
  }

  lemma MaxLengthBounds(t: Trie)
    ensures |t.fullPrefix| <= MaxLength(t)
    ensures forall i :: 0 <= i < |t.keys| ==> MaxLength(t.keys[i]) <= MaxLength(t)
  {
    MaxLengthAmongBounds(t.keys, |t.fullPrefix|);
  }

  lemma {:induction false} FoundWithinMaxLength(t: Trie, s: Text)
    requires Annotated(t) && WellFormed(t) && Find(t, s).Some?
    ensures |t.fullPrefix| + |s| <= MaxLength(t)
    decreases t
  {
    MaxLengthBounds(t);
    if s != [] {
      if k :| 0 <= k < |t.keys| && t.keys[k].prefix <= s {
        FindAmongHit(t.keys, k, s);
        FoundWithinMaxLength(t.keys[k], s[|t.keys[k].prefix|..]);
      } else {
        FindAmongMiss(t.keys, s);
      }
    }
  }

  lemma {:induction false} MaxLengthAmongAttained(keys: seq<Trie>, max: nat) returns (i: nat)
    ensures i <= |keys| && MaxLengthAmong(keys, max) == if i == |keys| then max else MaxLength(keys[i])
    decreases |keys|
  {
    if keys == [] {
      i := 0;
    } else {
      var l := MaxLength(keys[0]);
      i := MaxLengthAmongAttained(keys[1..], if l > max then l else max);
      i := if i < |keys[1..]| then i + 1 else if l > max then 0 else |keys|;
    }
  }

  /** The longest full prefix is a keyword. */
  lemma {:induction false} LongestWord(t: Trie) returns (s: Text)
    requires Annotated(t) && Dense(t)
    ensures Has(t, s) && |t.fullPrefix| + |s| == MaxLength(t)
    decreases t
  {
    var i := MaxLengthAmongAttained(t.keys, |t.fullPrefix|);
    MaxLengthBounds(t);
    if i == |t.keys| && t.value.Some? {
      s := [];
    } else {
      var m := if i == |t.keys| then 0 else i;
      var rest := LongestWord(t.keys[m]);
      ChildHas(t, m, rest);
      s := t.keys[m].prefix + rest;
    }
  }

  // ----- Running a subtree is scanning it -----

  ghost predicate Ready(t: Trie, code: Text) {
    && Annotated(t) && WellFormed(t) && Testable(t) && Literals(t.fullPrefix)
    && t.fullPrefix <= code && MaxLength(t) < |code|
  }

  lemma ChildReady(t: Trie, i: nat, code: Text)
    requires Ready(t, code) && i < |t.keys|
    ensures var k := t.keys[i];
            && k.fullPrefix == t.fullPrefix + k.prefix && 1 <= |k.prefix| <= 8 && Literals(k.prefix)
            && |k.fullPrefix| == |t.fullPrefix| + |k.prefix| <= MaxLength(k) < |code|
            && (Ahead(k, code, |t.fullPrefix|) ==> Ready(k, code))
  {
    var k, n := t.keys[i], |t.fullPrefix|;
    MaxLengthBounds(t);
    MaxLengthBounds(k);
    if Ahead(k, code, n) {
      assert code[..n + |k.prefix|] == code[..n] + code[n..n + |k.prefix|];
    }
  }

  lemma ArmTested(t: Trie, i: nat, e: Lexer)
    requires TestsCharacters(e) && Ready(t, e.code) && i < |t.keys|
    ensures RunArms(t.keys, i, t.fullPrefix, e) ==
            if Ahead(t.keys[i], e.code, |t.fullPrefix|) then Run(t.keys[i], e)
            else RunArms(t.keys, i + 1, t.fullPrefix, e)
  {
    ChildReady(t, i, e.code);
    TestMeaning(t.keys[i], t.fullPrefix, e);
  }

  /** The first child, from `i` on, whose edge lies ahead. */
  function FirstAhead(keys: seq<Trie>, i: nat, code: Text, n: nat): (j: nat)
    requires i <= |keys|
    ensures i <= j <= |keys| && (j < |keys| ==> Ahead(keys[j], code, n))
    ensures forall k :: i <= k < j ==> !Ahead(keys[k], code, n)
    decreases |keys| - i
  {
    if i == |keys| || Ahead(keys[i], code, n) then i else FirstAhead(keys, i + 1, code, n)
  }

  lemma {:induction false} ArmsChoose(t: Trie, i: nat, e: Lexer)
    requires TestsCharacters(e) && Ready(t, e.code) && i <= |t.keys|
    ensures var j := FirstAhead(t.keys, i, e.code, |t.fullPrefix|);
            RunArms(t.keys, i, t.fullPrefix, e) == if j == |t.keys| then Ident else Run(t.keys[j], e)
    decreases |t.keys| - i
  {
    if i < |t.keys| {
      ArmTested(t, i, e);
      if !Ahead(t.keys[i], e.code, |t.fullPrefix|) {
        ArmsChoose(t, i + 1, e);
      }
    }
  }

  lemma RunStep(t: Trie, e: Lexer)
    requires Ready(t, e.code)
    requires RunArms(t.keys, 0, t.fullPrefix, e) == Scan(t, |t.fullPrefix|, |t.fullPrefix| + 1, e)
    ensures Run(t, e) == Scan(t, |t.fullPrefix|, |t.fullPrefix|, e)
  {
    var n := |t.fullPrefix|;
    MaxLengthBounds(t);
    assert e.code[n..n] == [] && e.code[..n] == t.fullPrefix;
  }

  lemma {:induction false} RunIsScan(t: Trie, e: Lexer)
    requires TestsCharacters(e) && Ready(t, e.code)
    ensures Run(t, e) == Scan(t, |t.fullPrefix|, |t.fullPrefix|, e)
    decreases t
  {
    var n, j := |t.fullPrefix|, FirstAhead(t.keys, 0, e.code, |t.fullPrefix|);
    ArmsChoose(t, 0, e);
    if j == |t.keys| {
      ScanNothing(t, n, n + 1, e);
    } else {
      ChildReady(t, j, e.code);
      ScanEdge(t, j, n, |t.keys[j].fullPrefix|, n + 1, e);
      RunIsScan(t.keys[j], e);
    }
    RunStep(t, e);
  }

  // ----- The generated program -----

  lemma GenerateShape(entries: seq<Entry>, weights: Weights)
    ensures var t := Generate(entries, weights);
            WellFormed(t) && Annotated(t) && Compressed(t) && t.fullPrefix == []
    ensures forall s :: Find(Generate(entries, weights), s) == Lookup(Table(entries), s)
  {
    BuildMeetsTable(entries);
    CompressMeaning(Build(entries));
    var root := Compress(Build(entries));
    FillOutShape(root, [], weights);
    FillOutCompressed(root, [], weights);
    forall s ensures Find(Generate(entries, weights), s) == Lookup(Table(entries), s) {
      FillOutMeaning(root, [], weights, s);
    }
  }

  /** The lines printed for a keyword file; what falls off their end returns IDENT. */
  function Program(entries: seq<Entry>, weights: Weights): seq<Line> {
    GenerateShape(entries, weights);
    Emit(Generate(entries, weights))
  }

  lemma {:induction false} FitLiteralsTestable(t: Trie)
    requires EdgesFit(t) && EdgesOf(t, IsLiteral)
    ensures Testable(t)
    decreases t
  {
    forall i | 0 <= i < |t.keys| ensures Testable(t.keys[i]) {
      FitLiteralsTestable(t.keys[i]);
    }
  }

  ghost predicate LiteralKeywords(table: map<Text, Token>) {
    forall k :: k in table ==> Literals(k)
  }

  // ----- Compiling -----

  /** A comparison is a character test or has a macro, and its characters can be written. */
  ghost predicate LineCompiles(line: Line) {
    line.If? || line.ElseIf? ==> 1 <= |line.chars| <= 8 && All(IsWritable, line.chars)
  }

  ghost predicate Compiles(lines: seq<Line>) {
    forall i :: 0 <= i < |lines| ==> LineCompiles(lines[i])
  }

  lemma CompilesAppend(a: seq<Line>, b: seq<Line>)
    ensures Compiles(a + b) <==> Compiles(a) && Compiles(b)
  {
    if Compiles(a + b) {
      forall i | 0 <= i < |a| ensures LineCompiles(a[i]) {
        assert (a + b)[i] == a[i];
      }
      forall i | 0 <= i < |b| ensures LineCompiles(b[i]) {
        assert (a + b)[|a| + i] == b[i];
      }
    }
  }

  /** A test is widened only by a character that can be written. */
  lemma ArmLineCompiles(t: Trie, i: nat, root: Text)
    requires t.fullPrefix == root + t.prefix && t.prefix != [] && All(IsWritable, root)
    ensures LineCompiles(ArmLine(t, i, root)) <==> |t.prefix| <= 8 && All(IsWritable, t.prefix)
  {
    var n := |root|;
    if n > 0 && |t.prefix| == 3 {
      assert t.fullPrefix[n - 1] == root[n - 1];
      AllAppend(IsWritable, [root[n - 1]], t.prefix);
    }
  }

  ghost predicate Printable(t: Trie) {
    |t.prefix| <= 8 && All(IsWritable, t.prefix) && EdgesFit(t) && EdgesOf(t, IsWritable)
  }

  lemma {:induction false} SubtreeCompiles(t: Trie)
    requires Annotated(t) && WellFormed(t) && All(IsWritable, t.fullPrefix)
    ensures Compiles(Emit(t)) <==> EdgesFit(t) && EdgesOf(t, IsWritable)
    decreases t, |t.keys| + 1
  {
    var accept := if t.value.Some? then [Accept(|t.fullPrefix|, t.fullPrefix, t.value.value)] else [];
    CompilesAppend(accept, EmitArms(t.keys, 0, t.fullPrefix));
    ArmsCompile(t, 0);
  }

  lemma {:induction false} ArmsCompile(t: Trie, i: nat)
    requires Annotated(t) && WellFormed(t) && All(IsWritable, t.fullPrefix) && i <= |t.keys|
    ensures Compiles(EmitArms(t.keys, i, t.fullPrefix)) <==> forall j :: i <= j < |t.keys| ==> Printable(t.keys[j])
    decreases t, |t.keys| - i
  {
    if i < |t.keys| {
      ArmCompiles(t, i);
      ArmsCompile(t, i + 1);
      var others := EmitArms(t.keys, i + 1, t.fullPrefix);
      CompilesAppend(Arm(t, i), others);
    }
  }

  /** The lines of child `i`, up to the next child. */
  function Arm(t: Trie, i: nat): seq<Line>
    requires Annotated(t) && i < |t.keys|
  {
    [ArmLine(t.keys[i], i, t.fullPrefix)] + Emit(t.keys[i]) + if i + 1 == |t.keys| then [End] else []
  }

  lemma {:induction false} ArmCompiles(t: Trie, i: nat)
    requires Annotated(t) && WellFormed(t) && All(IsWritable, t.fullPrefix) && i < |t.keys|
    ensures Compiles(Arm(t, i)) <==> Printable(t.keys[i])
    decreases t, 0
  {
    var child := t.keys[i];
    var head, end := [ArmLine(child, i, t.fullPrefix)], if i + 1 == |t.keys| then [End] else [];
    CompilesAppend(head + Emit(child), end);
    CompilesAppend(head, Emit(child));
    ArmLineCompiles(child, i, t.fullPrefix);
    assert Compiles(end) && (Compiles(head) <==> LineCompiles(head[0]));
    if All(IsWritable, child.prefix) {
      AllAppend(IsWritable, t.fullPrefix, child.prefix);
      SubtreeCompiles(child);
    }
  }

  /** The first `j` characters of the keyword `s` are a keyword, or keywords part there. */
  ghost predicate TableParts(table: map<Text, Token>, s: Text, j: nat) {
    j < |s| && (s[..j] in table || exists w :: w in table && Diverge(w, s, j))
  }

  ghost predicate TablePartsWithin(table: map<Text, Token>, s: Text, a: nat) {
    exists j: nat :: a < j <= a + 8 && TableParts(table, s, j)
  }

  /** No keyword has eight successive characters before its last at which no keyword ends and
      no keywords part. */
  ghost predicate NoLongGaps(table: map<Text, Token>) {
    forall s, a: nat :: s in table && a + 8 < |s| ==> TablePartsWithin(table, s, a)
  }

  lemma SameGaps(t: Trie, table: map<Text, Token>)
    requires forall s :: Find(t, s) == Lookup(table, s)
    ensures NoLongGap(t) <==> NoLongGaps(table)
  {
    forall s ensures Has(t, s) <==> s in table {
    }
    forall s, j: nat ensures Parts(t, s, j) <==> TableParts(table, s, j) {
    }
    forall s, a: nat ensures PartsWithin(t, s, a) <==> TablePartsWithin(table, s, a) {
      if PartsWithin(t, s, a) {
        var j: nat :| a < j <= a + 8 && Parts(t, s, j);
        assert TableParts(table, s, j);
      }
      if TablePartsWithin(table, s, a) {
        var j: nat :| a < j <= a + 8 && TableParts(table, s, j);
        assert Parts(t, s, j);
      }
    }
  }

  ghost predicate WritableKeywords(table: map<Text, Token>) {
    forall k :: k in table ==> All(IsWritable, k)
  }

  /** The tests of the generated file use macros that exist and well-formed character literals exactly
      when the table has no long gaps, quotes and backslashes. */
  lemma CompilesExactly(entries: seq<Entry>, weights: Weights)
    ensures Compiles(Program(entries, weights)) <==> NoLongGaps(Table(entries)) && WritableKeywords(Table(entries))
  {
    var t := Generate(entries, weights);
    GenerateShape(entries, weights);
    SubtreeCompiles(t);
    EdgesFitExactly(t);
    SameGaps(t, Table(entries));
    EdgesOfExactly(t, IsWritable);
    forall s ensures Has(t, s) <==> s in Table(entries) {
    }
  }

  // ----- Main theorems -----

  /** For every table and every buffer of at least `maxTokenLength` characters, in every
      configuration and for both character types, the printed code reads no character out of
      range and returns the shortest keyword that the buffer starts with and that no identifier
      part follows, or IDENT when there is none. */
  lemma ProgramFindsShortestStop(
    entries: seq<Entry>, weights: Weights, cpu: Cpu, wide: bool, isIdentPart: CodeUnit -> bool, code: Text)
    requires LiteralKeywords(Table(entries)) && NoLongGaps(Table(entries))
    requires Fits(wide, code) && |code| >= MaxTokenLength(Generate(entries, weights))
    ensures var e := LexerFor(cpu, wide, isIdentPart, code);
            IsShortestStop(Table(entries), e, Exec(Program(entries, weights), e))
  {
    var t, e := Generate(entries, weights), LexerFor(cpu, wide, isIdentPart, code);
    GenerateShape(entries, weights);
    SameGaps(t, Table(entries));
    EdgesFitExactly(t);
    forall s | Has(t, s) ensures All(IsLiteral, s) {
    }
    EdgesLieOnWords(t, IsLiteral);
    FitLiteralsTestable(t);
    ConfigurationTestsCharacters(cpu, wide, isIdentPart, code);
    RunIsScan(t, e);
    ScanFindsShortest(t, Table(entries), 0, e);
    ExecSubtree(t, [], e);
    assert Emit(t) + [] == Emit(t);
  }

  lemma ShortestStopIsUnique(table: map<Text, Token>, e: Lexer, r: Outcome, r': Outcome)
    requires IsShortestStop(table, e, r) && IsShortestStop(table, e, r')
    ensures r == r'
  {
  }

  lemma KeywordsFit(entries: seq<Entry>, weights: Weights, k: Text)
    requires k in Table(entries)
    ensures |k| < MaxTokenLength(Generate(entries, weights))
  {
    GenerateShape(entries, weights);
    FoundWithinMaxLength(Generate(entries, weights), k);
  }

  /** `maxTokenLength` is one more than the length of the longest keyword. */
  lemma MaxTokenLengthIsTight(entries: seq<Entry>, weights: Weights)
    ensures forall k :: k in Table(entries) ==> |k| < MaxTokenLength(Generate(entries, weights))
    ensures Table(entries) == map[] ==> MaxTokenLength(Generate(entries, weights)) == 1
    ensures Table(entries) != map[] ==>
              exists k :: k in Table(entries) && |k| + 1 == MaxTokenLength(Generate(entries, weights))
  {
    var t := Generate(entries, weights);
    GenerateShape(entries, weights);
    forall k | k in Table(entries) ensures |k| < MaxTokenLength(t) {
      KeywordsFit(entries, weights, k);
    }
    if Dense(t) {
      var s := LongestWord(t);
      assert s in Table(entries);
    } else if t.keys != [] {
      var s := LongestWord(t.keys[0]);
      MaxLengthBounds(t);
      assert MaxLengthAmong(t.keys, 0) == MaxLength(t.keys[0]);
      ChildHas(t, 0, s);
      assert t.keys[0].prefix + s in Table(entries);
    } else {
      forall k ensures k !in Table(entries) {
        assert Find(t, k) == None;
      }
    }
  }

  /** No character at or after `maxTokenLength` has any influence. */
  lemma ProgramIgnoresTheRest(
    entries: seq<Entry>, weights: Weights, cpu: Cpu, wide: bool, isIdentPart: CodeUnit -> bool, code: Text)
    requires LiteralKeywords(Table(entries)) && NoLongGaps(Table(entries))
    requires Fits(wide, code) && |code| >= MaxTokenLength(Generate(entries, weights))
    ensures var head := code[..MaxTokenLength(Generate(entries, weights))];
            Exec(Program(entries, weights), LexerFor(cpu, wide, isIdentPart, code))
            == Exec(Program(entries, weights), LexerFor(cpu, wide, isIdentPart, head))
  {
    var n := MaxTokenLength(Generate(entries, weights));
    var table, head := Table(entries), code[..n];
    var e, e' := LexerFor(cpu, wide, isIdentPart, code), LexerFor(cpu, wide, isIdentPart, head);
    ProgramFindsShortestStop(entries, weights, cpu, wide, isIdentPart, code);
    ProgramFindsShortestStop(entries, weights, cpu, wide, isIdentPart, head);
    forall k | k in table ensures |k| < n {
      KeywordsFit(entries, weights, k);
    }
    StopsInHead(table, e, e', n, Exec(Program(entries, weights), e'));
    ShortestStopIsUnique(table, e, Exec(Program(entries, weights), e), Exec(Program(entries, weights), e'));
  }

  /** Keywords shorter than `n` stop where they do in the first `n` characters. */
  lemma StopsInHead(table: map<Text, Token>, e: Lexer, e': Lexer, n: nat, r: Outcome)
    requires n <= |e.code| && e'.code == e.code[..n] && e'.isIdentPart == e.isIdentPart
    requires (forall k :: k in table ==> |k| < n) && IsShortestStop(table, e', r)
    ensures IsShortestStop(table, e, r)
  {
    forall m: nat ensures StopsAt(table, e, m) <==> StopsAt(table, e', m) {
      if m < n {
        assert e'.code[..m] == e.code[..m];
      }
    }
    if r.Matched? {
      assert StopsAt(table, e', r.consumed);
      assert e'.code[..r.consumed] == e.code[..r.consumed];
    }
  }

  // ----- Identifier runs -----

  /** The length of the longest run of identifier parts at the start of `s`. */
  function RunLength(isIdentPart: CodeUnit -> bool, s: Text): (n: nat)
    ensures n <= |s| && (n < |s| ==> !isIdentPart(s[n]))
    ensures forall i :: 0 <= i < n ==> isIdentPart(s[i])
  {
    if s == [] || !isIdentPart(s[0]) then 0 else 1 + RunLength(isIdentPart, s[1..])
  }

  /** What `parseKeyword` is for: the table's value of the identifier at the start of the buffer. */
  function IdentifierLookup(table: map<Text, Token>, e: Lexer): Outcome {
    var run := e.code[..RunLength(e.isIdentPart, e.code)];
    if run in table then Matched(table[run], |run|, run) else Ident
  }

  /** Cut at its first character that is not an identifier part, every keyword is a keyword. */
  ghost predicate RunsAreKeywords(table: map<Text, Token>, isIdentPart: CodeUnit -> bool) {
    forall k :: k in table ==> k[..RunLength(isIdentPart, k)] in table
  }

  lemma ShortestStopIsRun(table: map<Text, Token>, e: Lexer, r: Outcome)
    requires IsShortestStop(table, e, r) && RunsAreKeywords(table, e.isIdentPart)
    requires forall k :: k in table ==> |k| < |e.code|
    ensures r == IdentifierLookup(table, e)
  {
    var n := RunLength(e.isIdentPart, e.code);
    forall m: nat | StopsAt(table, e, m) ensures n <= m && StopsAt(table, e, n) {
      var k := e.code[..m];
      var i := RunLength(e.isIdentPart, k);
      assert i == n by {
        if i < |k| {
          assert k[i] == e.code[i];
        }
        if n < m {
          assert k[n] == e.code[n];
        }
      }
      assert k[..n] == e.code[..n];
    }
    if e.code[..n] in table {
      assert StopsAt(table, e, n);
    }
  }

  /** When keyword characters are identifier parts - or keywords at least start with keywords -
      the printed code returns the table's value of the identifier at the start of the buffer. */
  lemma ProgramLooksUpIdentifier(
    entries: seq<Entry>, weights: Weights, cpu: Cpu, wide: bool, isIdentPart: CodeUnit -> bool, code: Text)
    requires LiteralKeywords(Table(entries)) && NoLongGaps(Table(entries))
    requires Fits(wide, code) && |code| >= MaxTokenLength(Generate(entries, weights))
    requires RunsAreKeywords(Table(entries), isIdentPart)
    ensures var e := LexerFor(cpu, wide, isIdentPart, code);
            Exec(Program(entries, weights), e) == IdentifierLookup(Table(entries), e)
  {
    var e := LexerFor(cpu, wide, isIdentPart, code);
    ProgramFindsShortestStop(entries, weights, cpu, wide, isIdentPart, code);
    forall k | k in Table(entries) ensures |k| < |code| {
      KeywordsFit(entries, weights, k);
    }
    ShortestStopIsRun(Table(entries), e, Exec(Program(entries, weights), e));
  }

  lemma RunEnds(isIdentPart: CodeUnit -> bool, k: Text, rest: Text)
    requires RunLength(isIdentPart, k) < |k|
    ensures RunLength(isIdentPart, k + rest) == RunLength(isIdentPart, k)
  {
    var n, m := RunLength(isIdentPart, k), RunLength(isIdentPart, k + rest);
    assert (k + rest)[n] == k[n];
    assert forall i :: 0 <= i < n ==> (k + rest)[i] == k[i];
  }

  /** A keyword whose identifier run is no keyword is mistaken for one: the buffer below starts
      with an identifier that is not in the table, yet the code returns a token. */
  lemma OddKeywordIsMistaken(
    entries: seq<Entry>, weights: Weights, cpu: Cpu, wide: bool, isIdentPart: CodeUnit -> bool, k: Text)
    returns (code: Text)
    requires LiteralKeywords(Table(entries)) && NoLongGaps(Table(entries))
    requires k in Table(entries) && k[..RunLength(isIdentPart, k)] !in Table(entries)
    ensures Fits(wide, code) && |code| >= MaxTokenLength(Generate(entries, weights))
    ensures var e := LexerFor(cpu, wide, isIdentPart, code);
            IdentifierLookup(Table(entries), e) == Ident && Exec(Program(entries, weights), e).Matched?
  {
    var n := RunLength(isIdentPart, k);
    assert n < |k| by {
      assert k[..|k|] == k;
    }
    var stop, length := k[n], MaxTokenLength(Generate(entries, weights));
    var rest := seq(length, _ => stop);
    code := k + rest;
    assert Literals(k);
    RunEnds(isIdentPart, k, rest);
    assert code[..n] == k[..n];
    var e := LexerFor(cpu, wide, isIdentPart, code);
    assert StopsAt(Table(entries), e, |k|) by {
      assert code[..|k|] == k && code[|k|] == rest[0];
    }
    ProgramFindsShortestStop(entries, weights, cpu, wide, isIdentPart, code);
  }

  ghost predicate LooksUpIdentifiers(
    entries: seq<Entry>, weights: Weights, cpu: Cpu, wide: bool, isIdentPart: CodeUnit -> bool)
  {
    forall code: Text :: Fits(wide, code) && |code| >= MaxTokenLength(Generate(entries, weights)) ==>
      var e := LexerFor(cpu, wide, isIdentPart, code);
      Exec(Program(entries, weights), e) == IdentifierLookup(Table(entries), e)
  }

  /** The code looks up identifiers in every buffer exactly when keywords' identifier runs are
      keywords. */
  lemma LooksUpIdentifiersExactly(
    entries: seq<Entry>, weights: Weights, cpu: Cpu, wide: bool, isIdentPart: CodeUnit -> bool)
    requires LiteralKeywords(Table(entries)) && NoLongGaps(Table(entries))
    ensures LooksUpIdentifiers(entries, weights, cpu, wide, isIdentPart)
            <==> RunsAreKeywords(Table(entries), isIdentPart)
  {
    if RunsAreKeywords(Table(entries), isIdentPart) {
      forall code: Text | Fits(wide, code) && |code| >= MaxTokenLength(Generate(entries, weights))
        ensures var e := LexerFor(cpu, wide, isIdentPart, code);
                Exec(Program(entries, weights), e) == IdentifierLookup(Table(entries), e)
      {
        ProgramLooksUpIdentifier(entries, weights, cpu, wide, isIdentPart, code);
      }
    } else {
      var k :| k in Table(entries) && k[..RunLength(isIdentPart, k)] !in Table(entries);
      var code := OddKeywordIsMistaken(entries, weights, cpu, wide, isIdentPart, k);
      assert !LooksUpIdentifiers(entries, weights, cpu, wide, isIdentPart);
    }
  }
}
