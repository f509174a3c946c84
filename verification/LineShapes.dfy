/** testRegExp.cpp: which test lines are accepted, and when the parser looks behind the end of its
    line. */
module LineShapes {
  import opened Wrappers
  import opened Binary
  import opened Decimal
  import opened TestLine

  // ----- Positions -----

  lemma {:induction false} SkipToFirst(line: Bytes, i: nat, stops: set<Byte>)
    requires i <= |line|
    ensures var j := SkipTo(line, i, stops);
            (forall k :: i <= k < j ==> line[k] !in stops) && (j < |line| ==> line[j] in stops)
    decreases |line| - i
  {
    if i < |line| && line[i] !in stops {
      SkipToFirst(line, i + 1, stops);
    }
  }

  lemma {:induction false} SkipSpaceRest(s: Bytes) returns (k: nat)
    ensures k <= |s| && SkipSpace(s) == s[k..]
  {
    if s != [] && IsSpace(s[0]) {
      var n := SkipSpaceRest(s[1..]);
      k := n + 1;
      assert s[1..][n..] == s[k..];
    } else {
      k := 0;
    }
  }

  lemma {:induction false} ScanDigitsRest(s: Bytes, value: nat) returns (k: nat)
    ensures k <= |s| && ScanDigits(s, value).1 == s[k..]
    decreases s
  {
    if s == [] || !IsDigit(s[0]) {
      k := 0;
    } else {
      var n := ScanDigitsRest(s[1..], 10 * value + (s[0] - ZERO as int));
      k := n + 1;
      assert s[1..][n..] == s[k..];
    }
  }

  /** What follows a number is the end of the text. */
  lemma ScanIntRest(s: Bytes) returns (k: nat)
    requires ScanInt(s).Some?
    ensures k <= |s| && ScanInt(s).value.1 == s[k..]
  {
    var a := SkipSpaceRest(s);
    var t := s[a..];
    var b := if t[0] == MINUS || t[0] == PLUS then 1 else 0;
    var u := t[b..];
    assert u == s[a + b..];
    var c := ScanDigitsRest(u, 0);
    k := a + b + c;
    assert u[c..] == s[k..];
  }

  lemma PairHasComma(s: Bytes)
    requires ScanPair(s).Some?
    ensures COMMA in s
  {
    var k := ScanIntRest(s);
    assert s[k] == s[k..][0];
  }

  // ----- When the parser looks behind the end -----

  /** Two numbers are only read from text with a comma in it. */
  ghost predicate PairsHaveCommas(f: Sscanf) {
    forall s :: f.pair(s).Some? ==> COMMA in s
  }

  lemma PairStaysInside(line: Bytes, i: nat, f: Sscanf)
    requires i <= |line| && PairsHaveCommas(f)
    ensures ParsePair(line, i, f) != NoPair(true)
  {
    var s := line[i..];
    if f.pair(s).Some? {
      var k :| 0 <= k < |s| && s[k] == COMMA;
      assert line[i + k] == COMMA;
      SkipToFirst(line, i, ENDS);
    }
  }

  lemma {:induction false} VectorStaysInside(line: Bytes, i: nat, f: Sscanf)
    requires i <= |line| && PairsHaveCommas(f)
    ensures ParseVector(line, i, f) != Failed(true)
    decreases |line| - i
  {
    if i < |line| && line[i] != CLOSE {
      PairStaysInside(line, i, f);
      var p := ParsePair(line, i, f);
      if p.Pair? && line[p.next] != CLOSE {
        VectorStaysInside(line, p.next + 1, f);
      }
    }
  }

  /** There is a number from `i` on but no space to stop at. */
  predicate RunsOut(line: Bytes, i: nat, f: Sscanf)
    requires i <= |line|
  {
    f.number(line[i..]).Some? && SPACE !in line[i..]
  }

  predicate FirstSpace(line: Bytes, i: nat, j: nat)
    requires i <= |line|
  {
    i <= j < |line| && line[j] == SPACE && SPACE !in line[i..j]
  }

  lemma SpaceFound(line: Bytes, i: nat)
    requires i <= |line|
    ensures var j := SkipTo(line, i, {SPACE});
            if j == |line| then SPACE !in line[i..] else FirstSpace(line, i, j)
  {
    SkipToFirst(line, i, {SPACE});
  }

  lemma FirstSpaceIsUnique(line: Bytes, i: nat, j: nat)
    requires i <= |line| && FirstSpace(line, i, j)
    ensures SkipTo(line, i, {SPACE}) == j && SPACE in line[i..]
  {
    forall k | i <= k < j ensures line[k] !in {SPACE} {
      assert line[k] == line[i..j][k - i];
    }
    SkipToIs(line, i, {SPACE}, j);
    assert line[i..][j - i] == SPACE;
  }

  lemma FieldFound(line: Bytes, i: nat, f: Sscanf)
    requires i <= |line|
    ensures var r := ParseField(line, i, f);
            && (r == NoField(true) <==> RunsOut(line, i, f))
            && (r.Field? <==> f.number(line[i..]).Some? && SPACE in line[i..])
            && (r.Field? ==> r.next > 0 && FirstSpace(line, i, r.next - 1) && r.number == f.number(line[i..]).value)
  {
    SpaceFound(line, i);
    var j := SkipTo(line, i, {SPACE});
    if j < |line| {
      FirstSpaceIsUnique(line, i, j);
    }
  }

  /** The position behind the subject and its `", `, when they are accepted. */
  function FieldsStart(line: Bytes, hex: OddHex): (r: Option<nat>)
    ensures r.Some? ==> r.value <= |line|
  {
    if |line| < 2 || line[0] != SPACE || line[1] != QUOTE then None
    else
      var i := Scan(line[2..], 0, false, QUOTE, hex).0 + 2;
      if 0 <= i < |line| - 2 && line[i] == QUOTE && line[i + 1] == COMMA && line[i + 2] == SPACE then Some(i + 3)
      else None
  }

  /** The number at `i` has a space behind it, and the number behind that one has none. */
  ghost predicate ResultRunsOut(line: Bytes, i: nat, f: Sscanf)
    requires i <= |line|
  {
    f.number(line[i..]).Some? && exists j: nat :: FirstSpace(line, i, j) && RunsOut(line, j + 1, f)
  }

  lemma ResultFound(line: Bytes, i: nat, f: Sscanf)
    requires i <= |line|
    ensures var r := ParseField(line, i, f);
            ResultRunsOut(line, i, f) <==> r.Field? && ParseField(line, r.next, f) == NoField(true)
  {
    FieldFound(line, i, f);
    var r := ParseField(line, i, f);
    if r.Field? {
      var j := r.next;
      FieldFound(line, j, f);
      FirstSpaceIsUnique(line, i, j - 1);
      forall k: nat | FirstSpace(line, i, k) ensures k == j - 1 {
        FirstSpaceIsUnique(line, i, k);
      }
    } else if exists j: nat :: FirstSpace(line, i, j) {
      var j: nat :| FirstSpace(line, i, j);
      FirstSpaceIsUnique(line, i, j);
    }
  }

  lemma ClosedStaysInside(line: Bytes, i: nat, f: Sscanf)
    requires i <= |line| && PairsHaveCommas(f)
    ensures ParseClosed(line, i, f) != Failed(true)
  {
    if i < |line| {
      VectorStaysInside(line, i + 1, f);
    }
  }

  lemma FieldsPastEnd(subject: seq<Unit>, line: Bytes, i: nat, f: Sscanf)
    requires i <= |line| && PairsHaveCommas(f)
    ensures ParseFields(subject, line, i, f) == Failed(true) <==> RunsOut(line, i, f) || ResultRunsOut(line, i, f)
  {
    FieldFound(line, i, f);
    ResultFound(line, i, f);
    var offset := ParseField(line, i, f);
    if offset.Field? {
      var result := ParseField(line, offset.next, f);
      if result.Field? {
        ClosedStaysInside(line, result.next, f);
      }
    }
  }

  lemma StartGoesOn(line: Bytes, f: Sscanf)
    ensures ParseTestLine(line, f) ==
            if FieldsStart(line, f.hex).None? then Failed(false)
            else ParseFields(Scan(line[2..], 0, false, QUOTE, f.hex).1, line, FieldsStart(line, f.hex).value, f)
  {
  }

  /** The parser looks behind the end of the line exactly when the subject is accepted and the offset
      or the result is a number without a space behind it. */
  lemma PastEndExactly(line: Bytes, f: Sscanf)
    requires PairsHaveCommas(f)
    ensures ParseTestLine(line, f) == Failed(true)
            <==> && FieldsStart(line, f.hex).Some?
                 && var i := FieldsStart(line, f.hex).value; RunsOut(line, i, f) || ResultRunsOut(line, i, f)
  {
    StartGoesOn(line, f);
    if FieldsStart(line, f.hex).Some? {
      FieldsPastEnd(Scan(line[2..], 0, false, QUOTE, f.hex).1, line, FieldsStart(line, f.hex).value, f);
    }
  }

  lemma LibcPairsHaveCommas(hex: OddHex)
    ensures PairsHaveCommas(Libc(hex))
  {
    forall s | Libc(hex).pair(s).Some? ensures COMMA in s {
      PairHasComma(s);
    }
  }

  lemma EmptySubject(line: Bytes, rest: Bytes, hex: OddHex)
    requires line == [SPACE, QUOTE, QUOTE] + Sep(rest)
    ensures line[5..] == rest && FieldsStart(line, hex) == Some(5)
  {
    assert line[2..][0] == QUOTE;
  }

  /** For example on every line ` "", ` followed by a number. */
  lemma ShortLineLooksBehind(n: int, hex: OddHex)
    ensures ParseTestLine([SPACE, QUOTE, QUOTE] + Sep(PrintInt(n)), Libc(hex)) == Failed(true)
  {
    var line := [SPACE, QUOTE, QUOTE] + Sep(PrintInt(n));
    EmptySubject(line, PrintInt(n), hex);
    NumberRunsOut(line, 5, n, hex);
    LibcPairsHaveCommas(hex);
    PastEndExactly(line, Libc(hex));
  }

  lemma NumberRunsOut(line: Bytes, i: nat, n: int, hex: OddHex)
    requires i <= |line| && line[i..] == PrintInt(n)
    ensures RunsOut(line, i, Libc(hex))
  {
    PrintIntPlain(n);
    assert PrintInt(n) + [] == PrintInt(n);
    ScanPrintInt(n, []);
  }

  // ----- The fields of accepted lines -----

  /** Two texts with a separator or parenthesis behind each. */
  datatype PairText = PairText(first: Bytes, mid: Byte, second: Bytes, end: Byte)

  function PairSource(p: PairText): Bytes {
    p.first + ([p.mid] + (p.second + [p.end]))
  }

  function VectorSource(ps: seq<PairText>, tail: Bytes): Bytes {
    if ps == [] then tail else PairSource(ps[0]) + VectorSource(ps[1..], tail)
  }

  predicate NoEnds(s: Bytes) {
    COMMA !in s && CLOSE !in s
  }

  /** A pair does not start with the parenthesis that ends the vector. */
  predicate ValidPair(p: PairText) {
    (p.first != [] || p.mid != CLOSE) && NoEnds(p.first) && NoEnds(p.second) && p.mid in ENDS && p.end in ENDS
  }

  /** Where a pair starts, two numbers can be read; a parenthesis behind a pair ends the vector, and
      so does one, or the end of the line, where a pair could start. */
  predicate ValidVector(ps: seq<PairText>, tail: Bytes, f: Sscanf) {
    if ps == [] then tail == [] || tail[0] == CLOSE
    else
      && ValidPair(ps[0]) && f.pair(VectorSource(ps, tail)).Some?
      && if ps[0].end == CLOSE then |ps| == 1 else ValidVector(ps[1..], tail, f)
  }

  /** The numbers read where the pairs start. */
  function VectorValue(ps: seq<PairText>, tail: Bytes, f: Sscanf): seq<int> {
    if ps == [] then []
    else
      var pair := f.pair(VectorSource(ps, tail));
      (if pair.None? then [] else [pair.value.0, pair.value.1]) + VectorValue(ps[1..], tail, f)
  }

  lemma NoEndsBefore(line: Bytes, i: nat, j: nat)
    requires i <= j <= |line|
    ensures NoEnds(line[i..j]) <==> forall k :: i <= k < j ==> line[k] !in ENDS
  {
    var s := line[i..j];
    assert forall k :: 0 <= k < |s| ==> s[k] == line[i + k];
    if NoEnds(s) {
      forall k | i <= k < j ensures line[k] !in ENDS {
        assert line[k] == s[k - i];
      }
    }
  }

  /** The line goes on with `p` at `i`. */
  lemma PairAt(line: Bytes, i: nat, p: PairText, rest: Bytes, j: nat, k: nat)
    requires i <= |line| && line[i..] == PairSource(p) + rest && j == i + |p.first| && k == j + 1 + |p.second|
    ensures i <= j < k < |line| && line[i..j] == p.first && line[j] == p.mid && line[j + 1..k] == p.second
    ensures line[k] == p.end && line[k + 1..] == rest
  {
    var behind := p.second + ([p.end] + rest);
    PairThenRest(p, rest);
    Advance(line, i, p.first, [p.mid] + behind, j);
    AdvanceOne(line, j, p.mid, behind);
    Advance(line, j + 1, p.second, [p.end] + rest, k);
    AdvanceOne(line, k, p.end, rest);
  }

  lemma PairThenRest(p: PairText, rest: Bytes)
    ensures PairSource(p) + rest == p.first + ([p.mid] + (p.second + ([p.end] + rest)))
  {
  }

  lemma AdvanceOne(line: Bytes, i: nat, b: Byte, rest: Bytes)
    requires i <= |line| && line[i..] == [b] + rest
    ensures i < |line| && line[i] == b && line[i + 1..] == rest
  {
    Advance(line, i, [b], rest, i + 1);
    assert line[i] == line[i..][0];
  }

  lemma PairTextParses(line: Bytes, i: nat, p: PairText, rest: Bytes, k: nat, f: Sscanf)
    requires i <= |line| && line[i..] == PairSource(p) + rest && ValidPair(p) && f.pair(line[i..]).Some?
    requires k == i + |p.first| + 1 + |p.second|
    ensures k < |line| && line[k] == p.end && line[k + 1..] == rest && line[i] != CLOSE
    ensures var v := f.pair(line[i..]).value; ParsePair(line, i, f) == Pair(v.0, v.1, k)
  {
    var j := i + |p.first|;
    PairAt(line, i, p, rest, j, k);
    NoEndsBefore(line, i, j);
    NoEndsBefore(line, j + 1, k);
    SkipToIs(line, i, ENDS, j);
    SkipToIs(line, j + 1, ENDS, k);
  }

  lemma NoVector(line: Bytes, i: nat, tail: Bytes, f: Sscanf)
    requires i <= |line| && line[i..] == tail && (tail == [] || tail[0] == CLOSE)
    ensures ParseVector(line, i, f) == Parsed([])
  {
    if tail != [] {
      assert line[i] == line[i..][0];
    }
  }

  /** What a valid vector says about its first pair. */
  lemma FirstPair(ps: seq<PairText>, tail: Bytes, f: Sscanf) returns (v: (int, int), more: seq<int>)
    requires ps != [] && ValidVector(ps, tail, f)
    ensures ValidPair(ps[0]) && f.pair(VectorSource(ps, tail)) == Some(v)
    ensures VectorValue(ps, tail, f) == [v.0, v.1] + more && more == VectorValue(ps[1..], tail, f)
    ensures if ps[0].end == CLOSE then more == [] else ValidVector(ps[1..], tail, f)
  {
    v, more := f.pair(VectorSource(ps, tail)).value, VectorValue(ps[1..], tail, f);
  }

  /** The vector parser as a value: proofs about whole vectors need not look into it. */
  ghost predicate Reads(g: nat -> Outcome<seq<int>>, line: Bytes, f: Sscanf) {
    forall i: nat {:trigger ParseVector(line, i, f)} :: i <= |line| ==> g(i) == ParseVector(line, i, f)
  }

  lemma FirstPairParses(
    g: nat -> Outcome<seq<int>>, line: Bytes, i: nat, ps: seq<PairText>, tail: Bytes, v: (int, int), f: Sscanf)
    returns (k: nat)
    requires Reads(g, line, f)
    requires i <= |line| && line[i..] == VectorSource(ps, tail) && ps != [] && ValidPair(ps[0])
    requires f.pair(VectorSource(ps, tail)) == Some(v)
    ensures i <= k < |line| && line[k + 1..] == VectorSource(ps[1..], tail)
    ensures g(i) == if ps[0].end == CLOSE then Parsed([v.0, v.1]) else Prepend([v.0, v.1], g(k + 1))
  {
    k := i + |ps[0].first| + 1 + |ps[0].second|;
    PairTextParses(line, i, ps[0], VectorSource(ps[1..], tail), k, f);
    VectorStep(line, i, v.0, v.1, k, f);
  }

  lemma {:induction false} VectorReads(
    g: nat -> Outcome<seq<int>>, line: Bytes, i: nat, ps: seq<PairText>, tail: Bytes, f: Sscanf)
    requires Reads(g, line, f)
    requires i <= |line| && line[i..] == VectorSource(ps, tail) && ValidVector(ps, tail, f)
    ensures g(i) == Parsed(VectorValue(ps, tail, f))
    decreases ps
  {
    if ps == [] {
      NoVector(line, i, tail, f);
    } else {
      var v, more := FirstPair(ps, tail, f);
      var k := FirstPairParses(g, line, i, ps, tail, v, f);
      if ps[0].end != CLOSE {
        VectorReads(g, line, k + 1, ps[1..], tail, f);
      }
      assert [v.0, v.1] + [] == [v.0, v.1];
    }
  }

  lemma VectorTextParses(line: Bytes, i: nat, ps: seq<PairText>, tail: Bytes, f: Sscanf)
    requires i <= |line| && line[i..] == VectorSource(ps, tail) && ValidVector(ps, tail, f)
    ensures ParseVector(line, i, f) == Parsed(VectorValue(ps, tail, f))
  {
    var g := (j: nat) => if j <= |line| then ParseVector(line, j, f) else Failed(false);
    VectorReads(g, line, i, ps, tail, f);
  }

  /** A pair that is accepted has such a text. */
  lemma PairParsesOnly(line: Bytes, i: nat, f: Sscanf) returns (p: PairText)
    requires i < |line| && line[i] != CLOSE && ParsePair(line, i, f).Pair?
    ensures ValidPair(p) && f.pair(line[i..]).Some?
    ensures var k := ParsePair(line, i, f).next; p.end == line[k] && line[i..] == PairSource(p) + line[k + 1..]
  {
    var j := SkipTo(line, i, ENDS);
    var k := SkipTo(line, j + 1, ENDS);
    SkipToFirst(line, i, ENDS);
    SkipToFirst(line, j + 1, ENDS);
    NoEndsBefore(line, i, j);
    NoEndsBefore(line, j + 1, k);
    p := PairText(line[i..j], line[j], line[j + 1..k], line[k]);
    CutPair(line, i, j, k);
  }

  lemma CutPair(line: Bytes, i: nat, j: nat, k: nat)
    requires i <= j < k < |line|
    ensures line[i..] == (line[i..j] + ([line[j]] + (line[j + 1..k] + [line[k]]))) + line[k + 1..]
  {
  }

  lemma ConsPair(p: PairText, more: seq<PairText>, tail: Bytes, f: Sscanf)
    requires ValidPair(p) && f.pair(PairSource(p) + VectorSource(more, tail)).Some?
    requires if p.end == CLOSE then more == [] else ValidVector(more, tail, f)
    ensures ValidVector([p] + more, tail, f)
    ensures VectorSource([p] + more, tail) == PairSource(p) + VectorSource(more, tail)
  {
    assert ([p] + more)[1..] == more;
  }

  lemma {:induction false} VectorParsesOnly(line: Bytes, i: nat, f: Sscanf) returns (ps: seq<PairText>, tail: Bytes)
    requires i <= |line| && ParseVector(line, i, f).Parsed?
    ensures ValidVector(ps, tail, f) && line[i..] == VectorSource(ps, tail)
    decreases |line| - i
  {
    if i == |line| || line[i] == CLOSE {
      ps, tail := [], line[i..];
    } else {
      var p := PairParsesOnly(line, i, f);
      var k := ParsePair(line, i, f).next;
      var more: seq<PairText>;
      if line[k] == CLOSE {
        more, tail := [], line[k + 1..];
      } else {
        more, tail := VectorParsesOnly(line, k + 1, f);
      }
      ps := [p] + more;
      ConsPair(p, more, tail, f);
    }
  }

  /** Offset and result up to a space, then the vector behind its parenthesis. */
  datatype Fields = Fields(offset: Bytes, result: Bytes, pairs: seq<PairText>, tail: Bytes)

  function ResultSource(t: Fields): Bytes {
    t.result + ([SPACE] + ([OPEN] + VectorSource(t.pairs, t.tail)))
  }

  function FieldsSource(t: Fields): Bytes {
    t.offset + ([SPACE] + ResultSource(t))
  }

  predicate ValidFields(t: Fields, f: Sscanf) {
    && SPACE !in t.offset && SPACE !in t.result
    && f.number(FieldsSource(t)).Some? && f.number(ResultSource(t)).Some?
    && ValidVector(t.pairs, t.tail, f)
  }

  function FieldsValue(subject: seq<Unit>, t: Fields, f: Sscanf): RegExpTest
    requires ValidFields(t, f)
  {
    RegExpTest(subject, f.number(FieldsSource(t)).value, f.number(ResultSource(t)).value,
               VectorValue(t.pairs, t.tail, f))
  }

  lemma FieldTextParses(line: Bytes, i: nat, field: Bytes, rest: Bytes, f: Sscanf) returns (j: nat)
    requires i <= |line| && line[i..] == field + ([SPACE] + rest) && SPACE !in field && f.number(line[i..]).Some?
    ensures j <= |line| && line[j..] == rest && ParseField(line, i, f) == Field(f.number(line[i..]).value, j)
  {
    var k := i + |field|;
    Advance(line, i, field, [SPACE] + rest, k);
    Advance(line, k, [SPACE], rest, k + 1);
    FirstSpaceIsUnique(line, i, k);
    j := k + 1;
  }

  lemma FieldsTextParses(subject: seq<Unit>, line: Bytes, i: nat, t: Fields, f: Sscanf)
    requires i <= |line| && line[i..] == FieldsSource(t) && ValidFields(t, f)
    ensures ParseFields(subject, line, i, f) == Parsed(FieldsValue(subject, t, f))
  {
    var j := FieldTextParses(line, i, t.offset, ResultSource(t), f);
    var k := FieldTextParses(line, j, t.result, [OPEN] + VectorSource(t.pairs, t.tail), f);
    Advance(line, k, [OPEN], VectorSource(t.pairs, t.tail), k + 1);
    assert line[k] == line[k..k + 1][0];
    VectorTextParses(line, k + 1, t.pairs, t.tail, f);
  }

  lemma FieldParsesOnly(line: Bytes, i: nat, f: Sscanf) returns (field: Bytes)
    requires i <= |line| && ParseField(line, i, f).Field?
    ensures var r := ParseField(line, i, f);
            && SPACE !in field && line[i..] == field + ([SPACE] + line[r.next..])
            && f.number(line[i..]).Some? && r.number == f.number(line[i..]).value
  {
    FieldFound(line, i, f);
    var k := ParseField(line, i, f).next - 1;
    field := line[i..k];
    assert line[i..] == line[i..k] + ([line[k]] + line[k + 1..]);
  }

  lemma FieldsParseOnly(subject: seq<Unit>, line: Bytes, i: nat, f: Sscanf) returns (t: Fields)
    requires i <= |line| && ParseFields(subject, line, i, f).Parsed?
    ensures ValidFields(t, f) && line[i..] == FieldsSource(t)
  {
    var offset := FieldParsesOnly(line, i, f);
    var j := ParseField(line, i, f).next;
    var result := FieldParsesOnly(line, j, f);
    var k := ParseField(line, j, f).next;
    var vector := ClosedParsesOnly(line, k, f);
    t := Fields(offset, result, vector.0, vector.1);
  }

  lemma ClosedParsesOnly(line: Bytes, k: nat, f: Sscanf) returns (v: (seq<PairText>, Bytes))
    requires k <= |line| && ParseClosed(line, k, f).Parsed?
    ensures ValidVector(v.0, v.1, f) && line[k..] == [OPEN] + VectorSource(v.0, v.1)
  {
    var pairs, tail := VectorParsesOnly(line, k + 1, f);
    assert line[k..] == [OPEN] + line[k + 1..];
    v := (pairs, tail);
  }

  // ----- Accepted lines -----

  /** Behind the subject, however it was accepted, a line is accepted for exactly these fields. */
  lemma AcceptedExactly(line: Bytes, f: Sscanf)
    ensures ParseTestLine(line, f).Parsed? <==>
            && FieldsStart(line, f.hex).Some?
            && exists t :: ValidFields(t, f) && line[FieldsStart(line, f.hex).value..] == FieldsSource(t)
  {
    if FieldsStart(line, f.hex).Some? {
      var subject, i := Scan(line[2..], 0, false, QUOTE, f.hex).1, FieldsStart(line, f.hex).value;
      StartGoesOn(line, f);
      if ParseTestLine(line, f).Parsed? {
        var t := FieldsParseOnly(subject, line, i, f);
      }
      forall t | ValidFields(t, f) && line[i..] == FieldsSource(t) ensures ParseTestLine(line, f).Parsed? {
        FieldsTextParses(subject, line, i, t, f);
      }
    }
  }

  /** A line whose subject is terminated. */
  function LineText(ps: seq<Piece>, t: Fields): Bytes {
    [SPACE, QUOTE] + (SourceAll(ps) + ([QUOTE] + Sep(FieldsSource(t))))
  }

  /** A line with nothing between the opening quote and the fields. */
  function BareText(t: Fields): Bytes {
    [SPACE, QUOTE] + Sep(FieldsSource(t))
  }

  lemma LineTextParses(ps: seq<Piece>, t: Fields, f: Sscanf)
    requires AllValid(ps, QUOTE) && ValidFields(t, f)
    ensures ParseTestLine(LineText(ps, t), f) == Parsed(FieldsValue(Values(ps, QUOTE), t, f))
  {
    var line, end := LineText(ps, t), |SourceAll(ps)|;
    SubjectParses(line, ps, FieldsSource(t), end, f.hex);
    StartGoesOn(line, f);
    FieldsTextParses(Values(ps, QUOTE), line, end + 5, t, f);
  }

  /** When what follows the opening quote never ends the string, the parser takes the opening quote
      for the closing one: the line is accepted, with all the scanned text as its subject. */
  lemma BareTextParses(t: Fields, f: Sscanf)
    requires ValidFields(t, f) && Scan(Sep(FieldsSource(t)), 0, false, QUOTE, f.hex).0 == -1
    ensures ParseTestLine(BareText(t), f)
            == Parsed(FieldsValue(Scan(Sep(FieldsSource(t)), 0, false, QUOTE, f.hex).1, t, f))
  {
    var line := BareText(t);
    assert line[2..] == Sep(FieldsSource(t));
    assert line[4..] == FieldsSource(t);
    StartGoesOn(line, f);
    FieldsTextParses(Scan(line[2..], 0, false, QUOTE, f.hex).1, line, 4, t, f);
  }

  lemma SubjectEnd(line: Bytes, hex: OddHex) returns (ps: seq<Piece>)
    requires FieldsStart(line, hex).Some? && forall s :: hex(s) == None
    ensures AllValid(ps, QUOTE)
    ensures var (end, subject) := Scan(line[2..], 0, false, QUOTE, hex);
            var rest := line[FieldsStart(line, hex).value..];
            if end == -1 then line == [SPACE, QUOTE] + Sep(rest)
            else line == [SPACE, QUOTE] + (SourceAll(ps) + ([QUOTE] + Sep(rest))) && subject == Values(ps, QUOTE)
  {
    ps := [];
    var (end, subject) := Scan(line[2..], 0, false, QUOTE, hex);
    if end >= 0 {
      ps := ScanOnlyPieces(line[2..], 0, QUOTE, hex);
      CutSubject(line, end);
    } else {
      ScanEnd(line[2..], 0, false, QUOTE, hex);
      assert line == [line[0], line[1], line[2], line[3]] + line[4..];
    }
  }

  lemma CutSubject(line: Bytes, end: nat)
    requires end + 5 <= |line|
    ensures line == [line[0], line[1]] + (line[2..][0..end] +
                    ([line[end + 2]] + ([line[end + 3]] + ([line[end + 4]] + line[end + 5..]))))
  {
  }

  lemma {:induction false} ScanEnd(buffer: Bytes, i: nat, escape: bool, term: Byte, odd: OddHex)
    requires i <= |buffer|
    ensures -1 <= Scan(buffer, i, escape, term, odd).0 < |buffer|
    decreases |buffer| - i
  {
    if i < |buffer| {
      ScanEnd(buffer, i + 1, !escape && buffer[i] == BACKSLASH, term, odd);
      if escape && buffer[i] == LETTER_U && i + 5 <= |buffer| {
        ScanEnd(buffer, i + 5, false, term, odd);
      }
    }
  }

  /** Every accepted line, when odd `\u` escapes are rejected, is one of these two kinds: a terminated
      subject with fields behind it, or the accidental kind without a closing quote. */
  lemma LineParsesOnly(line: Bytes, f: Sscanf) returns (ps: seq<Piece>, t: Fields)
    requires ParseTestLine(line, f).Parsed? && forall s :: f.hex(s) == None
    ensures AllValid(ps, QUOTE) && ValidFields(t, f)
    ensures || (line == LineText(ps, t) && ParseTestLine(line, f) == Parsed(FieldsValue(Values(ps, QUOTE), t, f)))
            || (&& line == BareText(t) && Scan(line[2..], 0, false, QUOTE, f.hex).0 == -1
                && ParseTestLine(line, f) == Parsed(FieldsValue(Scan(line[2..], 0, false, QUOTE, f.hex).1, t, f)))
  {
    var (end, subject) := Scan(line[2..], 0, false, QUOTE, f.hex);
    var i := FieldsStart(line, f.hex).value;
    t := FieldsParseOnly(subject, line, i, f);
    ps := SubjectEnd(line, f.hex);
    if line == LineText(ps, t) {
      LineTextParses(ps, t, f);
    }
    if end == -1 {
      FieldsTextParses(subject, line, i, t, f);
    } else {
      ScanEnd(line[2..], 0, false, QUOTE, f.hex);
    }
  }

  lemma {:induction false} NeverEnds(buffer: Bytes, i: nat, hex: OddHex)
    requires i <= |buffer| && forall k :: i <= k < |buffer| ==> buffer[k] != QUOTE && buffer[k] != BACKSLASH
    ensures Scan(buffer, i, false, QUOTE, hex).0 == -1
    decreases |buffer| - i
  {
    if i < |buffer| {
      assert Widen(buffer[i]) != QUOTE;
      NeverEnds(buffer, i + 1, hex);
    }
  }

  predicate NoQuotes(s: Bytes) {
    QUOTE !in s && BACKSLASH !in s
  }

  lemma NumberHasNoQuotes(n: int, rest: Bytes)
    requires NoQuotes(rest)
    ensures NoQuotes(PrintInt(n) + Sep(rest)) && NoQuotes(PrintInt(n) + rest)
  {
    PrintIntPlain(n);
  }

  lemma {:induction false} VectorHasNoQuotes(v: seq<int>, rest: Bytes)
    requires |v| % 2 == 0 && NoQuotes(rest)
    ensures NoQuotes(PrintVector(v, rest))
    decreases |v|
  {
    if v != [] {
      if |v| > 2 {
        VectorHasNoQuotes(v[2..], rest);
      }
      NumberHasNoQuotes(v[1], AfterPair(v, rest));
      NumberHasNoQuotes(v[0], PrintInt(v[1]) + AfterPair(v, rest));
    }
  }

  lemma FieldsHaveNoQuotes(offset: int, result: int, v: seq<int>)
    requires |v| % 2 == 0
    ensures PrintFields(offset, result, v) != [] && NoQuotes(PrintFields(offset, result, v))
  {
    PrintIntPlain(offset);
    VectorHasNoQuotes(v, [CLOSE]);
    NumberHasNoQuotes(result, [OPEN] + PrintVector(v, [CLOSE]));
    NumberHasNoQuotes(offset, PrintResult(result, v));
  }

  lemma BareStart(line: Bytes, rest: Bytes, hex: OddHex)
    requires line == [SPACE, QUOTE] + Sep(rest) && rest != [] && NoQuotes(rest)
    ensures line[4..] == rest && FieldsStart(line, hex) == Some(4)
  {
    var buffer := Sep(rest);
    assert line[2..] == buffer;
    forall k | 0 <= k < |buffer| ensures buffer[k] != QUOTE && buffer[k] != BACKSLASH {
      assert k >= 2 ==> buffer[k] == rest[k - 2];
    }
    NeverEnds(buffer, 0, hex);
  }

  /** Every printed line is still accepted when its subject and its closing quote are left out. */
  lemma UnterminatedLineParses(offset: int, result: int, v: seq<int>, hex: OddHex)
    requires |v| % 2 == 0
    ensures ParseTestLine([SPACE, QUOTE] + Sep(PrintFields(offset, result, v)), Libc(hex)).Parsed?
  {
    var line := [SPACE, QUOTE] + Sep(PrintFields(offset, result, v));
    FieldsHaveNoQuotes(offset, result, v);
    BareStart(line, PrintFields(offset, result, v), hex);
    LibcReadsFields(hex, offset, result, v);
    BareFieldsParse(line, offset, result, v, Libc(hex));
  }

  lemma BareFieldsParse(line: Bytes, offset: int, result: int, v: seq<int>, f: Sscanf)
    requires |v| % 2 == 0 && ReadsFields(f, offset, result, v)
    requires FieldsStart(line, f.hex) == Some(4) && line[4..] == PrintFields(offset, result, v)
    ensures ParseTestLine(line, f).Parsed?
  {
    StartGoesOn(line, f);
    FieldsParse(line, 4, Scan(line[2..], 0, false, QUOTE, f.hex).1, offset, result, v, f);
  }
}
