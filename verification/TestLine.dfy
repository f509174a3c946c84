/** testRegExp.cpp: scanning quoted strings and parsing the lines of a regular expression test. */
module TestLine {
  import opened Wrappers
  import opened Binary
  import opened Decimal
  import Sequences

  type Unit = u: int | 0 <= u < 0x1_0000

  const QUOTE: Byte := 34
  const OPEN: Byte := 40
  const CLOSE: Byte := 41
  const COMMA: Byte := 44
  const BACKSLASH: Byte := 92
  const LETTER_U: Byte := 117

  // ----- scanString -----

  /** A (signed) char converted to a UChar. */
  function Widen(b: Byte): Unit {
    if b < 0x80 then b else 0xff00 + b
  }

  /** The character that a backslash and `b` stand for. */
  function Escape(b: Byte): Unit {
    match b
    case 48 => 0
    case 97 => 7
    case 98 => 8
    case 102 => 12
    case 110 => 10
    case 114 => 13
    case 116 => 9
    case 118 => 11
    case _ => Widen(b)
  }

  predicate IsHexDigit(b: Byte) {
    48 <= b <= 57 || 65 <= b <= 70 || 97 <= b <= 102
  }

  function HexDigit(b: Byte): (n: nat)
    requires IsHexDigit(b)
    ensures n < 16
  {
    if b <= 57 then b - 48 else if b <= 70 then b - 55 else b - 87
  }

  predicate AllHex(d: Bytes) {
    |d| == 4 && forall i :: 0 <= i < 4 ==> IsHexDigit(d[i])
  }

  function HexValue(d: Bytes): Unit
    requires AllHex(d)
  {
    0x1000 * HexDigit(d[0]) + 0x100 * HexDigit(d[1]) + 0x10 * HexDigit(d[2]) + HexDigit(d[3])
  }

  /** `sscanf` with "%04x" on text that does not start with four hexadecimal digits. */
  type OddHex = Bytes -> Option<int>

  /** The end of the string and what was appended, from position `i` on; the end is -1 when the
      string is not terminated or an escape is malformed. */
  function Scan(buffer: Bytes, i: nat, escape: bool, term: Byte, odd: OddHex): (int, seq<Unit>)
    requires i <= |buffer|
    decreases |buffer| - i
  {
    if i == |buffer| then (-1, [])
    else if escape then
      if buffer[i] == LETTER_U then
        if i + 4 >= |buffer| then (-1, [])
        else
          var value := if AllHex(buffer[i + 1..i + 5]) then Some(HexValue(buffer[i + 1..i + 5]) as int)
                       else odd(buffer[i + 1..]);
          if value.None? then (-1, []) else Put(value.value % 0x1_0000, Scan(buffer, i + 5, false, term, odd))
      else Put(Escape(buffer[i]), Scan(buffer, i + 1, false, term, odd))
    else if Widen(buffer[i]) == term then (i, [])
    else if buffer[i] == BACKSLASH then Scan(buffer, i + 1, true, term, odd)
    else Put(Widen(buffer[i]), Scan(buffer, i + 1, false, term, odd))
  }

  function Put(u: Unit, r: (int, seq<Unit>)): (int, seq<Unit>) {
    (r.0, [u] + r.1)
  }

  method ScanString(buffer: Bytes, term: Byte, odd: OddHex) returns (end: int, builder: seq<Unit>)
    ensures (end, builder) == Scan(buffer, 0, false, term, odd)
  {
    builder := [];
    var escape, i := false, 0;
    assert [] + Scan(buffer, 0, false, term, odd).1 == Scan(buffer, 0, false, term, odd).1;
    while i < |buffer|
      invariant i <= |buffer|
      invariant var r := Scan(buffer, i, escape, term, odd);
                Scan(buffer, 0, false, term, odd) == (r.0, builder + r.1)
    {
      ghost var r := Scan(buffer, i, escape, term, odd);
      var c := Widen(buffer[i]);
      if escape {
        c := Escape(buffer[i]);
        if buffer[i] == LETTER_U {
          if i + 4 >= |buffer| {
            assert builder + [] == builder;
            return -1, builder;
          }
          var value := if AllHex(buffer[i + 1..i + 5]) then Some(HexValue(buffer[i + 1..i + 5]) as int)
                       else odd(buffer[i + 1..]);
          if value.None? {
            assert builder + [] == builder;
            return -1, builder;
          }
          c := value.value % 0x1_0000;
          i := i + 4;
        }
        Sequences.Regroup(builder, [c], r.1[1..]);
        builder := builder + [c];
        escape := false;
      } else {
        if c == term {
          assert builder + [] == builder;
          return i, builder;
        }
        if buffer[i] == BACKSLASH {
          escape := true;
        } else {
          Sequences.Regroup(builder, [c], r.1[1..]);
          builder := builder + [c];
        }
      }
      i := i + 1;
    }
    assert builder + [] == builder;
    end := -1;
  }

  // ----- Strings as sequences of encoded characters -----

  /** A character as it is, after a backslash, or as four hexadecimal digits after `\u`. */
  datatype Piece = Plain(b: Byte) | Escaped(b: Byte) | Hex(d: Bytes)

  predicate Valid(p: Piece, term: Byte) {
    match p
    case Plain(b) => Widen(b) != term && b != BACKSLASH
    case Escaped(b) => b != LETTER_U
    case Hex(d) => AllHex(d)
  }

  function Source(p: Piece): Bytes {
    match p
    case Plain(b) => [b]
    case Escaped(b) => [BACKSLASH, b]
    case Hex(d) => [BACKSLASH, LETTER_U] + d
  }

  function Value(p: Piece): Unit
    requires p.Hex? ==> AllHex(p.d)
  {
    match p
    case Plain(b) => Widen(b)
    case Escaped(b) => Escape(b)
    case Hex(d) => HexValue(d)
  }

  predicate AllValid(ps: seq<Piece>, term: Byte) {
    forall i :: 0 <= i < |ps| ==> Valid(ps[i], term)
  }

  function SourceAll(ps: seq<Piece>): Bytes {
    if ps == [] then [] else Source(ps[0]) + SourceAll(ps[1..])
  }

  function Values(ps: seq<Piece>, term: Byte): seq<Unit>
    requires AllValid(ps, term)
  {
    if ps == [] then [] else [Value(ps[0])] + Values(ps[1..], term)
  }

  /** A character that can end a string. */
  predicate IsTerminator(term: Byte) {
    term < 0x80 && term != BACKSLASH
  }

  lemma SplitSlice(buffer: Bytes, i: nat, end: nat, a: Bytes, b: Bytes, j: nat)
    requires i <= end <= |buffer| && buffer[i..end] == a + b && j == i + |a|
    ensures j <= end && buffer[i..j] == a && buffer[j..end] == b
  {
    assert |buffer[i..end]| == |a| + |b|;
    assert buffer[i..j] == buffer[i..end][..|a|] && buffer[j..end] == buffer[i..end][|a|..];
  }

  lemma ScanPiece(buffer: Bytes, i: nat, p: Piece, j: nat, term: Byte, odd: OddHex)
    requires j == i + |Source(p)| && j < |buffer| && buffer[i..j] == Source(p)
    requires Valid(p, term) && IsTerminator(term)
    ensures Scan(buffer, i, false, term, odd) == Put(Value(p), Scan(buffer, j, false, term, odd))
  {
    var src := Source(p);
    assert buffer[i] == buffer[i..j][0] == src[0];
    if !p.Plain? {
      assert buffer[i + 1] == buffer[i..j][1] == src[1];
      assert Scan(buffer, i, false, term, odd) == Scan(buffer, i + 1, true, term, odd);
    }
    if p.Hex? {
      assert buffer[i + 2..i + 6] == buffer[i..j][2..] == p.d;
    }
  }

  /** Encoded characters are scanned to their values, up to the first terminator that is not part
      of one. */
  lemma {:induction false} ScanPieces(buffer: Bytes, i: nat, ps: seq<Piece>, end: nat, term: Byte, odd: OddHex)
    requires i <= end < |buffer| && buffer[i..end] == SourceAll(ps) && buffer[end] == term
    requires AllValid(ps, term) && IsTerminator(term)
    ensures Scan(buffer, i, false, term, odd) == (end, Values(ps, term))
    decreases ps
  {
    if ps != [] {
      var j := i + |Source(ps[0])|;
      SplitSlice(buffer, i, end, Source(ps[0]), SourceAll(ps[1..]), j);
      ScanPieces(buffer, j, ps[1..], end, term, odd);
      assert Valid(ps[0], term);
      ScanPiece(buffer, i, ps[0], j, term, odd);
    }
  }

  lemma NextEscape(buffer: Bytes, i: nat, term: Byte, odd: OddHex) returns (p: Piece, j: nat)
    requires i < |buffer| && forall s :: odd(s) == None
    requires Scan(buffer, i, true, term, odd).0 >= 0
    ensures Valid(p, term) && i < j <= |buffer| && [BACKSLASH] + buffer[i..j] == Source(p)
    ensures Scan(buffer, i, true, term, odd) == Put(Value(p), Scan(buffer, j, false, term, odd))
  {
    if buffer[i] != LETTER_U {
      p, j := Escaped(buffer[i]), i + 1;
    } else {
      p, j := Hex(buffer[i + 1..i + 5]), i + 5;
      assert [BACKSLASH] + buffer[i..j] == [BACKSLASH, LETTER_U] + buffer[i + 1..i + 5];
    }
  }

  lemma NextPiece(buffer: Bytes, i: nat, term: Byte, odd: OddHex) returns (p: Piece, j: nat)
    requires i < |buffer| && IsTerminator(term) && forall s :: odd(s) == None
    requires Widen(buffer[i]) != term && Scan(buffer, i, false, term, odd).0 >= 0
    ensures Valid(p, term) && i < j <= |buffer| && buffer[i..j] == Source(p)
    ensures Scan(buffer, i, false, term, odd) == Put(Value(p), Scan(buffer, j, false, term, odd))
  {
    if buffer[i] != BACKSLASH {
      p, j := Plain(buffer[i]), i + 1;
    } else {
      assert Scan(buffer, i, false, term, odd) == Scan(buffer, i + 1, true, term, odd);
      p, j := NextEscape(buffer, i + 1, term, odd);
      assert buffer[i..j] == [BACKSLASH] + buffer[i + 1..j];
    }
  }

  lemma ConsPiece(p: Piece, more: seq<Piece>, term: Byte)
    requires Valid(p, term) && AllValid(more, term)
    ensures AllValid([p] + more, term) && SourceAll([p] + more) == Source(p) + SourceAll(more)
    ensures Values([p] + more, term) == [Value(p)] + Values(more, term)
  {
    assert ([p] + more)[1..] == more;
  }

  lemma JoinSlices(buffer: Bytes, i: nat, j: nat, end: nat)
    requires i <= j <= end <= |buffer|
    ensures buffer[i..end] == buffer[i..j] + buffer[j..end]
  {
  }

  /** Conversely, when `\u` escapes without four digits are rejected, the scanner accepts nothing but
      encoded characters followed by the terminator. */
  lemma {:induction false} ScanOnlyPieces(buffer: Bytes, i: nat, term: Byte, odd: OddHex) returns (ps: seq<Piece>)
    requires i <= |buffer| && IsTerminator(term) && forall s :: odd(s) == None
    requires Scan(buffer, i, false, term, odd).0 >= 0
    ensures AllValid(ps, term)
    ensures var r := Scan(buffer, i, false, term, odd);
            i <= r.0 < |buffer| && buffer[i..r.0] == SourceAll(ps) && buffer[r.0] == term && r.1 == Values(ps, term)
    decreases |buffer| - i
  {
    if Widen(buffer[i]) == term {
      ps := [];
      assert buffer[i..i] == [];
    } else {
      var p, j := NextPiece(buffer, i, term, odd);
      var more := ScanOnlyPieces(buffer, j, term, odd);
      ps := [p] + more;
      ConsPiece(p, more, term);
      JoinSlices(buffer, i, j, Scan(buffer, j, false, term, odd).0);
    }
  }

  // ----- Numbers: `sscanf` -----

  /** `sscanf` with "%d, %d", when it returns 2. */
  function ScanPair(s: Bytes): Option<(int, int)> {
    match ScanInt(s)
    case None => None
    case Some((a, rest)) =>
      if rest == [] || rest[0] != COMMA then None
      else match ScanInt(rest[1..])
        case None => None
        case Some((b, _)) => Some((a, b))
  }

  /** The C library function, for the three formats that the parser uses: "%04x" where the text
      does not start with four digits, "%d, " and "%d, %d". */
  datatype Sscanf = Sscanf(hex: OddHex, number: Bytes -> Option<int>, pair: Bytes -> Option<(int, int)>)

  function Libc(hex: OddHex): Sscanf {
    Sscanf(hex, s => if ScanInt(s).None? then None else Some(ScanInt(s).value.0), s => ScanPair(s))
  }

  // ----- parseTestLine -----

  datatype RegExpTest = RegExpTest(subject: seq<Unit>, offset: int, result: int, expectVector: seq<int>)

  /** Failures: the line is rejected, or the parser would look behind the end of the line. */
  datatype Outcome<T> = Parsed(value: T) | Failed(pastEnd: bool)

  /** The first position from `i` on of a character in `stops`, or the end of the line. */
  function SkipTo(line: Bytes, i: nat, stops: set<Byte>): (j: nat)
    requires i <= |line|
    ensures i <= j <= |line|
    decreases |line| - i
  {
    if i == |line| || line[i] in stops then i else SkipTo(line, i + 1, stops)
  }

  lemma {:induction false} SkipToIs(line: Bytes, i: nat, stops: set<Byte>, j: nat)
    requires i <= j < |line| && line[j] in stops && forall k :: i <= k < j ==> line[k] !in stops
    ensures SkipTo(line, i, stops) == j
    decreases j - i
  {
    if i < j {
      SkipToIs(line, i + 1, stops, j);
    }
  }

  const ENDS: set<Byte> := {COMMA, CLOSE}

  /** Two numbers and the position of the comma or parenthesis that ends them. */
  datatype PairOutcome = Pair(start: int, end: int, next: nat) | NoPair(pastEnd: bool)

  function ParsePair(line: Bytes, i: nat, f: Sscanf): (r: PairOutcome)
    requires i <= |line|
    ensures r.Pair? ==> i < r.next < |line|
  {
    var pair := f.pair(line[i..]);
    if pair.None? then NoPair(false)
    else
      var j := SkipTo(line, i, ENDS);
      if j == |line| then NoPair(true)
      else
        var k := SkipTo(line, j + 1, ENDS);
        if k == |line| then NoPair(false) else Pair(pair.value.0, pair.value.1, k)
  }

  function ParseVector(line: Bytes, i: nat, f: Sscanf): Outcome<seq<int>>
    requires i <= |line|
    decreases |line| - i
  {
    if i == |line| || line[i] == CLOSE then Parsed([])
    else
      var p := ParsePair(line, i, f);
      if p.NoPair? then Failed(p.pastEnd)
      else if line[p.next] == CLOSE then Parsed([p.start, p.end])
      else Prepend([p.start, p.end], ParseVector(line, p.next + 1, f))
  }

  function Prepend(v: seq<int>, o: Outcome<seq<int>>): Outcome<seq<int>> {
    if o.Parsed? then Parsed(v + o.value) else o
  }

  /** A number and the position after the space behind it. */
  datatype FieldOutcome = Field(number: int, next: nat) | NoField(pastEnd: bool)

  function ParseField(line: Bytes, i: nat, f: Sscanf): (r: FieldOutcome)
    requires i <= |line|
    ensures r.Field? ==> r.next <= |line|
  {
    var n := f.number(line[i..]);
    if n.None? then NoField(false)
    else
      var j := SkipTo(line, i, {SPACE});
      if j == |line| then NoField(true) else Field(n.value, j + 1)
  }

  /** The vector with its parentheses. */
  function ParseClosed(line: Bytes, i: nat, f: Sscanf): Outcome<seq<int>>
    requires i <= |line|
  {
    if i == |line| || line[i] != OPEN then Failed(false) else ParseVector(line, i + 1, f)
  }

  /** The offset, the result and the vector of a test with the given subject. */
  function ParseFields(subject: seq<Unit>, line: Bytes, i: nat, f: Sscanf): Outcome<RegExpTest>
    requires i <= |line|
  {
    var offset := ParseField(line, i, f);
    if offset.NoField? then Failed(offset.pastEnd)
    else
      var result := ParseField(line, offset.next, f);
      if result.NoField? then Failed(result.pastEnd)
      else
        var vector := ParseClosed(line, result.next, f);
        if vector.Failed? then Failed(vector.pastEnd)
        else Parsed(RegExpTest(subject, offset.number, result.number, vector.value))
  }

  function ParseTestLine(line: Bytes, f: Sscanf): Outcome<RegExpTest> {
    if |line| < 2 || line[0] != SPACE || line[1] != QUOTE then Failed(false)
    else
      var (end, subject) := Scan(line[2..], 0, false, QUOTE, f.hex);
      var i := end + 2;
      if i < 0 || i >= |line| - 2 || line[i] != QUOTE || line[i + 1] != COMMA || line[i + 2] != SPACE then Failed(false)
      else ParseFields(subject, line, i + 3, f)
  }

  // ----- The code of parseTestLine -----

  method SkipToAny(line: Bytes, start: nat, stops: set<Byte>) returns (i: nat)
    requires start <= |line|
    ensures i == SkipTo(line, start, stops)
  {
    i := start;
    while i < |line| && line[i] !in stops
      invariant start <= i <= |line| && SkipTo(line, i, stops) == SkipTo(line, start, stops)
    {
      i := i + 1;
    }
  }

  method ReadPair(line: Bytes, i: nat, f: Sscanf) returns (p: PairOutcome)
    requires i <= |line|
    ensures p == ParsePair(line, i, f)
  {
    var pair := f.pair(line[i..]);
    if pair.None? {
      return NoPair(false);
    }
    var j := SkipToAny(line, i, ENDS);
    if j == |line| {
      return NoPair(true);
    }
    var k := SkipToAny(line, j + 1, ENDS);
    if k == |line| {
      return NoPair(false);
    }
    return Pair(pair.value.0, pair.value.1, k);
  }

  lemma PrependNothing(o: Outcome<seq<int>>)
    ensures Prepend([], o) == o
  {
    if o.Parsed? {
      assert [] + o.value == o.value;
    }
  }

  lemma PrependTwice(v: seq<int>, w: seq<int>, o: Outcome<seq<int>>)
    ensures Prepend(v, Prepend(w, o)) == Prepend(v + w, o)
  {
    if o.Parsed? {
      assert v + (w + o.value) == (v + w) + o.value;
    }
  }

  /** One turn of the loop over the vector, with `v` read so far. */
  lemma VectorTurn(line: Bytes, i: nat, v: seq<int>, f: Sscanf)
    requires i < |line| && line[i] != CLOSE
    ensures var p := ParsePair(line, i, f);
            Prepend(v, ParseVector(line, i, f)) ==
            if p.NoPair? then Failed(p.pastEnd)
            else if line[p.next] == CLOSE then Parsed(v + [p.start, p.end])
            else Prepend(v + [p.start, p.end], ParseVector(line, p.next + 1, f))
  {
    var p := ParsePair(line, i, f);
    if p.Pair? {
      PrependTwice(v, [p.start, p.end], ParseVector(line, p.next + 1, f));
    }
  }

  method ReadVector(line: Bytes, start: nat, f: Sscanf) returns (o: Outcome<seq<int>>)
    requires start <= |line|
    ensures o == ParseVector(line, start, f)
  {
    var i, expectVector := start, [];
    PrependNothing(ParseVector(line, start, f));
    while i < |line| && line[i] != CLOSE
      invariant start <= i <= |line|
      invariant Prepend(expectVector, ParseVector(line, i, f)) == ParseVector(line, start, f)
      decreases |line| - i
    {
      VectorTurn(line, i, expectVector, f);
      var pair := ReadPair(line, i, f);
      if pair.NoPair? {
        return Failed(pair.pastEnd);
      }
      expectVector := expectVector + [pair.start, pair.end];
      if line[pair.next] == CLOSE {
        return Parsed(expectVector);
      }
      i := pair.next + 1;
    }
    assert expectVector + [] == expectVector;
    o := Parsed(expectVector);
  }

  method ReadField(line: Bytes, i: nat, f: Sscanf) returns (r: FieldOutcome)
    requires i <= |line|
    ensures r == ParseField(line, i, f)
  {
    var number := f.number(line[i..]);
    if number.None? {
      return NoField(false);
    }
    var j := SkipToAny(line, i, {SPACE});
    if j == |line| {
      return NoField(true);
    }
    return Field(number.value, j + 1);
  }

  method ReadTestLine(line: Bytes, f: Sscanf) returns (o: Outcome<RegExpTest>)
    ensures o == ParseTestLine(line, f)
  {
    if |line| < 2 || line[0] != SPACE || line[1] != QUOTE {
      return Failed(false);
    }
    var end, subject := ScanString(line[2..], QUOTE, f.hex);
    var i := end + 2;
    if i < 0 || i >= |line| - 2 || line[i] != QUOTE || line[i + 1] != COMMA || line[i + 2] != SPACE {
      return Failed(false);
    }
    var offset := ReadField(line, i + 3, f);
    if offset.NoField? {
      return Failed(offset.pastEnd);
    }
    var matchResult := ReadField(line, offset.next, f);
    if matchResult.NoField? {
      return Failed(matchResult.pastEnd);
    }
    i := matchResult.next;
    if i == |line| || line[i] != OPEN {
      return Failed(false);
    }
    var vector := ReadVector(line, i + 1, f);
    if vector.Failed? {
      return Failed(vector.pastEnd);
    }
    o := Parsed(RegExpTest(subject, offset.number, matchResult.number, vector.value));
  }

  // ----- Printing -----

  /** A comma and a space before `rest`. */
  function Sep(rest: Bytes): Bytes {
    [COMMA] + ([SPACE] + rest)
  }

  /** The numbers of the vector, separated, before `rest`. */
  function PrintVector(v: seq<int>, rest: Bytes): Bytes
    requires |v| % 2 == 0
    decreases |v|, 1
  {
    if v == [] then rest else PrintInt(v[0]) + Sep(PrintInt(v[1]) + AfterPair(v, rest))
  }

  function AfterPair(v: seq<int>, rest: Bytes): Bytes
    requires |v| >= 2 && |v| % 2 == 0
    decreases |v|, 0
  {
    if |v| == 2 then rest else Sep(PrintVector(v[2..], rest))
  }

  function PrintFields(offset: int, result: int, v: seq<int>): Bytes
    requires |v| % 2 == 0
  {
    PrintInt(offset) + Sep(PrintResult(result, v))
  }

  /** A test line whose subject is written with the given pieces. */
  function PrintLine(ps: seq<Piece>, offset: int, result: int, v: seq<int>): Bytes
    requires |v| % 2 == 0
  {
    [SPACE, QUOTE] + (SourceAll(ps) + ([QUOTE] + Sep(PrintFields(offset, result, v))))
  }

  // ----- Parsing what was printed -----

  /** `f` reads the pairs of a printed vector, with or without a space before them. */
  ghost predicate ReadsVector(f: Sscanf, v: seq<int>)
    requires |v| % 2 == 0
  {
    v == [] ||
    (&& f.pair(PrintVector(v, [CLOSE])) == Some((v[0], v[1]))
     && f.pair([SPACE] + PrintVector(v, [CLOSE])) == Some((v[0], v[1]))
     && ReadsVector(f, v[2..]))
  }

  /** What follows the offset of a printed line. */
  function PrintResult(result: int, v: seq<int>): Bytes
    requires |v| % 2 == 0
  {
    PrintInt(result) + Sep([OPEN] + PrintVector(v, [CLOSE]))
  }

  /** `f` reads the numbers of a printed line. */
  ghost predicate ReadsFields(f: Sscanf, offset: int, result: int, v: seq<int>)
    requires |v| % 2 == 0
  {
    && f.number(PrintFields(offset, result, v)) == Some(offset)
    && f.number(PrintResult(result, v)) == Some(result)
    && ReadsVector(f, v)
  }

  lemma PairScans(a: int, b: int, rest: Bytes)
    requires rest == [] || !IsDigit(rest[0])
    ensures ScanPair(PrintInt(a) + Sep(PrintInt(b) + rest)) == Some((a, b))
  {
    var t := [SPACE] + (PrintInt(b) + rest);
    ScanPrintInt(a, [COMMA] + t);
    assert ([COMMA] + t)[1..] == t;
    ScanAfterSpace(PrintInt(b) + rest);
    ScanPrintInt(b, rest);
  }

  lemma PairAfterSpace(s: Bytes)
    ensures ScanPair([SPACE] + s) == ScanPair(s)
  {
    ScanAfterSpace(s);
  }

  lemma {:induction false} LibcReadsVector(hex: OddHex, v: seq<int>)
    requires |v| % 2 == 0
    ensures ReadsVector(Libc(hex), v)
    decreases |v|
  {
    if v != [] {
      PairScans(v[0], v[1], AfterPair(v, [CLOSE]));
      PairAfterSpace(PrintVector(v, [CLOSE]));
      LibcReadsVector(hex, v[2..]);
    }
  }

  lemma LibcReadsFields(hex: OddHex, offset: int, result: int, v: seq<int>)
    requires |v| % 2 == 0
    ensures ReadsFields(Libc(hex), offset, result, v)
  {
    ScanPrintInt(offset, Sep(PrintResult(result, v)));
    ScanPrintInt(result, Sep([OPEN] + PrintVector(v, [CLOSE])));
    LibcReadsVector(hex, v);
  }

  /** Moves past `a`, with which the line goes on at `i`. */
  lemma Advance(line: Bytes, i: nat, a: Bytes, rest: Bytes, j: nat)
    requires i <= |line| && line[i..] == a + rest && j == i + |a|
    ensures j <= |line| && line[i..j] == a && line[j..] == rest && (rest != [] ==> j < |line| && line[j] == rest[0])
  {
    assert |line[i..]| == |a| + |rest|;
    assert line[i..j] == line[i..][..|a|];
    assert line[j..] == line[i..][|a|..];
    if rest != [] {
      assert line[j] == line[j..][0];
    }
  }

  lemma AdvanceSep(line: Bytes, i: nat, rest: Bytes)
    requires i <= |line| && line[i..] == Sep(rest)
    ensures i + 2 <= |line| && line[i] == COMMA && line[i + 1] == SPACE && line[i + 2..] == rest
  {
    assert |line[i..]| == 2 + |rest|;
    assert line[i] == line[i..][0] && line[i + 1] == line[i..][1] && line[i + 2..] == line[i..][2..];
  }

  /** Past a printed number there is no stop inside it. */
  lemma AdvanceInt(line: Bytes, i: nat, n: int, rest: Bytes, j: nat)
    requires i <= |line| && line[i..] == PrintInt(n) + rest && j == i + |PrintInt(n)|
    ensures i < j <= |line| && line[j..] == rest && (rest != [] ==> j < |line| && line[j] == rest[0])
    ensures forall k :: i <= k < j ==> line[k] !in {SPACE, COMMA, CLOSE}
  {
    Advance(line, i, PrintInt(n), rest, j);
    PrintIntPlain(n);
    forall k | i <= k < j ensures line[k] !in {SPACE, COMMA, CLOSE} {
      assert line[k] == line[i..j][k - i];
    }
  }

  lemma FieldParses(line: Bytes, i: nat, n: int, rest: Bytes, f: Sscanf) returns (j: nat)
    requires i <= |line| && line[i..] == PrintInt(n) + Sep(rest) && f.number(line[i..]) == Some(n)
    ensures j <= |line| && ParseField(line, i, f) == Field(n, j) && line[j..] == rest
  {
    j := i + |PrintInt(n)|;
    AdvanceInt(line, i, n, Sep(rest), j);
    AdvanceSep(line, j, rest);
    SkipToIs(line, i, {SPACE}, j + 1);
    j := j + 2;
  }

  /** Past the first number of a pair that starts at `i`, and past the second one. */
  lemma SkipPair(line: Bytes, i: nat, a: int, b: int, rest: Bytes, j: nat, k: nat)
    requires i <= |line| && line[i..] == PrintInt(a) + Sep(PrintInt(b) + rest)
    requires rest != [] && rest[0] in ENDS && j == i + |PrintInt(a)| && k == j + 2 + |PrintInt(b)|
    ensures k < |line| && SkipTo(line, i, ENDS) == j && SkipTo(line, j + 1, ENDS) == k && line[k..] == rest
    ensures line[i] !in ENDS
  {
    var second := PrintInt(b) + rest;
    AdvanceInt(line, i, a, Sep(second), j);
    AdvanceSep(line, j, second);
    SkipToIs(line, i, ENDS, j);
    SkipSecond(line, j + 2, b, rest, k);
  }

  lemma SkipSecond(line: Bytes, i: nat, b: int, rest: Bytes, k: nat)
    requires 1 <= i <= |line| && line[i - 1] == SPACE && line[i..] == PrintInt(b) + rest
    requires rest != [] && rest[0] in ENDS && k == i + |PrintInt(b)|
    ensures k < |line| && SkipTo(line, i - 1, ENDS) == k && line[k..] == rest
  {
    AdvanceInt(line, i, b, rest, k);
    SkipToIs(line, i - 1, ENDS, k);
  }

  lemma PrintedPair(line: Bytes, i: nat, a: int, b: int, rest: Bytes, f: Sscanf) returns (k: nat)
    requires rest != [] && rest[0] in ENDS && i <= |line| && line[i..] == PrintInt(a) + Sep(PrintInt(b) + rest)
    ensures i < k < |line| && line[i] !in ENDS && line[k..] == rest
    ensures f.pair(line[i..]) == Some((a, b)) ==> ParsePair(line, i, f) == Pair(a, b, k)
    ensures i > 0 && line[i - 1] == SPACE && f.pair(line[i - 1..]) == Some((a, b)) ==>
              ParsePair(line, i - 1, f) == Pair(a, b, k)
  {
    var j := i + |PrintInt(a)|;
    k := j + 2 + |PrintInt(b)|;
    SkipPair(line, i, a, b, rest, j, k);
    if i > 0 && line[i - 1] == SPACE {
      assert SkipTo(line, i - 1, ENDS) == j;
      SkippedPair(line, i - 1, j, k, (a, b), f);
    }
    SkippedPair(line, i, j, k, (a, b), f);
  }

  lemma SkippedPair(line: Bytes, i: nat, j: nat, k: nat, v: (int, int), f: Sscanf)
    requires i <= j < k < |line| && SkipTo(line, i, ENDS) == j && SkipTo(line, j + 1, ENDS) == k
    ensures f.pair(line[i..]) == Some(v) ==> ParsePair(line, i, f) == Pair(v.0, v.1, k)
  {
  }

  /** A pair at `i`, possibly after a space. */
  lemma VectorStep(line: Bytes, i: nat, a: int, b: int, k: nat, f: Sscanf)
    requires i < |line| && line[i] != CLOSE && ParsePair(line, i, f) == Pair(a, b, k)
    ensures ParseVector(line, i, f) ==
            if line[k] == CLOSE then Parsed([a, b]) else Prepend([a, b], ParseVector(line, k + 1, f))
  {
  }

  /** The vector is read at `i`, or at `i - 1` with a space there. */
  lemma {:induction false} VectorParses(line: Bytes, i: nat, v: seq<int>, f: Sscanf)
    requires |v| >= 2 && |v| % 2 == 0 && ReadsVector(f, v) && i <= |line| && line[i..] == PrintVector(v, [CLOSE])
    ensures ParseVector(line, i, f) == Parsed(v)
    ensures i > 0 && line[i - 1] == SPACE ==> ParseVector(line, i - 1, f) == Parsed(v)
    decreases |v|, 1
  {
    var k := PrintedPair(line, i, v[0], v[1], AfterPair(v, [CLOSE]), f);
    RestParses(line, k, v, f);
    VectorStep(line, i, v[0], v[1], k, f);
    if i > 0 && line[i - 1] == SPACE {
      assert line[i - 1..] == [SPACE] + line[i..];
      VectorStep(line, i - 1, v[0], v[1], k, f);
    }
  }

  lemma {:induction false} RestParses(line: Bytes, k: nat, v: seq<int>, f: Sscanf)
    requires |v| >= 2 && |v| % 2 == 0 && ReadsVector(f, v) && k < |line| && line[k..] == AfterPair(v, [CLOSE])
    ensures Parsed(v) ==
            if line[k] == CLOSE then Parsed([v[0], v[1]]) else Prepend([v[0], v[1]], ParseVector(line, k + 1, f))
    decreases |v|, 0
  {
    assert v == [v[0], v[1]] + v[2..];
    if |v| == 2 {
      assert line[k] == line[k..][0] && v == [v[0], v[1]];
    } else {
      AdvanceSep(line, k, PrintVector(v[2..], [CLOSE]));
      VectorParses(line, k + 2, v[2..], f);
    }
  }

  lemma ClosedParses(line: Bytes, k: nat, v: seq<int>, f: Sscanf)
    requires |v| % 2 == 0 && ReadsVector(f, v) && k <= |line| && line[k..] == [OPEN] + PrintVector(v, [CLOSE])
    ensures ParseClosed(line, k, f) == Parsed(v)
  {
    assert line[k] == line[k..][0];
    Advance(line, k, [OPEN], PrintVector(v, [CLOSE]), k + 1);
    if v == [] {
      assert line[k + 1] == line[k + 1..][0];
    } else {
      VectorParses(line, k + 1, v, f);
    }
  }

  /** The fields after the subject. */
  lemma FieldsParse(line: Bytes, i: nat, subject: seq<Unit>, offset: int, result: int, v: seq<int>, f: Sscanf)
    requires |v| % 2 == 0 && ReadsFields(f, offset, result, v)
    requires i <= |line| && line[i..] == PrintFields(offset, result, v)
    ensures ParseFields(subject, line, i, f) == Parsed(RegExpTest(subject, offset, result, v))
  {
    var j := FieldParses(line, i, offset, PrintResult(result, v), f);
    var k := FieldParses(line, j, result, [OPEN] + PrintVector(v, [CLOSE]), f);
    ClosedParses(line, k, v, f);
  }

  /** The subject and what stands around it. */
  lemma SubjectParses(line: Bytes, ps: seq<Piece>, rest: Bytes, end: nat, odd: OddHex)
    requires line == [SPACE, QUOTE] + (SourceAll(ps) + ([QUOTE] + Sep(rest)))
    requires AllValid(ps, QUOTE) && end == |SourceAll(ps)|
    ensures end + 5 <= |line| && line[0] == SPACE && line[1] == QUOTE && line[end + 5..] == rest
    ensures line[end + 2] == QUOTE && line[end + 3] == COMMA && line[end + 4] == SPACE
    ensures Scan(line[2..], 0, false, QUOTE, odd) == (end, Values(ps, QUOTE))
  {
    var buffer := line[2..];
    assert buffer == SourceAll(ps) + ([QUOTE] + Sep(rest));
    assert buffer[0..end] == SourceAll(ps) && buffer[end] == QUOTE;
    ScanPieces(buffer, 0, ps, end, QUOTE, odd);
  }

  /** Every printed line parses to what was printed, however the characters of the subject are
      encoded. */
  lemma LineRoundTrip(ps: seq<Piece>, offset: int, result: int, v: seq<int>, f: Sscanf)
    requires AllValid(ps, QUOTE) && |v| % 2 == 0 && ReadsFields(f, offset, result, v)
    ensures ParseTestLine(PrintLine(ps, offset, result, v), f)
            == Parsed(RegExpTest(Values(ps, QUOTE), offset, result, v))
  {
    var line, end := PrintLine(ps, offset, result, v), |SourceAll(ps)|;
    SubjectParses(line, ps, PrintFields(offset, result, v), end, f.hex);
    FieldsParse(line, end + 5, Values(ps, QUOTE), offset, result, v, f);
    LineStarts(line, end, f);
  }

  lemma LineStarts(line: Bytes, end: nat, f: Sscanf)
    requires end + 5 <= |line| && line[0] == SPACE && line[1] == QUOTE
    requires line[end + 2] == QUOTE && line[end + 3] == COMMA && line[end + 4] == SPACE
    requires Scan(line[2..], 0, false, QUOTE, f.hex).0 == end
    ensures ParseTestLine(line, f) == ParseFields(Scan(line[2..], 0, false, QUOTE, f.hex).1, line, end + 5, f)
  {
  }

  // ----- A printer for every subject -----

  function HexChar(n: nat): Byte
    requires n < 16
  {
    if n < 10 then 48 + n else 87 + n
  }

  /** Printable ASCII characters as they are, everything else as four hexadecimal digits. */
  function Encode(u: Unit): Piece {
    if 32 <= u < 127 && u != QUOTE && u != BACKSLASH then Plain(u)
    else Hex([HexChar(u / 16 / 16 / 16), HexChar(u / 16 / 16 % 16), HexChar(u / 16 % 16), HexChar(u % 16)])
  }

  function EncodeAll(subject: seq<Unit>): seq<Piece> {
    seq(|subject|, i requires 0 <= i < |subject| => Encode(subject[i]))
  }

  lemma HexCharValue(n: nat)
    requires n < 16
    ensures IsHexDigit(HexChar(n)) && HexDigit(HexChar(n)) == n
  {
  }

  lemma Nibbles(u: Unit)
    ensures u / 16 / 16 / 16 < 16
    ensures u == 0x1000 * (u / 16 / 16 / 16) + 0x100 * (u / 16 / 16 % 16) + 0x10 * (u / 16 % 16) + u % 16
  {
    var a := u / 16;
    var b := a / 16;
    assert u == 16 * a + u % 16 && a == 16 * b + a % 16 && b == 16 * (b / 16) + b % 16;
  }

  lemma EncodeValue(u: Unit)
    ensures Valid(Encode(u), QUOTE) && Value(Encode(u)) == u
  {
    Nibbles(u);
    HexCharValue(u / 16 / 16 / 16);
    HexCharValue(u / 16 / 16 % 16);
    HexCharValue(u / 16 % 16);
    HexCharValue(u % 16);
  }

  lemma {:induction false} EncodeAllValues(subject: seq<Unit>)
    ensures AllValid(EncodeAll(subject), QUOTE) && Values(EncodeAll(subject), QUOTE) == subject
  {
    forall i | 0 <= i < |subject| ensures Valid(EncodeAll(subject)[i], QUOTE) {
      EncodeValue(subject[i]);
    }
    if subject != [] {
      EncodeValue(subject[0]);
      assert EncodeAll(subject)[1..] == EncodeAll(subject[1..]);
      EncodeAllValues(subject[1..]);
      assert subject == [subject[0]] + subject[1..];
    }
  }

  /** For every test record with an even number of expected offsets, printing and parsing gives the
      record back. */
  lemma RecordRoundTrip(t: RegExpTest, hex: OddHex)
    requires |t.expectVector| % 2 == 0
    ensures ParseTestLine(PrintLine(EncodeAll(t.subject), t.offset, t.result, t.expectVector), Libc(hex)) == Parsed(t)
  {
    EncodeAllValues(t.subject);
    LibcReadsFields(hex, t.offset, t.result, t.expectVector);
    LineRoundTrip(EncodeAll(t.subject), t.offset, t.result, t.expectVector, Libc(hex));
  }
}
