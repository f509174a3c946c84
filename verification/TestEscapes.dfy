/** What escaped characters in a test line stand for, and a printer that uses them. */
module TestEscapes {
  import opened Binary
  import opened Decimal
  import opened TestLine

  /** The characters that the parser looks for. */
  lemma Spelling()
    ensures [SPACE, QUOTE, OPEN, CLOSE, COMMA, BACKSLASH, LETTER_U] == Ascii(" \"(),\\u")
  {
  }

  // ----- Escapes -----

  /** The letters for the control characters from 7 on. */
  const LETTERS: Bytes := Ascii("abtnvfr")

  const LOWER_DIGITS: Bytes := Ascii("0123456789abcdef")
  const UPPER_DIGITS: Bytes := Ascii("0123456789ABCDEF")

  /** A signed char as an unsigned number of 16 bits. */
  function Signed(b: Byte): Unit {
    if b <= 127 then b else (b as int) - 256 + 65536
  }

  /** A backslash and `b` stand for `u`. */
  ghost predicate StandsFor(b: Byte, u: Unit) {
    || (exists k :: 0 <= k < 7 && b == LETTERS[k] && u == 7 + k)
    || (b == '0' as int && u == 0)
    || (b !in Ascii("abtnvfr0") && u == Signed(b))
  }

  lemma LettersAre()
    ensures LETTERS == [97, 98, 116, 110, 118, 102, 114] && Ascii("abtnvfr0") == LETTERS + [48]
  {
  }

  lemma EscapeStandsFor(b: Byte, u: Unit)
    ensures StandsFor(b, u) <==> u == Escape(b)
  {
    LettersAre();
    var l := LETTERS;
    assert l[0] == 97 && l[1] == 98 && l[2] == 116 && l[3] == 110 && l[4] == 118 && l[5] == 102 && l[6] == 114;
    assert b in l <==> b in {97, 98, 116, 110, 118, 102, 114};
    assert b in Ascii("abtnvfr0") <==> b in l || b == 48;
    if b in l && u == Escape(b) {
      assert b == l[u - 7];
    }
  }

  /** An escaped character other than `u` is scanned to what it stands for, and to nothing else. */
  lemma EscapeScans(buffer: Bytes, i: nat, u: Unit, term: Byte, odd: OddHex)
    requires i + 2 <= |buffer| && buffer[i] == '\\' as int && buffer[i + 1] != 'u' as int && IsTerminator(term)
    ensures var rest := Scan(buffer, i + 2, false, term, odd);
            StandsFor(buffer[i + 1], u) <==> Scan(buffer, i, false, term, odd) == (rest.0, [u] + rest.1)
  {
    var rest := Scan(buffer, i + 2, false, term, odd);
    var e := Escape(buffer[i + 1]);
    EscapeStandsFor(buffer[i + 1], u);
    assert Scan(buffer, i, false, term, odd) == Scan(buffer, i + 1, true, term, odd) == (rest.0, [e] + rest.1);
    assert ([e] + rest.1)[0] == e && ([u] + rest.1)[0] == u;
  }

  /** Other characters are scanned to themselves, as signed chars. */
  lemma PlainScans(buffer: Bytes, i: nat, term: Byte, odd: OddHex)
    requires i < |buffer| && buffer[i] != '\\' as int && buffer[i] != term && IsTerminator(term)
    ensures var rest := Scan(buffer, i + 1, false, term, odd);
            Scan(buffer, i, false, term, odd) == (rest.0, [Signed(buffer[i])] + rest.1)
  {
  }

  lemma DigitsAre(k: nat)
    requires k < 16
    ensures LOWER_DIGITS[k] == (if k < 10 then 48 + k else 87 + k)
    ensures UPPER_DIGITS[k] == (if k < 10 then 48 + k else 55 + k)
  {
    assert LOWER_DIGITS == [48, 49, 50, 51, 52, 53, 54, 55, 56, 57, 97, 98, 99, 100, 101, 102];
    assert UPPER_DIGITS == [48, 49, 50, 51, 52, 53, 54, 55, 56, 57, 65, 66, 67, 68, 69, 70];
  }

  /** Hexadecimal digits in either case. */
  lemma HexDigitIs(b: Byte, k: nat)
    requires k < 16
    ensures IsHexDigit(b) && HexDigit(b) == k <==> b == LOWER_DIGITS[k] || b == UPPER_DIGITS[k]
  {
    DigitsAre(k);
  }

  /** `d` is a digit of value `k`. */
  predicate IsDigitOf(d: Byte, k: nat) {
    k < 16 && (d == LOWER_DIGITS[k] || d == UPPER_DIGITS[k])
  }

  /** Four digits, in either case, and their value. */
  lemma HexValueIs(h: Bytes, a: nat, b: nat, c: nat, d: nat)
    requires |h| == 4 && IsDigitOf(h[0], a) && IsDigitOf(h[1], b) && IsDigitOf(h[2], c) && IsDigitOf(h[3], d)
    ensures AllHex(h) && HexValue(h) == ((a * 16 + b) * 16 + c) * 16 + d
  {
    HexDigitIs(h[0], a);
    HexDigitIs(h[1], b);
    HexDigitIs(h[2], c);
    HexDigitIs(h[3], d);
  }

  lemma HexEscape(buffer: Bytes, j: nat, h: Bytes, u: Unit, term: Byte, odd: OddHex)
    requires j + 5 <= |buffer| && buffer[j] == LETTER_U && h == buffer[j + 1..j + 5] && AllHex(h) && HexValue(h) == u
    ensures Scan(buffer, j, true, term, odd) == Put(u, Scan(buffer, j + 5, false, term, odd))
  {
  }

  /** Four digits behind `\u` are scanned to their value. */
  lemma HexScans(buffer: Bytes, i: nat, h: Bytes, term: Byte, odd: OddHex)
    requires i + 6 <= |buffer| && buffer[i] == '\\' as int && buffer[i + 1] == 'u' as int && IsTerminator(term)
    requires h == buffer[i + 2..i + 6] && AllHex(h)
    ensures var rest := Scan(buffer, i + 6, false, term, odd);
            Scan(buffer, i, false, term, odd) == (rest.0, [HexValue(h)] + rest.1)
  {
    HexEscape(buffer, i + 1, h, HexValue(h), term, odd);
    assert Scan(buffer, i, false, term, odd) == Scan(buffer, i + 1, true, term, odd);
  }

  // ----- A printer that uses them -----

  function UpperDigits(u: Unit): Bytes {
    [UPPER_DIGITS[u / 16 / 16 / 16 % 16], UPPER_DIGITS[u / 16 / 16 % 16], UPPER_DIGITS[u / 16 % 16],
     UPPER_DIGITS[u % 16]]
  }

  /** Control characters by their letters, bytes as they are, everything else by its digits. */
  function EncodeShort(u: Unit): Piece {
    if u == 0 then Escaped('0' as int)
    else if 7 <= u <= 13 then Escaped(LETTERS[u - 7])
    else if u == '\"' as int || u == '\\' as int then Escaped(u)
    else if 32 <= u < 127 then Plain(u)
    else if u >= 0xff80 then Plain(u - 0xff00)
    else Hex(UpperDigits(u))
  }

  function EncodeAllShort(subject: seq<Unit>): seq<Piece> {
    seq(|subject|, i requires 0 <= i < |subject| => EncodeShort(subject[i]))
  }

  lemma UpperDigitsValue(u: Unit)
    ensures AllHex(UpperDigits(u)) && HexValue(UpperDigits(u)) == u
  {
    Nibbles(u);
    HexValueIs(UpperDigits(u), u / 16 / 16 / 16, u / 16 / 16 % 16, u / 16 % 16, u % 16);
  }

  lemma EncodeShortValue(u: Unit)
    ensures Valid(EncodeShort(u), QUOTE) && Value(EncodeShort(u)) == u
  {
    if 7 <= u <= 13 {
      LetterValue(u);
    } else {
      UpperDigitsValue(u);
    }
  }

  lemma LetterValue(u: Unit)
    requires 7 <= u <= 13
    ensures LETTERS[u - 7] != LETTER_U && Escape(LETTERS[u - 7]) == u
  {
    EscapeStandsFor(LETTERS[u - 7], u);
    LettersAre();
  }

  lemma {:induction false} EncodeAllShortValues(subject: seq<Unit>)
    ensures AllValid(EncodeAllShort(subject), QUOTE) && Values(EncodeAllShort(subject), QUOTE) == subject
  {
    forall i | 0 <= i < |subject| ensures Valid(EncodeAllShort(subject)[i], QUOTE) {
      EncodeShortValue(subject[i]);
    }
    if subject != [] {
      EncodeShortValue(subject[0]);
      assert EncodeAllShort(subject)[1..] == EncodeAllShort(subject[1..]);
      EncodeAllShortValues(subject[1..]);
      assert subject == [subject[0]] + subject[1..];
    }
  }

  /** Every test record, printed with escapes, comes back. */
  lemma EscapedRoundTrip(t: RegExpTest, hex: OddHex)
    requires |t.expectVector| % 2 == 0
    ensures ParseTestLine(PrintLine(EncodeAllShort(t.subject), t.offset, t.result, t.expectVector), Libc(hex))
            == Parsed(t)
  {
    EncodeAllShortValues(t.subject);
    LibcReadsFields(hex, t.offset, t.result, t.expectVector);
    LineRoundTrip(EncodeAllShort(t.subject), t.offset, t.result, t.expectVector, Libc(hex));
  }
}
