/** The `COMPARE_n` macros of the generated file, over the bytes of the source buffer. */
module KeywordCompare {
  import opened KeywordTrie

  /** The preprocessor configurations that select the macro definitions. */
  datatype Cpu = NeedsAlignedAccess | BigEndian | LittleEndian | X86_64

  /** What evaluating a test does.  `NoMacro`: no macro compares that many characters, so the
      generated file does not compile. */
  datatype Verdict = Holds | Fails | OutOfRange | NoMacro

  /** C's `&&`: the right operand is evaluated only if the left one holds. */
  function And(a: Verdict, b: Verdict): Verdict {
    if a == Holds then b else a
  }

  function Decide(b: bool): Verdict {
    if b then Holds else Fails
  }

  // ----- Memory -----

  /** The buffer's characters fit its character type, LChar or UChar. */
  ghost predicate Fits(wide: bool, s: Text) {
    wide || forall i :: 0 <= i < |s| ==> s[i] < 0x100
  }

  function UnitBytes(big: bool, wide: bool, u: CodeUnit): seq<int> {
    if !wide then [u] else if big then [u / 0x100, u % 0x100] else [u % 0x100, u / 0x100]
  }

  function Bytes(big: bool, wide: bool, s: Text): seq<int> {
    if s == [] then [] else UnitBytes(big, wide, s[0]) + Bytes(big, wide, s[1..])
  }

  /** The unsigned integer that a load of these bytes yields. */
  function Load(big: bool, bytes: seq<int>): int {
    if bytes == [] then 0
    else if big then 0x100 * Load(big, bytes[..|bytes| - 1]) + bytes[|bytes| - 1]
    else bytes[0] + 0x100 * Load(big, bytes[1..])
  }

  /** Equality of a load of `n` characters at `code + i` with a constant. */
  function LoadEquals(cpu: Cpu, wide: bool, code: Text, i: nat, n: nat, word: int): Verdict {
    if i + n > |code| then OutOfRange
    else Decide(Load(cpu.BigEndian?, Bytes(cpu.BigEndian?, wide, code[i..i + n])) == word)
  }

  // ----- The macros -----

  function CharPair(big: bool, a: CodeUnit, b: CodeUnit): int {
    if big then a * 0x100 + b else b * 0x100 + a
  }

  function UCharPair(big: bool, a: CodeUnit, b: CodeUnit): int {
    if big then a * 0x1_0000 + b else b * 0x1_0000 + a
  }

  function CompareUnit(code: Text, i: nat, c: CodeUnit): Verdict {
    if i >= |code| then OutOfRange else Decide(code[i] == c)
  }

  function Compare2(cpu: Cpu, wide: bool, code: Text, i: nat, c: Text): Verdict
    requires |c| == 2
  {
    if cpu.NeedsAlignedAccess? then And(CompareUnit(code, i, c[0]), CompareUnit(code, i + 1, c[1]))
    else LoadEquals(cpu, wide, code, i, 2,
                    if wide then UCharPair(cpu.BigEndian?, c[0], c[1]) else CharPair(cpu.BigEndian?, c[0], c[1]))
  }

  function Compare4(cpu: Cpu, wide: bool, code: Text, i: nat, c: Text): Verdict
    requires |c| == 4
  {
    if cpu.X86_64? then
      LoadEquals(cpu, wide, code, i, 4,
                 if wide then UCharPair(false, c[2], c[3]) * 0x1_0000_0000 + UCharPair(false, c[0], c[1])
                 else CharPair(false, c[2], c[3]) * 0x1_0000 + CharPair(false, c[0], c[1]))
    else And(Compare2(cpu, wide, code, i, c[..2]), Compare2(cpu, wide, code, i + 2, c[2..]))
  }

  /** The printed test: `code[i] == c`, or `COMPARE_n(code + i, c...)`. */
  function Compare(cpu: Cpu, wide: bool, code: Text, i: nat, c: Text): Verdict {
    match |c|
    case 1 => CompareUnit(code, i, c[0])
    case 2 => Compare2(cpu, wide, code, i, c)
    case 3 => And(Compare2(cpu, wide, code, i, c[..2]), CompareUnit(code, i + 2, c[2]))
    case 4 => Compare4(cpu, wide, code, i, c)
    case 5 => And(Compare4(cpu, wide, code, i, c[..4]), CompareUnit(code, i + 4, c[4]))
    case 6 => And(Compare4(cpu, wide, code, i, c[..4]), Compare2(cpu, wide, code, i + 4, c[4..]))
    case 7 => And(Compare4(cpu, wide, code, i, c[..4]), Compare4(cpu, wide, code, i + 3, c[3..]))
    case 8 => And(Compare4(cpu, wide, code, i, c[..4]), Compare4(cpu, wide, code, i + 4, c[4..]))
    case _ => NoMacro
  }

  // ----- Packed compares refine character compares -----

  /** A quote or a backslash between quotes is no character literal. */
  predicate IsWritable(c: CodeUnit) {
    c != 39 && c != 92
  }

  /** The literal of any other ASCII character stands for its own code. */
  predicate IsLiteral(c: CodeUnit) {
    c < 0x80 && IsWritable(c)
  }

  ghost predicate Literals(s: Text) {
    forall i :: 0 <= i < |s| ==> IsLiteral(s[i])
  }

  lemma Bytes2(big: bool, wide: bool, s: Text)
    requires |s| == 2
    ensures Bytes(big, wide, s) == UnitBytes(big, wide, s[0]) + UnitBytes(big, wide, s[1])
  {
    assert s[1..] == [s[1]];
    assert Bytes(big, wide, s[1..]) == UnitBytes(big, wide, s[1]) + Bytes(big, wide, s[1..][1..]);
  }

  lemma Load1(big: bool, a: int)
    ensures Load(big, [a]) == a
  {
    assert [a][..0] == [] && [a][1..] == [];
  }

  lemma Load2(big: bool, a: int, b: int)
    ensures Load(big, [a, b]) == if big then 0x100 * a + b else a + 0x100 * b
  {
    assert [a, b][..1] == [a] && [a, b][1..] == [b];
    Load1(big, a);
    Load1(big, b);
  }

  lemma Load4(big: bool, a: int, b: int, c: int, d: int)
    ensures Load(big, [a, b, c, d]) ==
            if big then 0x1_0000 * Load(big, [a, b]) + Load(big, [c, d])
            else Load(big, [a, b]) + 0x1_0000 * Load(big, [c, d])
  {
    Load2(big, a, b);
    Load2(big, c, d);
    assert [a, b, c, d][..3] == [a, b, c] && [a, b, c][..2] == [a, b];
    assert [a, b, c, d][1..] == [b, c, d] && [b, c, d][1..] == [c, d];
    assert Load(big, [a, b, c]) == if big then 0x100 * Load(big, [a, b]) + c else Load(big, [a, b, c]);
    assert Load(big, [b, c, d]) == if big then Load(big, [b, c, d]) else b + 0x100 * Load(big, [c, d]);
  }

  lemma LoadNarrow2(big: bool, s: Text)
    requires |s| == 2
    ensures Load(big, Bytes(big, false, s)) == CharPair(big, s[0], s[1])
  {
    Bytes2(big, false, s);
    Load2(big, s[0], s[1]);
  }

  lemma LoadWide2(big: bool, s: Text)
    requires |s| == 2
    ensures Load(big, Bytes(big, true, s)) == UCharPair(big, s[0], s[1])
  {
    Bytes2(big, true, s);
    var a, b := UnitBytes(big, true, s[0]), UnitBytes(big, true, s[1]);
    assert a + b == [a[0], a[1], b[0], b[1]];
    Load4(big, a[0], a[1], b[0], b[1]);
    Load2(big, a[0], a[1]);
    Load2(big, b[0], b[1]);
  }

  /** A little-endian load of more characters is a shifted sum. */
  lemma {:induction false} LoadLittleAppend(a: seq<int>, b: seq<int>)
    ensures Load(false, a + b) == Load(false, a) + Power256(|a|) * Load(false, b)
  {
    if a == [] {
      assert a + b == b;
    } else {
      assert (a + b)[1..] == a[1..] + b;
      LoadLittleAppend(a[1..], b);
    }
  }

  function Power256(n: nat): nat {
    if n == 0 then 1 else 0x100 * Power256(n - 1)
  }

  lemma {:induction false} BytesAppend(big: bool, wide: bool, s: Text, t: Text)
    ensures Bytes(big, wide, s + t) == Bytes(big, wide, s) + Bytes(big, wide, t)
  {
    if s == [] {
      assert s + t == t;
    } else {
      assert (s + t)[1..] == s[1..] + t;
      BytesAppend(big, wide, s[1..], t);
    }
  }

  lemma LoadLittle4(wide: bool, s: Text)
    requires |s| == 4
    ensures Load(false, Bytes(false, wide, s)) ==
            if wide then UCharPair(false, s[2], s[3]) * 0x1_0000_0000 + UCharPair(false, s[0], s[1])
            else CharPair(false, s[2], s[3]) * 0x1_0000 + CharPair(false, s[0], s[1])
  {
    assert s == s[..2] + s[2..];
    BytesAppend(false, wide, s[..2], s[2..]);
    LoadLittleAppend(Bytes(false, wide, s[..2]), Bytes(false, wide, s[2..]));
    Bytes2(false, wide, s[..2]);
    if wide {
      LoadWide2(false, s[..2]);
      LoadWide2(false, s[2..]);
      assert |Bytes(false, wide, s[..2])| == 4;
      assert Power256(4) == 0x1_0000_0000;
    } else {
      LoadNarrow2(false, s[..2]);
      LoadNarrow2(false, s[2..]);
      assert |Bytes(false, wide, s[..2])| == 2;
      assert Power256(2) == 0x1_0000;
    }
  }

  lemma Compare2Meaning(cpu: Cpu, wide: bool, code: Text, i: nat, c: Text)
    requires |c| == 2 && i + 2 <= |code| && Fits(wide, code) && Literals(c)
    ensures Compare2(cpu, wide, code, i, c) == Decide(code[i..i + 2] == c)
  {
    var s := code[i..i + 2];
    assert s == [code[i], code[i + 1]];
    if !cpu.NeedsAlignedAccess? {
      PackedPair(cpu.BigEndian?, wide, s, c);
    }
  }

  lemma PackedPair(big: bool, wide: bool, s: Text, c: Text)
    requires |s| == |c| == 2 && Fits(wide, s) && Literals(c)
    ensures Load(big, Bytes(big, wide, s)) == (if wide then UCharPair(big, c[0], c[1]) else CharPair(big, c[0], c[1]))
            <==> s == c
  {
    if wide {
      LoadWide2(big, s);
    } else {
      LoadNarrow2(big, s);
    }
    var high, low := if big then 0 else 1, if big then 1 else 0;
    Digits(if wide then 0x1_0000 else 0x100, s[high], s[low], c[high], c[low]);
  }

  /** Two compares that together cover all characters, possibly overlapping, decide equality. */
  lemma CoverEqual(s: Text, c: Text, k: nat, m: nat)
    requires |s| == |c| && k <= m <= |c|
    ensures s == c <==> s[..m] == c[..m] && s[k..] == c[k..]
  {
    if s[..m] == c[..m] && s[k..] == c[k..] {
      forall j | 0 <= j < |s| ensures s[j] == c[j] {
        if j < m {
          assert s[..m][j] == c[..m][j];
        } else {
          assert s[k..][j - k] == c[k..][j - k];
        }
      }
    }
  }

  /** Two-digit numerals of the bases that the macros pack with are equal digit by digit. */
  lemma Digits(base: int, high: int, low: int, high': int, low': int)
    requires base == 0x100 || base == 0x1_0000 || base == 0x1_0000_0000
    requires 0 <= low < base && 0 <= low' < base
    ensures high * base + low == high' * base + low' <==> high == high' && low == low'
  {
    if base == 0x100 {
    } else if base == 0x1_0000 {
    } else {
      assert base == 0x1_0000_0000;
    }
  }

  lemma Compare4Packed(wide: bool, code: Text, i: nat, c: Text)
    requires |c| == 4 && i + 4 <= |code| && Fits(wide, code) && Literals(c)
    ensures Compare4(X86_64, wide, code, i, c) == Decide(code[i..i + 4] == c)
  {
    var s := code[i..i + 4];
    LoadLittle4(wide, s);
    var base: int := if wide then 0x1_0000 else 0x100;
    var square := if wide then 0x1_0000_0000 else 0x1_0000;
    Digits(square, s[3] * base + s[2], s[1] * base + s[0], c[3] * base + c[2], c[1] * base + c[0]);
    Digits(base, s[3], s[2], c[3], c[2]);
    Digits(base, s[1], s[0], c[1], c[0]);
    assert s == c <==> s[0] == c[0] && s[1] == c[1] && s[2] == c[2] && s[3] == c[3];
  }

  lemma Compare4Meaning(cpu: Cpu, wide: bool, code: Text, i: nat, c: Text)
    requires |c| == 4 && i + 4 <= |code| && Fits(wide, code) && Literals(c)
    ensures Compare4(cpu, wide, code, i, c) == Decide(code[i..i + 4] == c)
  {
    if cpu.X86_64? {
      Compare4Packed(wide, code, i, c);
    } else {
      Compare2Meaning(cpu, wide, code, i, c[..2]);
      Compare2Meaning(cpu, wide, code, i + 2, c[2..]);
      CoverEqual(code[i..i + 4], c, 2, 2);
      assert code[i..i + 4][..2] == code[i..i + 2] && code[i..i + 4][2..] == code[i + 2..i + 4];
    }
  }

  lemma CompareShort(cpu: Cpu, wide: bool, code: Text, i: nat, c: Text)
    requires 1 <= |c| <= 4 && i + |c| <= |code| && Fits(wide, code) && Literals(c)
    ensures Compare(cpu, wide, code, i, c) == Decide(code[i..i + |c|] == c)
  {
    if |c| == 1 {
      assert code[i..i + 1] == [code[i]];
    } else if |c| == 2 {
      Compare2Meaning(cpu, wide, code, i, c);
    } else if |c| == 3 {
      Compare2Meaning(cpu, wide, code, i, c[..2]);
      CoverEqual(code[i..i + 3], c, 2, 2);
      assert code[i..i + 3][..2] == code[i..i + 2] && code[i..i + 3][2..] == [code[i + 2]];
    } else {
      Compare4Meaning(cpu, wide, code, i, c);
    }
  }

  lemma CompareLong(cpu: Cpu, wide: bool, code: Text, i: nat, c: Text)
    requires 5 <= |c| <= 8 && i + |c| <= |code| && Fits(wide, code) && Literals(c)
    ensures Compare(cpu, wide, code, i, c) == Decide(code[i..i + |c|] == c)
  {
    var s := code[i..i + |c|];
    Compare4Meaning(cpu, wide, code, i, c[..4]);
    assert s[..4] == code[i..i + 4];
    var k := if |c| == 7 then 3 else 4;
    CoverEqual(s, c, k, 4);
    assert s[k..] == code[i + k..i + |c|];
    if |c| == 5 {
      assert s[4..] == [code[i + 4]];
    } else if |c| == 6 {
      Compare2Meaning(cpu, wide, code, i + k, c[k..]);
    } else {
      Compare4Meaning(cpu, wide, code, i + k, c[k..]);
    }
  }

  /** In every configuration and for both character types, a test of one to eight characters
      holds exactly when the characters are equal one by one. */
  lemma CompareMeaning(cpu: Cpu, wide: bool, code: Text, i: nat, c: Text)
    requires 1 <= |c| <= 8 && i + |c| <= |code| && Fits(wide, code) && Literals(c)
    ensures Compare(cpu, wide, code, i, c) == Decide(code[i..i + |c|] == c)
  {
    if |c| <= 4 {
      CompareShort(cpu, wide, code, i, c);
    } else {
      CompareLong(cpu, wide, code, i, c);
    }
  }
}
