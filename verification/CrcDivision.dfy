/** The CRC as section 3.4 of RFC 2083 defines it: a remainder of polynomials over GF(2).  A
    polynomial is written as its coefficients, the one of the highest power first. */
module CrcDivision {
  import opened Binary
  import opened CyclicRedundancyCheck

  // ----- Polynomials -----

  predicate IsExponent(e: int) {
    match e
    case 32 | 26 | 23 | 22 | 16 | 12 | 11 | 10 | 8 | 7 | 5 | 4 | 2 | 1 | 0 => true
    case _ => false
  }

  /** The generator: the sum of the powers of x with these exponents. */
  function Generator(): (g: seq<bool>)
    ensures |g| == 33
  {
    seq(33, i requires 0 <= i < 33 => IsExponent(32 - i))
  }

  function Add(a: seq<bool>, b: seq<bool>): (r: seq<bool>)
    requires |a| == |b|
    ensures |r| == |a|
  {
    seq(|a|, i requires 0 <= i < |a| => a[i] != b[i])
  }

  function Complement(a: seq<bool>): (r: seq<bool>)
    ensures |r| == |a|
  {
    seq(|a|, i requires 0 <= i < |a| => !a[i])
  }

  /** `q` times the generator. */
  function Multiple(q: seq<bool>): (r: seq<bool>)
    ensures |r| == |q| + 32
  {
    if q == [] then Zeros(32)
    else
      var rest := [false] + Multiple(q[1..]);
      if q[0] then Add(Generator() + Zeros(|q| - 1), rest) else rest
  }

  /** The message, followed by 32 zeros, with the first 32 bits complemented. */
  function Dividend(message: seq<Byte>): (r: seq<bool>)
    ensures |r| == 8 * |message| + 32
  {
    var s := Bits(message) + Zeros(32);
    Complement(s[..32]) + s[32..]
  }

  /** A polynomial of degree less than 32 among those of the dividend's length. */
  function Remainder(n: nat, r: Word): (s: seq<bool>)
    ensures |s| == n + 32
  {
    Zeros(n) + r
  }

  // ----- The polynomial of the code -----

  /** The bits of the constant in the code, the lowest one for the highest power. */
  predicate Reflected(i: int) {
    IsExponent(31 - i)
  }

  lemma PolynomialHighHalf()
    ensures Marks(0xEDB8, 16, 16, Reflected)
  {
    assert Marks(0, 0, 32, Reflected);
    MarksFour(0xE, 0, 4, 28, Reflected);
    MarksFour(0xED, 0xE, 8, 24, Reflected);
    MarksFour(0xEDB, 0xED, 12, 20, Reflected);
    MarksFour(0xEDB8, 0xEDB, 16, 16, Reflected);
  }

  lemma PolynomialLowHalf()
    requires Marks(0xEDB8, 16, 16, Reflected)
    ensures Marks(0xEDB88320, 32, 0, Reflected)
  {
    MarksFour(0xEDB88, 0xEDB8, 20, 12, Reflected);
    MarksFour(0xEDB883, 0xEDB88, 24, 8, Reflected);
    MarksFour(0xEDB8832, 0xEDB883, 28, 4, Reflected);
    MarksFour(0xEDB88320, 0xEDB8832, 32, 0, Reflected);
  }

  lemma PolynomialAt(i: nat)
    requires i < 32
    ensures Polynomial()[i] == IsExponent(31 - i)
  {
    PolynomialHighHalf();
    PolynomialLowHalf();
    assert Digits(0xEDB88320, 32)[i] == Reflected(0 + i);
  }

  /** The constant in the code is the generator without its highest term. */
  lemma GeneratorIsPolynomial()
    ensures Generator() == [true] + Polynomial()
  {
    var g, p := Generator(), [true] + Polynomial();
    forall i | 0 <= i < 33 ensures g[i] == p[i] {
      if i > 0 {
        PolynomialAt(i - 1);
      }
    }
  }

  // ----- Division -----

  /** A string of at least 32 bits with the register added to its first 32. */
  function AddFront(s: seq<bool>, c: Word): (r: seq<bool>)
    requires |s| >= 32
    ensures |r| == |s|
  {
    seq(|s|, i requires 0 <= i < |s| => s[i] != (i < 32 && c[i]))
  }

  lemma MultipleOfNothing(c: Word)
    ensures AddFront([] + Zeros(32), c) == Add(Multiple([]), Remainder(0, c))
  {
  }

  lemma MultipleAt(q: seq<bool>, i: nat)
    requires q != [] && i < |q| + 32
    ensures Multiple(q)[i] == ((i > 0 && Multiple(q[1..])[i - 1]) != (q[0] && i < 33 && Generator()[i]))
  {
  }

  /** The next register, bit by bit. */
  lemma StepAt(c: Word, b: bool, i: nat)
    requires i < 32
    ensures BitStep(Xor(c, Extend([b])))[i] == ((i < 31 && c[i + 1]) != ((c[0] != b) && Generator()[i + 1]))
  {
    GeneratorIsPolynomial();
    BitStepAt(Xor(c, Extend([b])), i);
  }

  /** Taking the highest term off, bit by bit. */
  lemma DivisionAt(c: Word, bits: seq<bool>, q: seq<bool>, c': Word, i: nat)
    requires bits != [] && |q| == |bits| && q[0] == (c[0] != bits[0]) && c' == BitStep(Xor(c, Extend([bits[0]])))
    requires 0 < i < |bits| + 32
    ensures (AddFront(bits + Zeros(32), c)[i] != Multiple(q)[i]) ==
            (AddFront(bits[1..] + Zeros(32), c')[i - 1] != Multiple(q[1..])[i - 1])
  {
    MultipleAt(q, i);
    assert (bits + Zeros(32))[i] == (bits[1..] + Zeros(32))[i - 1];
    if i <= 32 {
      StepAt(c, bits[0], i - 1);
    }
  }

  lemma DivisionFirst(c: Word, bits: seq<bool>, q: seq<bool>)
    requires bits != [] && |q| == |bits| && q[0] == (c[0] != bits[0])
    ensures AddFront(bits + Zeros(32), c)[0] == Multiple(q)[0]
  {
    MultipleAt(q, 0);
    assert Generator()[0];
  }

  lemma AddRemainderAt(m: seq<bool>, n: nat, r: Word, i: nat)
    requires |m| == n + 32 && i < n + 32
    ensures Add(m, Remainder(n, r))[i] == (m[i] != (i >= n && r[i - n]))
  {
  }

  lemma DivisionNext(c: Word, bits: seq<bool>, q: seq<bool>, c': Word, r: Word, i: nat)
    requires bits != [] && |q| == |bits| && q[0] == (c[0] != bits[0]) && c' == BitStep(Xor(c, Extend([bits[0]])))
    requires 0 < i < |bits| + 32
    requires AddFront(bits[1..] + Zeros(32), c')[i - 1] == Add(Multiple(q[1..]), Remainder(|bits| - 1, r))[i - 1]
    ensures AddFront(bits + Zeros(32), c)[i] == Add(Multiple(q), Remainder(|bits|, r))[i]
  {
    AddRemainderAt(Multiple(q), |q|, r, i);
    AddRemainderAt(Multiple(q[1..]), |q| - 1, r, i - 1);
    DivisionAt(c, bits, q, c', i);
  }

  lemma DivisionStep(c: Word, bits: seq<bool>, q: seq<bool>, c': Word, r: Word)
    requires bits != [] && |q| == |bits| && q[0] == (c[0] != bits[0]) && c' == BitStep(Xor(c, Extend([bits[0]])))
    requires AddFront(bits[1..] + Zeros(32), c') == Add(Multiple(q[1..]), Remainder(|bits| - 1, r))
    ensures AddFront(bits + Zeros(32), c) == Add(Multiple(q), Remainder(|bits|, r))
  {
    var s, t := AddFront(bits + Zeros(32), c), Add(Multiple(q), Remainder(|bits|, r));
    forall i | 0 <= i < |bits| + 32 ensures s[i] == t[i] {
      if i == 0 {
        DivisionFirst(c, bits, q);
        AddRemainderAt(Multiple(q), |q|, r, 0);
      } else {
        DivisionNext(c, bits, q, c', r, i);
      }
    }
  }

  /** The register after the bits is what is left of them, with the register added to their front,
      when multiples of the generator are taken off. */
  lemma {:induction false} ShiftDivides(c: Word, bits: seq<bool>) returns (q: seq<bool>)
    ensures |q| == |bits|
    ensures AddFront(bits + Zeros(32), c) == Add(Multiple(q), Remainder(|bits|, Shift(c, bits)))
    decreases bits
  {
    if bits == [] {
      q := [];
      MultipleOfNothing(c);
    } else {
      var c' := BitStep(Xor(c, Extend([bits[0]])));
      var more := ShiftDivides(c', bits[1..]);
      q := [c[0] != bits[0]] + more;
      assert q[1..] == more;
      DivisionStep(c, bits, q, c', Shift(c', bits[1..]));
    }
  }

  /** The quotient is determined by the bits in front of the remainder. */
  lemma {:induction false} QuotientUnique(q: seq<bool>, q': seq<bool>)
    requires |q| == |q'| && Multiple(q)[..|q|] == Multiple(q')[..|q|]
    ensures q == q'
    decreases q
  {
    if q != [] {
      var m, m' := Multiple(q), Multiple(q');
      MultipleAt(q, 0);
      MultipleAt(q', 0);
      assert m[0] == m[..|q|][0] && m'[0] == m'[..|q|][0] && Generator()[0];
      forall i | 0 <= i < |q| - 1 ensures Multiple(q[1..])[i] == Multiple(q'[1..])[i] {
        MultipleAt(q, i + 1);
        MultipleAt(q', i + 1);
        assert m[i + 1] == m[..|q|][i + 1] && m'[i + 1] == m'[..|q|][i + 1];
      }
      QuotientUnique(q[1..], q'[1..]);
      assert q == [q[0]] + q[1..] && q' == [q'[0]] + q'[1..];
    }
  }

  /** `crc` is a CRC of the message: the dividend is a multiple of the generator and the complement
      of `crc`, its least significant bit the coefficient of x^31. */
  ghost predicate IsCrc(message: seq<Byte>, crc: Word) {
    exists q :: |q| == 8 * |message| && Dividend(message) == Add(Multiple(q), Remainder(|q|, Complement(crc)))
  }

  lemma ComplementTwice(message: seq<Byte>)
    ensures Complement(Crc(message)) == Shift(Ones(), Bits(message))
    ensures Dividend(message) == AddFront(Bits(message) + Zeros(32), Ones())
  {
  }

  lemma RemainderUnique(q: seq<bool>, r: Word, q': seq<bool>, r': Word)
    requires |q| == |q'| && Add(Multiple(q), Remainder(|q|, r)) == Add(Multiple(q'), Remainder(|q|, r'))
    ensures r == r'
  {
    var n := |q|;
    forall i | 0 <= i < n ensures Multiple(q)[i] == Multiple(q')[i] {
      AddRemainderAt(Multiple(q), n, r, i);
      AddRemainderAt(Multiple(q'), n, r', i);
    }
    QuotientUnique(q, q');
    forall i | 0 <= i < 32 ensures r[i] == r'[i] {
      AddRemainderAt(Multiple(q), n, r, n + i);
      AddRemainderAt(Multiple(q'), n, r', n + i);
    }
  }

  /** The CRC of a message is the one and only remainder. */
  lemma CrcIsRemainder(message: seq<Byte>, crc: Word)
    ensures IsCrc(message, crc) <==> crc == Crc(message)
  {
    var q := ShiftDivides(Ones(), Bits(message));
    ComplementTwice(message);
    if IsCrc(message, crc) {
      var q' :| |q'| == 8 * |message| && Dividend(message) == Add(Multiple(q'), Remainder(|q'|, Complement(crc)));
      RemainderUnique(q, Complement(Crc(message)), q', Complement(crc));
      forall i | 0 <= i < 32 ensures crc[i] == Crc(message)[i] {
        assert !crc[i] == Complement(crc)[i] && !Crc(message)[i] == Complement(Crc(message))[i];
      }
    }
  }
}
