/** CyclicRedundancyCheck.cpp: the CRC-32, one message bit at a time, and the bursts of errors that it
    detects.  An `unsigned` is kept as its 32 bits. */
module CyclicRedundancyCheck {
  import opened Binary

  type Word = w: seq<bool> | |w| == 32 witness seq(32, _ => false)

  /** -306674912 as an unsigned number, 0xEDB88320. */
  function Polynomial(): Word {
    Digits(0x1_0000_0000 - 306674912, 32)
  }

  lemma PolynomialTopBit()
    ensures Polynomial()[31]
  {
    Power2Sum(8, 8);
    Power2Sum(8, 7);
    Power2Sum(16, 15);
    Power2Of8();
    TopDigit(0x1_0000_0000 - 306674912, 32);
  }

  // ----- Word operations -----

  function Zeros(n: nat): seq<bool> {
    seq(n, _ => false)
  }

  function Ones(): Word {
    seq(32, _ => true)
  }

  function Xor(a: Word, b: Word): Word {
    seq(32, i requires 0 <= i < 32 => a[i] != b[i])
  }

  function ShiftRight(a: Word, n: nat): Word
    requires n <= 32
  {
    a[n..] + Zeros(n)
  }

  /** A value of fewer bits, extended with zeros: a byte, or a word masked with 0xff. */
  function Extend(bits: seq<bool>): Word
    requires |bits| <= 32
  {
    bits + Zeros(32 - |bits|)
  }

  // ----- Reference: one message bit at a time, least significant bit of a byte first -----

  /** Shifts one bit out of the reflected register. */
  function BitStep(c: Word): Word {
    if c[0] then Xor(Polynomial(), ShiftRight(c, 1)) else ShiftRight(c, 1)
  }

  /** The register after the message bits have been shifted in. */
  function Shift(c: Word, bits: seq<bool>): Word
    decreases bits
  {
    if bits == [] then c else Shift(BitStep(Xor(c, Extend([bits[0]]))), bits[1..])
  }

  function Bits(message: seq<Byte>): (r: seq<bool>)
    ensures |r| == 8 * |message|
  {
    if message == [] then [] else ByteBits(message[0]) + Bits(message[1..])
  }

  function Crc(message: seq<Byte>): Word {
    Xor(Shift(Ones(), Bits(message)), Ones())
  }

  lemma {:induction false} ShiftAppend(c: Word, a: seq<bool>, b: seq<bool>)
    ensures Shift(c, a + b) == Shift(Shift(c, a), b)
    decreases a
  {
    if a == [] {
      assert a + b == b;
    } else {
      assert (a + b)[1..] == a[1..] + b;
      ShiftAppend(BitStep(Xor(c, Extend([a[0]]))), a[1..], b);
    }
  }

  lemma {:induction false} BitsAppend(a: seq<Byte>, b: seq<Byte>)
    ensures Bits(a + b) == Bits(a) + Bits(b)
  {
    if a == [] {
      assert a + b == b;
    } else {
      assert (a + b)[1..] == a[1..] + b;
      BitsAppend(a[1..], b);
    }
  }

  // ----- The register step is linear and injective -----

  lemma BitStepAt(c: Word, i: nat)
    requires i < 32
    ensures BitStep(c)[i] == ((i < 31 && c[i + 1]) != (c[0] && Polynomial()[i]))
  {
  }

  lemma BitStepLinear(a: Word, b: Word)
    ensures BitStep(Xor(a, b)) == Xor(BitStep(a), BitStep(b))
  {
    var c := Xor(a, b);
    forall i | 0 <= i < 32 ensures BitStep(c)[i] == Xor(BitStep(a), BitStep(b))[i] {
      BitStepAt(a, i);
      BitStepAt(b, i);
      BitStepAt(c, i);
    }
  }

  lemma BitStepInjective(a: Word, b: Word)
    requires BitStep(a) == BitStep(b)
    ensures a == b
  {
    BitStepAt(a, 31);
    BitStepAt(b, 31);
    PolynomialTopBit();
    forall i | 0 <= i < 32 ensures a[i] == b[i] {
      if i > 0 {
        BitStepAt(a, i - 1);
        BitStepAt(b, i - 1);
      }
    }
  }

  lemma XorInjective(a: Word, b: Word, c: Word)
    requires Xor(a, c) == Xor(b, c)
    ensures a == b
  {
    forall i | 0 <= i < 32 ensures a[i] == b[i] {
      assert Xor(a, c)[i] == Xor(b, c)[i];
    }
  }

  lemma XorCommutes(a: Word, b: Word)
    ensures Xor(a, b) == Xor(b, a)
  {
  }

  lemma ExtendInjective(a: seq<bool>, b: seq<bool>)
    requires |a| == |b| <= 32 && Extend(a) == Extend(b)
    ensures a == b
  {
    assert a == Extend(a)[..|a|] && b == Extend(b)[..|a|];
  }

  lemma XorAssociative(a: Word, b: Word, c: Word)
    ensures Xor(Xor(a, b), c) == Xor(a, Xor(b, c))
  {
  }

  function Steps(c: Word, k: nat): Word
    decreases |c|, k
  {
    if k == 0 then c else Steps(BitStep(c), k - 1)
  }

  function Iterate(g: Word -> Word, c: Word, k: nat): Word
    decreases k
  {
    if k == 0 then c else Iterate(g, g(c), k - 1)
  }

  lemma {:induction false} StepsIterate(c: Word, k: nat)
    ensures Steps(c, k) == Iterate(BitStep, c, k)
    decreases k
  {
    if k > 0 {
      StepsIterate(BitStep(c), k - 1);
    }
  }

  lemma {:induction false} IterateLinear(g: Word -> Word, a: Word, b: Word, k: nat)
    requires forall x: Word, y: Word {:trigger g(Xor(x, y))} :: g(Xor(x, y)) == Xor(g(x), g(y))
    ensures Iterate(g, Xor(a, b), k) == Xor(Iterate(g, a, k), Iterate(g, b, k))
    decreases k
  {
    if k > 0 {
      IterateLinear(g, g(a), g(b), k - 1);
    }
  }

  lemma StepsLinear(a: Word, b: Word, k: nat)
    ensures Steps(Xor(a, b), k) == Xor(Steps(a, k), Steps(b, k))
  {
    forall x: Word, y: Word ensures BitStep(Xor(x, y)) == Xor(BitStep(x), BitStep(y)) {
      BitStepLinear(x, y);
    }
    IterateLinear(BitStep, a, b, k);
    StepsIterate(a, k);
    StepsIterate(b, k);
    StepsIterate(Xor(a, b), k);
  }

  lemma {:induction false} StepsInjective(a: Word, b: Word, k: nat)
    requires Steps(a, k) == Steps(b, k)
    ensures a == b
    decreases k
  {
    if k > 0 {
      StepsInjective(BitStep(a), BitStep(b), k - 1);
      BitStepInjective(a, b);
    }
  }

  lemma {:induction false} ShiftInjective(a: Word, b: Word, bits: seq<bool>)
    requires Shift(a, bits) == Shift(b, bits)
    ensures a == b
    decreases bits
  {
    if bits != [] {
      var u := Extend([bits[0]]);
      ShiftInjective(BitStep(Xor(a, u)), BitStep(Xor(b, u)), bits[1..]);
      BitStepInjective(Xor(a, u), Xor(b, u));
      XorInjective(a, b, u);
    }
  }

  /** `w` moved up by one bit. */
  function ShiftLeft(w: Word): Word {
    [false] + w[..31]
  }

  lemma StepOfShiftLeft(w: Word)
    requires !w[31]
    ensures BitStep(ShiftLeft(w)) == w
  {
  }

  lemma ExtendBits(bits: seq<bool>)
    requires 0 < |bits| <= 32
    ensures Extend(bits) == Xor(Extend([bits[0]]), ShiftLeft(Extend(bits[1..])))
  {
  }

  /** Up to 32 bits are shifted in as one word. */
  lemma {:induction false} ShiftIsSteps(c: Word, bits: seq<bool>)
    requires |bits| <= 32
    ensures Shift(c, bits) == Steps(Xor(c, Extend(bits)), |bits|)
    decreases bits
  {
    if bits == [] {
      assert Xor(c, Extend([])) == c;
    } else {
      var u, w := Extend([bits[0]]), Extend(bits[1..]);
      ShiftIsSteps(BitStep(Xor(c, u)), bits[1..]);
      ExtendBits(bits);
      XorAssociative(c, u, ShiftLeft(w));
      BitStepLinear(Xor(c, u), ShiftLeft(w));
      StepOfShiftLeft(w);
    }
  }

  // ----- Burst detection -----

  /** Bit strings that agree except inside a window of at most 32 bits leave different registers. */
  lemma WindowDetected(c: Word, a: seq<bool>, w: seq<bool>, w': seq<bool>, b: seq<bool>)
    requires |w| == |w'| <= 32 && w != w'
    ensures Shift(c, a + w + b) != Shift(c, a + w' + b)
  {
    ShiftAppend(c, a + w, b);
    ShiftAppend(c, a, w);
    ShiftAppend(c, a + w', b);
    ShiftAppend(c, a, w');
    var s := Shift(c, a);
    if Shift(Shift(s, w), b) == Shift(Shift(s, w'), b) {
      ShiftInjective(Shift(s, w), Shift(s, w'), b);
      ShiftIsSteps(s, w);
      ShiftIsSteps(s, w');
      StepsInjective(Xor(s, Extend(w)), Xor(s, Extend(w')), |w|);
      XorCommutes(s, Extend(w));
      XorCommutes(s, Extend(w'));
      XorInjective(Extend(w), Extend(w'), s);
      ExtendInjective(w, w');
    }
  }

  lemma {:induction false} BitsInjective(m: seq<Byte>, m': seq<Byte>)
    requires Bits(m) == Bits(m')
    ensures m == m'
    decreases m
  {
    assert |m| == |m'|;
    if m != [] {
      assert ByteBits(m[0]) == Bits(m)[..8] && Bits(m[1..]) == Bits(m)[8..];
      assert ByteBits(m'[0]) == Bits(m')[..8] && Bits(m'[1..]) == Bits(m')[8..];
      ByteRoundTrip(m[0], ByteBits(m[0]));
      ByteRoundTrip(m'[0], ByteBits(m[0]));
      BitsInjective(m[1..], m'[1..]);
      assert m == [m[0]] + m[1..] && m' == [m'[0]] + m'[1..];
    }
  }

  /** Two messages of the same length that differ, but only within 32 successive bits from bit `i`
      on, have different CRCs. */
  lemma BurstDetected(m: seq<Byte>, m': seq<Byte>, i: nat)
    requires |m| == |m'| && m != m'
    requires forall j :: 0 <= j < 8 * |m| && !(i <= j < i + 32) ==> Bits(m)[j] == Bits(m')[j]
    ensures Crc(m) != Crc(m')
  {
    var s, t, n := Bits(m), Bits(m'), 8 * |m|;
    var lo := if i < n then i else n;
    var hi := if i + 32 < n then i + 32 else n;
    BitsDiffer(m, m');
    BitWindowDetected(s, t, lo, hi);
    if Crc(m) == Crc(m') {
      XorInjective(Shift(Ones(), s), Shift(Ones(), t), Ones());
    }
  }

  lemma BitsDiffer(m: seq<Byte>, m': seq<Byte>)
    requires m != m'
    ensures Bits(m) != Bits(m')
  {
    if Bits(m) == Bits(m') {
      BitsInjective(m, m');
    }
  }

  lemma BitWindowDetected(s: seq<bool>, t: seq<bool>, lo: nat, hi: nat)
    requires |s| == |t| && lo <= hi <= |s| && hi <= lo + 32 && s != t
    requires forall j :: 0 <= j < |s| && !(lo <= j < hi) ==> s[j] == t[j]
    ensures Shift(Ones(), s) != Shift(Ones(), t)
  {
    SplitWindow(s, lo, hi);
    SplitWindow(t, lo, hi);
    assert s[..lo] == t[..lo] && s[hi..] == t[hi..];
    WindowDetected(Ones(), s[..lo], s[lo..hi], t[lo..hi], s[hi..]);
  }

  lemma SplitWindow(s: seq<bool>, lo: nat, hi: nat)
    requires lo <= hi <= |s|
    ensures s == s[..lo] + s[lo..hi] + s[hi..]
  {
  }

  /** In particular when they differ only within four successive bytes. */
  lemma FourBytesDetected(head: seq<Byte>, w: seq<Byte>, w': seq<Byte>, tail: seq<Byte>)
    requires |w| == |w'| <= 4 && w != w'
    ensures Crc(head + w + tail) != Crc(head + w' + tail)
  {
    var m, m' := head + w + tail, head + w' + tail;
    BitsAppend(head + w, tail);
    BitsAppend(head, w);
    BitsAppend(head + w', tail);
    BitsAppend(head, w');
    assert w == m[|head|..|head| + |w|] && w' == m'[|head|..|head| + |w|];
    BurstDetected(m, m', 8 * |head|);
  }

  lemma UnitSteps()
    ensures BitStep(Extend([true])) == Polynomial()
  {
    forall i | 0 <= i < 32 ensures BitStep(Extend([true]))[i] == Polynomial()[i] {
      BitStepAt(Extend([true]), i);
    }
  }

  /** Flipping the first bit changes the register by the polynomial. */
  lemma FlipFirst(s: Word, b: bool)
    ensures BitStep(Xor(s, Extend([!b]))) == Xor(BitStep(Xor(s, Extend([b]))), Polynomial())
  {
    var u := Extend([b]);
    assert Extend([!b]) == Xor(u, Extend([true]));
    XorAssociative(s, u, Extend([true]));
    BitStepLinear(Xor(s, u), Extend([true]));
    UnitSteps();
  }

  lemma GeneratorCancels(s: Word, b: bool, w: Word)
    ensures Shift(s, [!b] + Xor(w, Polynomial())) == Shift(s, [b] + w)
  {
    FlipFirst(s, b);
    assert ([b] + w)[1..] == w && ([!b] + Xor(w, Polynomial()))[1..] == Xor(w, Polynomial());
    ShiftBoth(BitStep(Xor(s, Extend([b]))), w, Polynomial());
  }

  lemma ShiftBoth(t: Word, w: Word, p: Word)
    ensures Shift(Xor(t, p), Xor(w, p)) == Shift(t, w)
  {
    ShiftIsSteps(t, w);
    ShiftIsSteps(Xor(t, p), Xor(w, p));
    assert Extend(w) == w && Extend(Xor(w, p)) == Xor(w, p);
    assert Xor(Xor(t, p), Xor(w, p)) == Xor(t, w);
  }

  lemma FlipAnywhere(c: Word, a: seq<bool>, b: bool, w: Word, tail: seq<bool>)
    ensures Shift(c, a + ([b] + w) + tail) == Shift(c, a + ([!b] + Xor(w, Polynomial())) + tail)
  {
    var v, v' := [b] + w, [!b] + Xor(w, Polynomial());
    GeneratorCancels(Shift(c, a), b, w);
    ShiftAppend(c, a + v, tail);
    ShiftAppend(c, a, v);
    ShiftAppend(c, a + v', tail);
    ShiftAppend(c, a, v');
  }

  /** Bit `j` of the generator polynomial, all 33 bits of it, shifted up by `i`. */
  predicate GeneratorBit(i: nat, j: nat) {
    j == i || (i < j < i + 33 && Polynomial()[j - i - 1])
  }

  /** `t` is `s` with the generator polynomial flipped in at bit `i`. */
  ghost predicate Flipped(s: seq<bool>, t: seq<bool>, i: nat) {
    && |t| == |s| && i + 33 <= |s|
    && forall j :: 0 <= j < |s| ==> t[j] == (s[j] != GeneratorBit(i, j))
  }

  lemma FlippedParts(s: seq<bool>, t: seq<bool>, i: nat)
    requires Flipped(s, t, i)
    ensures t[..i] == s[..i] && t[i] == !s[i] && t[i + 33..] == s[i + 33..]
    ensures t[i + 1..i + 33] == Xor(s[i + 1..i + 33], Polynomial())
  {
    var w, w' := s[i + 1..i + 33], t[i + 1..i + 33];
    forall k | 0 <= k < 32 ensures w'[k] == (w[k] != Polynomial()[k]) {
      assert w'[k] == t[i + 1 + k] && w[k] == s[i + 1 + k];
    }
  }

  lemma FlippedShift(c: Word, s: seq<bool>, t: seq<bool>, i: nat)
    requires Flipped(s, t, i)
    ensures Shift(c, t) == Shift(c, s)
  {
    FlippedParts(s, t, i);
    SplitBit(s, i, i + 33);
    SplitBit(t, i, i + 33);
    FlipAnywhere(c, s[..i], s[i], s[i + 1..i + 33], s[i + 33..]);
  }

  lemma SplitBit(s: seq<bool>, lo: nat, hi: nat)
    requires lo < hi <= |s|
    ensures s == s[..lo] + ([s[lo]] + s[lo + 1..hi]) + s[hi..]
  {
  }

  lemma {:induction false} BytesOf(bits: seq<bool>) returns (m: seq<Byte>)
    requires |bits| % 8 == 0
    ensures Bits(m) == bits
    decreases |bits|
  {
    if bits == [] {
      m := [];
    } else {
      var more := BytesOf(bits[8..]);
      m := [ByteOf(bits[..8])] + more;
      ByteRoundTrip(0, bits[..8]);
      assert m[1..] == more && bits == bits[..8] + bits[8..];
    }
  }

  /** No wider window is safe: flipping the 33 bits of the generator polynomial into any message, from
      any bit on, leaves its CRC as it was. */
  lemma GeneratorUndetected(m: seq<Byte>, i: nat) returns (m': seq<Byte>)
    requires i + 33 <= 8 * |m|
    ensures |m'| == |m| && m' != m && Flipped(Bits(m), Bits(m'), i) && Crc(m') == Crc(m)
  {
    var s := Bits(m);
    var t := seq(|s|, j requires 0 <= j < |s| => s[j] != GeneratorBit(i, j));
    m' := BytesOf(t);
    assert Bits(m')[i] != Bits(m)[i];
    FlippedShift(Ones(), s, t, i);
  }
}
