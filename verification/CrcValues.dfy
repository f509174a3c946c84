/** Two CRCs worked out: by long division, with words as the sets of the positions of their ones. */
module CrcValues {
  import opened Binary
  import opened CyclicRedundancyCheck
  import opened CrcDivision

  // ----- Long division -----

  /** The bits of `w` are written from position `p` of a row on, which has ones where `t` holds. */
  ghost predicate Row(w: Word, t: int -> bool, p: nat) {
    forall i :: 0 <= i < 32 ==> w[i] == t(p + i)
  }

  /** The generator, with the exponents `g`, is taken off at position `p`. */
  ghost predicate Taken(t: int -> bool, p: nat, g: int -> bool, t': int -> bool) {
    t(p) && !t(p + 32) && forall x :: p < x < p + 33 ==> t'(x) == (t(x) != g(p + 32 - x))
  }

  lemma TakeOffAt(w: Word, t: int -> bool, p: nat, g: int -> bool, t': int -> bool, i: nat)
    requires Row(w, t, p) && Taken(t, p, g, t') && i < 32 && Polynomial()[i] == g(31 - i)
    ensures BitStep(w)[i] == t'(p + 1 + i)
  {
    BitStepAt(w, i);
    assert w[0] == t(p + 0);
    var x := p + 1 + i;
    assert p + 32 - x == 31 - i;
    assert t'(x) == (t(x) != g(p + 32 - x));
    if i < 31 {
      assert w[i + 1] == t(p + (i + 1));
    }
  }

  lemma TakeOff(w: Word, t: int -> bool, p: nat, t': int -> bool)
    requires Row(w, t, p) && Taken(t, p, IsExponent, t')
    ensures Row(BitStep(w), t', p + 1)
  {
    forall i | 0 <= i < 32 ensures BitStep(w)[i] == t'(p + 1 + i) {
      PolynomialAt(i);
      TakeOffAt(w, t, p, IsExponent, t', i);
    }
  }

  lemma PassOver(w: Word, t: int -> bool, p: nat)
    requires Row(w, t, p) && !t(p) && !t(p + 32)
    ensures Row(BitStep(w), t, p + 1)
  {
    assert w[0] == t(p + 0);
    forall i | 0 <= i < 32 ensures BitStep(w)[i] == t(p + 1 + i) {
      BitStepAt(w, i);
      assert i < 31 ==> w[i + 1] == t(p + (i + 1));
    }
  }

  lemma {:induction false} IterateNext(g: Word -> Word, w: Word, k: nat)
    ensures Iterate(g, w, k + 1) == g(Iterate(g, w, k))
    decreases k
  {
    if k > 0 {
      IterateNext(g, g(w), k - 1);
    }
  }

  lemma StepsNext(w: Word, k: nat)
    ensures Steps(w, k + 1) == BitStep(Steps(w, k))
  {
    StepsIterate(w, k);
    StepsIterate(w, k + 1);
    IterateNext(BitStep, w, k);
  }

  /** The registers one after the other. */
  ghost predicate Runs(f: nat -> Word) {
    forall k: nat {:trigger f(k + 1)} :: f(k + 1) == BitStep(f(k))
  }

  /** The row after `p` steps. */
  ghost predicate Reaches(f: nat -> Word, t: int -> bool, p: nat) {
    Row(f(p), t, p)
  }

  /** Nothing is to be taken off from `p` up to `q`. */
  ghost predicate Clear(t: int -> bool, p: nat, q: nat) {
    (forall x :: p <= x < q ==> !t(x)) && forall x :: p + 32 <= x < q + 32 ==> !t(x)
  }

  lemma PassOne(f: nat -> Word, t: int -> bool, p: nat)
    requires Runs(f) && Reaches(f, t, p) && !t(p) && !t(p + 32)
    ensures Reaches(f, t, p + 1)
  {
    PassOver(f(p), t, p);
    assert f(p + 1) == BitStep(f(p));
  }

  lemma {:induction false} PassTo(f: nat -> Word, t: int -> bool, p: nat, q: nat)
    requires Runs(f) && Reaches(f, t, p) && p <= q && Clear(t, p, q)
    ensures Reaches(f, t, q)
    decreases q - p
  {
    if p < q {
      PassOne(f, t, p);
      PassTo(f, t, p + 1, q);
    }
  }

  /** One line of the division: take the generator off at `p` and go on to `q`. */
  lemma Line(f: nat -> Word, t: int -> bool, p: nat, t': int -> bool, q: nat)
    requires Runs(f) && Reaches(f, t, p) && Taken(t, p, IsExponent, t') && p < q && Clear(t', p + 1, q)
    ensures Reaches(f, t', q)
  {
    TakeOff(f(p), t, p, t');
    assert f(p + 1) == BitStep(f(p));
    PassTo(f, t', p + 1, q);
  }

  /** A row with the generator taken off at `p`, and at `q` and `r` as well. */
  predicate Off1(t: int -> bool, p: nat, x: int) {
    t(x) != IsExponent(p + 32 - x)
  }

  predicate Off2(t: int -> bool, p: nat, q: nat, x: int) {
    Off1(t, p, x) != IsExponent(q + 32 - x)
  }

  predicate Off3(t: int -> bool, p: nat, q: nat, r: nat, x: int) {
    Off2(t, p, q, x) != IsExponent(r + 32 - x)
  }

  /** Three lines at a time. */
  lemma Lines(f: nat -> Word, t: int -> bool, p: nat, q: nat, r: nat, u: nat, t': int -> bool)
    requires Runs(f) && Reaches(f, t, p) && p < q < r < u && t(p) && Off1(t, p, q) && Off2(t, p, q, r)
    requires forall x :: p + 32 <= x < u + 32 ==> !t(x)
    requires forall x :: p < x < q ==> !Off1(t, p, x)
    requires forall x :: q < x < r ==> !Off2(t, p, q, x)
    requires forall x :: r < x < u + 32 ==> t'(x) == Off3(t, p, q, r, x)
    requires forall x :: r < x < u ==> !t'(x)
    ensures Reaches(f, t', u)
  {
    var t1, t2 := (x: int) => Off1(t, p, x), (x: int) => Off2(t, p, q, x);
    Line(f, t, p, t1, q);
    Line(f, t1, q, t2, r);
    Line(f, t2, r, t', u);
  }

  // ----- The CRC of "IEND" -----

  predicate Ones0(x: int) {
    match x
    case 1 | 2 | 4 | 5 | 7 | 9 | 11 | 12 | 13 | 15 | 16 | 20 | 21 | 23 | 24 | 25 | 27 | 28 | 29 | 31 => true
    case _ => false
  }

  predicate Ones3(x: int) {
    match x
    case 5 | 8 | 9 | 11 | 14 | 15 | 16 | 17 | 18 | 23 | 24 | 25 | 26 | 28 | 30 | 31 | 32 | 35 | 36 => true
    case _ => false
  }

  predicate Ones6(x: int) {
    match x
    case 14 | 15 | 16 | 18 | 19 | 21 | 23 | 25 | 27 | 29 | 32 | 33 | 34 | 35 | 38 | 41 => true
    case _ => false
  }

  predicate Ones9(x: int) {
    match x
    case 18 | 19 | 20 | 22 | 25 | 26 | 27 | 29 | 30 | 31 | 33 | 35 | 36 | 38 | 41 | 46 | 48 => true
    case _ => false
  }

  predicate Ones12(x: int) {
    match x
    case 22 | 24 | 29 | 31 | 33 | 34 | 40 | 41 | 46 | 48 | 50 | 52 => true
    case _ => false
  }

  predicate Ones15(x: int) {
    match x
    case 29 | 30 | 32 | 34 | 37 | 41 | 42 | 43 | 44 | 45 | 46 | 47 | 48 | 49 | 50 | 51 | 58 | 59 | 60 => true
    case _ => false
  }

  predicate Ones16(x: int) {
    match x
    case 30 | 32 | 34 | 35 | 37 | 38 | 39 | 41 | 42 | 43 | 44 | 46 | 47 | 48 | 53 | 54 | 56 | 57 | 58 | 61 => true
    case _ => false
  }

  predicate Ones17(x: int) {
    match x
    case 32 | 34 | 35 | 36 | 37 | 38 | 40 | 41 | 42 | 43 | 44 | 47 | 48 | 50 | 51 | 52 | 53 | 55 | 56 | 60 | 62 => true
    case _ => false
  }

  lemma Lines0(f: nat -> Word)
    requires Runs(f) && Reaches(f, Ones0, 1)
    ensures Reaches(f, Ones3, 5)
  {
    Lines(f, Ones0, 1, 2, 4, 5, Ones3);
  }

  lemma Lines3(f: nat -> Word)
    requires Runs(f) && Reaches(f, Ones3, 5)
    ensures Reaches(f, Ones6, 14)
  {
    Lines(f, Ones3, 5, 8, 9, 14, Ones6);
  }

  lemma Lines6(f: nat -> Word)
    requires Runs(f) && Reaches(f, Ones6, 14)
    ensures Reaches(f, Ones9, 18)
  {
    Lines(f, Ones6, 14, 15, 16, 18, Ones9);
  }

  lemma Lines9(f: nat -> Word)
    requires Runs(f) && Reaches(f, Ones9, 18)
    ensures Reaches(f, Ones12, 22)
  {
    Lines(f, Ones9, 18, 19, 20, 22, Ones12);
  }

  lemma Lines12(f: nat -> Word)
    requires Runs(f) && Reaches(f, Ones12, 22)
    ensures Reaches(f, Ones15, 29)
  {
    Lines(f, Ones12, 22, 24, 28, 29, Ones15);
  }

  lemma LastLines(f: nat -> Word)
    requires Runs(f) && Reaches(f, Ones15, 29)
    ensures Reaches(f, Ones17, 32)
  {
    Line(f, Ones15, 29, Ones16, 30);
    Line(f, Ones16, 30, Ones17, 32);
  }

  /** The division from the first line to the last. */
  lemma AllLines(f: nat -> Word)
    requires Runs(f) && Reaches(f, Ones0, 0)
    ensures Reaches(f, Ones17, 32)
  {
    PassTo(f, Ones0, 0, 1);
    Lines0(f);
    Lines3(f);
    Lines6(f);
    Lines9(f);
    Lines12(f);
    LastLines(f);
  }

  lemma Divided(w: Word)
    requires Row(w, Ones0, 0)
    ensures Row(Steps(w, 32), Ones17, 32)
  {
    var f := (k: nat) => Steps(w, k);
    forall k: nat ensures f(k + 1) == BitStep(f(k)) {
      StepsNext(w, k);
    }
    AllLines(f);
  }

  /** The bits of the four letters. */
  predicate Letters(x: int) {
    match x
    case 0 | 3 | 6 | 8 | 10 | 14 | 17 | 18 | 19 | 22 | 26 | 30 => true
    case _ => false
  }

  predicate Result(x: int) {
    0 <= x < 32 && !Ones17(32 + x)
  }

  lemma LettersMarkedHigh()
    ensures Marks(0x444E, 16, 16, Letters)
  {
    assert Marks(0, 0, 32, Letters);
    MarksFour(0x4, 0, 4, 28, Letters);
    MarksFour(0x44, 0x4, 8, 24, Letters);
    MarksFour(0x444, 0x44, 12, 20, Letters);
    MarksFour(0x444E, 0x444, 16, 16, Letters);
  }

  lemma LettersMarked()
    ensures Marks(0x444E4549, 32, 0, Letters)
  {
    LettersMarkedHigh();
    MarksFour(0x444E4, 0x444E, 20, 12, Letters);
    MarksFour(0x444E45, 0x444E4, 24, 8, Letters);
    MarksFour(0x444E454, 0x444E45, 28, 4, Letters);
    MarksFour(0x444E4549, 0x444E454, 32, 0, Letters);
  }

  lemma ResultMarkedHigh()
    ensures Marks(0xAE42, 16, 16, Result)
  {
    assert Marks(0, 0, 32, Result);
    MarksFour(0xA, 0, 4, 28, Result);
    MarksFour(0xAE, 0xA, 8, 24, Result);
    MarksFour(0xAE4, 0xAE, 12, 20, Result);
    MarksFour(0xAE42, 0xAE4, 16, 16, Result);
  }

  lemma ResultMarked()
    ensures Marks(0xAE426082, 32, 0, Result)
  {
    ResultMarkedHigh();
    MarksFour(0xAE426, 0xAE42, 20, 12, Result);
    MarksFour(0xAE4260, 0xAE426, 24, 8, Result);
    MarksFour(0xAE42608, 0xAE4260, 28, 4, Result);
    MarksFour(0xAE426082, 0xAE42608, 32, 0, Result);
  }

  lemma MessageNumber(m: seq<Byte>, b: Byte, n: nat)
    requires m != [] && m[0] == b && n == Number(Bits(m[1..]))
    ensures Number(Bits(m)) == b + 0x100 * n
  {
    NumberOfByte(b, Bits(m[1..]));
  }

  lemma LetterBits(m: seq<Byte>)
    requires m == [73, 69, 78, 68]
    ensures Bits(m) == Digits(0x444E4549, 32)
  {
    var a, b, c := m[1..], m[2..], m[3..];
    assert a[1..] == b && b[1..] == c && c[1..] == [];
    MessageNumber(c, 68, 0);
    MessageNumber(b, 78, 0x44);
    MessageNumber(a, 69, 0x444E);
    MessageNumber(m, 73, 0x444E45);
    DigitsOfNumber(Bits(m));
  }

  lemma FirstLine(m: seq<Byte>)
    requires m == [73, 69, 78, 68]
    ensures |Bits(m)| == 32 && Row(Xor(Ones(), Extend(Bits(m))), Ones0, 0)
  {
    LetterBits(m);
    LettersMarked();
    var w := Xor(Ones(), Extend(Bits(m)));
    forall i | 0 <= i < 32 ensures w[i] == Ones0(0 + i) {
      assert Bits(m)[i] == Letters(0 + i) == !Ones0(i);
    }
  }

  lemma CrcBits(m: seq<Byte>, w: Word)
    requires |m| == 4 && w == Xor(Ones(), Extend(Bits(m)))
    ensures forall i :: 0 <= i < 32 ==> Crc(m)[i] == !Steps(w, 32)[i]
  {
    ShiftIsSteps(Ones(), Bits(m));
  }

  lemma SameDigits(v: Word, w: Word, u: Word)
    requires (forall i :: 0 <= i < 32 ==> v[i] == !w[i]) && Row(w, Ones17, 32)
    requires forall i :: 0 <= i < 32 ==> u[i] == Result(0 + i)
    ensures v == u
  {
    forall i | 0 <= i < 32 ensures v[i] == u[i] {
      assert w[i] == Ones17(32 + i) && u[i] == Result(0 + i);
    }
  }

  lemma LastLine(m: seq<Byte>)
    requires m == [73, 69, 78, 68]
    ensures Crc(m) == Digits(0xAE426082, 32)
  {
    var w := Xor(Ones(), Extend(Bits(m)));
    FirstLine(m);
    CrcBits(m, w);
    Divided(w);
    ResultMarked();
    SameDigits(Crc(m), Steps(w, 32), Digits(0xAE426082, 32));
  }

  lemma Power2Of32()
    ensures Power2(32) == 0x1_0000_0000
  {
    Power2Of8();
    Power2Sum(8, 8);
    Power2Sum(16, 16);
  }

  lemma NumberOfWord(n: nat)
    requires n < 0x1_0000_0000
    ensures Number(Digits(n, 32)) == n
  {
    Power2Of32();
    NumberOfDigits(n, 32);
  }

  lemma AsciiIend()
    ensures Ascii("IEND") == [73, 69, 78, 68]
  {
  }

  /** The CRC of the chunk type "IEND", with which a PNG file ends. */
  lemma CrcOfIend()
    ensures Number(Crc(Ascii("IEND"))) == 0xAE426082
  {
    AsciiIend();
    LastLine(Ascii("IEND"));
    NumberOfWord(0xAE426082);
  }

  lemma {:induction false} NumberOfZeros(k: nat)
    ensures Number(Zeros(k)) == 0
    decreases k
  {
    if k > 0 {
      NumberOfZeros(k - 1);
      assert Zeros(k)[1..] == Zeros(k - 1);
    }
  }

  lemma CrcOfNothing()
    ensures Number(Crc([])) == 0
  {
    assert Crc([]) == Zeros(32);
    NumberOfZeros(32);
  }
}
