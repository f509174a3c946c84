/** Machine words as their binary digits, least significant first. */
module Binary {
  type Byte = b: int | 0 <= b < 0x100

  function Number(bits: seq<bool>): nat {
    if bits == [] then 0 else (if bits[0] then 1 else 0) + 2 * Number(bits[1..])
  }

  function Digits(n: nat, k: nat): (r: seq<bool>)
    ensures |r| == k
  {
    if k == 0 then [] else [n % 2 == 1] + Digits(n / 2, k - 1)
  }

  function Power2(k: nat): nat {
    if k == 0 then 1 else 2 * Power2(k - 1)
  }

  lemma {:induction false} NumberOfDigits(n: nat, k: nat)
    requires n < Power2(k)
    ensures Number(Digits(n, k)) == n
    decreases k
  {
    if k > 0 {
      NumberOfDigits(n / 2, k - 1);
    }
  }

  lemma {:induction false} DigitsOfNumber(bits: seq<bool>)
    ensures Number(bits) < Power2(|bits|) && Digits(Number(bits), |bits|) == bits
  {
    if bits != [] {
      DigitsOfNumber(bits[1..]);
      assert Number(bits) / 2 == Number(bits[1..]) && (Number(bits) % 2 == 1) == bits[0];
      assert bits == [bits[0]] + bits[1..];
    }
  }

  lemma {:induction false} Power2Sum(j: nat, k: nat)
    ensures Power2(j + k) == Power2(j) * Power2(k)
    decreases j
  {
    if j > 0 {
      Power2Sum(j - 1, k);
      assert Power2(j + k) == 2 * Power2((j - 1) + k);
    }
  }

  lemma {:induction false} NumberAppend(a: seq<bool>, b: seq<bool>)
    ensures Number(a + b) == Number(a) + Power2(|a|) * Number(b)
    decreases a
  {
    if a == [] {
      assert a + b == b;
    } else {
      assert (a + b)[1..] == a[1..] + b && (a + b)[0] == a[0];
      NumberAppend(a[1..], b);
      var p, m := Power2(|a| - 1), Number(b);
      assert Number(a + b) == (if a[0] then 1 else 0) + 2 * (Number(a[1..]) + p * m);
      Doubled(p, m);
    }
  }

  lemma Doubled(p: nat, n: nat)
    ensures 2 * (p * n) == 2 * p * n
  {
  }

  lemma {:induction false} TopDigit(n: nat, k: nat)
    requires k > 0 && Power2(k - 1) <= n < Power2(k)
    ensures Digits(n, k)[k - 1]
    decreases k
  {
    if k > 1 {
      TopDigit(n / 2, k - 1);
    }
  }

  lemma Power2Of8()
    ensures Power2(8) == 0x100
  {
    assert Power2(4) == 16;
  }

  /** The digits of a byte. */
  function ByteBits(b: Byte): (r: seq<bool>)
    ensures |r| == 8
  {
    Digits(b, 8)
  }

  function ByteOf(bits: seq<bool>): (b: Byte)
    requires |bits| == 8
  {
    DigitsOfNumber(bits);
    Power2Of8();
    Number(bits)
  }

  lemma ByteRoundTrip(b: Byte, bits: seq<bool>)
    requires |bits| == 8
    ensures ByteOf(ByteBits(b)) == b && ByteBits(ByteOf(bits)) == bits
  {
    Power2Of8();
    NumberOfDigits(b, 8);
    DigitsOfNumber(bits);
  }

  /** The bytes of a text. */
  function Ascii(s: string): (r: seq<Byte>)
    requires forall i :: 0 <= i < |s| ==> s[i] as int < 0x80
    ensures |r| == |s| && forall i :: 0 <= i < |s| ==> r[i] == s[i] as int
  {
    seq(|s|, i requires 0 <= i < |s| => s[i] as int)
  }

  lemma NumberOfByte(b: Byte, rest: seq<bool>)
    ensures Number(ByteBits(b) + rest) == b + 0x100 * Number(rest)
  {
    NumberAppend(ByteBits(b), rest);
    Power2Of8();
    NumberOfDigits(b, 8);
  }

  // ----- The digits of given numbers -----

  /** The `k` digits of `n` are ones where `g` holds, from `o` on. */
  ghost predicate Marks(n: nat, k: nat, o: int, g: int -> bool) {
    forall i :: 0 <= i < k ==> Digits(n, k)[i] == g(o + i)
  }

  /** The value of a digit in front of `rest`. */
  function InFront(one: bool, rest: nat): nat {
    2 * rest + if one then 1 else 0
  }

  lemma MarksMore(n: nat, rest: nat, k: nat, o: int, g: int -> bool)
    requires k > 0 && n == InFront(g(o), rest) && Marks(rest, k - 1, o + 1, g)
    ensures Marks(n, k, o, g)
  {
    assert n / 2 == rest && (n % 2 == 1) == g(o);
    forall i | 0 <= i < k ensures Digits(n, k)[i] == g(o + i) {
      if i > 0 {
        assert Digits(n, k)[i] == Digits(rest, k - 1)[i - 1] == g(o + 1 + (i - 1));
      }
    }
  }

  /** Four digits at a time. */
  lemma MarksFour(n: nat, rest: nat, k: nat, o: int, g: int -> bool)
    requires k >= 4 && n == InFront(g(o), InFront(g(o + 1), InFront(g(o + 2), InFront(g(o + 3), rest))))
    requires Marks(rest, k - 4, o + 4, g)
    ensures Marks(n, k, o, g)
  {
    var a := InFront(g(o + 3), rest);
    var b := InFront(g(o + 2), a);
    var c := InFront(g(o + 1), b);
    MarksMore(a, rest, k - 3, o + 3, g);
    MarksMore(b, a, k - 2, o + 2, g);
    MarksMore(c, b, k - 1, o + 1, g);
    MarksMore(n, c, k, o, g);
  }
}
