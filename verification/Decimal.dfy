/** Decimal numbers as the C library reads and prints them. */
module Decimal {
  import opened Wrappers
  import opened Binary

  type Bytes = seq<Byte>

  const SPACE: Byte := 32
  const PLUS: Byte := 43
  const MINUS: Byte := 45
  const ZERO: Byte := 48

  predicate IsSpace(b: Byte) {
    b == SPACE || 9 <= b <= 13
  }

  predicate IsDigit(b: Byte) {
    48 <= b <= 57
  }

  function SkipSpace(s: Bytes): Bytes {
    if s != [] && IsSpace(s[0]) then SkipSpace(s[1..]) else s
  }

  /** The value of the leading digits, and what follows them. */
  function ScanDigits(s: Bytes, value: nat): (nat, Bytes)
    decreases s
  {
    if s == [] || !IsDigit(s[0]) then (value, s) else ScanDigits(s[1..], 10 * value + (s[0] - ZERO as int))
  }

  /** White space, a sign and digits, and what follows them; `None` when there are no digits. */
  function ScanInt(s: Bytes): Option<(int, Bytes)> {
    var t := SkipSpace(s);
    var u := if t != [] && (t[0] == MINUS || t[0] == PLUS) then t[1..] else t;
    if u == [] || !IsDigit(u[0]) then None
    else
      var (value, rest) := ScanDigits(u, 0);
      Some((if t[0] == MINUS then -(value as int) else value, rest))
  }

  function PrintNat(n: nat): Bytes {
    if n < 10 then [ZERO + n] else PrintNat(n / 10) + [ZERO + n % 10]
  }

  function PrintInt(n: int): Bytes {
    if n < 0 then [MINUS] + PrintNat(-n) else PrintNat(n)
  }

  lemma {:induction false} PrintNatDigits(n: nat)
    ensures PrintNat(n) != [] && forall i :: 0 <= i < |PrintNat(n)| ==> IsDigit(PrintNat(n)[i])
  {
    if n >= 10 {
      PrintNatDigits(n / 10);
    }
  }

  lemma {:induction false} ScanDigitsAppend(a: Bytes, b: Bytes, value: nat)
    requires forall i :: 0 <= i < |a| ==> IsDigit(a[i])
    ensures ScanDigits(a + b, value) == ScanDigits(b, ScanDigits(a, value).0)
    decreases a
  {
    if a == [] {
      assert a + b == b;
    } else {
      assert (a + b)[1..] == a[1..] + b;
      ScanDigitsAppend(a[1..], b, 10 * value + (a[0] - ZERO as int));
    }
  }

  lemma {:induction false} ScanPrintNat(n: nat, rest: Bytes)
    requires rest == [] || !IsDigit(rest[0])
    ensures ScanDigits(PrintNat(n) + rest, 0) == (n, rest)
    decreases n
  {
    if n < 10 {
      assert ([ZERO + n] + rest)[1..] == rest;
    } else {
      var last: Bytes := [ZERO + n % 10];
      PrintNatDigits(n / 10);
      assert PrintNat(n) + rest == PrintNat(n / 10) + (last + rest);
      ScanDigitsAppend(PrintNat(n / 10), last + rest, 0);
      ScanPrintNat(n / 10, []);
      assert PrintNat(n / 10) + [] == PrintNat(n / 10);
      assert (last + rest)[1..] == rest;
    }
  }

  lemma ScanUnsigned(m: nat, rest: Bytes)
    requires rest == [] || !IsDigit(rest[0])
    ensures var s := PrintNat(m) + rest;
            s != [] && IsDigit(s[0]) && SkipSpace(s) == s && ScanDigits(s, 0) == (m, rest)
  {
    PrintNatDigits(m);
    ScanPrintNat(m, rest);
  }

  /** A printed number is read back. */
  lemma ScanPrintInt(n: int, rest: Bytes)
    requires rest == [] || !IsDigit(rest[0])
    ensures ScanInt(PrintInt(n) + rest) == Some((n, rest))
  {
    if n < 0 {
      ScanUnsigned(-n, rest);
      var s := PrintInt(n) + rest;
      assert s[1..] == PrintNat(-n) + rest;
      assert SkipSpace(s) == s;
    } else {
      ScanUnsigned(n, rest);
    }
  }

  lemma ScanAfterSpace(s: Bytes)
    ensures ScanInt([SPACE] + s) == ScanInt(s)
  {
    assert ([SPACE] + s)[1..] == s;
  }

  lemma PrintIntPlain(n: int)
    ensures PrintInt(n) != []
    ensures forall i :: 0 <= i < |PrintInt(n)| ==> IsDigit(PrintInt(n)[i]) || PrintInt(n)[i] == MINUS
  {
    PrintNatDigits(if n < 0 then -n else n);
  }
}
