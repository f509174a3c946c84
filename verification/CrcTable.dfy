/** CyclicRedundancyCheck.cpp: the table-driven code, against the CRC one bit at a time. */
module CrcTable {
  import opened Binary
  import opened CyclicRedundancyCheck
  import opened CrcDivision

  // ----- The table -----

  function Entry(i: nat): Word {
    Steps(Digits(i, 32), 8)
  }

  /** One byte through the table. */
  function TableStep(crc: Word, b: Byte): Word {
    var index := Number(Xor(crc, Extend(ByteBits(b)))[..8]);
    Xor(Entry(index), ShiftRight(crc, 8))
  }

  lemma {:induction false} StepsOfShifted(c: Word, k: nat)
    requires k <= 32 && forall i :: 0 <= i < k ==> !c[i]
    ensures Steps(c, k) == ShiftRight(c, k)
    decreases k
  {
    if k > 0 {
      StepsOfShifted(ShiftRight(c, 1), k - 1);
      assert ShiftRight(ShiftRight(c, 1), k - 1) == ShiftRight(c, k);
    } else {
      assert ShiftRight(c, 0) == c;
    }
  }

  lemma {:induction false} DigitsExtend(n: nat, k: nat, m: nat)
    requires n < Power2(k) && k <= m
    ensures Digits(n, m) == Digits(n, k) + Zeros(m - k)
    decreases m
  {
    if k > 0 {
      DigitsExtend(n / 2, k - 1, m - 1);
    } else if m > 0 {
      DigitsExtend(n / 2, 0, m - 1);
    }
  }

  /** The table entry that a register value selects. */
  lemma EntryOf(x: Word)
    ensures Number(x[..8]) < 0x100 && Entry(Number(x[..8])) == Steps(Extend(x[..8]), 8)
  {
    DigitsOfNumber(x[..8]);
    Power2Of8();
    DigitsExtend(Number(x[..8]), 8, 32);
  }

  /** A byte through the table is its eight bits through the register. */
  lemma TableStepIsShift(crc: Word, b: Byte)
    ensures TableStep(crc, b) == Shift(crc, ByteBits(b))
  {
    var x := Xor(crc, Extend(ByteBits(b)));
    ShiftIsSteps(crc, ByteBits(b));
    EntryOf(x);
    StepsSplit(x);
    assert ShiftRight(x, 8) == ShiftRight(crc, 8);
  }

  /** Eight steps shift the upper bits down and transform the lowest byte. */
  lemma StepsSplit(x: Word)
    ensures Steps(x, 8) == Xor(Steps(Extend(x[..8]), 8), ShiftRight(x, 8))
  {
    var low: Word, high: Word := Extend(x[..8]), Zeros(8) + x[8..];
    assert x == Xor(low, high);
    StepsLinear(low, high, 8);
    StepsOfShifted(high, 8);
    assert ShiftRight(high, 8) == ShiftRight(x, 8);
  }

  lemma ShiftByte(crc: Word, s: seq<Byte>)
    requires s != []
    ensures Shift(crc, Bits(s)) == Shift(TableStep(crc, s[0]), Bits(s[1..]))
  {
    TableStepIsShift(crc, s[0]);
    ShiftAppend(crc, ByteBits(s[0]), Bits(s[1..]));
  }

  // ----- The code -----

  ghost predicate Filled(table: array<Word>)
    reads table
  {
    table.Length == 0x100 && forall i :: 0 <= i < 0x100 ==> table[i] == Entry(i)
  }

  method MakeCrcTable(crcTable: array<Word>)
    requires crcTable.Length == 0x100
    modifies crcTable
    ensures Filled(crcTable)
  {
    var i := 0;
    while i < 0x100
      invariant i <= 0x100 && forall j :: 0 <= j < i ==> crcTable[j] == Entry(j)
    {
      var c := MakeEntry(i);
      crcTable[i] := c;
      i := i + 1;
    }
  }

  /** The inner loop. */
  method MakeEntry(i: nat) returns (c: Word)
    ensures c == Entry(i)
  {
    c := MakeSteps(Digits(i, 32), 8);
  }

  method MakeSteps(c: Word, n: nat) returns (r: Word)
    ensures r == Steps(c, n)
  {
    r := c;
    var k := 0;
    while k < n
      invariant k <= n && Steps(r, n - k) == Steps(c, n)
    {
      r := MakeStep(r);
      k := k + 1;
    }
  }

  /** One turn of the inner loop. */
  method MakeStep(c: Word) returns (r: Word)
    ensures r == BitStep(c)
  {
    if c[0] {
      r := Xor(Polynomial(), ShiftRight(c, 1));
    } else {
      r := ShiftRight(c, 1);
    }
  }

  /** The static variables of `computeCrc`. */
  class CrcComputer {
    const crcTable: array<Word>
    var crcTableComputed: bool

    ghost predicate Valid()
      reads this, crcTable
    {
      crcTable.Length == 0x100 && (crcTableComputed ==> Filled(crcTable))
    }

    constructor ()
      ensures Valid() && fresh(crcTable) && !crcTableComputed
    {
      crcTable := new Word[0x100](_ => Zeros(32));
      crcTableComputed := false;
    }

    /** The same value on every call: the first one fills the table, later ones rely on it. */
    method ComputeCrc(buffer: seq<Byte>) returns (crc: Word)
      requires Valid()
      modifies this, crcTable
      ensures Valid() && crcTableComputed
      ensures crc == Crc(buffer) && IsCrc(buffer, crc)
    {
      if !crcTableComputed {
        MakeCrcTable(crcTable);
        crcTableComputed := true;
      }
      crc := Ones();
      var i := 0;
      while i < |buffer|
        invariant i <= |buffer| && crcTableComputed && Filled(crcTable)
        invariant Shift(crc, Bits(buffer[i..])) == Shift(Ones(), Bits(buffer))
      {
        ShiftByte(crc, buffer[i..]);
        assert buffer[i..][1..] == buffer[i + 1..];
        var x := Xor(crc, Extend(ByteBits(buffer[i])));
        EntryOf(x);
        crc := Xor(crcTable[Number(x[..8])], ShiftRight(crc, 8));
        i := i + 1;
      }
      crc := Xor(crc, Ones());
      CrcIsRemainder(buffer, crc);
    }
  }
}
