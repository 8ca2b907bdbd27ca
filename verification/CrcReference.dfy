/** Two independent accounts of the checksum: over 32-bit numbers, and the table of RFC 1952. */
module CrcReference {
  import opened Bytes
  import opened Crc32

  // ------------------------------------------------------------------
  // The register as the number the program holds
  // ------------------------------------------------------------------

  /** Exclusive or of the n low bits. */
  function XorOf(a: nat, b: nat, n: nat): nat {
    if n == 0 then 0 else (a + b) % 2 + 2 * XorOf(a / 2, b / 2, n - 1)
  }

  function Shift(x: nat): nat {
    if x % 2 == 1 then XorOf(x / 2, 0xEDB8_8320, 32) else x / 2
  }

  function Shifts(x: nat, n: nat): nat
    decreases n
  {
    if n == 0 then x else Shifts(Shift(x), n - 1)
  }

  function After(x: nat, b: Byte): nat {
    Shifts(XorOf(x, b, 32), 8)
  }

  function RegisterOf(data: seq<Byte>): nat {
    if data == [] then 0xFFFF_FFFF else After(RegisterOf(data[..|data| - 1]), data[|data| - 1])
  }

  function CrcOf(data: seq<Byte>): nat {
    XorOf(RegisterOf(data), 0xFFFF_FFFF, 32)
  }

  lemma {:induction false} XorBits(a: nat, b: nat, n: nat)
    ensures XorOf(a, b, n) < Pow2(n)
    ensures BitsOf(XorOf(a, b, n), n) == Xor(BitsOf(a, n), BitsOf(b, n))
  {
    if n > 0 {
      XorBits(a / 2, b / 2, n - 1);
      assert XorOf(a, b, n) % 2 == (a + b) % 2 && XorOf(a, b, n) / 2 == XorOf(a / 2, b / 2, n - 1);
      BitParity(a, b);
    }
  }

  lemma BitParity(a: nat, b: nat)
    ensures ((a + b) % 2 == 1) == ((a % 2 == 1) != (b % 2 == 1))
  {}

  lemma {:induction false} HalfBits(x: nat, n: nat)
    requires n > 0 && x < Pow2(n)
    ensures BitsOf(x / 2, n) == BitsOf(x, n)[1..] + [false]
  {
    if n == 1 {
      assert BitsOf(x / 2, 1) == [false];
    } else {
      HalfBits(x / 2, n - 1);
      assert BitsOf(x / 2, n) == [x / 2 % 2 == 1] + BitsOf(x / 2 / 2, n - 1);
    }
  }

  lemma {:induction false} LowBits(x: nat, m: nat, n: nat)
    requires m <= n && x < Pow2(m)
    ensures BitsOf(x, n) == BitsOf(x, m) + Zeros(n - m)
  {
    if m == 0 {
      ZeroBits(n);
    } else {
      LowBits(x / 2, m - 1, n - 1);
    }
  }

  lemma {:induction false} ZeroBits(n: nat)
    ensures BitsOf(0, n) == Zeros(n)
  {
    if n > 0 {
      ZeroBits(n - 1);
      assert Zeros(n) == [false] + Zeros(n - 1);
    }
  }

  lemma ShiftIsStep(x: nat)
    requires x < Pow2(32)
    ensures Shift(x) < Pow2(32) && BitsOf(Shift(x), 32) == Step(BitsOf(x, 32))
  {
    HalfBits(x, 32);
    XorBits(x / 2, 0xEDB8_8320, 32);
  }

  lemma {:induction false} OnesOf(n: nat)
    ensures BitsOf(Pow2(n) - 1, n) == Complement(Zeros(n))
  {
    if n > 0 {
      OnesOf(n - 1);
      assert (Pow2(n) - 1) / 2 == Pow2(n - 1) - 1 && (Pow2(n) - 1) % 2 == 1;
      assert Complement(Zeros(n)) == [true] + Complement(Zeros(n - 1));
    }
  }

  lemma OnesBits()
    ensures Pow2(8) == 0x100 && Pow2(32) == 0x1_0000_0000
    ensures BitsOf(0xFFFF_FFFF, 32) == ALL_ONES
  {
    assert Pow2(8) == 0x100;
    assert Pow2(16) == 0x1_0000;
    assert Pow2(24) == 0x100_0000;
    OnesOf(32);
  }

  lemma {:induction false} ShiftsAreSteps(x: nat, n: nat)
    requires x < Pow2(32)
    ensures Shifts(x, n) < Pow2(32) && BitsOf(Shifts(x, n), 32) == Steps(BitsOf(x, 32), n)
    decreases n
  {
    hide Shift, Step, BitsOf, Pow2;
    if n == 0 {
      assert Steps(BitsOf(x, 32), 0) == BitsOf(x, 32);
    } else {
      ShiftIsStep(x);
      ShiftsAreSteps(Shift(x), n - 1);
      FirstStep(BitsOf(x, 32), n);
    }
  }

  lemma {:induction false} RegisterIsNumber(data: seq<Byte>)
    ensures RegisterOf(data) < Pow2(32) && BitsOf(RegisterOf(data), 32) == Register(ALL_ONES, data)
  {
    if data == [] {
      OnesBits();
    } else {
      var x, b := RegisterOf(data[..|data| - 1]), data[|data| - 1];
      RegisterIsNumber(data[..|data| - 1]);
      XorBits(x, b, 32);
      LowBits(b, 8, 32);
      ShiftsAreSteps(XorOf(x, b, 32), 8);
    }
  }

  /** The checksum as bits is the checksum as a number, on every input. */
  lemma CrcIsNumber(data: seq<Byte>)
    ensures CrcOf(data) < Pow2(32) && BitsOf(CrcOf(data), 32) == Crc(data)
  {
    RegisterIsNumber(data);
    OnesBits();
    XorBits(RegisterOf(data), 0xFFFF_FFFF, 32);
  }

  // ------------------------------------------------------------------
  // The table-driven algorithm of section 8 of RFC 1952
  // ------------------------------------------------------------------

  const RFC_POLY: Word := BitsOf(0xEDB8_8320, 32)
  const RFC_ONES: Word := BitsOf(0xFFFF_FFFF, 32)

  /** k turns of the loop that makes the RFC's table. */
  function Turned(c: Word, k: nat): Word {
    if k == 0 then c
    else
      var d := Turned(c, k - 1);
      if d[0] then Xor(RFC_POLY, ShiftRight(d)) else ShiftRight(d)
  }

  /** Entry n of the table, n given by its eight bits. */
  function TableEntry(n: Bits): Word
    requires |n| == 8
  {
    Turned(Widen(n), 8)
  }

  /** The checksum: the start value 0 and the register are complemented around the loop. */
  function RfcCrc(data: seq<Byte>): Word {
    Xor(TableRegister(Xor(Zeros(32), RFC_ONES), data), RFC_ONES)
  }

  /** table[(c ^ b) & 0xff] ^ (c >> 8) for each byte b. */
  function TableRegister(c: Word, data: seq<Byte>): Word {
    if data == [] then c
    else
      var c' := TableRegister(c, data[..|data| - 1]);
      var b: Word := Widen(BitsOf(data[|data| - 1], 8));
      Xor(TableEntry(Xor(c', b)[..8]), c'[8..] + Zeros(8))
  }

  /** Bits above the low ones are only shifted down. */
  lemma {:induction false} StepsShift(low: nat, high: Bits)
    requires low + |high| <= 32
    ensures Steps(Zeros(low) + high + Zeros(32 - low - |high|), low) == Widen(high)
  {
    var c: Word := Zeros(low) + high + Zeros(32 - low - |high|);
    if low == 0 {
      assert c == Widen(high);
    } else {
      FirstStep(c, low);
      assert Step(c) == Zeros(low - 1) + high + Zeros(32 - (low - 1) - |high|);
      StepsShift(low - 1, high);
    }
  }

  lemma {:induction false} TurnsAreSteps(c: Word, k: nat)
    ensures Turned(c, k) == Steps(c, k)
  {
    hide BitsOf;
    if k > 0 {
      TurnsAreSteps(c, k - 1);
      var d := Steps(c, k - 1);
      assert Xor(RFC_POLY, ShiftRight(d)) == Xor(ShiftRight(d), POLY);
    }
  }

  lemma {:induction false} TableAgrees(c: Word, data: seq<Byte>)
    ensures TableRegister(c, data) == Register(c, data)
  {
    if data != [] {
      var n := |data| - 1;
      TableAgrees(c, data[..n]);
      var c' := Register(c, data[..n]);
      var mixed: Word := Xor(c', Widen(BitsOf(data[n], 8)));
      var high: Word := Zeros(8) + c'[8..];
      assert mixed == Xor(Widen(mixed[..8]), high);
      TurnsAreSteps(Widen(mixed[..8]), 8);
      StepsAreLinear(Widen(mixed[..8]), high, 8);
      assert high == Zeros(8) + c'[8..] + Zeros(0);
      StepsShift(8, c'[8..]);
    }
  }

  /** The bitwise loop and the RFC's algorithm agree on every input. */
  lemma CrcIsRfc1952(data: seq<Byte>)
    ensures RfcCrc(data) == Crc(data)
  {
    hide BitsOf;
    OnesBits();
    assert Xor(Zeros(32), RFC_ONES) == ALL_ONES;
    TableAgrees(ALL_ONES, data);
  }
}
