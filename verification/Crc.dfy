/**
 CRC-16/CCITT-FALSE as both ends of the link compute it: polynomial 0x1021, start value 0xffff,
 nothing reflected. One step per bit is a linear bijection on 16 bits, which is what makes the
 checksum detect errors.
 */
module Crc {
  import opened Bytes
  import opened Bits
  import opened Sequences

  /** The 16-bit register of the checksum. */
  type Register = r: seq<bool> | |r| == 16 witness Zeros(16)

  /** 0x1021: bits 12, 5 and 0. */
  const POLYNOMIAL: Register :=
    [false, false, false, true, false, false, false, false, false, false, true, false, false, false, false, true]

  /** 0xffff */
  const START: Register :=
    [true, true, true, true, true, true, true, true, true, true, true, true, true, true, true, true]

  /** Shift left by one; a bit that falls out is folded back in. */
  function CrcBit(crc: Register): Register {
    var shifted := crc[1..] + [false];
    if crc[0] then Xor(shifted, POLYNOMIAL) else shifted
  }

  function CrcBits(crc: Register, n: nat): Register {
    if n == 0 then crc else CrcBit(CrcBits(crc, n - 1))
  }

  /** A byte enters at the high end of the register. */
  function Enter(crc: Register, value: byte): Register {
    Xor(crc, ToBits(value, 8) + Zeros(8))
  }

  function CrcByte(crc: Register, value: byte): Register {
    CrcBits(Enter(crc, value), 8)
  }

  function CrcFrom(crc: Register, data: seq<byte>): Register {
    if data == [] then crc
    else CrcByte(CrcFrom(crc, data[..|data| - 1]), data[|data| - 1])
  }

  function ToNumber(crc: Register): uint16 {
    ToFromBits(crc);
    RegisterRange();
    FromBits(crc)
  }

  lemma RegisterRange()
    ensures Pow2(8) == 0x100 && Pow2(16) == 0x1_0000
  {
    assert Pow2(4) == 16;
    assert Pow2(8) == 256;
    assert Pow2(12) == 4096;
  }

  function Crc16(data: seq<byte>): uint16 {
    ToNumber(CrcFrom(START, data))
  }

  method ComputeCrc16(data: array<byte>, length: nat) returns (crc: uint16)
    requires length <= data.Length
    ensures crc == Crc16(data[..length])
  {
    var register := START;
    for index := 0 to length
      invariant register == CrcFrom(START, data[..index])
    {
      assert data[..index + 1][..index] == data[..index];
      register := CrcUpdate(register, data[index]);
    }
    return ToNumber(register);
  }

  /** Add one byte to a checksum in progress. */
  method CrcUpdate(crc: Register, value: byte) returns (updated: Register)
    ensures updated == CrcByte(crc, value)
  {
    updated := Enter(crc, value);
    for bit := 0 to 8
      invariant updated == CrcBits(Enter(crc, value), bit)
    {
      updated := CrcBit(updated);
    }
  }

  lemma {:induction false} CrcConcat(crc: Register, a: seq<byte>, b: seq<byte>)
    ensures CrcFrom(crc, a + b) == CrcFrom(CrcFrom(crc, a), b)
  {
    if b == [] {
      All(a);
    } else {
      CrcConcat(crc, a, b[..|b| - 1]);
      InitOfConcat(a, b);
    }
  }

  // ---------------------------------------------------------------------------------------
  // Every step loses nothing

  /** The lowest bit after a step tells which bit was shifted out. */
  lemma CrcBitInjective(a: Register, b: Register)
    requires CrcBit(a) == CrcBit(b)
    ensures a == b
  {
    assert CrcBit(a)[15] == a[0] && CrcBit(b)[15] == b[0];
    forall i | 1 <= i < 16
      ensures a[i] == b[i]
    {
      assert (a[1..] + [false])[i - 1] == a[i] && (b[1..] + [false])[i - 1] == b[i];
      assert CrcBit(a)[i - 1] == CrcBit(b)[i - 1];
    }
  }

  lemma {:induction false} CrcBitsInjective(a: Register, b: Register, n: nat)
    requires CrcBits(a, n) == CrcBits(b, n)
    ensures a == b
  {
    if n != 0 {
      CrcBitInjective(CrcBits(a, n - 1), CrcBits(b, n - 1));
      CrcBitsInjective(a, b, n - 1);
    }
  }

  lemma XorInjective(a: seq<bool>, b: seq<bool>, mask: seq<bool>)
    requires |a| == |b| == |mask| && Xor(a, mask) == Xor(b, mask)
    ensures a == b
  {
    forall i | 0 <= i < |a|
      ensures a[i] == b[i]
    {
      assert Xor(a, mask)[i] == Xor(b, mask)[i];
    }
  }

  /** A changed register changes the next one. */
  lemma CrcByteKeepsRegister(c: Register, d: Register, value: byte)
    requires CrcByte(c, value) == CrcByte(d, value)
    ensures c == d
  {
    CrcBitsInjective(Enter(c, value), Enter(d, value), 8);
    XorInjective(c, d, ToBits(value, 8) + Zeros(8));
  }

  /** A changed byte changes the next register. */
  lemma CrcByteKeepsByte(c: Register, value: byte, other: byte)
    requires CrcByte(c, value) == CrcByte(c, other)
    ensures value == other
  {
    CrcBitsInjective(Enter(c, value), Enter(c, other), 8);
    var p, q := ToBits(value, 8) + Zeros(8), ToBits(other, 8) + Zeros(8);
    forall i | 0 <= i < 8
      ensures ToBits(value, 8)[i] == ToBits(other, 8)[i]
    {
      assert Xor(c, p)[i] == Xor(c, q)[i];
      assert p[i] == q[i];
    }
    RegisterRange();
    ToBitsInjective(value, other, 8);
  }

  lemma {:induction false} CrcFromInjective(c: Register, d: Register, data: seq<byte>)
    requires CrcFrom(c, data) == CrcFrom(d, data)
    ensures c == d
  {
    if data != [] {
      var init := data[..|data| - 1];
      CrcByteKeepsRegister(CrcFrom(c, init), CrcFrom(d, init), data[|data| - 1]);
      CrcFromInjective(c, d, init);
    }
  }

  // ---------------------------------------------------------------------------------------
  // Every step is linear

  lemma CrcBitLinear(a: Register, b: Register)
    ensures CrcBit(Xor(a, b)) == Xor(CrcBit(a), CrcBit(b))
  {
  }

  lemma {:induction false} CrcBitsLinear(a: Register, b: Register, n: nat)
    ensures CrcBits(Xor(a, b), n) == Xor(CrcBits(a, n), CrcBits(b, n))
  {
    if n != 0 {
      CrcBitsLinear(a, b, n - 1);
      CrcBitLinear(CrcBits(a, n - 1), CrcBits(b, n - 1));
    }
  }

  /** Steps on a value with only low bits just move it up. */
  lemma {:induction false} CrcBitsLow(low: seq<bool>, n: nat)
    requires |low| == 8 && n <= 8
    ensures CrcBits(Zeros(8) + low, n) == Zeros(8 - n) + low + Zeros(n)
  {
    if n != 0 {
      CrcBitsLow(low, n - 1);
      var before := Zeros(9 - n) + low + Zeros(n - 1);
      assert !before[0];
      assert before[1..] + [false] == Zeros(8 - n) + low + Zeros(n);
    }
  }

  /** Two adjacent bytes are taken in without loss: 16 bits of message, 16 bits of register. */
  lemma CrcPairInjective(c: Register, a1: byte, a2: byte, b1: byte, b2: byte)
    requires CrcByte(CrcByte(c, a1), a2) == CrcByte(CrcByte(c, b1), b2)
    ensures a1 == b1 && a2 == b2
  {
    var x, y := CrcByte(c, a1), CrcByte(c, b1);
    CrcBitsInjective(Enter(x, a2), Enter(y, b2), 8);
    var d, e := Xor(ToBits(a1, 8), ToBits(b1, 8)), Xor(ToBits(a2, 8), ToBits(b2, 8));
    // the registers differ by what the difference of the first bytes has grown into
    CrcBitsLinear(Enter(c, a1), Enter(c, b1), 8);
    assert Xor(Enter(c, a1), Enter(c, b1)) == d + Zeros(8);
    assert Xor(x, y) == CrcBits(d + Zeros(8), 8);
    // and that is the difference of the second bytes
    DifferenceEntered(x, y, a2, b2);
    assert CrcBits(Zeros(8) + e, 8) == e + Zeros(8) by {
      CrcBitsLow(e, 8);
      assert Zeros(0) + e + Zeros(8) == e + Zeros(8);
    }
    CrcBitsInjective(d + Zeros(8), Zeros(8) + e, 8);
    NoDifference(a1, b1, d, e);
    NoDifference(a2, b2, e, d);
  }

  lemma DifferenceEntered(x: Register, y: Register, a: byte, b: byte)
    requires Enter(x, a) == Enter(y, b)
    ensures Xor(x, y) == Xor(ToBits(a, 8), ToBits(b, 8)) + Zeros(8)
  {
    var p, q := ToBits(a, 8) + Zeros(8), ToBits(b, 8) + Zeros(8);
    forall i | 0 <= i < 16
      ensures Xor(x, y)[i] == (Xor(ToBits(a, 8), ToBits(b, 8)) + Zeros(8))[i]
    {
      assert Xor(x, p)[i] == Xor(y, q)[i];
    }
  }

  lemma NoDifference(a: byte, b: byte, d: seq<bool>, e: seq<bool>)
    requires |d| == |e| == 8 && d == Xor(ToBits(a, 8), ToBits(b, 8))
    requires d + Zeros(8) == Zeros(8) + e || e + Zeros(8) == Zeros(8) + d
    ensures a == b
  {
    forall i | 0 <= i < 8
      ensures ToBits(a, 8)[i] == ToBits(b, 8)[i]
    {
      assert (d + Zeros(8))[i] == d[i] && (Zeros(8) + e)[i] == false;
      assert (Zeros(8) + d)[i + 8] == d[i] && (e + Zeros(8))[i + 8] == false;
    }
    RegisterRange();
    ToBitsInjective(a, b, 8);
  }
}
