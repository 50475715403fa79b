/**
 The codes of the link and of the store against what others have written down: the arithmetic of the C code
 on machine words, check values, the example frame of the protocol, and the alphabet of RFC 4648, section 4.
 */
module KnownAnswers {
  import opened Bytes
  import opened Bits
  import opened Crc
  import opened Framing
  import opened Detection
  import opened Sequences
  import UrlStore
  import PageFields

  // ---------------------------------------------------------------------------------------
  // CRC-16 on words of 16 bits

  /** The register holds the bits of a word, highest first. */
  ghost predicate Holds(r: Register, c: bv16) {
    && (r[0] <==> c & 0x8000 != 0) && (r[1] <==> c & 0x4000 != 0) && (r[2] <==> c & 0x2000 != 0) && (r[3] <==> c & 0x1000 != 0)
    && (r[4] <==> c & 0x800 != 0) && (r[5] <==> c & 0x400 != 0) && (r[6] <==> c & 0x200 != 0) && (r[7] <==> c & 0x100 != 0)
    && (r[8] <==> c & 0x80 != 0) && (r[9] <==> c & 0x40 != 0) && (r[10] <==> c & 0x20 != 0) && (r[11] <==> c & 0x10 != 0)
    && (r[12] <==> c & 0x8 != 0) && (r[13] <==> c & 0x4 != 0) && (r[14] <==> c & 0x2 != 0) && (r[15] <==> c & 0x1 != 0)
  }

  /** The shift of the C code. */
  function Shift(c: bv16): bv16 {
    if c & 0x8000 != 0 then (c << 1) ^ 0x1021 else c << 1
  }

  /** d is c, shifted. */
  predicate Moves(c: bv16, d: bv16) {
    && (d & 0x8000 != 0 <==> c & 0x4000 != 0) && (d & 0x4000 != 0 <==> c & 0x2000 != 0) && (d & 0x2000 != 0 <==> c & 0x1000 != 0) && (d & 0x1000 != 0 <==> c & 0x800 != 0)
    && (d & 0x800 != 0 <==> c & 0x400 != 0) && (d & 0x400 != 0 <==> c & 0x200 != 0) && (d & 0x200 != 0 <==> c & 0x100 != 0) && (d & 0x100 != 0 <==> c & 0x80 != 0)
    && (d & 0x80 != 0 <==> c & 0x40 != 0) && (d & 0x40 != 0 <==> c & 0x20 != 0) && (d & 0x20 != 0 <==> c & 0x10 != 0) && (d & 0x10 != 0 <==> c & 0x8 != 0)
    && (d & 0x8 != 0 <==> c & 0x4 != 0) && (d & 0x4 != 0 <==> c & 0x2 != 0) && (d & 0x2 != 0 <==> c & 0x1 != 0) && d & 1 == 0
  }

  /** e is d with the bits of the polynomial flipped. */
  predicate Flips(d: bv16, e: bv16) {
    && (e & 0x8000 != 0 <==> d & 0x8000 != 0) && (e & 0x4000 != 0 <==> d & 0x4000 != 0) && (e & 0x2000 != 0 <==> d & 0x2000 != 0) && (e & 0x1000 != 0 <==> d & 0x1000 == 0)
    && (e & 0x800 != 0 <==> d & 0x800 != 0) && (e & 0x400 != 0 <==> d & 0x400 != 0) && (e & 0x200 != 0 <==> d & 0x200 != 0) && (e & 0x100 != 0 <==> d & 0x100 != 0)
    && (e & 0x80 != 0 <==> d & 0x80 != 0) && (e & 0x40 != 0 <==> d & 0x40 != 0) && (e & 0x20 != 0 <==> d & 0x20 == 0) && (e & 0x10 != 0 <==> d & 0x10 != 0)
    && (e & 0x8 != 0 <==> d & 0x8 != 0) && (e & 0x4 != 0 <==> d & 0x4 != 0) && (e & 0x2 != 0 <==> d & 0x2 != 0) && (e & 0x1 != 0 <==> d & 0x1 == 0)
  }

  lemma ShiftMoves(c: bv16)
    ensures Moves(c, c << 1)
  {
  }

  lemma PatternFlips(d: bv16)
    ensures Flips(d, d ^ 0x1021)
  {
  }

  lemma ShiftWithoutTop(r: Register, c: bv16, d: bv16)
    requires Holds(r, c) && Moves(c, d) && c & 0x8000 == 0
    ensures Holds(CrcBit(r), d)
  {
    hide CrcBit;
    CrcBitExplicit(r);
  }

  lemma ShiftWithTop(r: Register, c: bv16, d: bv16, e: bv16)
    requires Holds(r, c) && Moves(c, d) && Flips(d, e) && c & 0x8000 != 0
    ensures Holds(CrcBit(r), e)
  {
    hide CrcBit;
    CrcBitExplicit(r);
  }

  /** Shifting the register of the model is the shift of the C code. */
  lemma ShiftAgrees(r: Register, c: bv16)
    requires Holds(r, c)
    ensures Holds(CrcBit(r), Shift(c))
  {
    hide CrcBit, Holds, Moves, Flips;
    ShiftMoves(c);
    PatternFlips(c << 1);
    ShiftEither(r, c, c << 1, (c << 1) ^ 0x1021);
  }

  lemma ShiftEither(r: Register, c: bv16, d: bv16, e: bv16)
    requires Holds(r, c) && Moves(c, d) && Flips(d, e)
    ensures Holds(CrcBit(r), if c & 0x8000 != 0 then e else d)
  {
    hide CrcBit, Holds, Moves, Flips;
    if c & 0x8000 == 0 {
      ShiftWithoutTop(r, c, d);
    } else {
      ShiftWithTop(r, c, d, e);
    }
  }

  /** One byte, as the C code adds it. */
  function AddByte(c: bv16, v: bv16): bv16 {
    Shift(Shift(Shift(Shift(Shift(Shift(Shift(Shift(c ^ (v << 8)))))))))
  }

  predicate SameByte(n: byte, v: bv16) {
    && (n / 128 % 2 == 1 <==> v & 0x80 != 0) && (n / 64 % 2 == 1 <==> v & 0x40 != 0) && (n / 32 % 2 == 1 <==> v & 0x20 != 0) && (n / 16 % 2 == 1 <==> v & 0x10 != 0)
    && (n / 8 % 2 == 1 <==> v & 0x8 != 0) && (n / 4 % 2 == 1 <==> v & 0x4 != 0) && (n / 2 % 2 == 1 <==> v & 0x2 != 0) && (n % 2 == 1 <==> v & 0x1 != 0)
  }

  lemma EnterFlips(c: bv16, v: bv16)
    ensures (c ^ (v << 8)) & 0x8000 != 0 <==> (c & 0x8000 != 0) != (v & 0x80 != 0)
    ensures (c ^ (v << 8)) & 0x4000 != 0 <==> (c & 0x4000 != 0) != (v & 0x40 != 0)
    ensures (c ^ (v << 8)) & 0x2000 != 0 <==> (c & 0x2000 != 0) != (v & 0x20 != 0)
    ensures (c ^ (v << 8)) & 0x1000 != 0 <==> (c & 0x1000 != 0) != (v & 0x10 != 0)
    ensures (c ^ (v << 8)) & 0x800 != 0 <==> (c & 0x800 != 0) != (v & 0x8 != 0)
    ensures (c ^ (v << 8)) & 0x400 != 0 <==> (c & 0x400 != 0) != (v & 0x4 != 0)
    ensures (c ^ (v << 8)) & 0x200 != 0 <==> (c & 0x200 != 0) != (v & 0x2 != 0)
    ensures (c ^ (v << 8)) & 0x100 != 0 <==> (c & 0x100 != 0) != (v & 0x1 != 0)
    ensures (c ^ (v << 8)) & 0x80 == c & 0x80
    ensures (c ^ (v << 8)) & 0x40 == c & 0x40
    ensures (c ^ (v << 8)) & 0x20 == c & 0x20
    ensures (c ^ (v << 8)) & 0x10 == c & 0x10
    ensures (c ^ (v << 8)) & 0x8 == c & 0x8
    ensures (c ^ (v << 8)) & 0x4 == c & 0x4
    ensures (c ^ (v << 8)) & 0x2 == c & 0x2
    ensures (c ^ (v << 8)) & 0x1 == c & 0x1
  {
  }

  /** The bits of a byte, highest first. */
  lemma ByteBits(n: byte)
    ensures ToBits(n, 8) == [n / 128 % 2 == 1, n / 64 % 2 == 1, n / 32 % 2 == 1, n / 16 % 2 == 1,
                             n / 8 % 2 == 1, n / 4 % 2 == 1, n / 2 % 2 == 1, n % 2 == 1]
  {
    hide ToBits;
    Halving(n);
    FourBits(n / 16, 0);
    FourBits(n, 4);
    NoBits(n / 16 / 16);
    EightBits(n / 128 % 2 == 1, n / 64 % 2 == 1, n / 32 % 2 == 1, n / 16 % 2 == 1,
              n / 8 % 2 == 1, n / 4 % 2 == 1, n / 2 % 2 == 1, n % 2 == 1);
  }

  lemma EightBits(a: bool, b: bool, c: bool, d: bool, e: bool, f: bool, g: bool, h: bool)
    ensures ([] + [a, b, c, d]) + [e, f, g, h] == [a, b, c, d, e, f, g, h]
  {
  }

  lemma Halving(n: byte)
    ensures n / 16 / 2 == n / 32 && n / 16 / 4 == n / 64 && n / 16 / 8 == n / 128
  {
  }

  lemma NoBits(n: nat)
    ensures ToBits(n, 0) == []
  {
  }

  lemma FourBits(n: nat, k: nat)
    ensures ToBits(n, k + 4) == ToBits(n / 16, k) + [n / 8 % 2 == 1, n / 4 % 2 == 1, n / 2 % 2 == 1, n % 2 == 1]
  {
    hide ToBits;
    HalfAgain(n);
    OneBit(n, k + 3);
    OneBit(n / 2, k + 2);
    OneBit(n / 4, k + 1);
    OneBit(n / 8, k);
  }

  lemma HalfAgain(n: nat)
    ensures n / 2 / 2 == n / 4 && n / 4 / 2 == n / 8 && n / 8 / 2 == n / 16
  {
  }

  lemma OneBit(n: nat, k: nat)
    ensures ToBits(n, k + 1) == ToBits(n / 2, k) + [n % 2 == 1]
  {
  }

  lemma EnterAgrees(r: Register, c: bv16, n: byte, v: bv16)
    requires Holds(r, c) && SameByte(n, v)
    ensures Holds(Enter(r, n), c ^ (v << 8))
  {
    hide ToBits;
    ByteBits(n);
    EnterFlips(c, v);
  }

  /** Adding a byte to the register of the model is what the C code does with the word. */
  lemma ByteAgrees(r: Register, c: bv16, n: byte, v: bv16)
    requires Holds(r, c) && SameByte(n, v)
    ensures Holds(CrcByte(r, n), AddByte(c, v))
  {
    hide Holds, Shift, CrcBit, Enter, SameByte;
    EnterAgrees(r, c, n, v);
    var r0, c0 := Enter(r, n), c ^ (v << 8);
    ShiftAgrees(r0, c0);
    var r1, c1 := CrcBit(r0), Shift(c0);
    ShiftAgrees(r1, c1);
    var r2, c2 := CrcBit(r1), Shift(c1);
    ShiftAgrees(r2, c2);
    var r3, c3 := CrcBit(r2), Shift(c2);
    ShiftAgrees(r3, c3);
    var r4, c4 := CrcBit(r3), Shift(c3);
    ShiftAgrees(r4, c4);
    var r5, c5 := CrcBit(r4), Shift(c4);
    ShiftAgrees(r5, c5);
    var r6, c6 := CrcBit(r5), Shift(c5);
    ShiftAgrees(r6, c6);
    var r7, c7 := CrcBit(r6), Shift(c6);
    ShiftAgrees(r7, c7);
    EightSteps(r0, r1, r2, r3, r4, r5, r6, r7, CrcBit(r7));
  }

  /** The checksum of a message that the C code reads as words of eight bits. */
  function Checksum(words: seq<bv16>): bv16 {
    if words == [] then 0xffff else AddByte(Checksum(words[..|words| - 1]), words[|words| - 1])
  }

  lemma {:induction false} ChecksumAgrees(data: seq<byte>, words: seq<bv16>)
    requires |data| == |words| && forall i :: 0 <= i < |data| ==> SameByte(data[i], words[i])
    ensures Holds(CrcFrom(START, data), Checksum(words))
    decreases |data|
  {
    hide SameByte, AddByte, CrcByte;
    if data == [] {
      StartHolds();
    } else {
      var last := |data| - 1;
      ChecksumAgrees(data[..last], words[..last]);
      ByteAgrees(CrcFrom(START, data[..last]), Checksum(words[..last]), data[last], words[last]);
    }
  }

  lemma StartHolds()
    ensures Holds(START, 0xffff)
  {
  }

  lemma HighHalf(c: bv16)
    ensures (c >> 8) & 0x80 != 0 <==> c & 0x8000 != 0
    ensures (c >> 8) & 0x40 != 0 <==> c & 0x4000 != 0
    ensures (c >> 8) & 0x20 != 0 <==> c & 0x2000 != 0
    ensures (c >> 8) & 0x10 != 0 <==> c & 0x1000 != 0
    ensures (c >> 8) & 0x8 != 0 <==> c & 0x800 != 0
    ensures (c >> 8) & 0x4 != 0 <==> c & 0x400 != 0
    ensures (c >> 8) & 0x2 != 0 <==> c & 0x200 != 0
    ensures (c >> 8) & 0x1 != 0 <==> c & 0x100 != 0
  {
  }

  lemma LowHalf(c: bv16)
    ensures (c & 0xff) & 0x80 != 0 <==> c & 0x80 != 0
    ensures (c & 0xff) & 0x40 != 0 <==> c & 0x40 != 0
    ensures (c & 0xff) & 0x20 != 0 <==> c & 0x20 != 0
    ensures (c & 0xff) & 0x10 != 0 <==> c & 0x10 != 0
    ensures (c & 0xff) & 0x8 != 0 <==> c & 0x8 != 0
    ensures (c & 0xff) & 0x4 != 0 <==> c & 0x4 != 0
    ensures (c & 0xff) & 0x2 != 0 <==> c & 0x2 != 0
    ensures (c & 0xff) & 0x1 != 0 <==> c & 0x1 != 0
  {
  }

  /** The two bytes sent, low byte first, are the halves of the word that the C code has computed. */
  lemma ChecksumOnWire(data: seq<byte>, words: seq<bv16>)
    requires |data| == |words| && forall i :: 0 <= i < |data| ==> SameByte(data[i], words[i])
    ensures SameByte(LittleEndian(Crc16(data))[0], Checksum(words) & 0xff)
    ensures SameByte(LittleEndian(Crc16(data))[1], Checksum(words) >> 8)
  {
    hide ToBits, Checksum, CrcFrom, ToNumber;
    ChecksumAgrees(data, words);
    var r, c := CrcFrom(START, data), Checksum(words);
    ChecksumBytes(r);
    HighByte(r, c, LittleEndian(ToNumber(r))[1]);
    LowByte(r, c, LittleEndian(ToNumber(r))[0]);
  }

  /** The bits of a byte one by one. */
  lemma EachBit(n: byte)
    ensures var bits := ToBits(n, 8);
            && bits[0] == (n / 128 % 2 == 1) && bits[1] == (n / 64 % 2 == 1) && bits[2] == (n / 32 % 2 == 1)
            && bits[3] == (n / 16 % 2 == 1) && bits[4] == (n / 8 % 2 == 1) && bits[5] == (n / 4 % 2 == 1)
            && bits[6] == (n / 2 % 2 == 1) && bits[7] == (n % 2 == 1)
  {
    hide ToBits;
    ByteBits(n);
  }

  lemma HighByte(r: Register, c: bv16, n: byte)
    requires Holds(r, c) && ToBits(n, 8) == r[..8]
    ensures SameByte(n, c >> 8)
  {
    hide ToBits;
    EachBit(n);
    HighHalf(c);
  }

  lemma LowByte(r: Register, c: bv16, n: byte)
    requires Holds(r, c) && ToBits(n, 8) == r[8..]
    ensures SameByte(n, c & 0xff)
  {
    hide ToBits;
    EachBit(n);
    LowHalf(c);
  }

  // ---------------------------------------------------------------------------------------
  // Check values of the protocol

  lemma ChecksumGrows(words: seq<bv16>, v: bv16)
    ensures Checksum(words + [v]) == AddByte(Checksum(words), v)
  {
    assert (words + [v])[..|words|] == words;
  }

  lemma DigitSteps()
    ensures AddByte(0xffff, 0x31) == 0xc782
    ensures AddByte(0xc782, 0x32) == 0x3dba
    ensures AddByte(0x3dba, 0x33) == 0x5bce
    ensures AddByte(0x5bce, 0x34) == 0x5349
    ensures AddByte(0x5349, 0x35) == 0x4560
    ensures AddByte(0x4560, 0x36) == 0x2ef4
    ensures AddByte(0x2ef4, 0x37) == 0x7718
    ensures AddByte(0x7718, 0x38) == 0xa12b
    ensures AddByte(0xa12b, 0x39) == 0x29b1
  {
  }

  lemma HelloSteps()
    ensures AddByte(0xffff, 0x2) == 0xc1b2
    ensures AddByte(0xc1b2, 0x0) == 0x7b6d
    ensures AddByte(0x7b6d, 0x1) == 0xb2dd
    ensures AddByte(0xb2dd, 0x0) == 0x5a99
    ensures AddByte(0x5a99, 0x8) == 0xe3b7
    ensures AddByte(0xe3b7, 0x0) == 0x7a4d
    ensures AddByte(0x7a4d, 0x50) == 0xc828
    ensures AddByte(0xc828, 0x32) == 0x6655
    ensures AddByte(0x6655, 0x57) == 0x7372
    ensures AddByte(0x7372, 0x50) == 0x6601
    ensures AddByte(0x6601, 0x2) == 0x2d22
    ensures AddByte(0x2d22, 0x2) == 0xf78d
    ensures AddByte(0xf78d, 0xf0) == 0xfde7
    ensures AddByte(0xfde7, 0x0) == 0xd9b2
  {
  }

  /** The sum of a longer message from that of a shorter one, when the words are given one by one. */
  lemma Grows(words: seq<bv16>, c: bv16, v: bv16, longer: seq<bv16>, d: bv16)
    requires Checksum(words) == c && AddByte(c, v) == d && longer == words + [v]
    ensures Checksum(longer) == d
  {
    ChecksumGrows(words, v);
  }

  lemma DigitsSum()
    ensures Checksum([0x31, 0x32, 0x33, 0x34, 0x35, 0x36, 0x37, 0x38, 0x39]) == 0x29b1
  {
    hide AddByte, Checksum;
    DigitSteps();
    NothingSums();
    Grows([], 0xffff, 0x31, [0x31], 0xc782);
    Grows([0x31], 0xc782, 0x32, [0x31, 0x32], 0x3dba);
    Grows([0x31, 0x32], 0x3dba, 0x33, [0x31, 0x32, 0x33], 0x5bce);
    Grows([0x31, 0x32, 0x33], 0x5bce, 0x34, [0x31, 0x32, 0x33, 0x34], 0x5349);
    Grows([0x31, 0x32, 0x33, 0x34], 0x5349, 0x35, [0x31, 0x32, 0x33, 0x34, 0x35], 0x4560);
    Grows([0x31, 0x32, 0x33, 0x34, 0x35], 0x4560, 0x36, [0x31, 0x32, 0x33, 0x34, 0x35, 0x36], 0x2ef4);
    Grows([0x31, 0x32, 0x33, 0x34, 0x35, 0x36], 0x2ef4, 0x37, [0x31, 0x32, 0x33, 0x34, 0x35, 0x36, 0x37], 0x7718);
    Grows([0x31, 0x32, 0x33, 0x34, 0x35, 0x36, 0x37], 0x7718, 0x38, [0x31, 0x32, 0x33, 0x34, 0x35, 0x36, 0x37, 0x38], 0xa12b);
    Grows([0x31, 0x32, 0x33, 0x34, 0x35, 0x36, 0x37, 0x38], 0xa12b, 0x39,
          [0x31, 0x32, 0x33, 0x34, 0x35, 0x36, 0x37, 0x38, 0x39], 0x29b1);
  }

  lemma NothingSums()
    ensures Checksum([]) == 0xffff
  {
  }

  /** Numbers and words of the same value have the same bits. */
  lemma SameLiterals()
    ensures SameByte(0x0, 0x0)
    ensures SameByte(0x1, 0x1)
    ensures SameByte(0x2, 0x2)
    ensures SameByte(0x8, 0x8)
    ensures SameByte(0x29, 0x29)
    ensures SameByte(0x31, 0x31)
    ensures SameByte(0x32, 0x32)
    ensures SameByte(0x33, 0x33)
    ensures SameByte(0x34, 0x34)
    ensures SameByte(0x35, 0x35)
    ensures SameByte(0x36, 0x36)
    ensures SameByte(0x37, 0x37)
    ensures SameByte(0x38, 0x38)
    ensures SameByte(0x39, 0x39)
    ensures SameByte(0x50, 0x50)
    ensures SameByte(0x57, 0x57)
    ensures SameByte(0xb1, 0xb1)
    ensures SameByte(0xb2, 0xb2)
    ensures SameByte(0xd9, 0xd9)
    ensures SameByte(0xf0, 0xf0)
  {
  }

  lemma DigitBytes()
    ensures Text("123456789") == [0x31, 0x32, 0x33, 0x34, 0x35, 0x36, 0x37, 0x38, 0x39]
  {
  }

  /** The check value of CRC-16/CCITT-FALSE. */
  lemma CheckValue()
    ensures Crc16(Text("123456789")) == 0x29b1
  {
    hide SameByte, Text, Checksum, Crc16;
    DigitBytes();
    DigitsSum();
    SameLiterals();
    ChecksumOnWire([0x31, 0x32, 0x33, 0x34, 0x35, 0x36, 0x37, 0x38, 0x39], [0x31, 0x32, 0x33, 0x34, 0x35, 0x36, 0x37, 0x38, 0x39]);
    SumIs([0x31, 0x32, 0x33, 0x34, 0x35, 0x36, 0x37, 0x38, 0x39], 0x29b1, 0x29, 0x29, 0xb1, 0xb1);
  }

  lemma SumIs(data: seq<byte>, c: bv16, high: bv16, m: byte, low: bv16, n: byte)
    requires SameByte(LittleEndian(Crc16(data))[0], c & 0xff) && SameByte(LittleEndian(Crc16(data))[1], c >> 8)
    requires c >> 8 == high && c & 0xff == low && SameByte(m, high) && SameByte(n, low)
    ensures Crc16(data) == m as nat * 0x100 + n
  {
    hide SameByte, Crc16;
    BytesAre(LittleEndian(Crc16(data))[0], low, n);
    BytesAre(LittleEndian(Crc16(data))[1], high, m);
  }

  lemma HelloSum()
    ensures Checksum([0x2, 0x0, 0x1, 0x0, 0x8, 0x0, 0x50, 0x32, 0x57, 0x50, 0x2, 0x2, 0xf0, 0x0]) == 0xd9b2
  {
    hide AddByte, Checksum;
    HelloSteps();
    NothingSums();
    Grows([], 0xffff, 0x2,
          [0x2], 0xc1b2);
    Grows([0x2], 0xc1b2, 0x0,
          [0x2, 0x0], 0x7b6d);
    Grows([0x2, 0x0], 0x7b6d, 0x1,
          [0x2, 0x0, 0x1], 0xb2dd);
    Grows([0x2, 0x0, 0x1], 0xb2dd, 0x0,
          [0x2, 0x0, 0x1, 0x0], 0x5a99);
    Grows([0x2, 0x0, 0x1, 0x0], 0x5a99, 0x8,
          [0x2, 0x0, 0x1, 0x0, 0x8], 0xe3b7);
    Grows([0x2, 0x0, 0x1, 0x0, 0x8], 0xe3b7, 0x0,
          [0x2, 0x0, 0x1, 0x0, 0x8, 0x0], 0x7a4d);
    Grows([0x2, 0x0, 0x1, 0x0, 0x8, 0x0], 0x7a4d, 0x50,
          [0x2, 0x0, 0x1, 0x0, 0x8, 0x0, 0x50], 0xc828);
    Grows([0x2, 0x0, 0x1, 0x0, 0x8, 0x0, 0x50], 0xc828, 0x32,
          [0x2, 0x0, 0x1, 0x0, 0x8, 0x0, 0x50, 0x32], 0x6655);
    Grows([0x2, 0x0, 0x1, 0x0, 0x8, 0x0, 0x50, 0x32], 0x6655, 0x57,
          [0x2, 0x0, 0x1, 0x0, 0x8, 0x0, 0x50, 0x32, 0x57], 0x7372);
    Grows([0x2, 0x0, 0x1, 0x0, 0x8, 0x0, 0x50, 0x32, 0x57], 0x7372, 0x50,
          [0x2, 0x0, 0x1, 0x0, 0x8, 0x0, 0x50, 0x32, 0x57, 0x50], 0x6601);
    Grows([0x2, 0x0, 0x1, 0x0, 0x8, 0x0, 0x50, 0x32, 0x57, 0x50], 0x6601, 0x2,
          [0x2, 0x0, 0x1, 0x0, 0x8, 0x0, 0x50, 0x32, 0x57, 0x50, 0x2], 0x2d22);
    Grows([0x2, 0x0, 0x1, 0x0, 0x8, 0x0, 0x50, 0x32, 0x57, 0x50, 0x2], 0x2d22, 0x2,
          [0x2, 0x0, 0x1, 0x0, 0x8, 0x0, 0x50, 0x32, 0x57, 0x50, 0x2, 0x2], 0xf78d);
    Grows([0x2, 0x0, 0x1, 0x0, 0x8, 0x0, 0x50, 0x32, 0x57, 0x50, 0x2, 0x2], 0xf78d, 0xf0,
          [0x2, 0x0, 0x1, 0x0, 0x8, 0x0, 0x50, 0x32, 0x57, 0x50, 0x2, 0x2, 0xf0], 0xfde7);
    Grows([0x2, 0x0, 0x1, 0x0, 0x8, 0x0, 0x50, 0x32, 0x57, 0x50, 0x2, 0x2, 0xf0], 0xfde7, 0x0,
          [0x2, 0x0, 0x1, 0x0, 0x8, 0x0, 0x50, 0x32, 0x57, 0x50, 0x2, 0x2, 0xf0, 0x0], 0xd9b2);
  }

  const EXAMPLE: Frame := Frame(2, 0, 1, 0, [0x50, 0x32, 0x57, 0x50, 2, 2, 0xf0, 0])

  const EXAMPLE_COVERED: seq<byte> := [0x2, 0x0, 0x1, 0x0, 0x8, 0x0, 0x50, 0x32, 0x57, 0x50, 0x2, 0x2, 0xf0, 0x0]

  lemma ExampleCovered()
    ensures Covered(EXAMPLE) == EXAMPLE_COVERED
  {
  }

  lemma ExampleSum()
    ensures Crc16(EXAMPLE_COVERED) == 0xd9b2
  {
    hide SameByte, Checksum, Crc16;
    HelloSum();
    ExampleWords();
    ChecksumOnWire(EXAMPLE_COVERED, [0x2, 0x0, 0x1, 0x0, 0x8, 0x0, 0x50, 0x32, 0x57, 0x50, 0x2, 0x2, 0xf0, 0x0]);
    SameLiterals();
    SumIs(EXAMPLE_COVERED, 0xd9b2, 0xd9, 0xd9, 0xb2, 0xb2);
  }

  lemma ExampleWords()
    ensures var words: seq<bv16> := [0x2, 0x0, 0x1, 0x0, 0x8, 0x0, 0x50, 0x32, 0x57, 0x50, 0x2, 0x2, 0xf0, 0x0];
            |EXAMPLE_COVERED| == |words| && forall i :: 0 <= i < |EXAMPLE_COVERED| ==> SameByte(EXAMPLE_COVERED[i], words[i])
  {
    hide SameByte;
    SameLiterals();
  }

  lemma ExampleBody()
    ensures Body(EXAMPLE) ==
            [0x02, 0x00, 0x01, 0x00, 0x08, 0x00, 0x50, 0x32, 0x57, 0x50, 0x02, 0x02, 0xf0, 0x00, 0xb2, 0xd9]
  {
    hide Crc16, Covered;
    ExampleCovered();
    ExampleSum();
    assert LittleEndian(0xd9b2) == [0xb2, 0xd9];
  }

  lemma NoneToEscape()
    ensures var body := [0x02, 0x00, 0x01, 0x00, 0x08, 0x00, 0x50, 0x32, 0x57, 0x50, 0x02, 0x02, 0xf0, 0x00, 0xb2, 0xd9];
            EscapeAll(body) == body
  {
    NothingToEscape([0x02, 0x00, 0x01, 0x00, 0x08, 0x00, 0x50, 0x32, 0x57, 0x50, 0x02, 0x02, 0xf0, 0x00, 0xb2, 0xd9]);
  }

  /** The HELLO of a host that speaks version 2 only, as the description of the protocol shows it on the wire. */
  lemma ExampleFrame()
    ensures Wire(Frame(2, 0, 1, 0, Text("P2WP") + [2, 2, 240, 0])) ==
            [0x7e, 0x02, 0x00, 0x01, 0x00, 0x08, 0x00, 0x50, 0x32, 0x57, 0x50, 0x02, 0x02, 0xf0, 0x00, 0xb2, 0xd9, 0x7e]
  {
    hide Text, Body, EscapeAll;
    HelloText();
    ExampleBody();
    NoneToEscape();
  }

  lemma HelloText()
    ensures Text("P2WP") + [2, 2, 240, 0] == [0x50, 0x32, 0x57, 0x50, 2, 2, 0xf0, 0]
  {
  }

  lemma {:induction false} NothingToEscape(data: seq<byte>)
    requires forall i :: 0 <= i < |data| ==> data[i] != 0x7e && data[i] != 0x7d
    ensures EscapeAll(data) == data
  {
    if data != [] {
      NothingToEscape(data[1..]);
    }
  }

  /** The two bytes that may not occur inside a frame, as they are sent. */
  lemma EscapesAre(value: byte)
    ensures Escaped(value) == if value == 0x7e then [0x7d, 0x5e] else if value == 0x7d then [0x7d, 0x5d] else [value]
  {
  }

  lemma BytesAre(n: byte, v: bv16, m: byte)
    requires SameByte(n, v) && SameByte(m, v)
    ensures n == m
  {
    ByteBits(n);
    ByteBits(m);
    RegisterRange();
    ToBitsInjective(n, m, 8);
  }

  // ---------------------------------------------------------------------------------------
  // FNV-1a

  /** Exclusive or, number by number and bit by bit. */
  lemma {:induction false} XorIsBitwise(a: nat, b: nat, n: nat)
    ensures ToBits(UrlStore.XorBits(a, b, n), n) == Xor(ToBits(a, n), ToBits(b, n))
    decreases n
  {
    if n > 0 {
      XorIsBitwise(a / 2, b / 2, n - 1);
      XorLast(a, b, n);
      XorGrows(ToBits(a / 2, n - 1), ToBits(b / 2, n - 1), a % 2 == 1, b % 2 == 1);
    }
  }

  lemma XorLast(a: nat, b: nat, n: nat)
    requires n > 0
    ensures var r := UrlStore.XorBits(a, b, n);
            r / 2 == UrlStore.XorBits(a / 2, b / 2, n - 1) && (r % 2 == 1 <==> (a % 2 == 1) != (b % 2 == 1))
  {
    var x, bit := UrlStore.XorBits(a / 2, b / 2, n - 1), (a + b) % 2;
    assert UrlStore.XorBits(a, b, n) == bit + 2 * x;
    hide UrlStore.XorBits;
    LastBit(x, bit);
    Parity(a, b);
  }

  lemma LastBit(x: nat, bit: nat)
    requires bit < 2
    ensures (bit + 2 * x) / 2 == x && (bit + 2 * x) % 2 == bit
  {
  }

  lemma Parity(a: nat, b: nat)
    ensures (a + b) % 2 == 1 <==> (a % 2 == 1) != (b % 2 == 1)
  {
  }

  lemma XorGrows(a: seq<bool>, b: seq<bool>, x: bool, y: bool)
    requires |a| == |b|
    ensures Xor(a + [x], b + [y]) == Xor(a, b) + [x != y]
  {
  }

  predicate XorBit(a: byte, b: byte, x: byte, k: nat)
    requires k > 0
  {
    x / k % 2 == 1 <==> (a / k % 2 == 1) != (b / k % 2 == 1)
  }

  predicate IsXor(a: byte, b: byte, x: byte) {
    && XorBit(a, b, x, 128) && XorBit(a, b, x, 64) && XorBit(a, b, x, 32) && XorBit(a, b, x, 16)
    && XorBit(a, b, x, 8) && XorBit(a, b, x, 4) && XorBit(a, b, x, 2) && XorBit(a, b, x, 1)
  }

  lemma {:induction false} XorIsSmall(a: nat, b: nat, n: nat)
    ensures UrlStore.XorBits(a, b, n) < Pow2(n)
    decreases n
  {
    if n > 0 {
      XorIsSmall(a / 2, b / 2, n - 1);
    }
  }

  lemma XorIs(a: byte, b: byte, x: byte)
    requires IsXor(a, b, x)
    ensures UrlStore.XorBits(a, b, 8) == x
  {
    hide ToBits, UrlStore.XorBits;
    EachBit(a);
    EachBit(b);
    EachBit(x);
    XorIsBitwise(a, b, 8);
    XorIsSmall(a, b, 8);
    RegisterRange();
    XorList(ToBits(a, 8), ToBits(b, 8), ToBits(x, 8));
    ToBitsInjective(UrlStore.XorBits(a, b, 8), x, 8);
  }

  lemma XorList(a: seq<bool>, b: seq<bool>, x: seq<bool>)
    requires |a| == |b| == |x| == 8
    requires x[0] == (a[0] != b[0]) && x[1] == (a[1] != b[1]) && x[2] == (a[2] != b[2]) && x[3] == (a[3] != b[3])
    requires x[4] == (a[4] != b[4]) && x[5] == (a[5] != b[5]) && x[6] == (a[6] != b[6]) && x[7] == (a[7] != b[7])
    ensures Xor(a, b) == x
  {
  }

  lemma FnvStepIs(sum: uint32, value: byte, low: byte, x: byte, next: uint32)
    requires sum % 0x100 == low && UrlStore.XorBits(low, value, 8) == x
    requires next == (sum as nat - low + x) * 0x0100_0193 % 0x1_0000_0000
    ensures UrlStore.FnvStep(sum, value) == next
  {
    hide UrlStore.XorBits;
  }

  lemma FnvStep0()
    ensures UrlStore.FnvStep(0x811c9dc5, 0x61) == 0xe40c292c
  {
    hide UrlStore.FnvStep, UrlStore.XorBits, ToBits;
    XorIs(0xc5, 0x61, 0xa4);
    FnvStepIs(0x811c9dc5, 0x61, 0xc5, 0xa4, 0xe40c292c);
  }

  lemma FnvStep1()
    ensures UrlStore.FnvStep(0x811c9dc5, 0x66) == 0xe30c2799
  {
    hide UrlStore.FnvStep, UrlStore.XorBits, ToBits;
    XorIs(0xc5, 0x66, 0xa3);
    FnvStepIs(0x811c9dc5, 0x66, 0xc5, 0xa3, 0xe30c2799);
  }

  lemma FnvStep2()
    ensures UrlStore.FnvStep(0xe30c2799, 0x6f) == 0x6222e842
  {
    hide UrlStore.FnvStep, UrlStore.XorBits, ToBits;
    XorIs(0x99, 0x6f, 0xf6);
    FnvStepIs(0xe30c2799, 0x6f, 0x99, 0xf6, 0x6222e842);
  }

  lemma FnvStep3()
    ensures UrlStore.FnvStep(0x6222e842, 0x6f) == 0xa9f37ed7
  {
    hide UrlStore.FnvStep, UrlStore.XorBits, ToBits;
    XorIs(0x42, 0x6f, 0x2d);
    FnvStepIs(0x6222e842, 0x6f, 0x42, 0x2d, 0xa9f37ed7);
  }

  lemma FnvGrows(data: seq<byte>, sum: uint32, value: byte, longer: seq<byte>)
    requires UrlStore.Fnv(UrlStore.BASIS, data) == sum && longer == data + [value]
    ensures UrlStore.Fnv(UrlStore.BASIS, longer) == UrlStore.FnvStep(sum, value)
  {
    assert longer[..|data|] == data;
  }

  /** The published check values. */
  lemma FnvCheckValues()
    ensures UrlStore.Fnv(UrlStore.BASIS, []) == 0x811c9dc5
    ensures UrlStore.Fnv(UrlStore.BASIS, Text("a")) == 0xe40c292c
    ensures UrlStore.Fnv(UrlStore.BASIS, Text("foo")) == 0xa9f37ed7
  {
    hide UrlStore.Fnv, UrlStore.FnvStep, Text;
    FnvWords();
    FnvOfNothing();
    FnvStep0();
    FnvStep1();
    FnvStep2();
    FnvStep3();
    FnvGrows([], 0x811c9dc5, 0x61, [0x61]);
    FnvGrows([], 0x811c9dc5, 0x66, [0x66]);
    FnvGrows([0x66], 0xe30c2799, 0x6f, [0x66, 0x6f]);
    FnvGrows([0x66, 0x6f], 0x6222e842, 0x6f, [0x66, 0x6f, 0x6f]);
  }

  lemma FnvOfNothing()
    ensures UrlStore.Fnv(UrlStore.BASIS, []) == 0x811c9dc5
  {
  }

  lemma FnvWords()
    ensures Text("a") == [0x61] && Text("foo") == [0x66, 0x6f, 0x6f]
  {
  }

  lemma {:induction false} FnvConcat(sum: uint32, a: seq<byte>, b: seq<byte>)
    ensures UrlStore.Fnv(sum, a + b) == UrlStore.Fnv(UrlStore.Fnv(sum, a), b)
    decreases |b|
  {
    hide UrlStore.FnvStep;
    if b == [] {
      All(a);
    } else {
      InitOfConcat(a, b);
      FnvConcat(sum, a, b[..|b| - 1]);
    }
  }

  /** A record in flash, byte by byte: its name, the settings, the checksum of what stands around it, and the URL. */
  lemma RecordLayout(r: seq<byte>, s: UrlStore.Settings)
    requires UrlStore.IsRecordOf(r, s)
    ensures var url := UrlStore.UrlBytes(s);
            && |r| == 112 && |url| <= 96
            && r[..8] == Text("P2WPURL1") && r[8..12] == [2, |url|, s.autostart, 0]
            && r[12] as nat + 0x100 * r[13] as nat + 0x1_0000 * r[14] as nat + 0x100_0000 * r[15] as nat ==
               UrlStore.Fnv(0x811c9dc5, r[8..12] + url)
            && r[16..16 + |url|] == url && (forall i :: 16 + |url| <= i < 112 ==> r[i] == 0)
  {
    hide UrlStore.Fnv, Text;
    RecordName();
    UrlStore.DraftUrl(r, s);
    FnvConcat(0x811c9dc5, r[8..12], UrlStore.UrlBytes(s));
  }

  lemma RecordName()
    ensures UrlStore.MAGIC == Text("P2WPURL1")
  {
    assert Text("P2WPURL1") == [0x50, 0x32, 0x57, 0x50, 0x55, 0x52, 0x4c, 0x31];
  }

  // ---------------------------------------------------------------------------------------
  // Base64

  /** Table 1 of RFC 4648: A to Z, a to z, 0 to 9, plus and slash, and nothing else is a letter of it. */
  lemma Alphabet(code: byte)
    ensures PageFields.Sextet(code) ==
            if 'A' as int <= code <= 'Z' as int then Some(code - 'A' as int)
            else if 'a' as int <= code <= 'z' as int then Some(26 + code - 'a' as int)
            else if '0' as int <= code <= '9' as int then Some(52 + code - '0' as int)
            else if code == '+' as int then Some(62) else if code == '/' as int then Some(63) else None
  {
  }

  /** Three bytes as they are commonly shown. */
  lemma Man()
    ensures PageFields.Encode64(Text("Man")) == Text("TWFu")
  {
    hide Text, PageFields.Letter;
    ManInBytes();
    ManLetters();
    NothingEncoded([0x4d, 0x61, 0x6e]);
  }

  lemma ManLetters()
    ensures PageFields.Letter(0x4d / 4) == 0x54 && PageFields.Letter(0x4d % 4 * 16 + 0x61 / 16) == 0x57
    ensures PageFields.Letter(0x61 % 16 * 4 + 0x6e / 64) == 0x46 && PageFields.Letter(0x6e % 64) == 0x75
  {
  }

  lemma NothingEncoded(group: seq<byte>)
    requires |group| == 3
    ensures PageFields.Encode64(group[3..]) == []
  {
  }

  lemma ManInBytes()
    ensures Text("Man") == [0x4d, 0x61, 0x6e] && Text("TWFu") == [0x54, 0x57, 0x46, 0x75]
  {
  }
}
