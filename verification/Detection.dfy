/** What the checksum of a frame body can and cannot detect, and the identity that recognises retries. */
module Detection {
  import opened Bytes
  import opened Bits
  import opened Crc
  import opened Framing
  import opened Sequences

  predicate Accepted(body: seq<byte>) {
    DecodeBody(body).Delivered?
  }

  /** a and b differ in byte i and nowhere else. */
  ghost predicate DifferAt(a: seq<byte>, b: seq<byte>, i: nat) {
    |a| == |b| && i < |a| && a[i] != b[i] && b == a[i := b[i]]
  }

  /** a and b differ in bytes i and i + 1 at most, and in one of them at least. */
  ghost predicate DifferInPair(a: seq<byte>, b: seq<byte>, i: nat) {
    |a| == |b| && i + 1 < |a| && a != b && b == a[i := b[i]][i + 1 := b[i + 1]]
  }

  lemma AcceptedCrc(body: seq<byte>)
    requires Accepted(body)
    ensures |body| >= 8 && PayloadLength(body) == |body| - 8
    ensures body[|body| - 2..] == LittleEndian(Crc16(body[..|body| - 2]))
  {
    var n := |body| - 2;
    assert Crc16(body[..n]) == body[n] as nat + body[n + 1] as nat * 0x100;
    assert body[n..] == [body[n], body[n + 1]];
  }

  lemma CrcAroundByte(data: seq<byte>, i: nat)
    requires i < |data|
    ensures CrcFrom(START, data) == CrcFrom(CrcByte(CrcFrom(START, data[..i]), data[i]), data[i + 1..])
  {
    SplitAt(data, i + 1);
    CrcConcat(START, data[..i + 1], data[i + 1..]);
    CrcGrow(START, data, i);
  }

  lemma CrcGrow(crc: Register, data: seq<byte>, i: nat)
    requires i < |data|
    ensures CrcFrom(crc, data[..i + 1]) == CrcByte(CrcFrom(crc, data[..i]), data[i])
  {
    Grow(data, i);
  }

  lemma CrcAroundPair(data: seq<byte>, i: nat)
    requires i + 1 < |data|
    ensures CrcFrom(START, data) ==
            CrcFrom(CrcByte(CrcByte(CrcFrom(START, data[..i]), data[i]), data[i + 1]), data[i + 2..])
  {
    CrcAroundByte(data, i + 1);
    CrcGrow(START, data, i);
  }

  lemma SameChecksum(a: seq<byte>, b: seq<byte>)
    requires Crc16(a) == Crc16(b)
    ensures CrcFrom(START, a) == CrcFrom(START, b)
  {
    FromBitsInjective(CrcFrom(START, a), CrcFrom(START, b));
  }

  /** Two accepted bodies that agree outside one byte are equal. */
  lemma OneByteDetermined(a: seq<byte>, b: seq<byte>, i: nat)
    requires Accepted(a) && Accepted(b)
    requires |a| == |b| && i < |a| && b == a[i := b[i]]
    ensures a == b
  {
    var n := |a| - 2;
    AcceptedCrc(a);
    AcceptedCrc(b);
    if i < n {
      assert a[n..] == b[n..];
      assert Crc16(a[..n]) == Crc16(b[..n]);
      SameChecksum(a[..n], b[..n]);
      CrcAroundByte(a[..n], i);
      CrcAroundByte(b[..n], i);
      assert a[..n][..i] == b[..n][..i] && a[..n][i + 1..] == b[..n][i + 1..];
      var c := CrcFrom(START, a[..n][..i]);
      CrcFromInjective(CrcByte(c, a[i]), CrcByte(c, b[i]), a[..n][i + 1..]);
      CrcByteKeepsByte(c, a[i], b[i]);
    } else {
      assert a[..n] == b[..n];
      assert a[n..] == b[n..];
      assert a == a[..n] + a[n..] && b == b[..n] + b[n..];
    }
  }

  /** Two accepted bodies that agree outside two adjacent covered bytes are equal. */
  lemma AdjacentBytesDetermined(a: seq<byte>, b: seq<byte>, i: nat)
    requires Accepted(a) && Accepted(b)
    requires |a| == |b| && i + 1 < |a| - 2 && b == a[i := b[i]][i + 1 := b[i + 1]]
    ensures a == b
  {
    var n := |a| - 2;
    AcceptedCrc(a);
    AcceptedCrc(b);
    assert a[n..] == b[n..];
    assert Crc16(a[..n]) == Crc16(b[..n]);
    SameChecksum(a[..n], b[..n]);
    CrcAroundPair(a[..n], i);
    CrcAroundPair(b[..n], i);
    assert a[..n][..i] == b[..n][..i] && a[..n][i + 2..] == b[..n][i + 2..];
    var c := CrcFrom(START, a[..n][..i]);
    CrcFromInjective(CrcByte(CrcByte(c, a[i]), a[i + 1]), CrcByte(CrcByte(c, b[i]), b[i + 1]), a[..n][i + 2..]);
    CrcPairInjective(c, a[i], a[i + 1], b[i], b[i + 1]);
  }

  /**
   An accepted body rejects every body of the same length that differs in one byte anywhere,
   checksum included, or within two adjacent bytes of the part the checksum covers.
   */
  lemma ErrorsDetected(a: seq<byte>, b: seq<byte>, i: nat)
    requires Accepted(a)
    requires DifferAt(a, b, i) || (DifferInPair(a, b, i) && i + 1 < |a| - 2)
    ensures DecodeBody(b) == Malformed
  {
    if Accepted(b) {
      if DifferAt(a, b, i) {
        OneByteDetermined(a, b, i);
      } else {
        AdjacentBytesDetermined(a, b, i);
      }
    }
  }

  // ---------------------------------------------------------------------------------------
  // The limit: the last covered byte together with the low byte of the checksum

  /** 0x89, the one change whose influence stays in the low byte of the register (QuietAlone) ... */
  const QUIET: seq<bool> := [true, false, false, false, true, false, false, true]

  /** ... where it becomes this, 0xa1. */
  const ECHO: seq<bool> := [true, false, true, false, false, false, false, true]

  function FlipBits(value: byte, mask: seq<bool>): byte
    requires |mask| == 8
  {
    ToFromBits(Xor(ToBits(value, 8), mask));
    RegisterRange();
    FromBits(Xor(ToBits(value, 8), mask))
  }

  lemma FlipBitsEffect(value: byte, mask: seq<bool>)
    requires |mask| == 8 && mask[0]
    ensures ToBits(FlipBits(value, mask), 8) == Xor(ToBits(value, 8), mask)
    ensures FlipBits(value, mask) != value
  {
    ToFromBits(Xor(ToBits(value, 8), mask));
    assert Xor(ToBits(value, 8), mask)[0] != ToBits(value, 8)[0];
  }

  lemma QuietGrowsIntoEcho()
    ensures CrcBits(QUIET + Zeros(8), 8) == Zeros(8) + ECHO
  {
    // the register goes through 0x8900, 0x0221, 0x0442, ..., 0x8840, 0x00a1
    var start: Register := QUIET + Zeros(8);
    assert CrcBits(start, 0) == start;
    FoldStep(start, FOLDED);
    BitsStep(start, 0, start, FOLDED);
    ShiftSteps(start, 1, FOLDED, 6);
    var moved: Register := FOLDED[6..] + Zeros(6);
    FoldStep(moved, Zeros(8) + ECHO);
    BitsStep(start, 7, moved, Zeros(8) + ECHO);
  }

  /** 0x0221 */
  const FOLDED: Register :=
    [false, false, false, false, false, false, true, false, false, false, true, false, false, false, false, true]

  lemma FoldStep(before: Register, after: Register)
    requires before[0]
    requires forall i :: 0 <= i < 15 ==> after[i] == (before[i + 1] != POLYNOMIAL[i])
    requires after[15]
    ensures CrcBit(before) == after
  {
  }

  lemma BitsStep(start: Register, n: nat, before: Register, after: Register)
    requires CrcBits(start, n) == before && CrcBit(before) == after
    ensures CrcBits(start, n + 1) == after
  {
  }

  /** As long as only zeros are shifted out, nothing is folded back. */
  lemma {:induction false} ShiftSteps(start: Register, n: nat, before: Register, k: nat)
    requires CrcBits(start, n) == before && k <= 16 && forall i :: 0 <= i < k ==> !before[i]
    ensures CrcBits(start, n + k) == before[k..] + Zeros(k)
  {
    if k != 0 {
      ShiftSteps(start, n, before, k - 1);
      var previous := before[k - 1..] + Zeros(k - 1);
      assert previous[0] == before[k - 1];
      assert previous[1..] + [false] == before[k..] + Zeros(k);
      BitsStep(start, n + k - 1, previous, before[k..] + Zeros(k));
    } else {
      assert before[0..] + Zeros(0) == before;
    }
  }

  lemma {:induction false} FromBitsConcat(a: seq<bool>, b: seq<bool>)
    ensures FromBits(a + b) == FromBits(a) * Pow2(|b|) + FromBits(b)
  {
    if b == [] {
      All(a);
    } else {
      var init, bit := b[..|b| - 1], if b[|b| - 1] then 1 else 0;
      FromBitsConcat(a, init);
      InitOfConcat(a, b);
      assert FromBits(a + b) == 2 * FromBits(a + init) + bit;
      DoubleProduct(FromBits(a), Pow2(|init|), FromBits(init), bit);
    }
  }

  lemma DoubleProduct(x: nat, p: nat, y: nat, bit: nat)
    ensures 2 * (x * p + y) + bit == x * (2 * p) + (2 * y + bit)
  {
  }

  /** The two bytes of the checksum are the two halves of the register. */
  lemma ChecksumBytes(crc: Register)
    ensures ToBits(LittleEndian(ToNumber(crc))[1], 8) == crc[..8]
    ensures ToBits(LittleEndian(ToNumber(crc))[0], 8) == crc[8..]
  {
    var high, low := FromBits(crc[..8]), FromBits(crc[8..]);
    RegisterRange();
    SplitAt(crc, 8);
    FromBitsConcat(crc[..8], crc[8..]);
    ToFromBits(crc[..8]);
    ToFromBits(crc[8..]);
    assert LittleEndian(ToNumber(crc)) == [low, high] by {
      Halves(ToNumber(crc), high, low);
    }
  }

  lemma Halves(value: nat, high: nat, low: nat)
    requires low < 0x100 && value == high * 0x100 + low
    ensures value / 0x100 == high && value % 0x100 == low
  {
  }

  /** In the register, the quiet change of the last byte ends up in the low byte alone. */
  lemma QuietRegister(c: Register, value: byte)
    ensures CrcByte(c, FlipBits(value, QUIET)) == Xor(CrcByte(c, value), Zeros(8) + ECHO)
  {
    FlipBitsEffect(value, QUIET);
    assert Enter(c, FlipBits(value, QUIET)) == Xor(Enter(c, value), QUIET + Zeros(8));
    CrcBitsLinear(Enter(c, value), QUIET + Zeros(8), 8);
    QuietGrowsIntoEcho();
  }

  lemma EchoBytes(r: Register, r': Register)
    requires r' == Xor(r, Zeros(8) + ECHO)
    ensures LittleEndian(ToNumber(r'))[1] == LittleEndian(ToNumber(r))[1]
    ensures LittleEndian(ToNumber(r'))[0] == FlipBits(LittleEndian(ToNumber(r))[0], ECHO)
  {
    ChecksumBytes(r);
    ChecksumBytes(r');
    assert r'[..8] == r[..8];
    assert r'[8..] == Xor(r[8..], ECHO);
    var low, low' := LittleEndian(ToNumber(r)), LittleEndian(ToNumber(r'));
    RegisterRange();
    ToBitsInjective(low[1], low'[1], 8);
    FlipBitsEffect(low[0], ECHO);
    ToBitsInjective(low'[0], FlipBits(low[0], ECHO), 8);
  }

  /** Changing the last byte of the data by the quiet mask changes only the low byte of the checksum. */
  lemma QuietChange(data: seq<byte>)
    requires data != []
    ensures var last := |data| - 1;
            var crc, crc' := LittleEndian(Crc16(data)), LittleEndian(Crc16(data[last := FlipBits(data[last], QUIET)]));
            crc'[1] == crc[1] && crc'[0] == FlipBits(crc[0], ECHO)
  {
    var last := |data| - 1;
    var changed := data[last := FlipBits(data[last], QUIET)];
    assert changed[..last] == data[..last];
    QuietRegister(CrcFrom(START, data[..last]), data[last]);
    EchoBytes(CrcFrom(START, data), CrcFrom(START, changed));
  }

  /** A bit step, bit by bit. */
  lemma CrcBitExplicit(r: Register)
    ensures var s, top := CrcBit(r), r[0];
            && s[0] == r[1] && s[1] == r[2] && s[2] == r[3] && s[3] == (r[4] != top)
            && s[4] == r[5] && s[5] == r[6] && s[6] == r[7] && s[7] == r[8]
            && s[8] == r[9] && s[9] == r[10] && s[10] == (r[11] != top) && s[11] == r[12]
            && s[12] == r[13] && s[13] == r[14] && s[14] == r[15] && s[15] == top
  {
  }

  /** What a change of a byte makes of the high byte of the register. */
  lemma HighByteAfter(d: seq<bool>)
    requires |d| == 8
    ensures var r := CrcBits(d + Zeros(8), 8);
            && r[0] == (d[4] != d[0]) && r[1] == (d[5] != d[1]) && r[2] == (d[6] != d[2])
            && r[3] == ((d[7] != d[3]) != d[0])
            && r[4] == d[1] && r[5] == d[2] && r[6] == d[3] && r[7] == (d[4] != d[0])
  {
    hide CrcBit;
    var r0: Register := d + Zeros(8);
    var r1 := CrcBit(r0);
    var r2 := CrcBit(r1);
    var r3 := CrcBit(r2);
    var r4 := CrcBit(r3);
    var r5 := CrcBit(r4);
    var r6 := CrcBit(r5);
    var r7 := CrcBit(r6);
    CrcBitExplicit(r0);
    CrcBitExplicit(r1);
    CrcBitExplicit(r2);
    CrcBitExplicit(r3);
    CrcBitExplicit(r4);
    CrcBitExplicit(r5);
    CrcBitExplicit(r6);
    CrcBitExplicit(r7);
    EightSteps(r0, r1, r2, r3, r4, r5, r6, r7, CrcBit(r7));
  }

  lemma EightSteps(r0: Register, r1: Register, r2: Register, r3: Register, r4: Register,
                   r5: Register, r6: Register, r7: Register, r8: Register)
    requires r1 == CrcBit(r0) && r2 == CrcBit(r1) && r3 == CrcBit(r2) && r4 == CrcBit(r3)
    requires r5 == CrcBit(r4) && r6 == CrcBit(r5) && r7 == CrcBit(r6) && r8 == CrcBit(r7)
    ensures CrcBits(r0, 8) == r8
  {
    hide CrcBit;
    assert CrcBits(r0, 0) == r0;
    BitsStep(r0, 0, r0, r1);
    BitsStep(r0, 1, r1, r2);
    BitsStep(r0, 2, r2, r3);
    BitsStep(r0, 3, r3, r4);
    BitsStep(r0, 4, r4, r5);
    BitsStep(r0, 5, r5, r6);
    BitsStep(r0, 6, r6, r7);
    BitsStep(r0, 7, r7, r8);
  }

  /** Among all changes of a byte, only the quiet one stays out of the high byte of the register. */
  lemma QuietAlone(d: seq<bool>)
    requires |d| == 8
    ensures CrcBits(d + Zeros(8), 8)[..8] == Zeros(8) <==> d == Zeros(8) || d == QUIET
  {
    hide CrcBits;
    HighByteAfter(d);
    var r := CrcBits(d + Zeros(8), 8);
    assert r[..8] == Zeros(8) <==>
           !r[0] && !r[1] && !r[2] && !r[3] && !r[4] && !r[5] && !r[6] && !r[7];
    assert d == Zeros(8) <==> !d[0] && !d[1] && !d[2] && !d[3] && !d[4] && !d[5] && !d[6] && !d[7];
    assert d == QUIET <==> d[0] && !d[1] && !d[2] && !d[3] && d[4] && !d[5] && !d[6] && d[7];
  }

  /** The neighbour of a body that the checksum cannot tell from it (UndetectedPairs). */
  function Twin(body: seq<byte>): seq<byte>
    requires |body| >= 3
  {
    var n := |body|;
    body[n - 3 := FlipBits(body[n - 3], QUIET)][n - 2 := FlipBits(body[n - 2], ECHO)]
  }

  /** Every accepted body with a payload has an accepted neighbour two adjacent bytes away. */
  lemma TwinEscapesDetection(f: Frame)
    requires 0 < |f.payload| <= MAX_PAYLOAD
    ensures Accepted(Body(f)) && Accepted(Twin(Body(f)))
    ensures DifferInPair(Body(f), Twin(Body(f)), |Body(f)| - 3)
    ensures DecodeBody(Twin(Body(f))).frame != f
  {
    DecodesExactlyBodies(Body(f), f);
    var last := |f.payload| - 1;
    var g := f.(payload := f.payload[last := FlipBits(f.payload[last], QUIET)]);
    FlipBitsEffect(f.payload[last], QUIET);
    QuietChange(Covered(f));
    assert Covered(g) == Covered(f)[|Covered(f)| - 1 := FlipBits(f.payload[last], QUIET)];
    assert Body(g) == Twin(Body(f));
    DecodesExactlyBodies(Body(g), g);
  }

  /** The registers of two messages that differ in their last byte. */
  lemma LastByteDifference(c: Register, p: byte, q: byte)
    ensures Xor(CrcByte(c, p), CrcByte(c, q)) == CrcBits(Xor(ToBits(p, 8), ToBits(q, 8)) + Zeros(8), 8)
  {
    CrcBitsLinear(Enter(c, p), Enter(c, q), 8);
    assert Xor(Enter(c, p), Enter(c, q)) == Xor(ToBits(p, 8), ToBits(q, 8)) + Zeros(8);
  }

  /** If the high byte of the checksum stays, the last byte stays or changes by the quiet mask. */
  lemma SameHighByte(c: Register, p: byte, q: byte)
    requires LittleEndian(ToNumber(CrcByte(c, p)))[1] == LittleEndian(ToNumber(CrcByte(c, q)))[1]
    ensures q == p || q == FlipBits(p, QUIET)
  {
    hide CrcByte, CrcBits;
    var x, y, d := CrcByte(c, p), CrcByte(c, q), Xor(ToBits(p, 8), ToBits(q, 8));
    ChecksumBytes(x);
    ChecksumBytes(y);
    LastByteDifference(c, p, q);
    HalfAgrees(x, y);
    QuietAlone(d);
    MaskGiven(p, q, d);
  }

  lemma HalfAgrees(x: Register, y: Register)
    requires x[..8] == y[..8]
    ensures Xor(x, y)[..8] == Zeros(8)
  {
    assert forall i :: 0 <= i < 8 ==> x[i] == x[..8][i] == y[..8][i] == y[i];
  }

  lemma MaskGiven(p: byte, q: byte, d: seq<bool>)
    requires d == Xor(ToBits(p, 8), ToBits(q, 8))
    ensures d == Zeros(8) ==> q == p
    ensures d == QUIET ==> q == FlipBits(p, QUIET)
  {
    RegisterRange();
    if d == Zeros(8) {
      assert forall i :: 0 <= i < 8 ==> d[i] == (ToBits(p, 8)[i] != ToBits(q, 8)[i]);
      assert ToBits(p, 8) == ToBits(q, 8);
      ToBitsInjective(p, q, 8);
    }
    if d == QUIET {
      assert forall i :: 0 <= i < 8 ==> ToBits(q, 8)[i] == (ToBits(p, 8)[i] != d[i]);
      assert ToBits(q, 8) == Xor(ToBits(p, 8), QUIET);
      FlipBitsEffect(p, QUIET);
      ToBitsInjective(q, FlipBits(p, QUIET), 8);
    }
  }

  /** With the covered part the same, the checksum is the same. */
  lemma ChecksumDetermined(a: seq<byte>, b: seq<byte>)
    requires Accepted(a) && Accepted(b) && |a| == |b| && a[..|a| - 2] == b[..|b| - 2]
    ensures a == b
  {
    AcceptedCrc(a);
    AcceptedCrc(b);
    SplitAt(a, |a| - 2);
    SplitAt(b, |b| - 2);
  }

  /** Two accepted bodies that differ in the last covered byte and the byte behind it are twins. */
  lemma OnlyTwins(a: seq<byte>, b: seq<byte>)
    requires Accepted(a) && Accepted(b) && DifferInPair(a, b, |a| - 3)
    ensures PayloadLength(a) > 0 && b == Twin(a)
  {
    hide CrcFrom;
    var n := |a| - 2;
    AcceptedCrc(a);
    AcceptedCrc(b);
    var last, c := n - 1, CrcFrom(START, a[..n][..n - 1]);
    assert b[..n] == a[..n][last := b[last]];
    assert b[..n][..last] == a[..n][..last];
    CrcLast(a[..n]);
    CrcLast(b[..n]);
    assert a[n..][1] == b[n..][1];
    SameHighByte(c, a[last], b[last]);
    if b[last] == a[last] {
      assert a[..n] == b[..n];
      ChecksumDetermined(a, b);
    }
    QuietChange(a[..n]);
    assert b[n] == b[n..][0] && a[n] == a[n..][0];
  }

  lemma CrcLast(data: seq<byte>)
    requires data != []
    ensures Crc16(data) == ToNumber(CrcByte(CrcFrom(START, data[..|data| - 1]), data[|data| - 1]))
  {
  }

  /**
   Exactly which changes of two adjacent bytes go unnoticed, wherever they lie: only that to the twin, and
   only in a body with a payload.
   */
  lemma UndetectedPairs(a: seq<byte>, b: seq<byte>, i: nat)
    requires Accepted(a) && DifferInPair(a, b, i)
    ensures Accepted(b) <==> i == |a| - 3 && PayloadLength(a) > 0 && b == Twin(a)
  {
    AcceptedCrc(a);
    if Accepted(b) {
      if i + 1 < |a| - 2 {
        AdjacentBytesDetermined(a, b, i);
      } else if i == |a| - 2 {
        assert a[..|a| - 2] == b[..|a| - 2];
        ChecksumDetermined(a, b);
      } else {
        OnlyTwins(a, b);
      }
    }
    if PayloadLength(a) > 0 && b == Twin(a) {
      DecodedIsBody(a);
      TwinEscapesDetection(DecodeBody(a).frame);
    }
  }

  // ---------------------------------------------------------------------------------------
  // Identity of a request

  function Identity(f: Frame): uint16 {
    Crc16(Covered(f))
  }

  /** The identity is taken from the decoded fields, byte by byte, and equals the checksum on the wire. */
  method FrameIdentity(f: Frame) returns (identity: uint16)
    ensures identity == Identity(f)
    ensures LittleEndian(identity) == Body(f)[|Body(f)| - 2..]
  {
    var crc := START;
    var header := Header(f);
    for index := 0 to |header|
      invariant crc == CrcFrom(START, header[..index])
    {
      assert header[..index + 1][..index] == header[..index];
      crc := CrcUpdate(crc, header[index]);
    }
    assert header[..|header|] == header && header + f.payload[..0] == header;
    for index := 0 to |f.payload|
      invariant crc == CrcFrom(START, header + f.payload[..index])
    {
      var covered := header + f.payload[..index + 1];
      assert covered[..|covered| - 1] == header + f.payload[..index];
      crc := CrcUpdate(crc, f.payload[index]);
    }
    assert header + f.payload[..|f.payload|] == Covered(f);
    return ToNumber(crc);
  }
}
