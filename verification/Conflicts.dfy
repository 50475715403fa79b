/**
 Reused sequence numbers. The protocol wants every reuse with different content refused; the Pico
 tells contents apart by their checksum, and so it refuses all but those it cannot tell apart.
 */
module Conflicts {
  import opened Bytes
  import opened Bits
  import opened Crc
  import opened Framing
  import opened Detection
  import opened FirmwareCore

  /** A request of the open session that reuses the sequence number answered last. */
  predicate Reuses(s: CoreState, request: Frame) {
    && s.cached.Some? && request.sequence == s.cached.value.sequence
    && s.valid && request.version == s.version && request.kind != HELLO && request.flags % 2 == 0
  }

  predicate IsConflict(reply: Frame) {
    reply.flags == FLAG_RESPONSE + FLAG_ERROR && reply.payload == [ERROR_SEQUENCE_CONFLICT]
  }

  /** One request, and the platform as it behaves meanwhile. */
  datatype Served = Served(platform: Platform, request: Frame)

  /** The processor after a list of requests, counted from its last reset. */
  function After(config: Config, served: seq<Served>): CoreState
    decreases |served|
  {
    if served == [] then RESET_STATE
    else
      var last := served[|served| - 1];
      Handle(config, After(config, served[..|served| - 1]), last.platform, last.request).state
  }

  /** Only successes are cached. */
  lemma {:induction false} CacheHoldsSuccess(config: Config, served: seq<Served>)
    ensures var cached := After(config, served).cached; cached.Some? ==> cached.value.response.flags == FLAG_RESPONSE
    decreases |served|
  {
    if served != [] {
      var last := served[|served| - 1];
      CacheHoldsSuccess(config, served[..|served| - 1]);
      HandleCachesSuccess(config, After(config, served[..|served| - 1]), last.platform, last.request);
    }
  }

  lemma HandleCachesSuccess(config: Config, s: CoreState, platform: Platform, request: Frame)
    requires s.cached.Some? ==> s.cached.value.response.flags == FLAG_RESPONSE
    ensures var cached := Handle(config, s, platform, request).state.cached;
            cached.Some? ==> cached.value.response.flags == FLAG_RESPONSE
  {
    hide Identity, PlatformPayloadIsValid, SelectVersion;
  }

  /**
   Whatever was served before: the reuse is refused, without any effect, exactly when the type or the
   checksum differs from the cached one.
   */
  lemma ConflictExactly(config: Config, served: seq<Served>, platform: Platform, request: Frame)
    requires Reuses(After(config, served), request)
    ensures var s := After(config, served);
            var handled := Handle(config, s, platform, request);
            && (IsConflict(handled.response) <==>
                  request.kind != s.cached.value.kind || Identity(request) != s.cached.value.identity)
            && handled.state == s && !handled.performed
            && (!IsConflict(handled.response) ==> handled.response == s.cached.value.response)
  {
    hide After, Identity;
    CacheHoldsSuccess(config, served);
  }

  // ---------------------------------------------------------------------------------------
  // Contents that look the same

  lemma {:induction false} SingleBitMoves(n: nat)
    requires n <= 7
    ensures CrcBits(Zeros(7) + [true] + Zeros(8), n) == Zeros(7 - n) + [true] + Zeros(8 + n)
  {
    if n > 0 {
      SingleBitMoves(n - 1);
      var before := Zeros(8 - n) + [true] + Zeros(7 + n);
      assert !before[0];
      assert before[1..] + [false] == Zeros(7 - n) + [true] + Zeros(8 + n);
    }
  }

  /** A difference in the last bit of a byte grows into the polynomial. */
  lemma SingleBitFolds()
    ensures CrcBits(Zeros(7) + [true] + Zeros(8), 8) == POLYNOMIAL
  {
    SingleBitMoves(7);
    var top: Register := Zeros(0) + [true] + Zeros(15);
    assert top[1..] + [false] == Zeros(16);
    assert Xor(Zeros(16), POLYNOMIAL) == POLYNOMIAL;
    assert CrcBit(top) == POLYNOMIAL;
  }

  lemma BitPatterns()
    ensures ToBits(0, 8) == Zeros(8) && ToBits(1, 8) == Zeros(7) + [true]
    ensures ToBits(0x10, 8) == [false, false, false, true, false, false, false, false]
    ensures ToBits(0x21, 8) == [false, false, true, false, false, false, false, true]
  {
    LowPatterns();
    HighPatterns();
  }

  lemma LowPatterns()
    ensures ToBits(0, 8) == Zeros(8) && ToBits(1, 8) == Zeros(7) + [true]
  {
    assert ToBits(0, 4) == Zeros(4);
    assert ToBits(0, 7) == Zeros(7);
  }

  lemma HighPatterns()
    ensures ToBits(0x10, 8) == [false, false, false, true, false, false, false, false]
    ensures ToBits(0x21, 8) == [false, false, true, false, false, false, false, true]
  {
    hide ToBits;
    NibblePatterns();
    LastBit(0x10, 8);
    LastBit(8, 7);
    LastBit(4, 6);
    LastBit(2, 5);
    LastBit(0x21, 8);
    LastBit(0x10, 7);
    LastBit(8, 6);
    LastBit(4, 5);
  }

  lemma NibblePatterns()
    ensures ToBits(1, 4) == [false, false, false, true] && ToBits(2, 4) == [false, false, true, false]
  {
    assert ToBits(0, 2) == [false, false];
  }

  lemma LastBit(n: nat, width: nat)
    requires width > 0
    ensures ToBits(n, width) == ToBits(n / 2, width - 1) + [n % 2 == 1]
  {
  }

  /** How the difference of two registers changes when different bytes enter. */
  lemma DifferenceMoves(x: Register, y: Register, a: byte, b: byte, d: Register)
    requires Xor(Xor(x, y), Xor(ToBits(a, 8), ToBits(b, 8)) + Zeros(8)) == d
    ensures Xor(CrcByte(x, a), CrcByte(y, b)) == CrcBits(d, 8)
  {
    CrcBitsLinear(Enter(x, a), Enter(y, b), 8);
    forall i | 0 <= i < 16
      ensures Xor(Enter(x, a), Enter(y, b))[i] == d[i]
    {
      assert Xor(Xor(x, y), Xor(ToBits(a, 8), ToBits(b, 8)) + Zeros(8))[i] == d[i];
    }
    assert Xor(Enter(x, a), Enter(y, b)) == d;
  }

  const NOTHING: seq<byte> := [0, 0, 0]
  const PATTERN: seq<byte> := [0x01, 0x10, 0x21]

  /** Three bytes that spell the polynomial are as good as three zeros. */
  lemma PatternIsInvisible(c: Register)
    ensures CrcFrom(c, PATTERN) == CrcFrom(c, NOTHING)
  {
    hide CrcByte, CrcFrom;
    var x1, y1 := CrcByte(c, 0), CrcByte(c, 0x01);
    FirstDifference(c);
    SecondDifference(x1, y1);
    LastBytes(CrcByte(x1, 0), CrcByte(y1, 0x10));
    ThreeBytes(c, 0, 0, 0);
    ThreeBytes(c, 0x01, 0x10, 0x21);
  }

  lemma HighHalfCancels()
    ensures Xor(POLYNOMIAL, Xor(ToBits(0, 8), ToBits(0x10, 8)) + Zeros(8)) == Zeros(8) + ToBits(0x21, 8)
  {
    hide ToBits;
    BitPatterns();
    var mask := Xor(ToBits(0, 8), ToBits(0x10, 8));
    assert mask == [false, false, false, true, false, false, false, false];
    forall i | 0 <= i < 16
      ensures Xor(POLYNOMIAL, mask + Zeros(8))[i] == (Zeros(8) + ToBits(0x21, 8))[i]
    {
      assert i < 8 ==> (mask + Zeros(8))[i] == mask[i] == POLYNOMIAL[i];
      assert i >= 8 ==> !(mask + Zeros(8))[i] && POLYNOMIAL[i] == ToBits(0x21, 8)[i - 8];
    }
  }

  lemma SecondDifference(x: Register, y: Register)
    requires Xor(x, y) == POLYNOMIAL
    ensures Xor(CrcByte(x, 0), CrcByte(y, 0x10)) == ToBits(0x21, 8) + Zeros(8)
  {
    hide CrcByte, CrcBits, ToBits;
    var low := ToBits(0x21, 8);
    HighHalfCancels();
    DifferenceMoves(x, y, 0, 0x10, Zeros(8) + low);
    CrcBitsLow(low, 8);
    assert Zeros(0) + low + Zeros(8) == low + Zeros(8);
  }

  lemma FirstDifference(c: Register)
    ensures Xor(CrcByte(c, 0), CrcByte(c, 0x01)) == POLYNOMIAL
  {
    BitPatterns();
    DifferenceMoves(c, c, 0, 0x01, Zeros(7) + [true] + Zeros(8));
    SingleBitFolds();
  }

  lemma LastBytes(x: Register, y: Register)
    requires Xor(x, y) == ToBits(0x21, 8) + Zeros(8)
    ensures CrcByte(x, 0) == CrcByte(y, 0x21)
  {
    BitPatterns();
    forall i | 0 <= i < 16
      ensures Enter(x, 0)[i] == Enter(y, 0x21)[i]
    {
      assert Xor(x, y)[i] == (ToBits(0x21, 8) + Zeros(8))[i];
    }
    assert Enter(x, 0) == Enter(y, 0x21);
  }

  lemma ThreeBytes(c: Register, p: byte, q: byte, r: byte)
    ensures CrcFrom(c, [p, q, r]) == CrcByte(CrcByte(CrcByte(c, p), q), r)
  {
    hide CrcByte;
    assert [p, q, r][..2] == [p, q] && [p, q][..1] == [p] && [p][..0] == [];
    assert CrcFrom(c, [p]) == CrcByte(CrcFrom(c, [p][..0]), p);
    assert CrcFrom(c, [p, q]) == CrcByte(CrcFrom(c, [p, q][..1]), q);
  }

  function Echo(version: byte, sequence: byte, payload: seq<byte>): Frame {
    Frame(version, 0, ECHO_REQUEST, sequence, payload)
  }

  lemma SameIdentity(version: byte, sequence: byte)
    ensures Identity(Echo(version, sequence, PATTERN)) == Identity(Echo(version, sequence, NOTHING))
  {
    hide CrcFrom;
    var f, g := Echo(version, sequence, PATTERN), Echo(version, sequence, NOTHING);
    assert Header(f) == Header(g);
    CrcConcat(START, Header(f), PATTERN);
    CrcConcat(START, Header(g), NOTHING);
    PatternIsInvisible(CrcFrom(START, Header(f)));
  }

  /** Two different echo requests with one sequence number: the second is answered with the first one's payload. */
  lemma ConflictMissed(config: Config, s: CoreState, platform: Platform, sequence: byte)
    requires s.valid && (s.cached.Some? ==> s.cached.value.sequence != sequence)
    ensures var first := Handle(config, s, platform, Echo(s.version, sequence, NOTHING));
            var second := Handle(config, first.state, platform, Echo(s.version, sequence, PATTERN));
            && first.response.payload == NOTHING && PATTERN != NOTHING
            && second.response == first.response && !IsConflict(second.response)
  {
    SameIdentity(s.version, sequence);
    assert PATTERN[0] != NOTHING[0];
  }
}
