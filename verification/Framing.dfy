/**
 The P2WP wire format: what a frame looks like on the wire, and the encoder, the streaming parser
 and the body check of the Pico.
 */
module Framing {
  import opened Bytes
  import opened Crc
  import opened Sequences

  const DELIMITER: byte := 0x7e
  const ESCAPE: byte := 0x7d
  const MAX_PAYLOAD: nat := 512
  const HEADER_SIZE: nat := 6
  const CRC_SIZE: nat := 2
  const MAX_BODY: nat := HEADER_SIZE + MAX_PAYLOAD + CRC_SIZE
  const MAX_ENCODED: nat := 2 + 2 * MAX_BODY

  datatype Frame = Frame(version: byte, flags: byte, kind: byte, sequence: byte, payload: seq<byte>)

  // ---------------------------------------------------------------------------------------
  // The wire format

  /** value ^ 0x20 */
  function FlipEscapeBit(value: byte): (r: byte) {
    if value / 0x20 % 2 == 1 then value - 0x20 else value + 0x20
  }

  function Escaped(value: byte): seq<byte> {
    if value == DELIMITER || value == ESCAPE then [ESCAPE, FlipEscapeBit(value)] else [value]
  }

  function EscapeAll(data: seq<byte>): seq<byte> {
    if data == [] then [] else Escaped(data[0]) + EscapeAll(data[1..])
  }

  function Header(f: Frame): seq<byte> {
    [f.version, f.flags, f.kind, f.sequence, |f.payload| % 0x100, |f.payload| / 0x100 % 0x100]
  }

  /** What the checksum covers. */
  function Covered(f: Frame): seq<byte> {
    Header(f) + f.payload
  }

  /** Two bytes, low byte first. */
  function LittleEndian(value: uint16): seq<byte> {
    [value % 0x100, value / 0x100]
  }

  function Body(f: Frame): seq<byte> {
    Covered(f) + LittleEndian(Crc16(Covered(f)))
  }

  function Wire(f: Frame): seq<byte> {
    [DELIMITER] + EscapeAll(Body(f)) + [DELIMITER]
  }

  lemma {:induction false} EscapeConcat(a: seq<byte>, b: seq<byte>)
    ensures EscapeAll(a + b) == EscapeAll(a) + EscapeAll(b)
  {
    if a == [] {
      All(b);
    } else {
      EscapeConcat(a[1..], b);
      TailOfConcat(a, b);
      Associative(Escaped(a[0]), EscapeAll(a[1..]), EscapeAll(b));
    }
  }

  lemma {:induction false} EscapeBounds(data: seq<byte>)
    ensures |data| <= |EscapeAll(data)| <= 2 * |data|
    ensures DELIMITER !in EscapeAll(data)
  {
    if data != [] {
      EscapeBounds(data[1..]);
    }
  }

  /** Every frame a peer may send fits into the buffer the firmware reserves for it. */
  lemma WireFits(f: Frame)
    requires |f.payload| <= MAX_PAYLOAD
    ensures 10 <= |Wire(f)| <= MAX_ENCODED == 1042
    ensures DELIMITER !in Wire(f)[1..|Wire(f)| - 1]
  {
    EscapeBounds(Body(f));
    assert Wire(f)[1..|Wire(f)| - 1] == EscapeAll(Body(f));
  }

  // ---------------------------------------------------------------------------------------
  // The encoder of the Pico

  method AppendEscaped(value: byte, output: array<byte>, capacity: nat, length: nat) returns (ok: bool, newLength: nat)
    requires length <= capacity <= output.Length
    modifies output
    ensures ok <==> length + |Escaped(value)| <= capacity
    ensures ok ==> newLength == length + |Escaped(value)| && output[..newLength] == old(output[..length]) + Escaped(value)
  {
    if value == DELIMITER || value == ESCAPE {
      if length + 2 > capacity {
        return false, length;
      }
      output[length] := ESCAPE;
      output[length + 1] := FlipEscapeBit(value);
      return true, length + 2;
    }
    if length == capacity {
      return false, length;
    }
    output[length] := value;
    return true, length + 1;
  }

  method ComputeCrcOf(data: seq<byte>) returns (crc: uint16)
    ensures crc == Crc16(data)
  {
    var body := new byte[|data|](i requires 0 <= i < |data| => data[i]);
    assert body[..] == data;
    crc := ComputeCrc16(body, |data|);
    assert body[..|data|] == data;
  }

  method Encode(f: Frame, output: array<byte>, capacity: nat) returns (length: nat)
    requires capacity <= output.Length
    modifies output
    ensures if |f.payload| <= MAX_PAYLOAD && |Wire(f)| <= capacity then
              length == |Wire(f)| && output[..length] == Wire(f)
            else
              length == 0
  {
    hide EscapeAll, Escaped, Covered, Crc16, LittleEndian;
    EscapeBounds(Body(f));
    if |f.payload| > MAX_PAYLOAD || capacity < 2 {
      return 0;
    }
    var body := Covered(f);
    var crc := ComputeCrcOf(body);
    var sent := body + LittleEndian(crc);
    output[0] := DELIMITER;
    length := 1;
    var ok := true;
    EscapeNothing(sent);
    for index := 0 to |sent|
      invariant length == 1 + |EscapeAll(sent[..index])| <= capacity
      invariant output[..length] == [DELIMITER] + EscapeAll(sent[..index])
    {
      EscapeStep(sent, index);
      Associative([DELIMITER], EscapeAll(sent[..index]), Escaped(sent[index]));
      ok, length := AppendEscaped(sent[index], output, capacity, length);
      if !ok {
        return 0;
      }
    }
    if length == capacity {
      return 0;
    }
    ghost var before := output[..length];
    output[length] := DELIMITER;
    length := length + 1;
    assert output[..length] == before + [DELIMITER];
  }

  lemma EscapeNothing(data: seq<byte>)
    ensures EscapeAll(data[..0]) == [] && data[..|data|] == data
  {
  }

  lemma EscapeStep(data: seq<byte>, index: nat)
    requires index < |data|
    ensures EscapeAll(data[..index + 1]) == EscapeAll(data[..index]) + Escaped(data[index])
    ensures |EscapeAll(data[..index])| + |Escaped(data[index])| <= |EscapeAll(data)|
  {
    Grow(data, index);
    EscapeConcat(data[..index], [data[index]]);
    EscapeOne(data[index]);
    EscapeConcat(data[..index + 1], data[index + 1..]);
    SplitAt(data, index + 1);
  }

  lemma EscapeOne(value: byte)
    ensures EscapeAll([value]) == Escaped(value)
  {
  }

  // ---------------------------------------------------------------------------------------
  // The body check

  datatype ParseResult = Nothing | Delivered(frame: Frame) | Malformed

  function PayloadLength(body: seq<byte>): nat
    requires |body| >= HEADER_SIZE
  {
    body[4] as nat + body[5] as nat * 0x100
  }

  function DecodeBody(body: seq<byte>): ParseResult {
    if |body| < HEADER_SIZE + CRC_SIZE then Malformed
    else if PayloadLength(body) > MAX_PAYLOAD || |body| != HEADER_SIZE + PayloadLength(body) + CRC_SIZE then Malformed
    else
      var crcOffset := HEADER_SIZE + PayloadLength(body);
      var received := body[crcOffset] as nat + body[crcOffset + 1] as nat * 0x100;
      if Crc16(body[..crcOffset]) != received then Malformed
      else Delivered(Frame(body[0], body[1], body[2], body[3], body[HEADER_SIZE..crcOffset]))
  }

  lemma BodyDecodes(f: Frame)
    requires |f.payload| <= MAX_PAYLOAD
    ensures DecodeBody(Body(f)) == Delivered(f)
  {
    var body, crcOffset := Body(f), HEADER_SIZE + |f.payload|;
    assert PayloadLength(body) == |f.payload|;
    assert body[..crcOffset] == Covered(f);
    assert body[HEADER_SIZE..crcOffset] == f.payload;
  }

  lemma DecodedIsBody(body: seq<byte>)
    requires DecodeBody(body).Delivered?
    ensures body == Body(DecodeBody(body).frame)
    ensures |DecodeBody(body).frame.payload| <= MAX_PAYLOAD
  {
    var f, crcOffset := DecodeBody(body).frame, HEADER_SIZE + PayloadLength(body);
    assert body[..crcOffset] == Covered(f);
    assert body[crcOffset..] == LittleEndian(Crc16(Covered(f)));
    SplitAt(body, crcOffset);
  }

  /** The check accepts exactly the bodies that some frame has, and returns that frame. */
  lemma DecodesExactlyBodies(body: seq<byte>, f: Frame)
    ensures DecodeBody(body) == Delivered(f) <==> |f.payload| <= MAX_PAYLOAD && body == Body(f)
    ensures DecodeBody(body) != Nothing
  {
    if |f.payload| <= MAX_PAYLOAD && body == Body(f) {
      BodyDecodes(f);
    }
    if DecodeBody(body) == Delivered(f) {
      DecodedIsBody(body);
    }
  }

  // ---------------------------------------------------------------------------------------
  // The streaming parser

  datatype ParserState = ParserState(active: bool, escaped: bool, overflow: bool, body: seq<byte>)

  const RESET := ParserState(false, false, false, [])
  const READY := ParserState(true, false, false, [])

  predicate Reachable(s: ParserState) {
    |s.body| <= MAX_BODY
  }

  function FeedStep(s: ParserState, value: byte): (next: (ParserState, ParseResult))
    requires Reachable(s)
    ensures Reachable(next.0)
  {
    if value == DELIMITER then
      (READY,
       if !s.active || (s.body == [] && !s.overflow) then Nothing
       else if s.escaped || s.overflow then Malformed
       else DecodeBody(s.body))
    else if !s.active || s.overflow then (s, Nothing)
    else if !s.escaped && value == ESCAPE then (s.(escaped := true), Nothing)
    else
      var plain := if s.escaped then FlipEscapeBit(value) else value;
      if |s.body| == MAX_BODY then (s.(escaped := false, overflow := true), Nothing)
      else (s.(escaped := false, body := s.body + [plain]), Nothing)
  }

  class Parser {
    var active: bool
    var escaped: bool
    var overflow: bool
    var length: nat
    const body: array<byte>

    ghost predicate Valid()
      reads this
    {
      body.Length == MAX_BODY && length <= MAX_BODY
    }

    ghost function State(): ParserState
      reads this, body
      requires Valid()
    {
      ParserState(active, escaped, overflow, body[..length])
    }

    constructor ()
      ensures Valid() && fresh(body) && State() == RESET
    {
      active, escaped, overflow, length := false, false, false, 0;
      body := new byte[MAX_BODY];
    }

    method Feed(input: byte) returns (result: ParseResult)
      requires Valid()
      modifies this, body
      ensures Valid()
      ensures (State(), result) == FeedStep(old(State()), input)
    {
      var value := input;
      if value == DELIMITER {
        result := Nothing;
        if active && (length != 0 || overflow) {
          result := if escaped || overflow then Malformed else DecodeBody(body[..length]);
        }
        active, escaped, overflow, length := true, false, false, 0;
        return result;
      }
      if !active || overflow {
        return Nothing;
      }
      if escaped {
        value := FlipEscapeBit(value);
        escaped := false;
      } else if value == ESCAPE {
        escaped := true;
        return Nothing;
      }
      if length == body.Length {
        overflow := true;
        return Nothing;
      }
      body[length] := value;
      length := length + 1;
      assert body[..length] == old(body[..length]) + [value];
      return Nothing;
    }
  }

  /** The parser after a stream of bytes. */
  function After(s: ParserState, input: seq<byte>): (end: ParserState)
    requires Reachable(s)
    ensures Reachable(end)
    decreases |input|
  {
    if input == [] then s else After(FeedStep(s, input[0]).0, input[1..])
  }

  /** What it reports on the way. */
  function Reported(s: ParserState, input: seq<byte>): seq<ParseResult>
    requires Reachable(s)
    decreases |input|
  {
    if input == [] then []
    else Reports(FeedStep(s, input[0]).1) + Reported(FeedStep(s, input[0]).0, input[1..])
  }

  function Reports(result: ParseResult): seq<ParseResult> {
    if result == Nothing then [] else [result]
  }

  lemma FeedCons(s: ParserState, value: byte, rest: seq<byte>)
    requires Reachable(s)
    ensures After(s, [value] + rest) == After(FeedStep(s, value).0, rest)
    ensures Reported(s, [value] + rest) == Reports(FeedStep(s, value).1) + Reported(FeedStep(s, value).0, rest)
  {
    assert ([value] + rest)[1..] == rest;
  }

  lemma FeedLast(s: ParserState, value: byte)
    requires Reachable(s)
    ensures After(s, [value]) == FeedStep(s, value).0
    ensures Reported(s, [value]) == Reports(FeedStep(s, value).1)
  {
    assert [value] == [value] + [];
    FeedCons(s, value, []);
  }

  lemma {:induction false} FeedConcat(s: ParserState, a: seq<byte>, b: seq<byte>)
    requires Reachable(s)
    ensures After(s, a + b) == After(After(s, a), b)
    ensures Reported(s, a + b) == Reported(s, a) + Reported(After(s, a), b)
    decreases |a|
  {
    if a == [] {
      All(b);
    } else {
      FeedConcat(FeedStep(s, a[0]).0, a[1..], b);
      TailOfConcat(a, b);
      Associative(Reports(FeedStep(s, a[0]).1), Reported(FeedStep(s, a[0]).0, a[1..]), Reported(After(s, a), b));
    }
  }

  /** The parser inside a frame, with these bytes collected so far. */
  function Collecting(body: seq<byte>): ParserState {
    ParserState(true, false, false, body)
  }

  /** Escaped data is collected byte by byte as long as it fits. */
  lemma {:induction false} FeedEscaped(body: seq<byte>, data: seq<byte>)
    requires |body| + |data| <= MAX_BODY
    ensures After(Collecting(body), EscapeAll(data)) == Collecting(body + data)
    ensures Reported(Collecting(body), EscapeAll(data)) == []
    decreases |data|
  {
    if data == [] {
      All(body);
    } else {
      FeedOne(body, data[0]);
      FeedEscaped(body + [data[0]], data[1..]);
      TakeFirst(body, data);
      FeedConcat(Collecting(body), Escaped(data[0]), EscapeAll(data[1..]));
    }
  }

  lemma TakeFirst(body: seq<byte>, data: seq<byte>)
    requires data != []
    ensures body + [data[0]] + data[1..] == body + data
  {
  }

  lemma FeedOne(body: seq<byte>, value: byte)
    requires |body| < MAX_BODY
    ensures After(Collecting(body), Escaped(value)) == Collecting(body + [value])
    ensures Reported(Collecting(body), Escaped(value)) == []
  {
    if value == DELIMITER || value == ESCAPE {
      var pending, flipped := Collecting(body).(escaped := true), FlipEscapeBit(value);
      assert FeedStep(Collecting(body), ESCAPE) == (pending, Nothing);
      assert FeedStep(pending, flipped) == (Collecting(body + [value]), Nothing);
      FeedLast(pending, flipped);
      FeedCons(Collecting(body), ESCAPE, [flipped]);
    } else {
      FeedLast(Collecting(body), value);
    }
  }

  function Idle(n: nat): seq<byte> {
    seq(n, _ => DELIMITER)
  }

  lemma {:induction false} FeedIdle(n: nat)
    ensures After(READY, Idle(n)) == READY && Reported(READY, Idle(n)) == []
  {
    if n > 0 {
      FeedIdle(n - 1);
      FeedCons(READY, DELIMITER, Idle(n - 1));
      assert Idle(n) == [DELIMITER] + Idle(n - 1);
    }
  }

  /** Frames on the wire, each after some idle delimiters; a closing delimiter may open the next frame. */
  datatype Sent = Sent(idle: nat, frame: Frame)

  function Stream(items: seq<Sent>): seq<byte> {
    if items == [] then []
    else Idle(items[0].idle) + EscapeAll(Body(items[0].frame)) + [DELIMITER] + Stream(items[1..])
  }

  function Deliveries(items: seq<Sent>): seq<ParseResult> {
    if items == [] then [] else [Delivered(items[0].frame)] + Deliveries(items[1..])
  }

  lemma FeedItem(item: Sent)
    requires |item.frame.payload| <= MAX_PAYLOAD
    ensures After(READY, Idle(item.idle) + EscapeAll(Body(item.frame)) + [DELIMITER]) == READY
    ensures Reported(READY, Idle(item.idle) + EscapeAll(Body(item.frame)) + [DELIMITER]) == [Delivered(item.frame)]
  {
    var body := Body(item.frame);
    FeedIdle(item.idle);
    FeedEscaped([], body);
    All(body);
    FeedConcat(READY, Idle(item.idle), EscapeAll(body));
    FeedConcat(READY, Idle(item.idle) + EscapeAll(body), [DELIMITER]);
    BodyDecodes(item.frame);
    FeedLast(Collecting(body), DELIMITER);
  }

  lemma {:induction false} FeedStream(items: seq<Sent>)
    requires forall i :: 0 <= i < |items| ==> |items[i].frame.payload| <= MAX_PAYLOAD
    ensures After(READY, Stream(items)) == READY
    ensures Reported(READY, Stream(items)) == Deliveries(items)
  {
    if items != [] {
      var first := Idle(items[0].idle) + EscapeAll(Body(items[0].frame)) + [DELIMITER];
      FeedItem(items[0]);
      FeedStream(items[1..]);
      FeedConcat(READY, first, Stream(items[1..]));
    }
  }

  /**
   Resynchronisation: whatever the parser has seen before, the first delimiter ends that (with at
   most one report), and from there on every frame arrives exactly once and in order.
   */
  lemma StreamDelivered(s: ParserState, items: seq<Sent>)
    requires Reachable(s)
    requires forall i :: 0 <= i < |items| ==> |items[i].frame.payload| <= MAX_PAYLOAD
    ensures After(s, [DELIMITER] + Stream(items)) == READY
    ensures Reported(s, [DELIMITER] + Stream(items)) == Reports(FeedStep(s, DELIMITER).1) + Deliveries(items)
  {
    FeedStream(items);
    FeedCons(s, DELIMITER, Stream(items));
  }

  function Wires(frames: seq<Frame>): seq<byte> {
    if frames == [] then [] else Wire(frames[0]) + Wires(frames[1..])
  }

  function BackToBack(frames: seq<Frame>): seq<Sent> {
    seq(|frames|, i requires 0 <= i < |frames| => Sent(1, frames[i]))
  }

  lemma {:induction false} WiresAreStream(frames: seq<Frame>)
    ensures Wires(frames) == Stream(BackToBack(frames))
  {
    if frames != [] {
      WiresAreStream(frames[1..]);
      assert BackToBack(frames)[1..] == BackToBack(frames[1..]);
      assert Idle(1) == [DELIMITER];
    }
  }

  /** The concatenated encodings of any list of frames are delivered as that list, from any parser state. */
  lemma WiresDelivered(s: ParserState, frames: seq<Frame>)
    requires Reachable(s) && frames != []
    requires forall i :: 0 <= i < |frames| ==> |frames[i].payload| <= MAX_PAYLOAD
    ensures After(s, Wires(frames)) == READY
    ensures Reported(s, Wires(frames)) == Reports(FeedStep(s, DELIMITER).1) + Deliveries(BackToBack(frames))
  {
    WiresAreStream(frames);
    FeedStream(BackToBack(frames));
    WiresStart(frames);
    FirstDelimiter(s, Wires(frames));
  }

  lemma WiresStart(frames: seq<Frame>)
    requires frames != []
    ensures Wires(frames) != [] && Wires(frames)[0] == DELIMITER
  {
  }

  /** A delimiter leaves the same state behind whatever was before it. */
  lemma FirstDelimiter(s: ParserState, input: seq<byte>)
    requires Reachable(s) && input != [] && input[0] == DELIMITER
    ensures After(s, input) == After(READY, input)
    ensures Reported(s, input) == Reports(FeedStep(s, DELIMITER).1) + Reported(READY, input)
  {
    assert Reported(READY, input) == Reported(READY, input[1..]);
  }
}
