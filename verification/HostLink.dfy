/** The cartridge's end of the byte link: its own encoder and its one-frame receiver. */
module HostLink {
  import opened Bytes
  import opened Crc
  import opened Framing
  import opened Sequences

  const HOST_LIMIT: nat := 240
  const MAX_HOST_BODY: nat := HEADER_SIZE + HOST_LIMIT + CRC_SIZE

  /** The part of data that gets through when the link takes only budget more bytes. */
  function Taken(data: seq<byte>, budget: nat): seq<byte> {
    if |data| <= budget then data else data[..budget]
  }

  lemma TakenConcat(a: seq<byte>, b: seq<byte>, budget: nat)
    ensures Taken(a + b, budget) ==
            if |a| <= budget then a + Taken(b, budget - |a|) else Taken(a, budget)
  {
  }

  /** What the receiver demands of a closed frame body. */
  predicate HostAccepts(body: seq<byte>) {
    && |body| >= HEADER_SIZE + CRC_SIZE
    && PayloadLength(body) <= HOST_LIMIT
    && PayloadLength(body) + HEADER_SIZE + CRC_SIZE == |body|
    && Crc16(body[..|body| - 2]) == body[|body| - 2] as nat + body[|body| - 1] as nat * 0x100
  }

  /** That is exactly the bodies of frames of at most 240 payload bytes. */
  lemma HostAcceptsBodies(body: seq<byte>)
    ensures HostAccepts(body) <==> exists f: Frame :: |f.payload| <= HOST_LIMIT && body == Body(f)
  {
    if HostAccepts(body) {
      var f := DecodeBody(body).frame;
      DecodesExactlyBodies(body, f);
    }
    forall f: Frame | |f.payload| <= HOST_LIMIT && body == Body(f)
      ensures HostAccepts(body)
    {
      DecodesExactlyBodies(body, f);
    }
  }

  /** The outcome of one attempt to receive: a body or nothing, and the bytes left unread. */
  datatype Reception = Received(body: seq<byte>, rest: seq<byte>) | Rejected(rest: seq<byte>)

  function Receive(active: bool, escaped: bool, body: seq<byte>, input: seq<byte>): Reception
    decreases |input|
  {
    if input == [] then Rejected([])  // the deadline expired
    else
      var value, rest := input[0], input[1..];
      if value == DELIMITER then
        if !active || body == [] then Receive(true, escaped, body, rest)
        else if escaped || !HostAccepts(body) then Rejected(rest)
        else Received(body, rest)
      else if !active then Receive(active, escaped, body, rest)
      else if !escaped && value == ESCAPE then Receive(active, true, body, rest)
      else if |body| == MAX_HOST_BODY then Rejected(rest)
      else Receive(active, false, body + [if escaped then FlipEscapeBit(value) else value], rest)
  }

  class Cartridge {
    /** Bytes written to the link so far. */
    var sent: seq<byte>
    /** How many more the Pico takes before the deadline. */
    var sendable: nat
    /** Bytes that arrive before the deadline. */
    var incoming: seq<byte>
    const response: array<byte>
    var responseLength: nat

    ghost predicate Valid()
      reads this
    {
      response.Length == MAX_HOST_BODY && responseLength <= MAX_HOST_BODY
    }

    constructor (sendable: nat, incoming: seq<byte>)
      ensures Valid() && fresh(response)
      ensures this.sent == [] && this.sendable == sendable && this.incoming == incoming
    {
      this.sent, this.sendable, this.incoming := [], sendable, incoming;
      response := new byte[MAX_HOST_BODY];
      responseLength := 0;
    }

    method SendByte(value: byte) returns (ok: bool)
      modifies this`sent, this`sendable
      ensures ok <==> old(sendable) >= 1
      ensures sent == old(sent) + Taken([value], old(sendable))
      ensures ok ==> sendable == old(sendable) - 1
    {
      if sendable == 0 {
        All(sent);
        return false;
      }
      sent, sendable := sent + [value], sendable - 1;
      return true;
    }

    method SendEscaped(value: byte) returns (ok: bool)
      modifies this`sent, this`sendable
      ensures ok <==> old(sendable) >= |Escaped(value)|
      ensures sent == old(sent) + Taken(Escaped(value), old(sendable))
      ensures ok ==> sendable == old(sendable) - |Escaped(value)|
    {
      var plain := value;
      if value == DELIMITER || value == ESCAPE {
        ok := SendByte(ESCAPE);
        if !ok {
          return false;
        }
        plain := FlipEscapeBit(value);
      }
      ok := SendByte(plain);
    }

    method SendBody(body: seq<byte>) returns (ok: bool)
      modifies this`sent, this`sendable
      ensures ok <==> old(sendable) >= |EscapeAll(body)|
      ensures sent == old(sent) + Taken(EscapeAll(body), old(sendable))
      ensures ok ==> sendable == old(sendable) - |EscapeAll(body)|
    {
      hide EscapeAll, Escaped, Taken;
      ghost var before := sent;
      NothingSent(before, body);
      for index := 0 to |body|
        invariant sent == before + EscapeAll(body[..index])
        invariant |EscapeAll(body[..index])| + sendable == old(sendable)
      {
        EscapeStep(body, index);
        ghost var done, chunk := EscapeAll(body[..index]), Escaped(body[index]);
        BodyCut(body, index, old(sendable));
        Associative(before, done, Taken(chunk, sendable));
        ok := SendEscaped(body[index]);
        if !ok {
          return false;
        }
      }
      AllTaken(EscapeAll(body), old(sendable));
      return true;
    }

    /** The bytes of a frame go out in order until the deadline cuts them off. */
    method SendFrame(body: seq<byte>) returns (ok: bool)
      modifies this`sent, this`sendable
      ensures var wire := [DELIMITER] + EscapeAll(body + LittleEndian(Crc16(body))) + [DELIMITER];
              (ok <==> old(sendable) >= |wire|) && sent == old(sent) + Taken(wire, old(sendable))
    {
      hide EscapeAll, Taken, Crc16, LittleEndian;
      var crc := ComputeCrcOf(body);
      var all := body + LittleEndian(crc);
      ghost var before, n, inner := sent, sendable, EscapeAll(all);
      WireCut(before, inner, n);
      ok := SendByte(DELIMITER);
      if !ok {
        return false;
      }
      ok := SendBody(all);
      if !ok {
        return false;
      }
      ok := SendByte(DELIMITER);
    }

    method ReceiveFrame() returns (ok: bool)
      requires Valid()
      modifies this`incoming, this`responseLength, response
      ensures Valid()
      ensures ok <==> Receive(false, false, [], old(incoming)).Received?
      ensures ok ==> Receive(false, false, [], old(incoming)) == Received(response[..responseLength], incoming)
      ensures !ok ==> Receive(false, false, [], old(incoming)) == Rejected(incoming)
    {
      var length, active, escaped := 0, false, false;
      while incoming != []
        invariant length <= MAX_HOST_BODY
        invariant responseLength == old(responseLength)
        invariant Receive(active, escaped, response[..length], incoming) == Receive(false, false, [], old(incoming))
        decreases |incoming|
      {
        var value := incoming[0];
        incoming := incoming[1..];
        if value == DELIMITER {
          if !active {
            active := true;
            continue;
          }
          if length == 0 {
            continue;
          }
          if escaped || !HostAccepts(response[..length]) {
            return false;
          }
          responseLength := length;
          return true;
        }
        if !active {
          continue;
        }
        if escaped {
          value := FlipEscapeBit(value);
          escaped := false;
        } else if value == ESCAPE {
          escaped := true;
          continue;
        }
        if length == response.Length {
          return false;
        }
        ghost var before := response[..length];
        response[length] := value;
        length := length + 1;
        assert response[..length] == before + [value];
      }
      return false;
    }
  }

  lemma NothingSent(before: seq<byte>, body: seq<byte>)
    ensures before + EscapeAll(body[..0]) == before && |EscapeAll(body[..0])| == 0 && body[..|body|] == body
  {
  }

  lemma AllTaken(data: seq<byte>, budget: nat)
    requires |data| <= budget
    ensures Taken(data, budget) == data
  {
  }

  /** Where the link stops taking bytes in the middle of a body. */
  lemma BodyCut(body: seq<byte>, index: nat, budget: nat)
    requires index < |body| && |EscapeAll(body[..index])| <= budget
    ensures var done, chunk := EscapeAll(body[..index]), Escaped(body[index]);
            && |done| + |chunk| <= |EscapeAll(body)|
            && (if budget < |done| + |chunk| then Taken(EscapeAll(body), budget) == done + Taken(chunk, budget - |done|)
                else Taken(chunk, budget - |done|) == chunk)
  {
    hide EscapeAll, Escaped;
    var done, chunk, rest := EscapeAll(body[..index]), Escaped(body[index]), EscapeAll(body[index + 1..]);
    EscapeSplit(body, index);
    TakenConcat(done + chunk, rest, budget);
    TakenConcat(done, chunk, budget);
  }

  /** The three parts of a frame on the wire, cut off anywhere. */
  lemma WireCut(before: seq<byte>, inner: seq<byte>, budget: nat)
    ensures var wire := [DELIMITER] + inner + [DELIMITER];
            && (budget < 1 ==> before + Taken(wire, budget) == before + Taken([DELIMITER], budget))
            && (budget >= 1 ==>
                  && var left: nat := budget - 1;
                  && var first := before + Taken([DELIMITER], budget);
                  && (left < |inner| ==> before + Taken(wire, budget) == first + Taken(inner, left))
                  && (left >= |inner| ==>
                        before + Taken(wire, budget) == first + Taken(inner, left) + Taken([DELIMITER], left - |inner|)))
  {
    hide Taken;
    var wire := [DELIMITER] + inner + [DELIMITER];
    TakenConcat([DELIMITER] + inner, [DELIMITER], budget);
    TakenConcat([DELIMITER], inner, budget);
    if budget >= 1 {
      AllTaken([DELIMITER], budget);
      Associative(before, [DELIMITER], Taken(inner, budget - 1));
      if budget - 1 >= |inner| {
        AllTaken(inner, budget - 1);
        Associative(before, [DELIMITER] + inner, Taken([DELIMITER], budget - 1 - |inner|));
        Associative(before, [DELIMITER], inner);
      }
    }
  }

  lemma EscapeSplit(data: seq<byte>, index: nat)
    requires index < |data|
    ensures EscapeAll(data) == EscapeAll(data[..index]) + Escaped(data[index]) + EscapeAll(data[index + 1..])
  {
    SplitAt(data, index + 1);
    EscapeStep(data, index);
    EscapeConcat(data[..index + 1], data[index + 1..]);
  }

  // ---------------------------------------------------------------------------------------
  // Both ends agree

  /** The cartridge puts the same bytes on the wire as the encoder of the Pico. */
  method SendRequest(link: Cartridge, version: byte, kind: byte, sequence: byte, payload: seq<byte>) returns (ok: bool)
    requires |payload| <= HOST_LIMIT
    modifies link`sent, link`sendable
    ensures var wire := Wire(Frame(version, 0, kind, sequence, payload));
            && (ok <==> old(link.sendable) >= |wire|)
            && link.sent == old(link.sent) + Taken(wire, old(link.sendable))
  {
    var request := [version, 0, kind, sequence, |payload| % 0x100, |payload| / 0x100] + payload;
    assert request == Covered(Frame(version, 0, kind, sequence, payload));
    ok := link.SendFrame(request);
  }

  lemma {:induction false} SkipNoise(noise: seq<byte>, rest: seq<byte>)
    requires DELIMITER !in noise
    ensures Receive(false, false, [], noise + rest) == Receive(false, false, [], rest)
  {
    if noise == [] {
      assert noise + rest == rest;
    } else {
      assert (noise + rest)[1..] == noise[1..] + rest;
      SkipNoise(noise[1..], rest);
    }
  }

  lemma {:induction false} SkipIdle(n: nat, rest: seq<byte>)
    ensures Receive(true, false, [], Idle(n) + rest) == Receive(true, false, [], rest)
  {
    if n == 0 {
      assert Idle(n) + rest == rest;
    } else {
      assert (Idle(n) + rest)[1..] == Idle(n - 1) + rest;
      SkipIdle(n - 1, rest);
    }
  }

  /** Escaped data is collected as long as it fits, and rejected once it does not. */
  lemma {:induction false} CollectEscaped(body: seq<byte>, data: seq<byte>, rest: seq<byte>)
    requires |body| <= MAX_HOST_BODY
    ensures if |body| + |data| <= MAX_HOST_BODY
            then Receive(true, false, body, EscapeAll(data) + rest) == Receive(true, false, body + data, rest)
            else Receive(true, false, body, EscapeAll(data) + rest).Rejected?
    decreases |data|
  {
    if data == [] {
      All(rest);
      All(body);
    } else {
      var tail := EscapeAll(data[1..]) + rest;
      Associative(Escaped(data[0]), EscapeAll(data[1..]), rest);
      CollectOne(body, data[0], tail);
      if |body| < MAX_HOST_BODY {
        CollectEscaped(body + [data[0]], data[1..], rest);
        TakeFirst(body, data);
      }
    }
  }

  lemma CollectOne(body: seq<byte>, value: byte, tail: seq<byte>)
    requires |body| <= MAX_HOST_BODY
    ensures Receive(true, false, body, Escaped(value) + tail) ==
            if |body| < MAX_HOST_BODY then Receive(true, false, body + [value], tail) else Rejected(tail)
  {
    if value == DELIMITER || value == ESCAPE {
      CollectEscape(body, value, tail);
    } else {
      ReceiveCons(false, body, value, tail);
    }
  }

  lemma CollectEscape(body: seq<byte>, value: byte, tail: seq<byte>)
    requires |body| <= MAX_HOST_BODY && (value == DELIMITER || value == ESCAPE)
    ensures Receive(true, false, body, Escaped(value) + tail) ==
            if |body| < MAX_HOST_BODY then Receive(true, false, body + [value], tail) else Rejected(tail)
  {
    var flipped := FlipEscapeBit(value);
    assert FlipEscapeBit(flipped) == value && flipped != DELIMITER;
    Pair(ESCAPE, flipped, tail);
    ReceiveCons(false, body, ESCAPE, [flipped] + tail);
    ReceiveCons(true, body, flipped, tail);
  }

  lemma Pair(a: byte, b: byte, tail: seq<byte>)
    ensures [a, b] + tail == [a] + ([b] + tail)
  {
  }

  lemma ReceiveCons(escaped: bool, body: seq<byte>, value: byte, rest: seq<byte>)
    requires value != DELIMITER && |body| <= MAX_HOST_BODY
    ensures Receive(true, escaped, body, [value] + rest) ==
            if !escaped && value == ESCAPE then Receive(true, true, body, rest)
            else if |body| == MAX_HOST_BODY then Rejected(rest)
            else Receive(true, false, body + [if escaped then FlipEscapeBit(value) else value], rest)
  {
    assert ([value] + rest)[1..] == rest;
  }

  /**
   After noise without delimiters and any number of idle delimiters the receiver recovers every
   frame of at most 240 payload bytes and rejects every longer one.
   */
  lemma FrameReceived(noise: seq<byte>, idle: nat, f: Frame, rest: seq<byte>)
    requires DELIMITER !in noise && |f.payload| <= MAX_PAYLOAD
    ensures var reception := Receive(false, false, [], noise + Idle(idle) + Wire(f) + rest);
            if |f.payload| <= HOST_LIMIT then reception == Received(Body(f), rest) else reception.Rejected?
  {
    var tail := [DELIMITER] + rest;
    var frame := EscapeAll(Body(f)) + tail;
    assert noise + Idle(idle) + Wire(f) + rest == noise + (Idle(idle + 1) + frame);
    SkipNoise(noise, Idle(idle + 1) + frame);
    assert (Idle(idle + 1) + frame)[1..] == Idle(idle) + frame;
    SkipIdle(idle, frame);
    CollectEscaped([], Body(f), tail);
    if |f.payload| <= HOST_LIMIT {
      assert [] + Body(f) == Body(f);
      HostAcceptsBodies(Body(f));
      assert tail[1..] == rest;
    }
  }
}
