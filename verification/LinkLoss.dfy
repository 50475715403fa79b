/**
 Frames cut off in the middle. The cartridge gives up sending when its deadline strikes, wherever that is;
 what the parser of the Pico makes of it is a channel that loses whole frames, and does nothing else.
 */
module LinkLoss {
  import opened Bytes
  import opened Framing
  import opened HostLink
  import opened Sequences

  /** One attempt to send a frame, and how many bytes of its wire form go out. */
  datatype Attempt = Attempt(frame: Frame, budget: nat)

  function OnLink(attempts: seq<Attempt>): seq<byte> {
    if attempts == [] then [] else Taken(Wire(attempts[0].frame), attempts[0].budget) + OnLink(attempts[1..])
  }

  /** The opening delimiter and the whole escaped body have gone out. */
  predicate BodySent(a: Attempt) {
    a.budget > |EscapeAll(Body(a.frame))|
  }

  /** The delimiter at the end has gone out, too. */
  predicate Closed(a: Attempt) {
    a.budget >= |Wire(a.frame)|
  }

  /** Something else goes out, which begins with a delimiter. */
  predicate Heard(attempts: seq<Attempt>) {
    exists i :: 0 <= i < |attempts| && attempts[i].budget > 0
  }

  /** The frames whose bodies went out as a whole and were closed by their own delimiter or the next one. */
  function Survivors(attempts: seq<Attempt>): seq<Frame> {
    if attempts == [] then []
    else
      (if BodySent(attempts[0]) && (Closed(attempts[0]) || Heard(attempts[1..])) then [attempts[0].frame] else []) +
      Survivors(attempts[1..])
  }

  /** The frames among the reports of the parser. */
  function Frames(results: seq<ParseResult>): seq<Frame> {
    if results == [] then []
    else (if results[0].Delivered? then [results[0].frame] else []) + Frames(results[1..])
  }

  lemma {:induction false} FramesConcat(a: seq<ParseResult>, b: seq<ParseResult>)
    ensures Frames(a + b) == Frames(a) + Frames(b)
  {
    if a == [] {
      All(b);
    } else {
      FramesConcat(a[1..], b);
      TailOfConcat(a, b);
      Associative(if a[0].Delivered? then [a[0].frame] else [], Frames(a[1..]), Frames(b));
    }
  }

  /** What the next delimiter makes of the state the parser is in. */
  function Due(s: ParserState): seq<Frame>
    requires Reachable(s)
  {
    Frames(Reports(FeedStep(s, DELIMITER).1))
  }

  lemma DueOf(s: ParserState)
    requires Reachable(s)
    ensures var result := FeedStep(s, DELIMITER).1; Due(s) == if result.Delivered? then [result.frame] else []
  {
    hide FeedStep;
    FramesOne(FeedStep(s, DELIMITER).1);
  }

  lemma FramesOne(result: ParseResult)
    ensures Frames(Reports(result)) == if result.Delivered? then [result.frame] else []
  {
    if result != Nothing {
      assert [result][1..] == [];
      assert Frames([result]) == (if result.Delivered? then [result.frame] else []) + Frames([]);
      assert Frames([]) == [];
    }
  }

  // ---------------------------------------------------------------------------------------
  // A body that is cut off

  /** A beginning of escaped data is escaped data, possibly with an escape left open. */
  lemma {:induction false} EscapePrefix(data: seq<byte>, k: nat) returns (m: nat, open: bool)
    requires k <= |EscapeAll(data)|
    ensures m <= |data| && EscapeAll(data)[..k] == EscapeAll(data[..m]) + if open then [ESCAPE] else []
    ensures k == |EscapeAll(data)| <==> m == |data| && !open
    decreases |data|
  {
    if k == 0 {
      m, open := 0, false;
      EmptyPrefix(data);
    } else if k < |Escaped(data[0])| {
      m, open := 0, true;
      EmptyPrefix(data);
      assert EscapeAll(data)[..1] == [ESCAPE];
    } else {
      var n, rest := |Escaped(data[0])|, EscapeAll(data[1..]);
      m, open := EscapePrefix(data[1..], k - n);
      var tail := if open then [ESCAPE] else [];
      assert EscapeAll(data)[..k] == Escaped(data[0]) + rest[..k - n];
      assert data[..m + 1][1..] == data[1..][..m];
      Associative(Escaped(data[0]), EscapeAll(data[1..][..m]), tail);
      m := m + 1;
    }
  }

  lemma EmptyPrefix(data: seq<byte>)
    ensures EscapeAll(data[..0]) == [] && (data == [] <==> EscapeAll(data) == [])
  {
  }

  /** A shortened body contradicts its own length. */
  lemma ShortBody(f: Frame, m: nat)
    requires |f.payload| <= MAX_PAYLOAD && m < |Body(f)|
    ensures !DecodeBody(Body(f)[..m]).Delivered?
  {
    var body, short := Body(f), Body(f)[..m];
    assert |body| == HEADER_SIZE + |f.payload| + CRC_SIZE;
    if m >= HEADER_SIZE {
      assert short[4] == Header(f)[4] && short[5] == Header(f)[5];
      assert PayloadLength(short) == |f.payload|;
    }
  }

  /** After any beginning of a body the parser has reported nothing, and only the whole body is worth a frame. */
  lemma CutBody(f: Frame, k: nat)
    requires |f.payload| <= MAX_PAYLOAD && k <= |EscapeAll(Body(f))|
    ensures Reported(READY, EscapeAll(Body(f))[..k]) == []
    ensures Due(After(READY, EscapeAll(Body(f))[..k])) == if k == |EscapeAll(Body(f))| then [f] else []
  {
    hide DecodeBody, Body, EscapeAll;
    BodyFits(f);
    var m, open := EscapePrefix(Body(f), k);
    var short := Body(f)[..m];
    FeedEscaped([], short);
    All(short);
    if open {
      var state := Collecting(short).(escaped := true);
      FeedConcat(READY, EscapeAll(short), [ESCAPE]);
      FeedLast(Collecting(short), ESCAPE);
      DueOf(state);
    } else {
      All(EscapeAll(short));
      DueOf(Collecting(short));
      if m < |Body(f)| {
        ShortBody(f, m);
      } else {
        All(Body(f));
        BodyDecodes(f);
      }
    }
  }

  lemma BodyFits(f: Frame)
    requires |f.payload| <= MAX_PAYLOAD
    ensures 0 < |Body(f)| <= MAX_BODY
  {
  }

  /** What goes out of one frame: nothing, or a delimiter and a part of the rest. */
  lemma PartOfWire(a: Attempt)
    ensures a.budget == 0 ==> Taken(Wire(a.frame), a.budget) == []
    ensures a.budget > 0 && !Closed(a) ==>
              a.budget - 1 <= |EscapeAll(Body(a.frame))| &&
              Taken(Wire(a.frame), a.budget) == [DELIMITER] + EscapeAll(Body(a.frame))[..a.budget - 1]
    ensures Closed(a) ==> a.budget > 0 && Taken(Wire(a.frame), a.budget) == [DELIMITER] + (EscapeAll(Body(a.frame)) + [DELIMITER])
  {
    hide EscapeAll, Body;
  }

  /** One attempt, from between two frames or from within a cut one. */
  lemma OneAttempt(a: Attempt)
    requires |a.frame.payload| <= MAX_PAYLOAD && a.budget > 0
    ensures var sent := Taken(Wire(a.frame), a.budget);
            && sent != [] && sent[0] == DELIMITER
            && Frames(Reported(READY, sent)) == (if Closed(a) then [a.frame] else [])
            && Due(After(READY, sent)) == (if BodySent(a) && !Closed(a) then [a.frame] else [])
  {
    hide EscapeAll, Body, Taken, DecodeBody;
    PartOfWire(a);
    var escaped := EscapeAll(Body(a.frame));
    FeedLast(READY, DELIMITER);
    if Closed(a) {
      CutBody(a.frame, |escaped|);
      All(escaped);
      FeedConcat(READY, escaped, [DELIMITER]);
      FeedLast(After(READY, escaped), DELIMITER);
      FeedCons(READY, DELIMITER, escaped + [DELIMITER]);
    } else {
      CutBody(a.frame, a.budget - 1);
      FeedCons(READY, DELIMITER, escaped[..a.budget - 1]);
    }
  }

  /**
   Whatever the parser has seen before, and wherever each frame is cut off: the frames delivered are what
   the first delimiter makes of the past, and then, in order, exactly the frames that went out as a whole.
   */
  lemma {:induction false} CutFramesDelivered(s: ParserState, attempts: seq<Attempt>)
    requires Reachable(s)
    requires forall i :: 0 <= i < |attempts| ==> |attempts[i].frame.payload| <= MAX_PAYLOAD
    ensures Frames(Reported(s, OnLink(attempts))) == (if Heard(attempts) then Due(s) else []) + Survivors(attempts)
    decreases |attempts|
  {
    hide Taken, Wire, FeedStep, BodySent, Closed, Due, Heard, Reported, After, Frames;
    if attempts == [] {
      NothingHeard(s);
    } else {
      var first, rest := attempts[0], attempts[1..];
      var sent := Taken(Wire(first.frame), first.budget);
      HeardFirst(attempts);
      SentWhenClosed(first);
      if first.budget == 0 {
        PartOfWire(first);
        All(OnLink(rest));
        CutFramesDelivered(s, rest);
        All(Survivors(rest));
      } else {
        OneAttempt(first);
        CutFramesDelivered(After(READY, sent), rest);
        Reports3(s, sent, OnLink(rest));
        Assemble(Due(s), first, Heard(rest), Survivors(rest));
      }
    }
  }

  lemma NothingHeard(s: ParserState)
    requires Reachable(s)
    ensures Frames(Reported(s, OnLink([]))) == [] && !Heard([])
  {
  }

  /** The past, what one attempt delivers at once, and what the rest brings. */
  lemma Reports3(s: ParserState, sent: seq<byte>, more: seq<byte>)
    requires Reachable(s) && sent != [] && sent[0] == DELIMITER
    ensures Frames(Reported(s, sent + more)) ==
            Due(s) + (Frames(Reported(READY, sent)) + Frames(Reported(After(READY, sent), more)))
  {
    hide FeedStep, Reported, After, Frames;
    FirstDelimiter(s, sent + more);
    FeedConcat(READY, sent, more);
    FramesConcat(Reports(FeedStep(s, DELIMITER).1), Reported(READY, sent + more));
    FramesConcat(Reported(READY, sent), Reported(After(READY, sent), more));
  }

  lemma Assemble(past: seq<Frame>, a: Attempt, heard: bool, rest: seq<Frame>)
    ensures var now, later := if Closed(a) then [a.frame] else [], if BodySent(a) && !Closed(a) then [a.frame] else [];
            past + (now + ((if heard then later else []) + rest)) ==
            past + ((if BodySent(a) && (Closed(a) || heard) then [a.frame] else []) + rest)
  {
    SentWhenClosed(a);
    All(rest);
  }

  lemma SentWhenClosed(a: Attempt)
    ensures Closed(a) ==> BodySent(a)
    ensures BodySent(a) ==> a.budget > 0
  {
  }

  lemma HeardFirst(attempts: seq<Attempt>)
    requires attempts != []
    ensures Heard(attempts) <==> attempts[0].budget > 0 || Heard(attempts[1..])
  {
    forall i | 0 <= i < |attempts|
      ensures attempts[i] == if i == 0 then attempts[0] else attempts[1..][i - 1]
    {
    }
  }

  /** Where no deadline strikes, every frame arrives. */
  lemma {:induction false} NothingIsLost(attempts: seq<Attempt>)
    requires forall i :: 0 <= i < |attempts| ==> Closed(attempts[i])
    ensures Survivors(attempts) == seq(|attempts|, i requires 0 <= i < |attempts| => attempts[i].frame)
  {
    if attempts != [] {
      NothingIsLost(attempts[1..]);
    }
  }
}
