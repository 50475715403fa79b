/** How a fetch ends: what the answer of the server, or the failure of the link, is reported as. */
module FetchOutcome {
  import opened Bytes
  import opened FetchCycle
  import PageDecoder

  datatype Ending = Completes | Fails(error: byte)

  /** Nothing but the page itself can change the outcome any more: there is an answer, or no way to get one. */
  predicate Decided(place: Place) {
    Concluding(place) || (place.Grabbed? && !place.connected)
  }

  /** A response of 200 is good for a page if it fits and can be decoded. */
  ghost function OfBody(p: Pico): Ending {
    if p.overflow then Fails(6) else if PageDecoder.Acceptable(p.body, p.page) then Completes else Fails(7)
  }

  /** The end that a fetch with this answer has to have. */
  ghost function OfAnswer(p: Pico, result: HttpResult): Ending {
    if p.forcedTimeout then Fails(12)
    else match result
      case LinkError(error) => Fails(error)
      case Status(code) => if code == 200 then OfBody(p) else if code == 404 then Fails(8) else Fails(5)
  }

  ghost function Due(p: Pico): Ending
    requires Decided(p.place)
  {
    match p.place
    case Grabbed(_, _) => Fails(1)
    case LaunchFailed(_, error) => Fails(error)
    case Answered(_, result) => OfAnswer(p, result)
    case Collecting(_) => OfBody(p)
    case Decoding(_, page, body) => if PageDecoder.Acceptable(body, page) then Completes else Fails(7)
    case Publishing(_) => Completes
    case Failing(_, error) => Fails(error)
  }

  /** The outcome has been published. */
  predicate Ended(p: Pico, ending: Ending) {
    && p.place.Polling? && !Busy(p)
    && match ending
       case Completes => p.state.Complete? && p.error == 0
       case Fails(error) => p.state == FetchState.Failed && p.error == error
  }

  ghost predicate OnTheWay(p: Pico, ending: Ending) {
    (Decided(p.place) && Due(p) == ending) || Ended(p, ending)
  }

  lemma StepTowards(p: Pico, a: Action)
    requires Inv(p) && Decided(p.place) && !a.FetchStart?
    ensures OnTheWay(Step(p, a), Due(p))
  {
    hide PageDecoder.Acceptable, PageDecoder.IsScreenOf, HistoryInv, BodyInv, ScreenInv;
    if Enabled(p, a) {
      match a {
        case WifiChange(_) =>
        case Prepare(_) =>
        case Deactivate =>
        case Classify =>
        case Collect =>
        case DecodeWrite(_) =>
        case DecodeEnd(_) =>
        case Publish =>
        case SetFailed =>
      }
    }
  }

  lemma StepAfterEnd(p: Pico, ending: Ending, a: Action)
    requires Inv(p) && Ended(p, ending) && !a.FetchStart?
    ensures Ended(Step(p, a), ending)
  {
    hide PageDecoder.Acceptable, PageDecoder.IsScreenOf, HistoryInv, BodyInv, ScreenInv;
    if Enabled(p, a) {
      assert a.WifiChange? || a.Grab?;
    }
  }

  /** Once a fetch is decided, every calm run ends it as the answer demands, and then it stays so until the next fetch. */
  lemma {:induction false} EndsAsDecided(p: Pico, ending: Ending, actions: seq<Action>)
    requires Inv(p) && OnTheWay(p, ending) && Calm(p, actions)
    requires forall i :: 0 <= i < |actions| ==> !actions[i].FetchStart?
    ensures OnTheWay(Run(p, actions), ending)
    decreases |actions|
  {
    hide Inv, Step, Decided, Due, Ended, Timely;
    if actions != [] {
      StepKeepsInv(p, actions[0]);
      if Ended(p, ending) {
        StepAfterEnd(p, ending, actions[0]);
      } else {
        StepTowards(p, actions[0]);
      }
      EndsAsDecided(Step(p, actions[0]), ending, actions[1..]);
    }
  }

  lemma AnswerDecides(p: Pico, index: nat, result: HttpResult)
    requires Inv(p) && Enabled(p, RequestDone(index, result))
    ensures var q := Step(p, RequestDone(index, result));
            Inv(q) && Decided(q.place) && Due(q) == OfAnswer(p, result)
  {
    StepKeepsInv(p, RequestDone(index, result));
    hide PageDecoder.Acceptable, PageDecoder.IsScreenOf, HistoryInv, ScreenInv, BodyInv;
  }

  /**
   Whenever lwIP reports the end of a request, the fetch ends as that answer demands, whatever comes between:
   a deadline that has passed counts more than any answer, a failed link is reported as such, 404 is a page
   that does not exist, and only 200 leads to the body.
   */
  lemma EndsAsAnswered(before: seq<Action>, index: nat, result: HttpResult, after: seq<Action>)
    requires Calm(Initial(), before) && Enabled(Run(Initial(), before), RequestDone(index, result))
    requires Calm(Step(Run(Initial(), before), RequestDone(index, result)), after)
    requires forall i :: 0 <= i < |after| ==> !after[i].FetchStart?
    ensures var p := Run(Initial(), before);
            OnTheWay(Run(Step(p, RequestDone(index, result)), after), OfAnswer(p, result))
  {
    hide Inv, Step, Decided, Due, Ended, Enabled, OfAnswer;
    var p := Run(Initial(), before);
    InitialInv();
    RunKeepsInv(Initial(), before);
    AnswerDecides(p, index, result);
    EndsAsDecided(Step(p, RequestDone(index, result)), OfAnswer(p, result), after);
  }

  // ---------------------------------------------------------------------------------------
  // Responses that are too large

  lemma StepKeepsBodyShort(p: Pico, a: Action)
    requires |p.body| <= 16384
    ensures |Step(p, a).body| <= 16384
  {
    hide DecodesTo, TakeIn, ToClassified, ToPrepared, ToLaunched, ToDecoded;
    if Enabled(p, a) {
      if a.Receive? {
        DataKeepsBodyShort(p, p.live[a.index].number, a.data);
      } else if a.FetchStart? {
        Accepts(p, a.job);
      } else {
        KeepsBody(p, a);
      }
    }
  }

  lemma KeepsBody(p: Pico, a: Action)
    requires Enabled(p, a) && !a.Receive? && !a.FetchStart?
    ensures Step(p, a).body == p.body || Step(p, a).body == []
  {
    hide Enabled, Step;
    if IsEarly(a) {
      EarlyKeepsBody(p, a);
    } else {
      LateKeepsBody(p, a);
    }
  }

  lemma EarlyKeepsBody(p: Pico, a: Action)
    requires Enabled(p, a) && IsEarly(a)
    ensures Step(p, a).body == p.body || Step(p, a).body == []
  {
    hide DecodesTo, ToPrepared, ToLaunched;
    match a {
      case WifiChange(_) =>
      case Grab =>
      case Prepare(_) =>
      case Clear =>
      case Activate =>
      case Launch(_) =>
      case Deactivate =>
      case Allocate =>
    }
  }

  lemma LateKeepsBody(p: Pico, a: Action)
    requires Enabled(p, a) && !IsEarly(a) && !a.Receive? && !a.FetchStart?
    ensures Step(p, a).body == p.body
  {
    hide DecodesTo, ToClassified;
    match a {
      case HeadersDone(_) =>
      case RequestDone(_, _) =>
      case Classify =>
      case Collect =>
      case DecodeWrite(_) =>
      case DecodeEnd(_) =>
      case Publish =>
      case SetFailed =>
      case Deadline =>
      case DnsDeadline =>
    }
  }

  lemma DataKeepsBodyShort(p: Pico, number: nat, data: seq<byte>)
    requires |p.body| <= 16384
    ensures |TakeIn(p, number, data).body| <= 16384
  {
  }

  lemma {:induction false} BodyStaysShort(p: Pico, actions: seq<Action>)
    requires |p.body| <= 16384
    ensures |Run(p, actions).body| <= 16384
    decreases |actions|
  {
    hide Step;
    if actions != [] {
      StepKeepsBodyShort(p, actions[0]);
      BodyStaysShort(Step(p, actions[0]), actions[1..]);
    }
  }

  /** More than the buffer holds is never decoded: a fetch for which that much has arrived ends with error 6. */
  lemma TooLargeIsReported(actions: seq<Action>)
    requires Calm(Initial(), actions)
    ensures var p := Run(Initial(), actions);
            p.live != [] && |Arrived(p.history, Latest(p.history))| > 16384 ==> p.overflow && OfBody(p) == Fails(6)
  {
    InitialInv();
    RunKeepsInv(Initial(), actions);
    BodyStaysShort(Initial(), actions);
  }

  /** Data that still fits does not make a response too large, and then the body is all that has arrived. */
  lemma FittingDataIsKept(p: Pico, index: nat, data: seq<byte>)
    requires Inv(p) && !p.overflow && |p.body| <= 16384 && Enabled(p, Receive(index, data))
    ensures var q := Step(p, Receive(index, data));
            var arrived := Arrived(q.history, Latest(q.history));
            && (q.overflow <==> |arrived| > 16384)
            && (!q.overflow ==> q.body == arrived)
            && OfBody(q) == if |arrived| > 16384 then Fails(6)
                            else if PageDecoder.Acceptable(arrived, q.page) then Completes else Fails(7)
  {
    hide PageDecoder.Acceptable, PageDecoder.IsScreenOf, HistoryInv, ScreenInv;
    assert p.live == [Requested(p)] && index == 0;
  }

  // ---------------------------------------------------------------------------------------
  // When another page can be asked for

  /** A fetch is accepted exactly when the radio is up and every fetch before it has been given its outcome. */
  lemma AcceptedWhenDone(actions: seq<Action>, job: Job)
    requires Calm(Initial(), actions)
    ensures var p := Run(Initial(), actions);
            Enabled(p, FetchStart(job)) <==> p.connected && forall k: nat :: k < |p.history.jobs| ==> p.history.ends[k] == 1
  {
    hide BodyInv, ScreenInv, Step;
    var p := Run(Initial(), actions);
    InitialInv();
    RunKeepsInv(Initial(), actions);
    assert Busy(p) <==> Pending(p);
    assert Pending(p) ==> p.history.ends[Latest(p.history)] == 0;
  }
}
