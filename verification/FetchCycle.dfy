/**
 The life of a Teletekst fetch across the two cores of the Pico. Core 1 accepts requests and
 serves rows; core 0 starts HTTP requests, runs their callbacks and publishes the outcome. Every
 action below is one section under the shared mutex, or one stretch of code between two sections.
 */
module FetchCycle {
  import opened Bytes
  import opened Sequences
  import PageDecoder

  const SCREEN_SIZE: nat := 960
  const CHUNK_SIZE: nat := 240
  const CHUNK_COUNT: nat := 4
  const HTTP_BODY_MAX: nat := 16384

  const ERROR_NOT_CONNECTED: byte := 1
  const ERROR_HTTP_STATUS: byte := 5
  const ERROR_TOO_LARGE: byte := 6
  const ERROR_INVALID_DATA: byte := 7
  const ERROR_PAGE_NOT_FOUND: byte := 8
  const ERROR_TIMEOUT: byte := 12

  datatype Job = Job(page: nat, subpage: byte, source: byte)

  /** A fetch on its way through core 0, labelled with its number; no step looks at the number. */
  datatype Ticket = Ticket(number: nat, job: Job)

  datatype FetchState = Idle | Connecting | Receiving | Complete | Failed

  /** Where core 0 is between two mutex sections. */
  datatype Place =
    | Polling
    | Grabbed(ticket: Ticket, connected: bool)
    | Prepared(ticket: Ticket)
    | Cleared(ticket: Ticket)
    | Activated(ticket: Ticket)
    | LaunchFailed(ticket: Ticket, error: byte)
    | Answered(ticket: Ticket, result: HttpResult)
    | Collecting(ticket: Ticket)
    | Decoding(ticket: Ticket, page: nat, body: seq<byte>)
    | Publishing(ticket: Ticket)
    | Failing(ticket: Ticket, error: byte)

  /** lwIP's result and the HTTP status; an lwIP failure carries the public error it maps to. */
  datatype HttpResult = LinkError(error: byte) | Status(code: nat)

  datatype Decoded = Decoded(number: nat, body: seq<byte>, screen: seq<byte>)

  datatype Pico = Pico(
    state: FetchState, error: byte,
    requested: bool, active: bool, forcedTimeout: bool, connection: bool, overflow: bool,
    page: nat, subpage: byte, source: byte, connected: bool,
    body: seq<byte>, screen: seq<byte>,
    place: Place,
    live: seq<Ticket>,            // requests lwIP is working on
    history: History)

  /**
   The fetches accepted so far, what has arrived for each of them, how often each was given an outcome,
   and the last screen decoded.
   */
  datatype History = History(jobs: seq<Job>, arrived: map<nat, seq<byte>>, ends: multiset<nat>, decoded: Option<Decoded>)

  datatype Action =
    | FetchStart(job: Job)                              // core 1
    | WifiChange(connected: bool)
    | Grab                                              // core 0, start of a queued fetch
    | Prepare(failure: Option<byte>)
    | Clear
    | Activate
    | Launch(failure: Option<byte>)
    | Deactivate
    | Allocate                                          // name lookup has succeeded
    | HeadersDone(tooLong: bool)
    | Receive(index: nat, data: seq<byte>)
    | RequestDone(index: nat, result: HttpResult)
    | Classify
    | Collect
    | DecodeWrite(screen: seq<byte>)                    // the decoder works outside the mutex
    | DecodeEnd(ok: bool)
    | Publish
    | SetFailed
    | Deadline                                          // with a connection to abort
    | DnsDeadline                                       // during name lookup

  /** The number of the fetch accepted last. */
  function Latest(h: History): nat {
    if h.jobs == [] then 0 else |h.jobs| - 1
  }

  function Arrived(h: History, number: nat): seq<byte> {
    if number in h.arrived then h.arrived[number] else []
  }

  function Requested(p: Pico): Ticket {
    Ticket(Latest(p.history), Job(p.page, p.subpage, p.source))
  }

  /** A fetch has been accepted and not yet been given an outcome. */
  predicate Pending(p: Pico) {
    p.state.Connecting? || p.state.Receiving?
  }

  predicate Busy(p: Pico) {
    p.requested || p.active || Pending(p)
  }

  /** The decoder accepts what it should, and then the screen is one the body stands for. */
  ghost predicate DecodesTo(body: seq<byte>, page: nat, screen: seq<byte>, ok: bool) {
    && (ok <==> PageDecoder.Acceptable(body, page))
    && (ok ==> PageDecoder.IsScreenOf(body, screen))
  }

  ghost predicate Enabled(p: Pico, a: Action) {
    match a
    case FetchStart(_) => p.connected && !Busy(p)
    case WifiChange(_) => true
    case Grab => p.place.Polling?
    case Prepare(_) => p.place.Grabbed?
    case Clear => p.place.Prepared?
    case Activate => p.place.Cleared?
    case Launch(_) => p.place.Activated?
    case Deactivate => p.place.LaunchFailed?
    case Allocate => p.place.Polling? && p.live != []
    case HeadersDone(_) => p.place.Polling? && p.live != []
    case Receive(index, _) => p.place.Polling? && index < |p.live|
    case RequestDone(index, _) => p.place.Polling? && index < |p.live|
    case Classify => p.place.Answered?
    case Collect => p.place.Collecting?
    case DecodeWrite(screen) => p.place.Decoding? && |screen| == SCREEN_SIZE
    case DecodeEnd(ok) => p.place.Decoding? && DecodesTo(p.place.body, p.place.page, p.screen, ok)
    case Publish => p.place.Publishing?
    case SetFailed => p.place.Failing?
    case Deadline => p.place.Polling? && p.active && !p.forcedTimeout && p.connection
    case DnsDeadline => p.place.Polling? && p.active && !p.forcedTimeout && !p.connection
  }

  ghost function Step(p: Pico, a: Action): Pico {
    if !Enabled(p, a) then p
    else
      match a
      case FetchStart(job) => ToAccepted(p, job)
      case WifiChange(connected) => p.(connected := connected)
      case Grab =>
        if p.requested then p.(requested := false, place := Grabbed(Requested(p), p.connected)) else p
      case Prepare(failure) => ToPrepared(p, failure)
      case Clear => p.(body := [], overflow := false, place := Cleared(p.place.ticket))
      case Activate => p.(active := true, place := Activated(p.place.ticket))
      case Launch(failure) => ToLaunched(p, failure)
      case Deactivate => p.(active := false, place := Failing(p.place.ticket, p.place.error))
      case Allocate => p.(connection := true)
      case HeadersDone(tooLong) => p.(state := Receiving, overflow := p.overflow || tooLong)
      case Receive(index, data) => TakeIn(p, p.live[index].number, data)
      case RequestDone(index, result) =>
        p.(connection := false, active := false, live := p.live[..index] + p.live[index + 1..],
           place := Answered(p.live[index], result))
      case Classify => ToClassified(p)
      case Collect =>
        p.(place := if p.overflow then Failing(p.place.ticket, ERROR_TOO_LARGE)
                    else Decoding(p.place.ticket, p.page, p.body))
      case DecodeWrite(screen) => p.(screen := screen)
      case DecodeEnd(ok) => ToDecoded(p, ok)
      case Publish =>
        p.(error := 0, state := Complete, place := Polling, history := Ended(p.history, p.place.ticket.number))
      case SetFailed =>
        p.(error := p.place.error, state := Failed, place := Polling, history := Ended(p.history, p.place.ticket.number))
      case Deadline => p.(forcedTimeout := true, connection := false)
      case DnsDeadline => p.(forcedTimeout := true, place := Failing(Requested(p), ERROR_TIMEOUT))
  }

  function ToAccepted(p: Pico, job: Job): Pico {
    p.(page := job.page, subpage := job.subpage, source := job.source,
       body := [], overflow := false, error := 0, state := Connecting, requested := true,
       history := p.history.(jobs := p.history.jobs + [job]))
  }

  function ToPrepared(p: Pico, failure: Option<byte>): (q: Pico)
    requires p.place.Grabbed?
    ensures q.history == p.history && q.body == p.body
  {
    if !p.place.connected then p.(place := Failing(p.place.ticket, ERROR_NOT_CONNECTED))
    else if failure.Some? then p.(place := Failing(p.place.ticket, failure.value))
    else p.(place := Prepared(p.place.ticket), connection := false, forcedTimeout := false)
  }

  function ToLaunched(p: Pico, failure: Option<byte>): (q: Pico)
    requires p.place.Activated?
    ensures q.history == p.history && q.body == p.body
  {
    if failure.Some? then p.(connection := false, place := LaunchFailed(p.place.ticket, failure.value))
    else p.(live := p.live + [p.place.ticket], place := Polling)
  }

  function ToClassified(p: Pico): (q: Pico)
    requires p.place.Answered?
    ensures q.history == p.history && q.body == p.body
  {
    if p.forcedTimeout then p.(forcedTimeout := false, place := Failing(p.place.ticket, ERROR_TIMEOUT))
    else p.(place := match p.place.result
                     case LinkError(error) => Failing(p.place.ticket, error)
                     case Status(code) =>
                       if code == 404 then Failing(p.place.ticket, ERROR_PAGE_NOT_FOUND)
                       else if code != 200 then Failing(p.place.ticket, ERROR_HTTP_STATUS)
                       else Collecting(p.place.ticket))
  }

  function ToDecoded(p: Pico, ok: bool): Pico
    requires p.place.Decoding?
  {
    if !ok then p.(place := Failing(p.place.ticket, ERROR_INVALID_DATA))
    else p.(place := Publishing(p.place.ticket),
            history := p.history.(decoded := Some(Decoded(p.place.ticket.number, p.place.body, p.screen))))
  }

  /** Data for a fetch: appended to the body, or the body is marked as too long. */
  function TakeIn(p: Pico, number: nat, data: seq<byte>): Pico {
    var q := p.(state := Receiving,
                history := p.history.(arrived := p.history.arrived[number := Arrived(p.history, number) + data]));
    if |data| > HTTP_BODY_MAX - |p.body| then q.(overflow := true) else q.(body := p.body + data)
  }

  function Ended(h: History, number: nat): History {
    h.(ends := h.ends + multiset{number})
  }

  /** Core 1 serves six rows, or refuses. */
  function FetchRows(p: Pico, chunk: nat): Option<seq<byte>>
    requires |p.screen| == SCREEN_SIZE && chunk < CHUNK_COUNT
  {
    if p.state.Complete? then Some(p.screen[chunk * CHUNK_SIZE..(chunk + 1) * CHUNK_SIZE]) else None
  }

  ghost function Run(p: Pico, actions: seq<Action>): Pico
    decreases |actions|
  {
    if actions == [] then p else Run(Step(p, actions[0]), actions[1..])
  }

  function Blank(): (screen: seq<byte>)
    ensures |screen| == SCREEN_SIZE
  {
    seq(SCREEN_SIZE, _ => 0)
  }

  /** After reset, with the radio up. */
  function Initial(): Pico {
    Pico(Idle, 0, false, false, false, false, false, 0, 0, 0, false, [], Blank(), Polling, [],
         History([], map[], multiset{}, None))
  }

  // ---------------------------------------------------------------------------------------
  // What every step keeps, as long as no deadline strikes during name lookup

  predicate Starting(place: Place) {
    place.Grabbed? || place.Prepared? || place.Cleared? || place.Activated?
  }

  /** Core 0 is between the end of a request, or a failed start, and the published outcome. */
  predicate Concluding(place: Place) {
    place.LaunchFailed? || place.Answered? || place.Collecting? || place.Decoding? || place.Publishing? || place.Failing?
  }

  /**
   An accepted fetch is in exactly one place: queued, being started, with lwIP, or being concluded.
   Without one, nothing is going on.
   */
  ghost predicate Inv(p: Pico) {
    && |p.screen| == SCREEN_SIZE
    && PlaceInv(p)
    && HistoryInv(p)
    && BodyInv(p)
    && ScreenInv(p)
  }

  ghost predicate PlaceInv(p: Pico) {
    && (Pending(p) ==> p.history.jobs != [])
    && (!Pending(p) ==> !p.requested && !p.active && p.live == [] && p.place.Polling?)
    && (p.requested ==> p.place.Polling? && p.live == [] && !p.active)
    && (!p.place.Polling? ==> p.place.ticket == Requested(p) && !p.requested && p.live == [])
    && (Starting(p.place) ==> p.active == p.place.Activated?)
    && (Concluding(p.place) ==> p.active == p.place.LaunchFailed?)
    && (p.place.Polling? && Pending(p) && !p.requested ==> p.live == [Requested(p)] && p.active)
    && (p.place.Decoding? ==> p.place.page == p.page)
  }

  /** Every fetch but a pending one has been given one outcome, and the shared variables name the last job. */
  ghost predicate HistoryInv(p: Pico) {
    var h := p.history;
    && (h.jobs != [] ==> Requested(p).job == h.jobs[|h.jobs| - 1])
    && (forall k: nat :: h.ends[k] == if k < |h.jobs| && !(Pending(p) && k == Latest(h)) then 1 else 0)
    && (forall k :: k in h.arrived ==> k < |h.jobs|)
  }

  /** Unless there was too much of it, the body is what has arrived for the pending fetch. */
  ghost predicate BodyInv(p: Pico) {
    var arrived := Arrived(p.history, Latest(p.history));
    Pending(p) ==>
      && (p.requested || Starting(p.place) ==> arrived == [])
      && (p.place.Cleared? || p.place.Activated? ==> p.body == [] && !p.overflow)
      && (!p.overflow && (p.live != [] || p.place.Answered? || p.place.Collecting?) ==> p.body == arrived)
      && (p.place.Decoding? ==> p.place.body == arrived)
  }

  ghost predicate ScreenInv(p: Pico) {
    p.place.Publishing? || p.state.Complete? ==>
      && p.history.jobs != []
      && p.history.decoded == Some(Decoded(Latest(p.history), Arrived(p.history, Latest(p.history)), p.screen))
      && PageDecoder.IsScreenOf(Arrived(p.history, Latest(p.history)), p.screen)
  }

  ghost predicate Timely(p: Pico, a: Action) {
    !(a.DnsDeadline? && Enabled(p, a))
  }

  /** A step that touches neither the past nor the shared outcome. */
  lemma PastStays(p: Pico, q: Pico)
    requires Inv(p) && q.history == p.history && q.screen == p.screen && Requested(q) == Requested(p)
    requires Pending(q) == Pending(p) && (q.state.Complete? ==> p.state.Complete?)
    requires q.place.Publishing? ==> p.place.Publishing?
    ensures |q.screen| == SCREEN_SIZE && HistoryInv(q) && ScreenInv(q)
  {
  }

  lemma AcceptKeepsInv(p: Pico, job: Job)
    requires Inv(p) && !Busy(p)
    ensures Inv(ToAccepted(p, job))
  {
    hide PageDecoder.IsScreenOf;
  }

  lemma WifiKeepsInv(p: Pico, a: Action)
    requires Inv(p) && Enabled(p, a) && (a.WifiChange? || a.Allocate? || a.Deadline?)
    ensures Inv(Step(p, a))
  {
    hide HistoryInv, ScreenInv, DecodesTo;
    PastStays(p, Step(p, a));
  }

  lemma GrabKeepsInv(p: Pico, a: Action)
    requires Inv(p) && Enabled(p, a) && a.Grab?
    ensures Inv(Step(p, a))
  {
    hide HistoryInv, ScreenInv, DecodesTo;
    PastStays(p, Step(p, a));
  }

  /** Giving up at a place where nothing is live. */
  lemma FailKeepsInv(p: Pico, error: byte)
    requires Inv(p) && !p.place.Polling? && !p.place.Activated? && !p.place.LaunchFailed?
    ensures Inv(p.(place := Failing(p.place.ticket, error)))
  {
    hide HistoryInv, ScreenInv;
    PastStays(p, p.(place := Failing(p.place.ticket, error)));
  }

  lemma PrepareKeepsInv(p: Pico, failure: Option<byte>)
    requires Inv(p) && p.place.Grabbed?
    ensures Inv(ToPrepared(p, failure))
  {
    hide HistoryInv, ScreenInv;
    if !p.place.connected {
      FailKeepsInv(p, ERROR_NOT_CONNECTED);
    } else if failure.Some? {
      FailKeepsInv(p, failure.value);
    } else {
      PastStays(p, p.(place := Prepared(p.place.ticket), connection := false, forcedTimeout := false));
    }
  }

  lemma ClearKeepsInv(p: Pico, a: Action)
    requires Inv(p) && Enabled(p, a) && (a.Clear? || a.Activate?)
    ensures Inv(Step(p, a))
  {
    hide HistoryInv, ScreenInv, DecodesTo;
    PastStays(p, Step(p, a));
  }

  lemma LaunchKeepsInv(p: Pico, failure: Option<byte>)
    requires Inv(p) && p.place.Activated?
    ensures Inv(ToLaunched(p, failure))
  {
    hide HistoryInv, ScreenInv;
    PastStays(p, ToLaunched(p, failure));
  }

  lemma DeactivateKeepsInv(p: Pico)
    requires Inv(p) && Enabled(p, Deactivate)
    ensures Inv(Step(p, Deactivate))
  {
    hide HistoryInv, ScreenInv, DecodesTo;
    PastStays(p, Step(p, Deactivate));
  }

  lemma HeadersKeepInv(p: Pico, a: Action)
    requires Inv(p) && Enabled(p, a) && a.HeadersDone?
    ensures Inv(Step(p, a))
  {
    hide HistoryInv, ScreenInv, DecodesTo;
    PastStays(p, Step(p, a));
  }

  lemma DataKeepsInv(p: Pico, data: seq<byte>)
    requires Inv(p) && p.place.Polling? && p.live != []
    ensures p.live == [Requested(p)] && Inv(TakeIn(p, p.live[0].number, data))
  {
    hide PageDecoder.IsScreenOf, HistoryInv, BodyInv, TakeIn;
    assert p.live == [Requested(p)];
    DataKeepsHistory(p, data);
    DataKeepsBody(p, data);
  }

  lemma DataKeepsHistory(p: Pico, data: seq<byte>)
    requires Inv(p) && p.place.Polling? && p.live == [Requested(p)]
    ensures var q := TakeIn(p, Latest(p.history), data);
            q.screen == p.screen && PlaceInv(q) && HistoryInv(q) && ScreenInv(q)
  {
    hide PageDecoder.IsScreenOf, BodyInv;
  }

  lemma DataKeepsBody(p: Pico, data: seq<byte>)
    requires PlaceInv(p) && BodyInv(p) && p.place.Polling? && p.live == [Requested(p)]
    ensures BodyInv(TakeIn(p, Latest(p.history), data))
  {
  }

  lemma AnswerKeepsInv(p: Pico, a: Action)
    requires Inv(p) && Enabled(p, a) && a.RequestDone?
    ensures Inv(Step(p, a))
  {
    hide HistoryInv, ScreenInv, DecodesTo;
    PastStays(p, Step(p, a));
    assert p.live == [Requested(p)];
  }

  lemma ClassifyKeepsInv(p: Pico)
    requires Inv(p) && p.place.Answered?
    ensures Inv(ToClassified(p))
  {
    hide HistoryInv, ScreenInv;
    PastStays(p, ToClassified(p));
  }

  lemma CollectKeepsInv(p: Pico)
    requires Inv(p) && Enabled(p, Collect)
    ensures Inv(Step(p, Collect))
  {
    hide HistoryInv, ScreenInv, DecodesTo;
    PastStays(p, Step(p, Collect));
  }

  lemma WriteKeepsInv(p: Pico, a: Action)
    requires Inv(p) && Enabled(p, a) && a.DecodeWrite?
    ensures Inv(Step(p, a))
  {
    hide PageDecoder.IsScreenOf, PageDecoder.Acceptable, DecodesTo;
    assert Pending(p) && p.place.Decoding?;
  }

  lemma DecodeKeepsInv(p: Pico, ok: bool)
    requires Inv(p) && p.place.Decoding? && DecodesTo(p.place.body, p.place.page, p.screen, ok)
    ensures Inv(ToDecoded(p, ok))
  {
    hide PageDecoder.IsScreenOf, PageDecoder.Acceptable;
    var number, body := Latest(p.history), Arrived(p.history, Latest(p.history));
    assert Pending(p) && p.place.ticket.number == number && p.place.body == body;
    assert !p.state.Complete?;
  }

  lemma PublishKeepsInv(p: Pico, a: Action)
    requires Inv(p) && Enabled(p, a) && (a.Publish? || a.SetFailed?)
    ensures Inv(Step(p, a))
  {
    hide PageDecoder.IsScreenOf, PageDecoder.Acceptable;
    assert p.place.ticket.number == Latest(p.history) && Pending(p);
  }

  lemma StepKeepsInv(p: Pico, a: Action)
    requires Inv(p) && Timely(p, a)
    ensures Inv(Step(p, a))
  {
    hide Inv;
    if Enabled(p, a) {
      if a.FetchStart? {
        AcceptKeepsInv(p, a.job);
      } else if a.WifiChange? || a.Allocate? || a.Deadline? {
        WifiKeepsInv(p, a);
      } else if a.Grab? {
        GrabKeepsInv(p, a);
      } else if a.Prepare? {
        PrepareKeepsInv(p, a.failure);
      } else if a.Clear? || a.Activate? {
        ClearKeepsInv(p, a);
      } else if a.Launch? {
        LaunchKeepsInv(p, a.failure);
      } else if a.Deactivate? {
        DeactivateKeepsInv(p);
      } else if a.HeadersDone? {
        HeadersKeepInv(p, a);
      } else if a.Receive? {
        DataKeepsInv(p, a.data);
      } else if a.RequestDone? {
        AnswerKeepsInv(p, a);
      } else if a.Classify? {
        ClassifyKeepsInv(p);
      } else if a.Collect? {
        CollectKeepsInv(p);
      } else if a.DecodeWrite? {
        WriteKeepsInv(p, a);
      } else if a.DecodeEnd? {
        DecodeKeepsInv(p, a.ok);
      } else {
        PublishKeepsInv(p, a);
      }
    }
  }

  /** No deadline strikes during name lookup anywhere in the run. */
  ghost predicate Calm(p: Pico, actions: seq<Action>)
    decreases |actions|
  {
    actions != [] ==> Timely(p, actions[0]) && Calm(Step(p, actions[0]), actions[1..])
  }

  lemma {:induction false} RunKeepsInv(p: Pico, actions: seq<Action>)
    requires Inv(p) && Calm(p, actions)
    ensures Inv(Run(p, actions))
    decreases |actions|
  {
    hide Inv, Step, Timely;
    if actions != [] {
      StepKeepsInv(p, actions[0]);
      RunKeepsInv(Step(p, actions[0]), actions[1..]);
    }
  }

  lemma InitialInv()
    ensures Inv(Initial())
  {
  }

  /** In every interleaving at most one HTTP request is live, and it is for the fetch accepted last. */
  lemma OneRequestAtATime(actions: seq<Action>)
    requires Calm(Initial(), actions)
    ensures var p := Run(Initial(), actions);
            |p.live| <= 1 && (p.live != [] ==> p.live == [Requested(p)] && Pending(p))
  {
    InitialInv();
    RunKeepsInv(Initial(), actions);
  }

  /** Every accepted fetch is given exactly one outcome, unless it is the last one and still pending. */
  lemma EveryFetchEndsOnce(actions: seq<Action>, k: nat)
    requires Calm(Initial(), actions)
    ensures var p := Run(Initial(), actions);
            p.history.ends[k] == if k < |p.history.jobs| && !(Pending(p) && k == Latest(p.history)) then 1 else 0
  {
    InitialInv();
    RunKeepsInv(Initial(), actions);
  }

  // ---------------------------------------------------------------------------------------
  // From acceptance to outcome

  lemma {:induction false} RunKeepsJobs(p: Pico, actions: seq<Action>)
    ensures p.history.jobs <= Run(p, actions).history.jobs
    decreases |actions|
  {
    hide Step;
    if actions != [] {
      StepKeepsJobs(p, actions[0]);
      RunKeepsJobs(Step(p, actions[0]), actions[1..]);
    }
  }

  /** Before lwIP has answered. */
  predicate IsEarly(a: Action) {
    a.WifiChange? || a.Grab? || a.Prepare? || a.Clear? || a.Activate? || a.Launch? || a.Deactivate? || a.Allocate?
  }

  lemma StepKeepsJobs(p: Pico, a: Action)
    ensures p.history.jobs <= Step(p, a).history.jobs
  {
    hide Enabled;
    if Enabled(p, a) {
      if a.FetchStart? {
        Accepts(p, a.job);
      } else if IsEarly(a) {
        EarlyKeepsJobs(p, a);
      } else {
        LateKeepsJobs(p, a);
      }
    }
  }

  lemma EarlyKeepsJobs(p: Pico, a: Action)
    requires Enabled(p, a) && IsEarly(a)
    ensures Step(p, a).history.jobs == p.history.jobs
  {
    hide ToPrepared, ToLaunched;
    match a {
      case WifiChange(_) =>
      case Grab =>
      case Prepare(_) =>
      case Clear =>
      case Activate =>
      case Launch(_) =>
      case Deactivate =>
      case Allocate =>
    }
  }

  lemma LateKeepsJobs(p: Pico, a: Action)
    requires Enabled(p, a) && !IsEarly(a) && !a.FetchStart?
    ensures Step(p, a).history.jobs == p.history.jobs
  {
    hide ToClassified, DecodesTo;
    match a {
      case HeadersDone(_) =>
      case Receive(_, _) =>
      case RequestDone(_, _) =>
      case Classify =>
      case Collect =>
      case DecodeWrite(_) =>
      case DecodeEnd(_) =>
      case Publish =>
      case SetFailed =>
      case Deadline =>
      case DnsDeadline =>
    }
  }

  lemma {:induction false} RunConcat(p: Pico, a: seq<Action>, b: seq<Action>)
    ensures Run(p, a + b) == Run(Run(p, a), b)
    decreases |a|
  {
    hide Step;
    if a == [] {
      All(b);
    } else {
      TailOfConcat(a, b);
      RunConcat(Step(p, a[0]), a[1..], b);
    }
  }

  /**
   A fetch that has been accepted and not yet been given an outcome keeps its page, subpage and source,
   whatever happens and whatever core 1 is asked meanwhile; a request that is live is for this fetch.
   */
  lemma ParametersFixed(before: seq<Action>, job: Job, after: seq<Action>)
    requires Calm(Initial(), before + [FetchStart(job)] + after)
    requires Enabled(Run(Initial(), before), FetchStart(job))
    ensures var number, p := |Run(Initial(), before).history.jobs|, Run(Initial(), before + [FetchStart(job)] + after);
            p.history.ends[number] == 0 ==>
              && Pending(p) && Requested(p) == Ticket(number, job)
              && (p.live != [] ==> p.live == [Ticket(number, job)])
              && (!p.place.Polling? ==> p.place.ticket == Ticket(number, job))
  {
    hide Step, Enabled, Timely;
    var p0, p1 := Run(Initial(), before), Run(Initial(), before + [FetchStart(job)]);
    InitialInv();
    RunKeepsInv(Initial(), before + [FetchStart(job)] + after);
    RunConcat(Initial(), before, [FetchStart(job)]);
    RunConcat(Initial(), before + [FetchStart(job)], after);
    RunOne(p0, FetchStart(job));
    Accepts(p0, job);
    RunKeepsJobs(p1, after);
  }

  lemma RunOne(p: Pico, a: Action)
    ensures Run(p, [a]) == Step(p, a)
  {
    assert [a][1..] == [];
  }

  lemma Accepts(p: Pico, job: Job)
    requires Enabled(p, FetchStart(job))
    ensures Step(p, FetchStart(job)) == ToAccepted(p, job)
  {
  }

  // ---------------------------------------------------------------------------------------
  // Serving rows

  function Chunk(screen: seq<byte>, chunk: nat): seq<byte>
    requires |screen| == SCREEN_SIZE && chunk < CHUNK_COUNT
  {
    screen[chunk * CHUNK_SIZE..(chunk + 1) * CHUNK_SIZE]
  }

  /** Once a fetch is complete, nothing is left for core 0 to do: only the radio can change. */
  lemma StepWhileComplete(p: Pico, a: Action)
    requires PlaceInv(p) && p.state.Complete? && Step(p, a).history.jobs == p.history.jobs
    ensures Step(p, a) == p.(connected := Step(p, a).connected)
  {
    if Enabled(p, a) {
      assert a.WifiChange? || a.Grab?;
    }
  }

  lemma {:induction false} RunWhileComplete(p: Pico, actions: seq<Action>)
    requires PlaceInv(p) && p.state.Complete? && Run(p, actions).history.jobs == p.history.jobs
    ensures Run(p, actions) == p.(connected := Run(p, actions).connected)
    ensures PlaceInv(Run(p, actions))
    decreases |actions|
  {
    hide Step;
    if actions != [] {
      var next := Step(p, actions[0]);
      StepKeepsJobs(p, actions[0]);
      RunKeepsJobs(next, actions[1..]);
      StepWhileComplete(p, actions[0]);
      RunWhileComplete(next, actions[1..]);
    }
  }

  /**
   Rows served at any two moments without a fetch accepted in between are cut from the same screen, and
   that screen is what the bytes stand for that arrived for the fetch accepted last.
   */
  lemma RowsComeFromOneScreen(before: seq<Action>, after: seq<Action>, first: nat, second: nat)
    requires Calm(Initial(), before) && first < CHUNK_COUNT && second < CHUNK_COUNT
    requires Run(Initial(), before + after).history.jobs == Run(Initial(), before).history.jobs
    ensures var p, q := Run(Initial(), before), Run(Initial(), before + after);
            && |p.screen| == SCREEN_SIZE
            && (FetchRows(p, first).Some? ==>
                  && |q.screen| == SCREEN_SIZE
                  && p.history.jobs != [] && p.history.ends[Latest(p.history)] == 1
                  && PageDecoder.IsScreenOf(Arrived(p.history, Latest(p.history)), p.screen)
                  && FetchRows(p, first) == Some(Chunk(p.screen, first))
                  && FetchRows(q, second) == Some(Chunk(p.screen, second)))
  {
    hide PageDecoder.IsScreenOf, Step, Calm;
    InitialInv();
    RunKeepsInv(Initial(), before);
    RunConcat(Initial(), before, after);
    var p := Run(Initial(), before);
    if p.state.Complete? {
      RunWhileComplete(p, after);
    }
  }

  /** Four chunks, asked for one after the other whatever happens meanwhile, put together that one screen. */
  lemma ChunksMakeTheScreen(before: seq<Action>, a: seq<Action>, b: seq<Action>, c: seq<Action>)
    requires Calm(Initial(), before)
    requires Run(Initial(), before + (a + (b + c))).history.jobs == Run(Initial(), before).history.jobs
    ensures var p := Run(Initial(), before);
            var q, r, s := Run(p, a), Run(Run(p, a), b), Run(Run(Run(p, a), b), c);
            && |p.screen| == SCREEN_SIZE
            && (FetchRows(p, 0).Some? ==>
                  && PageDecoder.IsScreenOf(Arrived(p.history, Latest(p.history)), p.screen)
                  && |q.screen| == |r.screen| == |s.screen| == SCREEN_SIZE
                  && FetchRows(q, 1).Some? && FetchRows(r, 2).Some? && FetchRows(s, 3).Some?
                  && FetchRows(p, 0).value + FetchRows(q, 1).value + FetchRows(r, 2).value + FetchRows(s, 3).value == p.screen)
  {
    hide PageDecoder.IsScreenOf, Step, Calm, Run;
    InitialInv();
    RunKeepsInv(Initial(), before);
    RunConcat(Initial(), before, a + (b + c));
    var p := Run(Initial(), before);
    if p.state.Complete? {
      SameThroughout(p, a, b, c);
      ChunksJoin(p.screen);
    }
  }

  lemma SameThroughout(p: Pico, a: seq<Action>, b: seq<Action>, c: seq<Action>)
    requires PlaceInv(p) && p.state.Complete? && Run(p, a + (b + c)).history.jobs == p.history.jobs
    ensures var q, r, s := Run(p, a), Run(Run(p, a), b), Run(Run(Run(p, a), b), c);
            && q.screen == r.screen == s.screen == p.screen
            && q.state.Complete? && r.state.Complete? && s.state.Complete?
  {
    hide Run, PlaceInv;
    NothingAccepted(p, a, b + c);
    RunWhileComplete(p, a);
    NothingAccepted(Run(p, a), b, c);
    RunWhileComplete(Run(p, a), b);
    RunWhileComplete(Run(Run(p, a), b), c);
  }

  lemma NothingAccepted(p: Pico, a: seq<Action>, b: seq<Action>)
    requires Run(p, a + b).history.jobs == p.history.jobs
    ensures Run(p, a).history.jobs == Run(Run(p, a), b).history.jobs == p.history.jobs
  {
    hide Run;
    RunConcat(p, a, b);
    RunKeepsJobs(p, a);
    RunKeepsJobs(Run(p, a), b);
    Sandwich(p.history.jobs, Run(p, a).history.jobs);
  }

  lemma Sandwich<T>(a: seq<T>, b: seq<T>)
    requires a <= b <= a
    ensures a == b
  {
  }

  lemma ChunksJoin(screen: seq<byte>)
    requires |screen| == SCREEN_SIZE
    ensures Chunk(screen, 0) + Chunk(screen, 1) + Chunk(screen, 2) + Chunk(screen, 3) == screen
  {
  }
}
