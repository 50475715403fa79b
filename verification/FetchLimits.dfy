/** Runs that show what the life cycle of a fetch comes to, and where its guarantees end. */
module FetchLimits {
  import opened Bytes
  import opened Sequences
  import opened FetchCycle
  import PageDecoder
  import Server

  // ---------------------------------------------------------------------------------------
  // Running a list of actions

  lemma RunCons(p: Pico, a: Action, rest: seq<Action>)
    ensures Run(p, [a] + rest) == Run(Step(p, a), rest)
  {
    assert ([a] + rest)[1..] == rest;
  }

  lemma RunSix(p: Pico, a: Action, b: Action, c: Action, d: Action, e: Action, f: Action)
    ensures Run(p, [a, b, c, d, e, f]) == Step(Step(Step(Step(Step(Step(p, a), b), c), d), e), f)
  {
    hide Step;
    RunCons(p, a, [b, c, d, e, f]);
    RunCons(Step(p, a), b, [c, d, e, f]);
    RunCons(Step(Step(p, a), b), c, [d, e, f]);
    RunCons(Step(Step(Step(p, a), b), c), d, [e, f]);
    RunCons(Step(Step(Step(Step(p, a), b), c), d), e, [f]);
    RunCons(Step(Step(Step(Step(Step(p, a), b), c), d), e), f, []);
  }

  predicate NoDeadline(actions: seq<Action>) {
    forall i :: 0 <= i < |actions| ==> !actions[i].DnsDeadline?
  }

  lemma {:induction false} CalmWithout(p: Pico, actions: seq<Action>)
    requires NoDeadline(actions)
    ensures Calm(p, actions)
    decreases |actions|
  {
    hide Step;
    if actions != [] {
      assert !actions[0].DnsDeadline?;
      CalmWithout(Step(p, actions[0]), actions[1..]);
    }
  }

  lemma NoneInSix(a: Action, b: Action, c: Action, d: Action, e: Action, f: Action)
    requires !a.DnsDeadline? && !b.DnsDeadline? && !c.DnsDeadline? && !d.DnsDeadline? && !e.DnsDeadline? && !f.DnsDeadline?
    ensures NoDeadline([a, b, c, d, e, f])
  {
  }

  lemma NoneInBoth(a: seq<Action>, b: seq<Action>)
    requires NoDeadline(a) && NoDeadline(b)
    ensures NoDeadline(a + b)
  {
  }

  // ---------------------------------------------------------------------------------------
  // Single steps on the way

  lemma Grabs(p: Pico)
    requires p.place.Polling? && p.requested
    ensures Step(p, Grab) == p.(requested := false, place := Grabbed(Requested(p), p.connected))
  {
  }

  lemma Prepares(p: Pico)
    requires p.place.Grabbed? && p.place.connected
    ensures Step(p, Prepare(None)) == p.(place := Prepared(p.place.ticket), connection := false, forcedTimeout := false)
  {
  }

  lemma Clears(p: Pico)
    requires p.place.Prepared?
    ensures Step(p, Clear) == p.(body := [], overflow := false, place := Cleared(p.place.ticket))
  {
  }

  lemma Activates(p: Pico)
    requires p.place.Cleared?
    ensures Step(p, Activate) == p.(active := true, place := Activated(p.place.ticket))
  {
  }

  lemma Launches(p: Pico)
    requires p.place.Activated?
    ensures Step(p, Launch(None)) == p.(live := p.live + [p.place.ticket], place := Polling)
  {
  }

  lemma Fails(p: Pico)
    requires p.place.Failing?
    ensures Step(p, SetFailed) ==
            p.(error := p.place.error, state := Failed, place := Polling, history := Ended(p.history, p.place.ticket.number))
  {
  }

  lemma Waits(p: Pico)
    requires p.place.Polling? && p.live != []
    ensures Step(p, RequestDone(0, Status(200))) ==
            p.(connection := false, active := false, live := p.live[1..], place := Answered(p.live[0], Status(200)))
  {
    assert p.live[..0] + p.live[1..] == p.live[1..];
  }

  lemma TakesIn(p: Pico, data: seq<byte>)
    requires p.place.Polling? && p.live != []
    ensures Step(p, Receive(0, data)) == TakeIn(p, p.live[0].number, data)
  {
  }

  lemma Succeeds(p: Pico)
    requires p.place.Answered? && p.place.result == Status(200) && !p.forcedTimeout
    ensures Step(p, Classify) == p.(place := Collecting(p.place.ticket))
  {
  }

  lemma Collects(p: Pico)
    requires p.place.Collecting? && !p.overflow
    ensures Step(p, Collect) == p.(place := Decoding(p.place.ticket, p.page, p.body))
  {
  }

  lemma Writes(p: Pico, screen: seq<byte>)
    requires p.place.Decoding? && |screen| == SCREEN_SIZE
    ensures Step(p, DecodeWrite(screen)) == p.(screen := screen)
  {
  }

  lemma Decodes(p: Pico)
    requires p.place.Decoding? && DecodesTo(p.place.body, p.place.page, p.screen, true)
    ensures Step(p, DecodeEnd(true)) == ToDecoded(p, true)
  {
    hide DecodesTo;
  }

  lemma Publishes(p: Pico)
    requires p.place.Publishing?
    ensures Step(p, Publish) ==
            p.(error := 0, state := Complete, place := Polling, history := Ended(p.history, p.place.ticket.number))
  {
  }

  // ---------------------------------------------------------------------------------------
  // From acceptance to the last row

  function StartUp(): seq<Action> {
    [Grab, Prepare(None), Clear, Activate, Launch(None)]
  }

  /** Starting a queued fetch while core 0 is polling. */
  lemma StartUpRuns(p: Pico)
    requires p.place.Polling? && p.requested && p.connected
    ensures Run(p, StartUp()) ==
            p.(requested := false, connection := false, forcedTimeout := false, body := [], overflow := false,
               active := true, live := p.live + [Requested(p)])
  {
    hide Step, Enabled;
    Grabs(p);
    RunCons(p, Grab, [Prepare(None), Clear, Activate, Launch(None)]);
    var p1 := Step(p, Grab);
    Prepares(p1);
    RunCons(p1, Prepare(None), [Clear, Activate, Launch(None)]);
    var p2 := Step(p1, Prepare(None));
    Clears(p2);
    RunCons(p2, Clear, [Activate, Launch(None)]);
    var p3 := Step(p2, Clear);
    Activates(p3);
    RunCons(p3, Activate, [Launch(None)]);
    Launches(Step(p3, Activate));
    RunCons(Step(p3, Activate), Launch(None), []);
  }

  function Beginning(job: Job): seq<Action> {
    [WifiChange(true), FetchStart(job)] + StartUp()
  }

  lemma NoneInStartUp()
    ensures NoDeadline(StartUp())
  {
  }

  lemma NoneInBeginning(job: Job)
    ensures NoDeadline(Beginning(job))
  {
    NoneInStartUp();
  }

  /** The first fetch after reset, up to the live request. */
  lemma Begins(job: Job)
    ensures Calm(Initial(), Beginning(job))
    ensures var p := Run(Initial(), Beginning(job));
            && p.place.Polling? && p.active && !p.connection && !p.forcedTimeout && !p.overflow && p.connected
            && p.live == [Ticket(0, job)] && p.body == [] && p.page == job.page && p.history.jobs == [job]
  {
    hide Step, Run, Calm, NoDeadline;
    NoneInBeginning(job);
    CalmWithout(Initial(), Beginning(job));
    RunCons(Initial(), WifiChange(true), [FetchStart(job)] + StartUp());
    assert [WifiChange(true)] + ([FetchStart(job)] + StartUp()) == Beginning(job);
    Reconnects(Initial());
    var p1 := Step(Initial(), WifiChange(true));
    RunCons(p1, FetchStart(job), StartUp());
    Accepts(p1, job);
    StartUpRuns(Step(p1, FetchStart(job)));
  }

  /** The response arrives, is decoded and published. */
  function Completion(body: seq<byte>, screen: seq<byte>): seq<Action> {
    [Receive(0, body), RequestDone(0, Status(200)), Classify, Collect, DecodeWrite(screen), DecodeEnd(true)] + [Publish]
  }

  lemma NoneInCompletion(body: seq<byte>, screen: seq<byte>)
    ensures NoDeadline(Completion(body, screen))
  {
    NoneInSix(Receive(0, body), RequestDone(0, Status(200)), Classify, Collect, DecodeWrite(screen), DecodeEnd(true));
  }

  lemma Completes(p: Pico, body: seq<byte>, screen: seq<byte>) returns (q: Pico)
    requires p.place.Polling? && p.live != [] && !p.forcedTimeout && !p.overflow && p.body == []
    requires |body| <= HTTP_BODY_MAX && |screen| == SCREEN_SIZE
    requires PageDecoder.Acceptable(body, p.page) && PageDecoder.IsScreenOf(body, screen)
    ensures q == Run(p, Completion(body, screen))
    ensures q.state.Complete? && q.place.Polling? && q.screen == screen && q.live == p.live[1..]
    ensures !q.forcedTimeout && !q.overflow && q.history.jobs == p.history.jobs
  {
    hide Step, Run, PageDecoder.IsScreenOf, PageDecoder.Acceptable;
    var actions := [Receive(0, body), RequestDone(0, Status(200)), Classify, Collect, DecodeWrite(screen), DecodeEnd(true)];
    RunConcat(p, actions, [Publish]);
    RunSix(p, Receive(0, body), RequestDone(0, Status(200)), Classify, Collect, DecodeWrite(screen), DecodeEnd(true));
    TakesIn(p, body);
    assert [] + body == body;
    var p1 := Step(p, Receive(0, body));
    Waits(p1);
    var p2 := Step(p1, RequestDone(0, Status(200)));
    Succeeds(p2);
    var p3 := Step(p2, Classify);
    Collects(p3);
    var p4 := Step(p3, Collect);
    Writes(p4, screen);
    var p5 := Step(p4, DecodeWrite(screen));
    Decodes(p5);
    var p6 := Step(p5, DecodeEnd(true));
    RunOne(p6, Publish);
    Publishes(p6);
    q := Step(p6, Publish);
  }

  /** Whatever the decoder accepts can be fetched from reset on, and its screen served in four chunks. */
  lemma AcceptedBodyIsServed(job: Job, body: seq<byte>, screen: seq<byte>)
    requires |body| <= HTTP_BODY_MAX && |screen| == SCREEN_SIZE
    requires PageDecoder.Acceptable(body, job.page) && PageDecoder.IsScreenOf(body, screen)
    ensures Calm(Initial(), Beginning(job) + Completion(body, screen))
    ensures var p := Run(Initial(), Beginning(job) + Completion(body, screen));
            && p.history.jobs == [job] && p.state.Complete?
            && |p.screen| == SCREEN_SIZE && forall k :: 0 <= k < CHUNK_COUNT ==> FetchRows(p, k) == Some(Chunk(screen, k))
  {
    hide Step, Run, Calm, NoDeadline, PageDecoder.IsScreenOf, PageDecoder.Acceptable;
    NoneInBeginning(job);
    NoneInCompletion(body, screen);
    NoneInBoth(Beginning(job), Completion(body, screen));
    CalmWithout(Initial(), Beginning(job) + Completion(body, screen));
    RunConcat(Initial(), Beginning(job), Completion(body, screen));
    Begins(job);
    var q := Completes(Run(Initial(), Beginning(job)), body, screen);
  }

  /** So it goes for every page of every catalogue of the example server. */
  lemma ServerPageIsServed(catalog: Server.Catalog, page: nat, subpage: byte, source: byte)
    requires Server.ValidCatalog(catalog) && (page, subpage as nat) in catalog
    ensures var body := Server.ResponseText(Server.PageResponse(catalog, page, subpage).value);
            var p := Run(Initial(), Beginning(Job(page, subpage, source)) + Completion(body, catalog[(page, subpage as nat)]));
            && |p.screen| == SCREEN_SIZE
            && forall k :: 0 <= k < CHUNK_COUNT ==> FetchRows(p, k) == Some(Chunk(catalog[(page, subpage as nat)], k))
  {
    hide Run, Server.ResponseText, Server.PageResponse, PageDecoder.Acceptable, PageDecoder.IsScreenOf;
    var screen, body := catalog[(page, subpage as nat)], Server.ResponseText(Server.PageResponse(catalog, page, subpage).value);
    Server.ResponseFits(catalog, page, subpage);
    PageDecoder.ServerIsAccepted(catalog, page, subpage, screen);
    AcceptedBodyIsServed(Job(page, subpage, source), body, screen);
  }

  // ---------------------------------------------------------------------------------------
  // A deadline during name lookup

  const FIRST := Job(100, 0, 0)
  const SECOND := Job(200, 0, 0)
  const THIRD := Job(300, 0, 0)

  /**
   The deadline publishes a failure while the request lives on. When it ends, a second fetch can be
   accepted before that end is published, which makes the second fetch look finished although core 0
   has yet to start it; so a third is accepted meanwhile, and both are started.
   */
  function Overlap(): seq<Action> {
    [SetFailed, WifiChange(true), RequestDone(0, LinkError(9)), FetchStart(SECOND), Classify, SetFailed] +
    [Grab, FetchStart(THIRD), Prepare(None), Clear, Activate, Launch(None)] +
    StartUp()
  }

  /** A deadline during name lookup: the failure is published while the request is live. */
  lemma TimedOut(p: Pico) returns (q: Pico)
    requires Inv(p) && Enabled(p, DnsDeadline)
    ensures q == Step(Step(Step(Step(p, DnsDeadline), SetFailed), WifiChange(true)), RequestDone(0, LinkError(9)))
    ensures q.place.Answered? && q.place.ticket == Requested(p) && q.forcedTimeout && q.live == [] && q.state.Failed?
    ensures !q.active && q.connected && !q.requested
    ensures q.history == Ended(p.history, Latest(p.history)) && p.history.jobs != []
  {
    hide Step;
    var p1 := Expires(p);
    Fails(p1);
    Reconnects(Step(p1, SetFailed));
    q := Disconnects(Step(Step(p1, SetFailed), WifiChange(true)));
  }

  lemma Expires(p: Pico) returns (q: Pico)
    requires Inv(p) && Enabled(p, DnsDeadline)
    ensures q == Step(p, DnsDeadline)
    ensures q.place.Failing? && q.place.ticket == Requested(p) && q.forcedTimeout && q.live == [Requested(p)] && !q.requested
    ensures q.history == p.history && p.history.jobs != []
  {
    q := Step(p, DnsDeadline);
  }

  lemma Reconnects(p: Pico)
    ensures Step(p, WifiChange(true)) == p.(connected := true)
  {
  }

  lemma Disconnects(p: Pico) returns (q: Pico)
    requires p.place.Polling? && |p.live| == 1
    ensures q == Step(p, RequestDone(0, LinkError(9)))
    ensures q == p.(connection := false, active := false, live := [], place := Answered(p.live[0], LinkError(9)))
  {
    q := Step(p, RequestDone(0, LinkError(9)));
  }

  lemma SecondLooksFinished(p: Pico) returns (q: Pico)
    requires p.place.Answered? && p.forcedTimeout && p.live == [] && p.state.Failed?
    requires !p.active && p.connected && !p.requested
    ensures q == Step(Step(Step(p, FetchStart(SECOND)), Classify), SetFailed)
    ensures q.place.Polling? && q.requested && q.connected && !q.active && q.live == [] && q.state.Failed?
  {
    hide Step;
    Accepts(p, SECOND);
    var p1 := Step(p, FetchStart(SECOND));
    Expired(p1);
    Fails(Step(p1, Classify));
    q := Step(Step(p1, Classify), SetFailed);
  }

  lemma Expired(p: Pico)
    requires p.place.Answered? && p.forcedTimeout
    ensures Step(p, Classify) == p.(forcedTimeout := false, place := Failing(p.place.ticket, ERROR_TIMEOUT))
  {
  }

  lemma Overlapped(p: Pico) returns (q: Pico)
    requires p.place.Polling? && p.requested && p.connected && !p.active && p.live == [] && p.state.Failed?
    ensures q == Run(p, [Grab, FetchStart(THIRD), Prepare(None), Clear, Activate, Launch(None)])
    ensures q.place.Polling? && q.requested && q.connected && |q.live| == 1 && q.page == THIRD.page
  {
    hide Step;
    RunSix(p, Grab, FetchStart(THIRD), Prepare(None), Clear, Activate, Launch(None));
    Grabs(p);
    var p1 := Step(p, Grab);
    Accepts(p1, THIRD);
    var p2 := Step(p1, FetchStart(THIRD));
    Prepares(p2);
    Clears(Step(p2, Prepare(None)));
    var p3 := Step(Step(p2, Prepare(None)), Clear);
    Activates(p3);
    Launches(Step(p3, Activate));
    q := Step(Step(p3, Activate), Launch(None));
  }

  /** Wherever a deadline strikes during name lookup, two HTTP requests can be live at once afterwards. */
  lemma DnsDeadlineBreaksIt(p: Pico)
    requires Inv(p) && Enabled(p, DnsDeadline)
    ensures |Run(Step(p, DnsDeadline), Overlap()).live| == 2
  {
    hide Run, Step, Enabled, Inv, Overlap;
    var q := TwoLive(p);
  }

  lemma TwoLive(p: Pico) returns (q: Pico)
    requires Inv(p) && Enabled(p, DnsDeadline)
    ensures q == Run(Step(p, DnsDeadline), Overlap())
    ensures |q.live| == 2 && q.place.Polling? && !q.forcedTimeout && !q.overflow && q.body == [] && q.page == THIRD.page
  {
    hide Run, StartUp, Step, Enabled, Inv;
    var timeout := [SetFailed, WifiChange(true), RequestDone(0, LinkError(9)), FetchStart(SECOND), Classify, SetFailed];
    var start := [Grab, FetchStart(THIRD), Prepare(None), Clear, Activate, Launch(None)];
    var p0 := Step(p, DnsDeadline);
    var p1 := TimedOut(p);
    var p2 := SecondLooksFinished(p1);
    RunSix(p0, SetFailed, WifiChange(true), RequestDone(0, LinkError(9)), FetchStart(SECOND), Classify, SetFailed);
    var p3 := Overlapped(p2);
    RunConcat(p0, timeout + start, StartUp());
    RunConcat(p0, timeout, start);
    StartUpRuns(p3);
    q := Run(p3, StartUp());
  }

  /** Such a deadline can come about: the first fetch after reset is enough. */
  lemma LookupIsReached()
    ensures Calm(Initial(), Beginning(FIRST)) && Enabled(Run(Initial(), Beginning(FIRST)), DnsDeadline)
  {
    hide Run, Step, Beginning;
    Begins(FIRST);
  }

  /** From reset to two live requests. */
  lemma TwoRequestsFromReset()
    ensures |Run(Initial(), Beginning(FIRST) + ([DnsDeadline] + Overlap())).live| == 2
  {
    hide Run, Step, Beginning, Overlap, Inv, Enabled;
    LookupIsReached();
    InitialInv();
    RunKeepsInv(Initial(), Beginning(FIRST));
    var p := Run(Initial(), Beginning(FIRST));
    DnsDeadlineBreaksIt(p);
    RunConcat(Initial(), Beginning(FIRST), [DnsDeadline] + Overlap());
    RunCons(p, DnsDeadline, Overlap());
  }

  lemma NoneInOverlap()
    ensures NoDeadline(Overlap())
  {
    hide NoDeadline;
    var timeout := [SetFailed, WifiChange(true), RequestDone(0, LinkError(9)), FetchStart(SECOND), Classify, SetFailed];
    var start := [Grab, FetchStart(THIRD), Prepare(None), Clear, Activate, Launch(None)];
    NoneInSix(SetFailed, WifiChange(true), RequestDone(0, LinkError(9)), FetchStart(SECOND), Classify, SetFailed);
    NoneInSix(Grab, FetchStart(THIRD), Prepare(None), Clear, Activate, Launch(None));
    NoneInStartUp();
    NoneInBoth(timeout, start);
    NoneInBoth(timeout + start, StartUp());
  }

  // ---------------------------------------------------------------------------------------
  // Exactly what such a deadline breaks

  /** At most one request is live in every continuation without such a deadline. */
  ghost predicate SafeAhead(p: Pico) {
    forall actions :: Calm(p, actions) ==> |Run(p, actions).live| <= 1
  }

  /** No fetch is given two outcomes in any of them. */
  ghost predicate OnceAhead(p: Pico) {
    forall actions, k: nat :: Calm(p, actions) ==> Run(p, actions).history.ends[k] <= 1
  }

  /** What core 0 works on is the fetch accepted last. */
  ghost predicate OwnAhead(p: Pico) {
    forall actions :: Calm(p, actions) ==> OwnTicket(Run(p, actions))
  }

  predicate OwnTicket(p: Pico) {
    p.place.Polling? || p.place.ticket == Requested(p)
  }

  /** Between two fetches the screen stays as it was published. */
  ghost predicate SteadyAhead(p: Pico) {
    forall actions, more :: Calm(p, actions) && Calm(Run(p, actions), more) ==> Steady(Run(p, actions), more)
  }

  ghost predicate Steady(p: Pico, more: seq<Action>) {
    p.state.Complete? && Run(p, more).history.jobs == p.history.jobs ==> Run(p, more).screen == p.screen
  }

  lemma InvIsSafe(p: Pico)
    requires Inv(p)
    ensures SafeAhead(p) && OnceAhead(p) && OwnAhead(p)
  {
    hide Run, Inv, Calm;
    forall actions | Calm(p, actions)
      ensures |Run(p, actions).live| <= 1 && OwnTicket(Run(p, actions))
      ensures forall k: nat :: Run(p, actions).history.ends[k] <= 1
    {
      RunKeepsInv(p, actions);
      InvNow(Run(p, actions));
    }
  }

  lemma InvNow(p: Pico)
    requires Inv(p)
    ensures |p.live| <= 1 && OwnTicket(p) && PlaceInv(p) && forall k: nat :: p.history.ends[k] <= 1
  {
  }

  lemma InvIsSteady(p: Pico)
    requires Inv(p)
    ensures SteadyAhead(p)
  {
    hide Run, Inv, Calm, PlaceInv;
    forall actions, more | Calm(p, actions) && Calm(Run(p, actions), more)
      ensures Steady(Run(p, actions), more)
    {
      RunKeepsInv(p, actions);
      InvNow(Run(p, actions));
      if Run(p, actions).state.Complete? && Run(Run(p, actions), more).history.jobs == Run(p, actions).history.jobs {
        RunWhileComplete(Run(p, actions), more);
      }
    }
  }

  /** The request that was given up ends a second time. */
  lemma EndsTwice(p: Pico)
    requires Inv(p) && Enabled(p, DnsDeadline)
    ensures !OnceAhead(Step(p, DnsDeadline))
  {
    hide Step, Run, Inv, Enabled, NoDeadline;
    var p0 := Step(p, DnsDeadline);
    var q := TimedOut(p);
    Expired(q);
    Fails(Step(q, Classify));
    var actions := [SetFailed, WifiChange(true), RequestDone(0, LinkError(9)), Classify, SetFailed, Allocate];
    RunSix(p0, SetFailed, WifiChange(true), RequestDone(0, LinkError(9)), Classify, SetFailed, Allocate);
    NothingToAllocate(Step(Step(q, Classify), SetFailed));
    NoneInSix(SetFailed, WifiChange(true), RequestDone(0, LinkError(9)), Classify, SetFailed, Allocate);
    CalmWithout(p0, actions);
    assert Run(p0, actions).history.ends[Latest(p.history)] >= 2;
  }

  lemma NothingToAllocate(p: Pico)
    requires p.live == []
    ensures Step(p, Allocate) == p
  {
  }

  /** A fetch accepted before the given-up request has been concluded is taken for that one. */
  lemma MistakenForAnother(p: Pico)
    requires Inv(p) && Enabled(p, DnsDeadline)
    ensures !OwnAhead(Step(p, DnsDeadline))
  {
    hide Step, Run, Inv, Enabled, NoDeadline;
    var p0 := Step(p, DnsDeadline);
    var q := TimedOut(p);
    AcceptsWhenIdle(q);
    var r := Step(q, FetchStart(SECOND));
    var actions := [SetFailed, WifiChange(true), RequestDone(0, LinkError(9)), FetchStart(SECOND), Allocate, Allocate];
    RunSix(p0, SetFailed, WifiChange(true), RequestDone(0, LinkError(9)), FetchStart(SECOND), Allocate, Allocate);
    NothingToAllocate(r);
    NoneInSix(SetFailed, WifiChange(true), RequestDone(0, LinkError(9)), FetchStart(SECOND), Allocate, Allocate);
    CalmWithout(p0, actions);
    assert !OwnTicket(Run(p0, actions));
  }

  lemma AcceptsWhenIdle(p: Pico)
    requires p.connected && !Busy(p)
    ensures Step(p, FetchStart(SECOND)) == ToAccepted(p, SECOND)
  {
    Accepts(p, SECOND);
  }

  function OnePage(): Server.Catalog {
    map[(THIRD.page, 0) := Blank()]
  }

  /** With two requests live, the second one writes the screen while the rows of the first one are served. */
  lemma ScreenIsTorn(p: Pico)
    requires Inv(p) && Enabled(p, DnsDeadline)
    ensures !SteadyAhead(Step(p, DnsDeadline))
  {
    hide Step, Run, Inv, Enabled, NoDeadline, Server.ResponseText, Server.PageResponse, PageDecoder.Acceptable, PageDecoder.IsScreenOf;
    var p0, body := Step(p, DnsDeadline), Server.ResponseText(Server.PageResponse(OnePage(), THIRD.page, 0).value);
    Server.ResponseFits(OnePage(), THIRD.page, 0);
    PageDecoder.ServerIsAccepted(OnePage(), THIRD.page, 0, Blank());
    var q := TwoLive(p);
    var r := Completes(q, body, Blank());
    var actions := Overlap() + Completion(body, Blank());
    RunConcat(p0, Overlap(), Completion(body, Blank()));
    NoneInOverlap();
    NoneInCompletion(body, Blank());
    NoneInBoth(Overlap(), Completion(body, Blank()));
    CalmWithout(p0, actions);
    var other := seq(SCREEN_SIZE, _ => 1);
    var more := Rewrite(r, other);
    CalmWithout(r, more);
    assert Run(p0, actions) == r;
    assert Blank()[0] != other[0];
    assert !Steady(r, more);
  }

  /** A request that ends while a page is being served. */
  lemma Rewrite(p: Pico, screen: seq<byte>) returns (more: seq<Action>)
    requires p.place.Polling? && p.live != [] && !p.forcedTimeout && !p.overflow && |screen| == SCREEN_SIZE
    ensures NoDeadline(more)
    ensures Run(p, more).screen == screen && Run(p, more).history.jobs == p.history.jobs
  {
    hide Step, Run;
    more := [WifiChange(true), WifiChange(true), RequestDone(0, Status(200)), Classify, Collect, DecodeWrite(screen)];
    RunSix(p, WifiChange(true), WifiChange(true), RequestDone(0, Status(200)), Classify, Collect, DecodeWrite(screen));
    NoneInSix(WifiChange(true), WifiChange(true), RequestDone(0, Status(200)), Classify, Collect, DecodeWrite(screen));
    Reconnects(p);
    Reconnects(Step(p, WifiChange(true)));
    var p1 := Step(Step(p, WifiChange(true)), WifiChange(true));
    Waits(p1);
    Succeeds(Step(p1, RequestDone(0, Status(200))));
    var p2 := Step(Step(p1, RequestDone(0, Status(200))), Classify);
    Collects(p2);
    Writes(Step(p2, Collect), screen);
  }

  /**
   From any state reached without such a deadline, a step keeps these four guarantees, and the invariant,
   exactly when it is no such deadline itself.
   */
  lemma SafeExactly(before: seq<Action>, a: Action)
    requires Calm(Initial(), before)
    ensures var p, deadline := Run(Initial(), before), a.DnsDeadline? && Enabled(Run(Initial(), before), a);
            && (SafeAhead(Step(p, a)) <==> !deadline)
            && (OnceAhead(Step(p, a)) <==> !deadline)
            && (OwnAhead(Step(p, a)) <==> !deadline)
            && (SteadyAhead(Step(p, a)) <==> !deadline)
            && (Inv(Step(p, a)) <==> !deadline)
  {
    hide Step, Run, Enabled, Inv, SafeAhead, OnceAhead, OwnAhead, SteadyAhead;
    var p := Run(Initial(), before);
    InitialInv();
    RunKeepsInv(Initial(), before);
    if Timely(p, a) {
      StepKeepsInv(p, a);
      InvIsSafe(Step(p, a));
      InvIsSteady(Step(p, a));
    } else {
      TwoAtATime(p);
      EndsTwice(p);
      MistakenForAnother(p);
      ScreenIsTorn(p);
      InvIsLost(p);
    }
  }

  lemma TwoAtATime(p: Pico)
    requires Inv(p) && Enabled(p, DnsDeadline)
    ensures !SafeAhead(Step(p, DnsDeadline))
  {
    hide Step, Run, Enabled, Inv, NoDeadline;
    DnsDeadlineBreaksIt(p);
    NoneInOverlap();
    CalmWithout(Step(p, DnsDeadline), Overlap());
  }

  lemma InvIsLost(p: Pico)
    requires Inv(p) && Enabled(p, DnsDeadline)
    ensures !Inv(Step(p, DnsDeadline))
  {
    hide Step, Inv, Run, Enabled;
    if Inv(Step(p, DnsDeadline)) {
      InvIsSafe(Step(p, DnsDeadline));
      TwoAtATime(p);
    }
  }
}
