/** Runs that show where the guarantees of the protocol end. */
module ProtocolLimits {
  import opened Bytes
  import opened Framing
  import opened FirmwareCore
  import opened Protocol

  const CONFIG := Config(1, (1, 0, 0), MIN_VERSION, MAX_VERSION)

  /** The radio, once willing and once busy. */
  const WILLING := Platform({WIFI_SCAN_START}, Some(0x0f), Succeeded([]))
  const BUSY := Platform({WIFI_SCAN_START}, Some(0x0f), Failed(7))

  /** Nothing in flight, nothing outstanding, and an open session. */
  predicate Quiet(s: System) {
    && s.phase.Idle? && s.toDevice == [] && s.toHost == []
    && |s.history.results| > 0 && s.core.valid && s.core.version == s.version
  }

  /** One transaction in which the first attempt gets through and is answered. */
  function Round(platform: Platform): seq<Action> {
    [Action.Request(WIFI_SCAN_START, []), Send, Serve(platform), Receive]
  }

  function ScanRequest(s: System): Frame {
    Frame(s.version, 0, WIFI_SCAN_START, s.nextSequence, [])
  }

  /** What such a transaction leaves behind. */
  function AfterRound(s: System, platform: Platform): System
    requires Valid(ScanRequest(s), Handle(CONFIG, s.core, platform, ScanRequest(s)).response)
  {
    var handled := Handle(CONFIG, s.core, platform, ScanRequest(s));
    var packet := Packet(ScanRequest(s), |s.history.results|);
    var begun := s.(history := s.history.(requests := s.history.requests + [ScanRequest(s)]));
    var recorded := Record(begun, packet, handled);
    s.(core := handled.state, nextSequence := (s.nextSequence + 1) % 0x100,
       history := recorded.(results := s.history.results + [ResultOf(handled.response)]))
  }

  lemma RunFour(s: System, a: Action, b: Action, c: Action, d: Action)
    ensures Run(CONFIG, s, [a, b, c, d]) == Step(CONFIG, Step(CONFIG, Step(CONFIG, Step(CONFIG, s, a), b), c), d)
  {
    RunCons(s, a, [b, c, d]);
    RunCons(Step(CONFIG, s, a), b, [c, d]);
    RunCons(Step(CONFIG, Step(CONFIG, s, a), b), c, [d]);
    RunCons(Step(CONFIG, Step(CONFIG, Step(CONFIG, s, a), b), c), d, []);
  }

  lemma RunCons(s: System, a: Action, rest: seq<Action>)
    ensures Run(CONFIG, s, [a] + rest) == Run(CONFIG, Step(CONFIG, s, a), rest)
  {
    assert ([a] + rest)[1..] == rest;
  }

  /** The request is served while nothing else is in flight. */
  lemma ServeAlone(s: System, packet: Packet, platform: Platform, handled: Handled)
    requires s.toDevice == [packet] && s.toHost == []
    requires handled == Handle(CONFIG, s.core, platform, packet.frame)
    ensures Step(CONFIG, s, Serve(platform)) ==
            s.(core := handled.state, toDevice := [], toHost := [Packet(handled.response, packet.txn)],
               history := Record(s, packet, handled))
  {
  }

  /** Its reply is accepted while nothing else is in flight. */
  lemma ReceiveAlone(s: System, packet: Packet)
    requires s.phase.Waiting? && s.phase.request.kind != HELLO && s.toHost == [packet]
    requires Valid(s.phase.request, packet.frame)
    ensures Step(CONFIG, s, Receive) == Finish(s.(toHost := []), ResultOf(packet.frame), s.version)
  {
  }

  lemma RoundRuns(s: System, platform: Platform)
    requires Quiet(s)
    requires Valid(ScanRequest(s), Handle(CONFIG, s.core, platform, ScanRequest(s)).response)
    ensures Run(CONFIG, s, Round(platform)) == AfterRound(s, platform)
  {
    hide Handle;
    var a := Action.Request(WIFI_SCAN_START, []);
    RunFour(s, a, Send, Serve(platform), Receive);
    var packet := Packet(ScanRequest(s), |s.history.results|);
    var s1 := Begin(s, ScanRequest(s));
    assert Step(CONFIG, s, a) == s1;
    var s2 := s1.(phase := Waiting(ScanRequest(s), 1), toDevice := [packet]);
    assert Step(CONFIG, s1, Send) == s2;
    var handled := Handle(CONFIG, s.core, platform, ScanRequest(s));
    ServeAlone(s2, packet, platform, handled);
    ReceiveAlone(Step(CONFIG, s2, Serve(platform)), Packet(handled.response, packet.txn));
  }

  // ---------------------------------------------------------------------------------------
  // 255 errors in a row

  /** A session in which transaction 1 succeeded and every later one failed. */
  ghost predicate OneSuccess(s: System) {
    && Quiet(s) && s.version == MAX_VERSION
    && s.nextSequence == |s.history.results| % 0x100
    && |s.history.results| >= 2 && |s.history.requests| == |s.history.results|
    && s.history.results[0].Ok? && s.history.results[1].Ok?
    && (forall k :: 2 <= k < |s.history.results| ==> s.history.results[k].RemoteError?)
    && s.history.answers.Keys == {0, 1} && (forall k :: k >= 2 ==> s.history.performed[k] == 0)
    && s.core.cached == Some(CacheEntry(Frame(MAX_VERSION, 0, WIFI_SCAN_START, 1, []),
                                        Frame(MAX_VERSION, FLAG_RESPONSE, WIFI_SCAN_START, 1, [])))
  }

  function Opening(): seq<Action> {
    [Action.Hello, Send, Serve(WILLING), Receive]
  }

  const HELLO_ANSWER := Frame(BOOTSTRAP_VERSION, FLAG_RESPONSE, HELLO, 0, MAGIC + [7, 0x0f, 240, 0])

  function HelloSent(): System {
    START.(phase := Waiting(HELLO_REQUEST, 1), toDevice := [Packet(HELLO_REQUEST, 0)],
           history := START.history.(requests := [HELLO_REQUEST]))
  }

  lemma HelloIsSent()
    ensures Step(CONFIG, Step(CONFIG, START, Action.Hello), Send) == HelloSent()
  {
    hide Handle;
  }

  lemma HelloIsHandled()
    ensures var handled := Handle(CONFIG, RESET_STATE, WILLING, HELLO_REQUEST);
            && handled.response == HELLO_ANSWER && !handled.performed
            && handled.state.valid && handled.state.version == MAX_VERSION
            && handled.state.cached == Some(CacheEntry(HELLO_REQUEST, HELLO_ANSWER))
  {
    assert HELLO_PAYLOAD[..4] == MAGIC;
  }

  lemma HelloAnswerIsValid()
    ensures Valid(HELLO_REQUEST, HELLO_ANSWER) && ValidHelloReply(HELLO_ANSWER)
  {
    assert HELLO_ANSWER.payload[..4] == MAGIC;
  }

  lemma HelloIsReceived(s: System, packet: Packet)
    requires s.phase.Waiting? && s.phase.request.kind == HELLO && s.toHost == [packet]
    requires Valid(s.phase.request, packet.frame) && ResultOf(packet.frame).Ok? && ValidHelloReply(packet.frame)
    ensures Step(CONFIG, s, Receive) == Finish(s.(toHost := []), ResultOf(packet.frame), packet.frame.payload[4])
  {
    hide Handle, Valid;
  }

  lemma SessionOpens() returns (s: System)
    ensures s == Run(CONFIG, START, Opening())
    ensures Quiet(s) && s.version == MAX_VERSION && s.nextSequence == 1
    ensures |s.history.results| == |s.history.requests| == 1 && s.history.results[0].Ok?
    ensures s.history.answers.Keys == {0} && s.history.performed == multiset{}
    ensures s.core.cached.Some? && s.core.cached.value.sequence == 0
  {
    hide Run, Step, Handle, Valid, ValidHelloReply, Record, Finish, Quiet;
    RunFour(START, Action.Hello, Send, Serve(WILLING), Receive);
    HelloIsSent();
    var packet, handled := Packet(HELLO_REQUEST, 0), Handle(CONFIG, RESET_STATE, WILLING, HELLO_REQUEST);
    HelloIsHandled();
    ServeAlone(HelloSent(), packet, WILLING, handled);
    HelloAnswerIsValid();
    var served := Step(CONFIG, HelloSent(), Serve(WILLING));
    HelloIsReceived(served, Packet(HELLO_ANSWER, 0));
    s := Step(CONFIG, served, Receive);
    SessionIsOpen(handled);
  }

  /** What the answer to HELLO leaves behind. */
  lemma SessionIsOpen(handled: Handled)
    requires handled.response == HELLO_ANSWER && !handled.performed
    requires handled.state.valid && handled.state.version == MAX_VERSION
    requires handled.state.cached == Some(CacheEntry(HELLO_REQUEST, HELLO_ANSWER))
    ensures var recorded := Record(HelloSent(), Packet(HELLO_REQUEST, 0), handled);
            var served := HelloSent().(core := handled.state, toDevice := [], history := recorded);
            var s := Finish(served, ResultOf(HELLO_ANSWER), MAX_VERSION);
            && Quiet(s) && s.version == MAX_VERSION && s.nextSequence == 1
            && |s.history.results| == |s.history.requests| == 1 && s.history.results[0].Ok?
            && s.history.answers.Keys == {0} && s.history.performed == multiset{}
            && s.core.cached.Some? && s.core.cached.value.sequence == 0
  {
    hide Handle, Step;
  }

  lemma FirstSuccess(s: System) returns (t: System)
    requires Quiet(s) && s.version == MAX_VERSION && s.nextSequence == 1
    requires |s.history.results| == |s.history.requests| == 1 && s.history.results[0].Ok?
    requires s.history.answers.Keys == {0} && s.history.performed == multiset{}
    requires s.core.cached.Some? && s.core.cached.value.sequence == 0
    ensures t == Run(CONFIG, s, Round(WILLING)) && OneSuccess(t) && |t.history.results| == 2
  {
    RoundRuns(s, WILLING);
    t := AfterRound(s, WILLING);
  }

  lemma OneError(s: System)
    requires OneSuccess(s) && s.nextSequence != 1
    ensures OneSuccess(Run(CONFIG, s, Round(BUSY)))
    ensures |Run(CONFIG, s, Round(BUSY)).history.results| == |s.history.results| + 1
  {
    var handled := Handle(CONFIG, s.core, BUSY, ScanRequest(s));
    assert handled == Handled(s.core, MakeError(ScanRequest(s), 7), false);
    RoundRuns(s, BUSY);
    ErrorRound(s, handled);
  }

  lemma ErrorIsValid(request: Frame)
    ensures Valid(request, MakeError(request, 7))
  {
  }

  lemma ErrorRound(s: System, handled: Handled)
    requires OneSuccess(s)
    requires handled == Handled(s.core, MakeError(ScanRequest(s), 7), false)
    requires handled == Handle(CONFIG, s.core, BUSY, ScanRequest(s))
    ensures OneSuccess(AfterRound(s, BUSY)) && |AfterRound(s, BUSY).history.results| == |s.history.results| + 1
  {
    hide Handle, Valid;
    ErrorIsValid(ScanRequest(s));
    var t := AfterRound(s, BUSY);
    assert t.history.results == s.history.results + [RemoteError(7)];
    forall k | 2 <= k < |t.history.results|
      ensures t.history.results[k].RemoteError?
    {
      assert k < |s.history.results| ==> t.history.results[k] == s.history.results[k];
    }
  }

  function Rounds(n: nat, platform: Platform): seq<Action> {
    if n == 0 then [] else Rounds(n - 1, platform) + Round(platform)
  }

  lemma {:induction false} ManyErrors(s: System, n: nat)
    requires OneSuccess(s) && |s.history.results| == 2 && n <= 255
    ensures OneSuccess(Run(CONFIG, s, Rounds(n, BUSY)))
    ensures |Run(CONFIG, s, Rounds(n, BUSY)).history.results| == 2 + n
  {
    hide Step, Handle, Round;
    if n > 0 {
      ManyErrors(s, n - 1);
      RunConcat(CONFIG, s, Rounds(n - 1, BUSY), Round(BUSY));
      OneError(Run(CONFIG, s, Rounds(n - 1, BUSY)));
    }
  }

  /** Transaction 257 reuses the sequence number and content of transaction 1 and gets its cached reply. */
  lemma WrappedRequest(s: System)
    requires OneSuccess(s) && |s.history.results| == 257
    ensures var h := Run(CONFIG, s, Round(WILLING)).history;
            && |h.results| == |h.requests| == 258 && h.results[257].Ok? && h.performed[257] == 0
            && h.results[1].Ok? && h.requests[257].kind == WIFI_SCAN_START
  {
    assert IsRetry(s.core, ScanRequest(s));
    RoundRuns(s, WILLING);
  }

  function WrappingRun(): seq<Action> {
    Opening() + Round(WILLING) + Rounds(255, BUSY) + Round(WILLING)
  }

  /** With 255 errors in a row the host can see a success although nothing was carried out. */
  lemma ExactlyOnceNeedsShortErrorRuns()
    ensures var h := Run(CONFIG, START, WrappingRun()).history;
            && |h.results| == |h.requests| == 258 && h.results[257].Ok? && h.performed[257] == 0
            && h.results[1].Ok? && h.requests[257].kind == WIFI_SCAN_START
  {
    var s1 := SessionOpens();
    var s2 := FirstSuccess(s1);
    ManyErrors(s2, 255);
    WrappedRequest(Run(CONFIG, s2, Rounds(255, BUSY)));
    RunConcat(CONFIG, START, Opening(), Round(WILLING));
    RunConcat(CONFIG, START, Opening() + Round(WILLING), Rounds(255, BUSY));
    RunConcat(CONFIG, START, Opening() + Round(WILLING) + Rounds(255, BUSY), Round(WILLING));
  }

  // ---------------------------------------------------------------------------------------
  // How many errors are too many

  /** At most n errors in a row before any transaction. */
  ghost predicate ErrorRunsAtMost(h: History, n: nat) {
    forall k :: 1 <= k < |h.requests| && k <= |h.results| ==> ErrorsBefore(h, k) <= n
  }

  /** Whatever succeeded in the run was carried out once. */
  ghost predicate AllCarriedOut(h: History) {
    forall k :: 0 <= k < |h.results| && h.results[k].Ok? ==> CarriedOutOnce(h, k)
  }

  /** Error runs of at most n are harmless, in every run. */
  ghost predicate Tolerates(n: nat) {
    forall config, actions ::
      ErrorRunsAtMost(Run(config, START, actions).history, n) ==> AllCarriedOut(Run(config, START, actions).history)
  }

  lemma {:induction false} LastOkReaches(results: seq<Result>, m: nat)
    requires m < |results| && results[m].Ok?
    ensures LastOk(results) >= m
    decreases |results|
  {
    var last := |results| - 1;
    if last > 0 && !results[last].Ok? {
      LastOkReaches(results[..last], m);
    }
  }

  /** The bound is sharp: 254 errors in a row are always tolerated, 255 are not. */
  lemma BoundIsSharp(n: nat)
    ensures Tolerates(n) <==> n < 255
  {
    hide Run, Due, LastOk;
    if n < 255 {
      forall config, actions | ErrorRunsAtMost(Run(config, START, actions).history, n)
        ensures AllCarriedOut(Run(config, START, actions).history)
      {
        Tolerated(config, actions, n);
      }
    } else {
      ExactlyOnceNeedsShortErrorRuns();
      var h := Run(CONFIG, START, WrappingRun()).history;
      forall k | 1 <= k < |h.requests| && k <= |h.results|
        ensures ErrorsBefore(h, k) <= 255
      {
        if k >= 2 {
          assert h.results[..k][1] == h.results[1];
          LastOkReaches(h.results[..k], 1);
        }
      }
      assert ErrorRunsAtMost(h, n) && !CarriedOutOnce(h, 257);
    }
  }

  lemma Tolerated(config: Config, actions: seq<Action>, n: nat)
    requires n < 255 && ErrorRunsAtMost(Run(config, START, actions).history, n)
    ensures AllCarriedOut(Run(config, START, actions).history)
  {
    hide Run, ErrorsBefore;
    var h := Run(config, START, actions).history;
    forall k | 0 <= k < |h.results| && h.results[k].Ok?
      ensures CarriedOutOnce(h, k)
    {
      ExactlyOnce(config, actions, k);
    }
  }
}
