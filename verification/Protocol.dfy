/**
 Host, Pico and the two lossy channels between them as one state machine: stop-and-wait with
 retries, 8-bit sequence numbers and a one-entry reply cache.

 A session starts with HELLO on a freshly reset Pico. Frames may be delayed and lost at any
 point; what arrives, arrives in order.
 */
module Protocol {
  import opened Bytes
  import opened Framing
  import opened FirmwareCore
  import opened Detection
  import opened HostLink
  import opened Sequences

  const ATTEMPTS: nat := 3

  /** A frame in flight, labelled with the number of its transaction; no step looks at the label. */
  datatype Packet = Packet(frame: Frame, txn: nat)

  datatype Result = Ok(reply: Frame) | RemoteError(error: byte)

  datatype Phase = Idle | Waiting(request: Frame, attempts: nat) | Abandoned

  datatype System = System(
    phase: Phase,
    version: byte,
    nextSequence: byte,
    core: CoreState,
    toDevice: seq<Packet>,
    toHost: seq<Packet>,
    history: History)

  /**
   What happened so far: the request of every transaction, the result of every finished one,
   how the Pico answered when it did carry a request out, how often a platform command
   succeeded for it, and which transaction the Pico handled and cached last.
   */
  datatype History = History(
    requests: seq<Frame>,
    results: seq<Result>,
    answers: map<nat, Frame>,
    performed: multiset<nat>,
    handled: nat,
    cached: nat)

  /** HELLO payload of the cartridge: magic, versions 2 to 7, 240 bytes. */
  const HELLO_PAYLOAD: seq<byte> := MAGIC + [2, 7, 240, 0]

  const HELLO_REQUEST := Frame(BOOTSTRAP_VERSION, 0, HELLO, 0, HELLO_PAYLOAD)

  const START := System(Idle, BOOTSTRAP_VERSION, 0, RESET_STATE, [], [],
                        History([], [], map[], multiset{}, 0, 0))

  // ---------------------------------------------------------------------------------------
  // Steps

  datatype Action =
    | Hello                                        // p2wp_hello builds its request
    | Request(kind: byte, payload: seq<byte>)      // p2wp_request builds its request
    | Send                                         // one attempt to send the request
    | SendFails                                    // an attempt that the deadline cuts short
    | LoseRequest(index: nat)
    | LoseReply(index: nat)
    | Serve(platform: Platform)                    // the Pico answers the oldest request in flight
    | Receive                                      // the host takes the oldest reply in flight
    | GiveUp

  predicate Enabled(s: System, a: Action) {
    match a
    case Hello => s.phase.Idle? && |s.history.results| == 0
    case Request(kind, payload) =>
      s.phase.Idle? && |s.history.results| > 0 && kind != HELLO && |payload| <= HOST_LIMIT
    case Send => s.phase.Waiting? && s.phase.attempts < ATTEMPTS
    case SendFails => s.phase.Waiting? && s.phase.attempts < ATTEMPTS
    case LoseRequest(index) => index < |s.toDevice|
    case LoseReply(index) => index < |s.toHost|
    case Serve(_) => s.toDevice != []
    case Receive => s.phase.Waiting? && s.toHost != []
    case GiveUp => s.phase.Waiting?
  }

  function Without<T>(s: seq<T>, index: nat): (r: seq<T>)
    requires index < |s|
    ensures |r| == |s| - 1
    ensures forall i :: 0 <= i < |r| ==> r[i] == s[if i < index then i else i + 1]
  {
    s[..index] + s[index + 1..]
  }

  function Step(config: Config, s: System, a: Action): System {
    if !Enabled(s, a) then s
    else
      match a
      case Hello => Begin(s, HELLO_REQUEST)
      case Request(kind, payload) => Begin(s, Frame(s.version, 0, kind, s.nextSequence, payload))
      case Send =>
        s.(phase := s.phase.(attempts := s.phase.attempts + 1),
           toDevice := s.toDevice + [Packet(s.phase.request, |s.history.results|)])
      case SendFails => s.(phase := s.phase.(attempts := s.phase.attempts + 1))
      case LoseRequest(index) => s.(toDevice := Without(s.toDevice, index))
      case LoseReply(index) => s.(toHost := Without(s.toHost, index))
      case Serve(platform) => ServeNext(config, s, platform)
      case Receive => ReceiveNext(s)
      case GiveUp => s.(phase := Abandoned)
  }

  function Begin(s: System, request: Frame): System {
    s.(phase := Waiting(request, 0), history := s.history.(requests := s.history.requests + [request]))
  }

  /** The Pico handles the oldest request and sends its reply. */
  function ServeNext(config: Config, s: System, platform: Platform): System
    requires s.toDevice != []
  {
    var packet := s.toDevice[0];
    var handled := Handle(config, s.core, platform, packet.frame);
    s.(core := handled.state,
       toDevice := s.toDevice[1..],
       toHost := s.toHost + [Packet(handled.response, packet.txn)],
       history := Record(s, packet, handled))
  }

  function Record(s: System, packet: Packet, handled: Handled): History {
    var h := s.history.(handled := packet.txn,
                        performed := s.history.performed + if handled.performed then multiset{packet.txn} else multiset{});
    if Fresh(s.core, packet.frame, handled) then
      h.(answers := h.answers[packet.txn := handled.response], cached := packet.txn)
    else h
  }

  /** The request was carried out now, not answered from the cache or refused. */
  predicate Fresh(core: CoreState, request: Frame, handled: Handled) {
    !IsRetry(core, request) && handled.response.flags == FLAG_RESPONSE
  }

  /** validate_response: the reply echoes the request and carries proper flags. */
  predicate Valid(request: Frame, reply: Frame) {
    && reply.version == request.version && reply.kind == request.kind && reply.sequence == request.sequence
    && (reply.flags % 4 == 1 || (reply.flags % 4 == 3 && reply.payload != []))
  }

  /** validate_hello: magic, a supported version, the needed capabilities and a sufficient limit. */
  predicate ValidHelloReply(reply: Frame) {
    && |reply.payload| == 8 && reply.payload[..4] == MAGIC
    && MIN_VERSION <= reply.payload[4] <= MAX_VERSION
    && reply.payload[5] / 2 % 8 == 7
    && reply.payload[6] as nat + reply.payload[7] as nat * 0x100 >= HOST_LIMIT
  }

  function ResultOf(reply: Frame): Result
    requires reply.flags % 4 == 3 ==> reply.payload != []
  {
    if reply.flags % 4 == 3 then RemoteError(reply.payload[0]) else Ok(reply)
  }

  /** The host takes one reply; anything invalid is dropped. */
  function ReceiveNext(s: System): System
    requires s.phase.Waiting? && s.toHost != []
  {
    var reply := s.toHost[0].frame;
    var rest := s.(toHost := s.toHost[1..]);
    if !Valid(s.phase.request, reply) then rest
    else if s.phase.request.kind != HELLO then Finish(rest, ResultOf(reply), s.version)
    else if ResultOf(reply).Ok? && ValidHelloReply(reply) then Finish(rest, ResultOf(reply), reply.payload[4])
    else rest.(phase := Abandoned)
  }

  function Finish(s: System, result: Result, version: byte): System {
    s.(phase := Idle, version := version, nextSequence := (s.nextSequence + 1) % 0x100,
       history := s.history.(results := s.history.results + [result]))
  }

  function Run(config: Config, s: System, actions: seq<Action>): System
    decreases |actions|
  {
    if actions == [] then s else Run(config, Step(config, s, actions[0]), actions[1..])
  }

  lemma {:induction false} RunConcat(config: Config, s: System, a: seq<Action>, b: seq<Action>)
    ensures Run(config, s, a + b) == Run(config, Run(config, s, a), b)
    decreases |a|
  {
    if a == [] {
      All(b);
    } else {
      TailOfConcat(a, b);
      RunConcat(config, Step(config, s, a[0]), a[1..], b);
    }
  }

  // ---------------------------------------------------------------------------------------
  // What every step keeps

  predicate IsPlatform(kind: byte) {
    kind != HELLO && kind != ECHO_REQUEST && kind != DEVICE_INFO
  }

  ghost predicate Inv(s: System) {
    && HostInv(s)
    && HistoryInv(s.history, s.version)
    && Ordered(s.toDevice) && (forall p :: p in s.toDevice ==> RequestInFlight(s.history, p))
    && Ordered(s.toHost) && (forall p :: p in s.toHost ==> ReplyInFlight(s.history, p))
    && CoreInv(s.core, s.history)
  }

  /** The host knows which transaction it is in. */
  ghost predicate HostInv(s: System) {
    var h, n := s.history, |s.history.results|;
    && s.nextSequence == n % 0x100
    && |h.requests| == (if s.phase.Idle? then n else n + 1)
    && (s.phase.Waiting? ==> s.phase.request == h.requests[n])
    && (n > 0 ==> h.results[0].Ok?)
    && if h.requests == [] then h.handled == 0 else h.handled < |h.requests|
  }

  ghost predicate HistoryInv(h: History, version: byte) {
    forall k :: 0 <= k < |h.requests| ==> RequestInv(h.requests[k], k, version)
  }

  ghost predicate RequestInv(request: Frame, k: nat, version: byte) {
    && request.sequence == k % 0x100
    && (request.kind == HELLO <==> k == 0)
    && request.version == if k == 0 then BOOTSTRAP_VERSION else version
  }

  ghost predicate Ordered(packets: seq<Packet>) {
    forall i, j :: 0 <= i < j < |packets| ==> packets[i].txn <= packets[j].txn
  }

  /** Only requests of the current and the previous transaction travel, none older than what was handled. */
  ghost predicate RequestInFlight(h: History, p: Packet) {
    && |h.results| <= p.txn + 1 && h.handled <= p.txn < |h.requests|
    && p.frame == h.requests[p.txn]
  }

  /** The same for replies, which echo their request. */
  ghost predicate ReplyInFlight(h: History, p: Packet) {
    && |h.results| <= p.txn + 1 && p.txn <= h.handled && p.txn < |h.requests|
    && Echoes(h.requests[p.txn], p.frame)
  }

  ghost predicate Echoes(request: Frame, reply: Frame) {
    reply.version == request.version && reply.kind == request.kind && reply.sequence == request.sequence
  }

  /** The cache holds the last request that was carried out, and each was carried out once. */
  ghost predicate CoreInv(core: CoreState, h: History) {
    && (forall k :: k in h.answers ==> k <= h.cached && k < |h.requests|)
    && (core.cached.Some? <==> h.cached in h.answers)
    && (core.cached.None? ==> h.answers == map[])
    && (core.cached.Some? ==>
          && h.cached <= h.handled
          && core.cached.value == CacheEntry(h.requests[h.cached], h.answers[h.cached])
          && Echoes(h.requests[h.cached], h.answers[h.cached]))
    && forall k: nat :: h.performed[k] == Due(h, k)
  }

  /** How often a platform command should have succeeded for transaction k. */
  ghost function Due(h: History, k: nat): nat {
    if k in h.answers && k < |h.requests| && IsPlatform(h.requests[k].kind) then 1 else 0
  }

  function CacheEntry(request: Frame, response: Frame): Cached {
    Cached(request.kind, request.sequence, Identity(request), response)
  }

  /** What handling one request can do, without the details of the dispatcher. */
  lemma HandleEffect(config: Config, core: CoreState, platform: Platform, request: Frame)
    ensures var handled := Handle(config, core, platform, request);
            if IsRetry(core, request) then handled == Handled(core, core.cached.value.response, false)
            else if Fresh(core, request, handled) then
              && Echoes(request, handled.response)
              && handled.state.cached == Some(CacheEntry(request, handled.response))
              && (handled.performed <==> IsPlatform(request.kind))
            else
              && handled.state == core && !handled.performed
              && Echoes(request, handled.response) && handled.response.flags == FLAG_RESPONSE + FLAG_ERROR
  {
  }

  lemma BeginKeepsInv(s: System, request: Frame)
    requires Inv(s) && s.phase.Idle?
    requires RequestInv(request, |s.history.results|, s.version)
    ensures Inv(Begin(s, request))
  {
    var t := Begin(s, request);
    forall p | p in t.toDevice
      ensures RequestInFlight(t.history, p)
    {
      assert RequestInFlight(s.history, p);
    }
    forall p | p in t.toHost
      ensures ReplyInFlight(t.history, p)
    {
      assert ReplyInFlight(s.history, p);
    }
    forall k: nat
      ensures t.history.performed[k] == Due(t.history, k)
    {
      assert s.history.performed[k] == Due(s.history, k);
    }
  }

  lemma SendKeepsInv(config: Config, s: System)
    requires Inv(s) && Enabled(s, Send)
    ensures Inv(Step(config, s, Send))
  {
    assert forall i :: 0 <= i < |s.toDevice| ==> RequestInFlight(s.history, s.toDevice[i]);
  }

  lemma LoseKeepsInv(config: Config, s: System, index: nat)
    requires Inv(s)
    ensures Enabled(s, LoseRequest(index)) ==> Inv(Step(config, s, LoseRequest(index)))
    ensures Enabled(s, LoseReply(index)) ==> Inv(Step(config, s, LoseReply(index)))
  {
  }

  lemma ServeKeepsInv(config: Config, s: System, platform: Platform)
    requires Inv(s) && s.toDevice != []
    ensures Inv(ServeNext(config, s, platform))
  {
    hide Handle, CoreInv, Ordered, Echoes;
    assert RequestInFlight(s.history, s.toDevice[0]);
    ServeKeepsRequests(config, s, platform);
    ServeKeepsReplies(config, s, platform);
    ServeKeepsCore(config, s, platform);
  }

  lemma ServeKeepsRequests(config: Config, s: System, platform: Platform)
    requires Inv(s) && s.toDevice != []
    ensures var t := ServeNext(config, s, platform);
            Ordered(t.toDevice) && forall p :: p in t.toDevice ==> RequestInFlight(t.history, p)
  {
    hide Handle, CoreInv, HistoryInv, HostInv;
    var p, t := s.toDevice[0], ServeNext(config, s, platform);
    forall q | q in t.toDevice
      ensures RequestInFlight(t.history, q)
    {
      assert RequestInFlight(s.history, q);
    }
  }

  lemma ServeKeepsReplies(config: Config, s: System, platform: Platform)
    requires Inv(s) && s.toDevice != []
    ensures var t := ServeNext(config, s, platform);
            Ordered(t.toHost) && forall p :: p in t.toHost ==> ReplyInFlight(t.history, p)
  {
    hide Handle, HistoryInv, HostInv, CoreInv, Echoes;
    var p, t := s.toDevice[0], ServeNext(config, s, platform);
    var reply := Packet(Handle(config, s.core, platform, p.frame).response, p.txn);
    assert RequestInFlight(s.history, p);
    ReplyEchoes(config, s, platform);
    assert ReplyInFlight(t.history, reply);
    forall q | q in t.toHost
      ensures ReplyInFlight(t.history, q) && q.txn <= p.txn
    {
      assert q in s.toHost ==> ReplyInFlight(s.history, q);
    }
  }

  lemma ReplyEchoes(config: Config, s: System, platform: Platform)
    requires Inv(s) && s.toDevice != []
    ensures Echoes(s.toDevice[0].frame, Handle(config, s.core, platform, s.toDevice[0].frame).response)
  {
    hide Handle, Identity, Ordered;
    var p, h := s.toDevice[0], s.history;
    HandleEffect(config, s.core, platform, p.frame);
    assert RequestInFlight(h, p);
    assert RequestInv(h.requests[p.txn], p.txn, s.version);
    if s.core.cached.Some? {
      assert RequestInv(h.requests[h.cached], h.cached, s.version);
    }
  }

  /** The request the Pico takes next was never carried out unless it is the cached one. */
  lemma ServeKeepsCore(config: Config, s: System, platform: Platform)
    requires Inv(s) && s.toDevice != []
    ensures var t := ServeNext(config, s, platform); CoreInv(t.core, t.history)
  {
    hide Handle, HistoryInv, Identity, Ordered;
    var p, h := s.toDevice[0], s.history;
    var t := ServeNext(config, s, platform);
    HandleEffect(config, s.core, platform, p.frame);
    assert RequestInFlight(h, p);
    forall k: nat
      ensures t.history.performed[k] == Due(t.history, k)
    {
      assert h.performed[k] == Due(h, k);
    }
  }

  /** No stale reply: what the host accepts answers the outstanding request. */
  lemma AcceptedIsCurrent(s: System)
    requires Inv(s) && Enabled(s, Receive) && Valid(s.phase.request, s.toHost[0].frame)
    ensures s.toHost[0].txn == |s.history.results|
  {
    var p, n := s.toHost[0], |s.history.results|;
    assert ReplyInFlight(s.history, p);
    assert RequestInv(s.history.requests[p.txn], p.txn, s.version);
    assert RequestInv(s.history.requests[n], n, s.version);
  }

  lemma ReceiveKeepsInv(s: System)
    requires Inv(s) && Enabled(s, Receive)
    ensures Inv(ReceiveNext(s))
  {
    hide Echoes, Valid, ValidHelloReply, CoreInv, RequestInFlight, ReplyInFlight;
    ReceiveKeepsCore(s);
    if Valid(s.phase.request, s.toHost[0].frame) {
      AcceptedIsCurrent(s);
      ReceiveKeepsFlight(s);
    }
  }

  lemma ReceiveKeepsFlight(s: System)
    requires Inv(s) && Enabled(s, Receive) && s.toHost[0].txn == |s.history.results|
    ensures var t := ReceiveNext(s);
            && (forall p :: p in t.toDevice ==> RequestInFlight(t.history, p))
            && (forall p :: p in t.toHost ==> ReplyInFlight(t.history, p))
  {
    hide Echoes, Valid, ValidHelloReply, CoreInv, HistoryInv;
    var t, h := ReceiveNext(s), s.history;
    assert ReplyInFlight(h, s.toHost[0]);
    forall p | p in t.toDevice
      ensures RequestInFlight(t.history, p)
    {
      assert RequestInFlight(h, p);
    }
    forall p | p in t.toHost
      ensures ReplyInFlight(t.history, p)
    {
      assert ReplyInFlight(h, p);
    }
  }

  lemma ReceiveKeepsCore(s: System)
    requires Inv(s) && Enabled(s, Receive)
    ensures CoreInv(ReceiveNext(s).core, ReceiveNext(s).history)
  {
    hide Echoes, Valid, ValidHelloReply, HistoryInv, HostInv, Ordered;
    var t := ReceiveNext(s);
    forall k: nat
      ensures t.history.performed[k] == Due(t.history, k)
    {
      assert s.history.performed[k] == Due(s.history, k);
    }
  }

  lemma StepKeepsInv(config: Config, s: System, a: Action)
    requires Inv(s)
    ensures Inv(Step(config, s, a))
  {
    if Enabled(s, a) {
      match a {
        case Hello => BeginKeepsInv(s, HELLO_REQUEST);
        case Request(kind, payload) => BeginKeepsInv(s, Frame(s.version, 0, kind, s.nextSequence, payload));
        case Send => SendKeepsInv(config, s);
        case SendFails =>
        case LoseRequest(index) => LoseKeepsInv(config, s, index);
        case LoseReply(index) => LoseKeepsInv(config, s, index);
        case Serve(platform) => ServeKeepsInv(config, s, platform);
        case Receive => ReceiveKeepsInv(s);
        case GiveUp =>
      }
    }
  }

  lemma {:induction false} RunKeepsInv(config: Config, s: System, actions: seq<Action>)
    requires Inv(s)
    ensures Inv(Run(config, s, actions))
    decreases |actions|
  {
    if actions != [] {
      StepKeepsInv(config, s, actions[0]);
      RunKeepsInv(config, Step(config, s, actions[0]), actions[1..]);
    }
  }

  lemma StartInv()
    ensures Inv(START)
  {
  }

  // ---------------------------------------------------------------------------------------
  // Exactly once

  /** The last transaction that ended well; HELLO when there is no later one. */
  function LastOk(results: seq<Result>): (k: nat)
    ensures k < |results| || k == 0
    ensures results != [] && results[0].Ok? ==> results[k].Ok?
  {
    if |results| <= 1 then 0
    else if results[|results| - 1].Ok? then |results| - 1
    else LastOk(results[..|results| - 1])
  }

  /** Before no transaction did 255 or more transactions in a row end with an error. */
  ghost predicate ShortErrorRuns(h: History) {
    forall k :: 1 <= k < |h.requests| && k <= |h.results| ==> ErrorsBefore(h, k) < 255
  }

  ghost function ErrorsBefore(h: History, k: nat): int
    requires k <= |h.results|
  {
    k - LastOk(h.results[..k]) - 1
  }

  /** Every success the host has seen or may still see is what the Pico answered for that transaction. */
  ghost predicate AnswerInv(s: System) {
    && (forall k :: 0 <= k < |s.history.results| && s.history.results[k].Ok? ==>
          k in s.history.answers && s.history.answers[k] == s.history.results[k].reply)
    && forall p :: p in s.toHost && p.frame.flags % 4 == 1 ==>
          p.txn in s.history.answers && s.history.answers[p.txn] == p.frame
  }

  lemma ShortErrorRunsBefore(config: Config, s: System, a: Action)
    requires Inv(s) && ShortErrorRuns(Step(config, s, a).history)
    ensures ShortErrorRuns(s.history)
  {
    var h, h' := s.history, Step(config, s, a).history;
    forall k | 1 <= k < |h.requests| && k <= |h.results|
      ensures ErrorsBefore(h, k) < 255
    {
      assert h'.results[..k] == h.results[..k];
      assert ErrorsBefore(h', k) < 255;
    }
  }

  /** With short error runs, the cache recognises only retries of the very same transaction. */
  lemma RetryIsSame(s: System, p: Packet)
    requires Inv(s) && AnswerInv(s) && ShortErrorRuns(s.history)
    requires RequestInFlight(s.history, p) && s.core.cached.Some?
    requires p.frame.sequence == s.core.cached.value.sequence
    ensures p.txn == s.history.cached
  {
    var h, k := s.history, p.txn;
    assert RequestInv(h.requests[k], k, s.version);
    assert RequestInv(h.requests[h.cached], h.cached, s.version);
    if k >= 1 {
      var last := LastOk(h.results[..k]);
      assert h.results[..k][0] == h.results[0] && h.results[..k][last] == h.results[last];
      assert last in h.answers;
      assert ErrorsBefore(h, k) < 255;
      SameResidue(k, h.cached);
    }
  }

  lemma SameResidue(a: nat, b: nat)
    requires b <= a < b + 0x100 && a % 0x100 == b % 0x100
    ensures a == b
  {
  }

  lemma StepKeepsAnswers(config: Config, s: System, a: Action)
    requires Inv(s) && AnswerInv(s) && ShortErrorRuns(Step(config, s, a).history)
    ensures AnswerInv(Step(config, s, a))
  {
    hide Inv, AnswerInv, ShortErrorRuns, Handle, ServeNext, ReceiveNext;
    ShortErrorRunsBefore(config, s, a);
    if Enabled(s, a) && a.Serve? {
      ServeKeepsAnswers(config, s, a.platform);
    } else if Enabled(s, a) && a.Receive? {
      ReceiveKeepsAnswers(s);
    } else {
      OthersKeepAnswers(config, s, a);
    }
  }

  lemma OthersKeepAnswers(config: Config, s: System, a: Action)
    requires AnswerInv(s) && (!Enabled(s, a) || (!a.Serve? && !a.Receive?))
    ensures AnswerInv(Step(config, s, a))
  {
    hide ServeNext, ReceiveNext;
  }

  lemma ReceiveKeepsAnswers(s: System)
    requires Inv(s) && AnswerInv(s) && Enabled(s, Receive)
    ensures AnswerInv(ReceiveNext(s))
  {
    hide Inv, ValidHelloReply;
    if Valid(s.phase.request, s.toHost[0].frame) {
      AcceptedIsCurrent(s);
    }
  }

  lemma ServeKeepsAnswers(config: Config, s: System, platform: Platform)
    requires Inv(s) && AnswerInv(s) && ShortErrorRuns(s.history) && s.toDevice != []
    ensures AnswerInv(ServeNext(config, s, platform))
  {
    hide Handle, Identity;
    var p, t := s.toDevice[0], ServeNext(config, s, platform);
    HandleEffect(config, s.core, platform, p.frame);
    assert RequestInFlight(s.history, p);
    if s.core.cached.Some? && p.frame.sequence == s.core.cached.value.sequence {
      RetryIsSame(s, p);
    }
    if Fresh(s.core, p.frame, Handle(config, s.core, platform, p.frame)) {
      assert p.txn !in s.history.answers;
    }
  }

  lemma {:induction false} RunKeepsAnswers(config: Config, s: System, actions: seq<Action>)
    requires Inv(s) && AnswerInv(s) && ShortErrorRuns(Run(config, s, actions).history)
    ensures AnswerInv(Run(config, s, actions))
    decreases |actions|
  {
    if actions != [] {
      var next := Step(config, s, actions[0]);
      StepKeepsInv(config, s, actions[0]);
      RunShortErrorRuns(config, next, actions[1..]);
      StepKeepsAnswers(config, s, actions[0]);
      RunKeepsAnswers(config, next, actions[1..]);
    }
  }

  lemma {:induction false} RunShortErrorRuns(config: Config, s: System, actions: seq<Action>)
    requires Inv(s) && ShortErrorRuns(Run(config, s, actions).history)
    ensures ShortErrorRuns(s.history)
    decreases |actions|
  {
    if actions != [] {
      StepKeepsInv(config, s, actions[0]);
      RunShortErrorRuns(config, Step(config, s, actions[0]), actions[1..]);
      ShortErrorRunsBefore(config, s, actions[0]);
    }
  }

  /** No stale reply, in any run: what the host accepts was sent for the transaction it is waiting in. */
  lemma NoStaleReply(config: Config, actions: seq<Action>)
    ensures var s := Run(config, START, actions);
            Enabled(s, Receive) && Valid(s.phase.request, s.toHost[0].frame) ==>
              s.toHost[0].txn == |s.history.results|
  {
    StartInv();
    RunKeepsInv(config, START, actions);
    var s := Run(config, START, actions);
    if Enabled(s, Receive) && Valid(s.phase.request, s.toHost[0].frame) {
      AcceptedIsCurrent(s);
    }
  }

  /** At most once, in any run: no platform command succeeds twice for one transaction. */
  lemma AtMostOnce(config: Config, actions: seq<Action>, k: nat)
    ensures Run(config, START, actions).history.performed[k] <= 1
  {
    StartInv();
    RunKeepsInv(config, START, actions);
  }

  /** Transaction k was carried out once, and the host has the reply given then. */
  ghost predicate CarriedOutOnce(h: History, k: nat)
    requires k < |h.results| && h.results[k].Ok?
  {
    && k in h.answers && h.results[k].reply == h.answers[k]
    && k < |h.requests| && (IsPlatform(h.requests[k].kind) ==> h.performed[k] == 1)
  }

  /**
   Exactly once: in any run without 255 errors in a row, a transaction the host saw succeed was
   carried out once, however often it was sent, and the host has the reply given then.
   */
  lemma ExactlyOnce(config: Config, actions: seq<Action>, k: nat)
    requires ShortErrorRuns(Run(config, START, actions).history)
    requires k < |Run(config, START, actions).history.results|
    requires Run(config, START, actions).history.results[k].Ok?
    ensures CarriedOutOnce(Run(config, START, actions).history, k)
  {
    StartInv();
    RunKeepsInv(config, START, actions);
    RunKeepsAnswers(config, START, actions);
    var h := Run(config, START, actions).history;
    assert h.performed[k] == Due(h, k);
  }

  /** Under the same condition the Pico never sees a sequence conflict. */
  lemma NoSequenceConflict(config: Config, actions: seq<Action>)
    requires ShortErrorRuns(Run(config, START, actions).history)
    ensures var s := Run(config, START, actions);
            s.toDevice != [] && s.core.cached.Some? && s.toDevice[0].frame.sequence == s.core.cached.value.sequence ==>
              IsRetry(s.core, s.toDevice[0].frame)
  {
    StartInv();
    RunKeepsInv(config, START, actions);
    RunKeepsAnswers(config, START, actions);
    var s := Run(config, START, actions);
    if s.toDevice != [] && s.core.cached.Some? && s.toDevice[0].frame.sequence == s.core.cached.value.sequence {
      RetryIsSame(s, s.toDevice[0]);
    }
  }
}
