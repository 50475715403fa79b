/** The host's transaction loop, run against the state machine of the link. */
module Transactions {
  import opened Bytes
  import opened Framing
  import opened FirmwareCore
  import opened Protocol

  /** What the link does during one attempt: whether the request gets out, and what happens meanwhile. */
  datatype Attempt = Attempt(sent: bool, meanwhile: seq<Action>, received: bool)

  datatype Verdict = Answered(reply: Frame) | Refused(error: byte) | Unusable

  ghost predicate Leads(config: Config, s: System, t: System) {
    exists actions :: Run(config, s, actions) == t
  }

  lemma LeadsStep(config: Config, s: System, t: System, a: Action)
    requires Leads(config, s, t)
    ensures Leads(config, s, Step(config, t, a))
  {
    var actions :| Run(config, s, actions) == t;
    RunConcat(config, s, actions, [a]);
    assert [a][1..] == [];
    assert Run(config, t, [a]) == Run(config, Step(config, t, a), []);
  }

  /** Things that happen without the host: loss, and the Pico at work. */
  predicate IsEnvironment(a: Action) {
    a.LoseRequest? || a.LoseReply? || a.Serve?
  }

  class Session {
    const config: Config
    var system: System

    constructor (config: Config)
      ensures this.config == config && system == START
    {
      this.config, system := config, START;
    }

    method Perform(a: Action, ghost origin: System)
      requires Leads(config, origin, system)
      modifies this
      ensures system == Step(config, old(system), a)
      ensures Leads(config, origin, system)
    {
      LeadsStep(config, origin, system, a);
      system := Step(config, system, a);
    }

    method Meanwhile(actions: seq<Action>, ghost origin: System)
      requires Leads(config, origin, system)
      requires forall i :: 0 <= i < |actions| ==> IsEnvironment(actions[i])
      modifies this
      ensures Leads(config, origin, system)
      ensures SameTransaction(system, old(system)) && system.phase == old(system.phase)
    {
      for i := 0 to |actions|
        invariant Leads(config, origin, system)
        invariant SameTransaction(system, old(system)) && system.phase == old(system.phase)
      {
        EnvironmentKeeps(config, system, actions[i]);
        Perform(actions[i], origin);
      }
    }

    /** Send the request and take at most one frame in return; a verdict ends the transaction. */
    method TryOnce(attempt: Attempt, ghost origin: System) returns (verdict: Option<Verdict>)
      requires Leads(config, origin, system)
      requires system.phase.Waiting? && system.phase.attempts < ATTEMPTS
      requires forall i :: 0 <= i < |attempt.meanwhile| ==> IsEnvironment(attempt.meanwhile[i])
      modifies this
      ensures Leads(config, origin, system)
      ensures system.history.requests == old(system).history.requests
      ensures verdict.None? ==>
                && SameTransaction(system, old(system))
                && system.phase == Waiting(old(system).phase.request, old(system).phase.attempts + 1)
      ensures verdict.Some? ==> Concludes(old(system).history.results, system, verdict.value)
    {
      SendKeeps(config, system);
      if !attempt.sent {
        Perform(SendFails, origin);
        return None;
      }
      Perform(Send, origin);
      Meanwhile(attempt.meanwhile, origin);
      if !attempt.received || system.toHost == [] {
        return None;
      }
      var reply := system.toHost[0].frame;
      ReceiveConcludes(config, system);
      Perform(Receive, origin);
      match system.phase {
        case Waiting(_, _) => return None;
        case Abandoned => return Some(Unusable);
        case Idle =>
          match ResultOf(reply) {
            case Ok(answer) => return Some(Answered(answer));
            case RemoteError(error) => return Some(Refused(error));
          }
      }
    }

    /**
     One transaction with its three attempts. Every run of the loop is a run of the state machine,
     so a success is the Pico's own answer to this request, given when it carried the request out.
     */
    method Transact(opening: Action, script: seq<Attempt>) returns (verdict: Verdict)
      requires opening.Hello? || opening.Request?
      requires Enabled(system, opening) && |script| == ATTEMPTS
      requires forall k, i :: 0 <= k < ATTEMPTS && 0 <= i < |script[k].meanwhile| ==> IsEnvironment(script[k].meanwhile[i])
      requires Inv(system) && AnswerInv(system)
      modifies this
      ensures Leads(config, old(system), system)
      ensures Concludes(old(system).history.results, system, verdict)
      ensures Inv(system)
      ensures ShortErrorRuns(system.history) ==> AnswerInv(system)
      ensures verdict.Answered? && ShortErrorRuns(system.history) ==>
                AnsweredOnce(system.history, |old(system).history.results|, verdict.reply,
                             opening.Request? && IsPlatform(opening.kind))
    {
      hide Inv, AnswerInv, ShortErrorRuns, Step, IsEnvironment;
      ghost var origin, n := system, |system.history.results|;
      assert Run(config, system, []) == system;
      BeginKeeps(config, system, opening);
      Perform(opening, origin);
      ghost var begun := system;
      for attempt := 0 to ATTEMPTS
        invariant Leads(config, origin, system)
        invariant system.history.requests == begun.history.requests && SameTransaction(system, begun)
        invariant system.phase == Waiting(begun.phase.request, attempt)
      {
        var ended := TryOnce(script[attempt], origin);
        if ended.Some? {
          Concluded(config, origin, system, n);
          return ended.value;
        }
      }
      GiveUpEnds(config, system);
      Perform(GiveUp, origin);
      Concluded(config, origin, system, n);
      return Unusable;
    }
  }

  ghost predicate SameTransaction(s: System, t: System) {
    s.history.results == t.history.results && s.history.requests == t.history.requests
  }

  /** The state agrees with what the caller is told. */
  ghost predicate Concludes(before: seq<Result>, s: System, verdict: Verdict) {
    match verdict
    case Answered(reply) => s.phase.Idle? && s.history.results == before + [Ok(reply)]
    case Refused(error) => s.phase.Idle? && s.history.results == before + [RemoteError(error)]
    case Unusable => s.phase.Abandoned? && s.history.results == before
  }

  /** Transaction n was carried out once, and reply is what the Pico said then. */
  ghost predicate AnsweredOnce(h: History, n: nat, reply: Frame, platform: bool) {
    n in h.answers && h.answers[n] == reply && (platform ==> h.performed[n] == 1)
  }

  lemma EnvironmentKeeps(config: Config, s: System, a: Action)
    requires IsEnvironment(a)
    ensures SameTransaction(Step(config, s, a), s) && Step(config, s, a).phase == s.phase
  {
    hide Handle;
  }

  lemma SendKeeps(config: Config, s: System)
    requires s.phase.Waiting? && s.phase.attempts < ATTEMPTS
    ensures SameTransaction(Step(config, s, Send), s) && SameTransaction(Step(config, s, SendFails), s)
    ensures Step(config, s, Send).phase == Step(config, s, SendFails).phase ==
            Waiting(s.phase.request, s.phase.attempts + 1)
  {
  }

  lemma GiveUpEnds(config: Config, s: System)
    requires s.phase.Waiting?
    ensures Step(config, s, GiveUp) == s.(phase := Abandoned)
  {
  }

  lemma BeginKeeps(config: Config, s: System, opening: Action)
    requires (opening.Hello? || opening.Request?) && Enabled(s, opening) && Inv(s)
    ensures var t, n := Step(config, s, opening), |s.history.results|;
            && t.history.results == s.history.results
            && t.phase.Waiting? && t.phase.attempts == 0
            && n < |t.history.requests| && t.history.requests[n] == t.phase.request
            && (opening.Request? ==> t.phase.request.kind == opening.kind)
  {
  }

  lemma ReceiveConcludes(config: Config, s: System)
    requires s.phase.Waiting? && s.toHost != []
    ensures var t, reply := Step(config, s, Receive), s.toHost[0].frame;
            && t.history.requests == s.history.requests
            && (t.phase.Waiting? ==> t.phase == s.phase && t.history.results == s.history.results)
            && (t.phase.Abandoned? ==> t.history.results == s.history.results)
            && (t.phase.Idle? ==> (reply.flags % 4 == 3 ==> reply.payload != []) &&
                                  t.history.results == s.history.results + [ResultOf(reply)])
  {
  }

  /** What a run of the state machine says about the transaction it ended. */
  lemma Concluded(config: Config, s: System, t: System, n: nat)
    requires Inv(s) && AnswerInv(s) && Leads(config, s, t)
    ensures Inv(t)
    ensures ShortErrorRuns(t.history) ==> AnswerInv(t)
    ensures ShortErrorRuns(t.history) && n < |t.history.results| && t.history.results[n].Ok? ==>
              && n in t.history.answers && t.history.answers[n] == t.history.results[n].reply
              && n < |t.history.requests|
              && (IsPlatform(t.history.requests[n].kind) ==> t.history.performed[n] == 1)
  {
    var actions :| Run(config, s, actions) == t;
    RunKeepsInv(config, s, actions);
    assert t.history.performed[n] == Due(t.history, n);
    if ShortErrorRuns(t.history) {
      RunKeepsAnswers(config, s, actions);
    }
  }
}
