/**
 Exactly when a success was carried out: unless the Pico took the request for the cached one although
 it belongs to another transaction. That is the guard of the cache branch, and the only way to go wrong.
 */
module CacheGuard {
  import opened FirmwareCore
  import opened Detection
  import opened Protocol

  /** The Pico is about to answer a request from the cache that holds the reply to another one. */
  predicate Misanswers(s: System, a: Action) {
    && a.Serve? && s.toDevice != []
    && IsRetry(s.core, s.toDevice[0].frame) && s.toDevice[0].txn != s.history.cached
  }

  /** The transactions for which this happens in a run. */
  function Misanswered(config: Config, s: System, actions: seq<Action>): set<nat>
    decreases |actions|
  {
    if actions == [] then {}
    else
      (if Misanswers(s, actions[0]) then {s.toDevice[0].txn} else {}) +
      Misanswered(config, Step(config, s, actions[0]), actions[1..])
  }

  /**
   The guard itself: the cache matches a request exactly when the two transactions are a multiple of 256
   apart and agree in type and checksum.
   */
  lemma RetryExactly(s: System)
    requires Inv(s) && s.toDevice != [] && s.core.cached.Some?
    ensures var h, k := s.history, s.toDevice[0].txn;
            && k < |h.requests| && h.cached <= k
            && (IsRetry(s.core, s.toDevice[0].frame) <==>
                  && (k - h.cached) % 0x100 == 0
                  && h.requests[k].kind == h.requests[h.cached].kind
                  && Identity(h.requests[k]) == Identity(h.requests[h.cached]))
  {
    hide Identity;
    var h, p := s.history, s.toDevice[0];
    assert RequestInFlight(h, p);
    assert RequestInv(h.requests[p.txn], p.txn, s.version);
    assert RequestInv(h.requests[h.cached], h.cached, s.version);
    SameByte(p.txn, h.cached);
  }

  lemma SameByte(a: nat, b: nat)
    requires b <= a
    ensures a % 0x100 == b % 0x100 <==> (a - b) % 0x100 == 0
  {
  }

  /** Every success is the answer to its transaction, but for those misanswered; and these are never carried out. */
  ghost predicate AnsweredBut(s: System, missed: set<nat>) {
    var h := s.history;
    && (forall k :: 0 <= k < |h.results| && h.results[k].Ok? && k !in missed ==>
          k in h.answers && h.answers[k] == h.results[k].reply)
    && (forall p :: p in s.toHost && p.frame.flags % 4 == 1 && p.txn !in missed ==>
          p.txn in h.answers && h.answers[p.txn] == p.frame)
    && forall k :: k in missed ==> NotCarriedOut(s, k)
  }

  /** As long as the Pico is not past the transaction, its cache goes on matching the wrong request. */
  ghost predicate NotCarriedOut(s: System, k: nat) {
    && k !in s.history.answers && k <= s.history.handled && k < |s.history.requests|
    && (k == s.history.handled ==> k != s.history.cached && IsRetry(s.core, s.history.requests[k]))
  }

  lemma ServeKeepsAnswered(config: Config, s: System, platform: Platform, missed: set<nat>)
    requires Inv(s) && AnsweredBut(s, missed) && s.toDevice != []
    ensures AnsweredBut(ServeNext(config, s, platform),
                        missed + if Misanswers(s, Serve(platform)) then {s.toDevice[0].txn} else {})
  {
    hide Handle, Identity, HistoryInv, HostInv, Ordered, Echoes;
    HandleEffect(config, s.core, platform, s.toDevice[0].frame);
    assert RequestInFlight(s.history, s.toDevice[0]);
    ServeKeepsMissed(config, s, platform, missed);
  }

  lemma ServeKeepsMissed(config: Config, s: System, platform: Platform, missed: set<nat>)
    requires Inv(s) && AnsweredBut(s, missed) && s.toDevice != []
    ensures var p, t := s.toDevice[0], ServeNext(config, s, platform);
            && (Misanswers(s, Serve(platform)) ==> NotCarriedOut(t, p.txn))
            && (p.txn in missed ==> Misanswers(s, Serve(platform)))
            && forall k :: k in missed ==> NotCarriedOut(t, k)
  {
    hide Handle, Identity, HistoryInv, Ordered, Echoes;
    var p, h := s.toDevice[0], s.history;
    HandleEffect(config, s.core, platform, p.frame);
    assert RequestInFlight(h, p);
    forall k | k in missed
      ensures NotCarriedOut(ServeNext(config, s, platform), k)
      ensures k == p.txn ==> Misanswers(s, Serve(platform))
    {
      assert NotCarriedOut(s, k);
    }
  }

  lemma ReceiveKeepsAnswered(s: System, missed: set<nat>)
    requires Inv(s) && AnsweredBut(s, missed) && Enabled(s, Receive)
    ensures AnsweredBut(ReceiveNext(s), missed)
  {
    hide Inv, ValidHelloReply;
    if Valid(s.phase.request, s.toHost[0].frame) {
      AcceptedIsCurrent(s);
    }
    assert forall k :: k in missed ==> NotCarriedOut(s, k);
  }

  lemma OthersKeepAnswered(config: Config, s: System, a: Action, missed: set<nat>)
    requires AnsweredBut(s, missed) && (!Enabled(s, a) || (!a.Serve? && !a.Receive?))
    ensures AnsweredBut(Step(config, s, a), missed)
  {
    hide ServeNext, ReceiveNext;
    assert forall k :: k in missed ==> NotCarriedOut(s, k);
  }

  lemma StepKeepsAnswered(config: Config, s: System, a: Action, missed: set<nat>)
    requires Inv(s) && AnsweredBut(s, missed)
    ensures AnsweredBut(Step(config, s, a), missed + if Misanswers(s, a) then {s.toDevice[0].txn} else {})
  {
    hide Handle, Inv, AnsweredBut, ServeNext, ReceiveNext, IsRetry;
    assert missed + {} == missed;
    if Enabled(s, a) && a.Serve? {
      ServeKeepsAnswered(config, s, a.platform, missed);
    } else if Enabled(s, a) && a.Receive? {
      ReceiveKeepsAnswered(s, missed);
    } else {
      OthersKeepAnswered(config, s, a, missed);
    }
  }

  lemma {:induction false} RunKeepsAnswered(config: Config, s: System, actions: seq<Action>, missed: set<nat>)
    requires Inv(s) && AnsweredBut(s, missed)
    ensures AnsweredBut(Run(config, s, actions), missed + Misanswered(config, s, actions))
    decreases |actions|
  {
    hide Inv, AnsweredBut, Step;
    if actions == [] {
      assert missed + {} == missed;
    } else {
      var next, first := Step(config, s, actions[0]), if Misanswers(s, actions[0]) then {s.toDevice[0].txn} else {};
      StepKeepsInv(config, s, actions[0]);
      StepKeepsAnswered(config, s, actions[0], missed);
      RunKeepsAnswered(config, next, actions[1..], missed + first);
      assert missed + Misanswered(config, s, actions) == missed + first + Misanswered(config, next, actions[1..]);
    }
  }

  /**
   In every run, whatever its errors: a transaction that the host saw succeed was carried out once and has
   its own reply if and only if it was never misanswered; otherwise it was not carried out at all.
   */
  lemma CarriedOutExactly(config: Config, actions: seq<Action>, k: nat)
    requires k < |Run(config, START, actions).history.results|
    requires Run(config, START, actions).history.results[k].Ok?
    ensures var h, missed := Run(config, START, actions).history, Misanswered(config, START, actions);
            && (CarriedOutOnce(h, k) <==> k !in missed)
            && (k in missed ==> h.performed[k] == 0)
  {
    hide Run, Misanswered;
    StartInv();
    RunKeepsInv(config, START, actions);
    RunKeepsAnswered(config, START, actions, {});
    var s, missed := Run(config, START, actions), Misanswered(config, START, actions);
    assert {} + missed == missed;
    assert s.history.performed[k] == Due(s.history, k);
    assert k in missed ==> NotCarriedOut(s, k);
  }

  /** Fewer than 255 errors in a row are a condition the host can check: then nothing is misanswered. */
  lemma {:induction false} ShortRunsAreSafe(config: Config, s: System, actions: seq<Action>)
    requires Inv(s) && AnswerInv(s) && ShortErrorRuns(Run(config, s, actions).history)
    ensures Misanswered(config, s, actions) == {}
    decreases |actions|
  {
    hide Inv, AnswerInv, ShortErrorRuns, Step, Misanswers;
    if actions != [] {
      var next := Step(config, s, actions[0]);
      RunShortErrorRuns(config, s, actions);
      StepKeepsInv(config, s, actions[0]);
      RunShortErrorRuns(config, next, actions[1..]);
      StepKeepsAnswers(config, s, actions[0]);
      NotMisanswered(s, actions[0]);
      ShortRunsAreSafe(config, next, actions[1..]);
    }
  }

  lemma NotMisanswered(s: System, a: Action)
    requires Inv(s) && AnswerInv(s) && ShortErrorRuns(s.history)
    ensures !Misanswers(s, a)
  {
    if Misanswers(s, a) {
      assert RequestInFlight(s.history, s.toDevice[0]);
      RetryIsSame(s, s.toDevice[0]);
    }
  }
}
