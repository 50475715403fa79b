/**
 The page viewer of the cartridge while nobody touches the keyboard: fetching a page, rotating
 through subpages and moving on automatically.
 */
module Viewer {
  import opened Bytes

  const FETCH_CONNECTING: byte := 1
  const FETCH_RECEIVING: byte := 2
  const FETCH_COMPLETE: byte := 3
  const FETCH_FAILED: byte := 4
  const CHUNK_SIZE: nat := 240
  const CHUNK_COUNT: nat := 4
  const SCREEN_SIZE: nat := 960
  const TRIES: nat := 1875
  const UNUSABLE: byte := 0x82
  const TIMED_OUT: byte := 0x81
  const INDEX_PAGE: nat := 100
  const LAST_PAGE: nat := 899

  // ---------------------------------------------------------------------------------------
  // One fetch

  /** How a request ended: a reply, an error of the Pico, or a failure of the link (1 to 3). */
  datatype Answer = Reply(payload: seq<byte>) | RemoteError(code: byte) | LinkError(result: nat)

  predicate ValidAnswer(answer: Answer) {
    answer.LinkError? ==> 1 <= answer.result <= 3
  }

  predicate ValidAnswers(answers: seq<Answer>) {
    forall i :: 0 <= i < |answers| ==> ValidAnswer(answers[i])
  }

  function ErrorOf(answer: Answer): byte
    requires ValidAnswer(answer) && !answer.Reply?
  {
    if answer.RemoteError? then answer.code else 0x80 + answer.result
  }

  function ExpectedStatusLength(version: nat): nat {
    if version >= 7 then 21 else if version >= 4 then 17 else if version == 3 then 13 else 5
  }

  /** What the status of a complete fetch says about other pages. */
  datatype Meta = Meta(nextSubpage: byte, hasLinks: bool, previousPage: nat, nextPage: nat)

  function MetaOf(version: nat, payload: seq<byte>): Meta
    requires |payload| == ExpectedStatusLength(version)
  {
    if version >= 4 then
      Meta(payload[4], true, payload[13] as nat + payload[14] as nat * 0x100, payload[15] as nat + payload[16] as nat * 0x100)
    else Meta(payload[4], false, 0, 0)
  }

  /** A fetch can still fail after the status has been taken over. */
  datatype Outcome = Failed(error: byte) | FailedLate(error: byte, meta: Meta) | Shown(meta: Meta, screen: seq<byte>)
  {
    predicate IsFailure() {
      !Shown?
    }
  }

  function Fetch(version: nat, answers: seq<Answer>): Outcome
    requires ValidAnswers(answers) && |answers| >= 1 + TRIES + CHUNK_COUNT
  {
    if !answers[0].Reply? then Failed(ErrorOf(answers[0]))
    else if answers[0].payload != [] then Failed(UNUSABLE)
    else Poll(version, answers[1..], TRIES)
  }

  function Poll(version: nat, answers: seq<Answer>, tries: nat): Outcome
    requires ValidAnswers(answers) && |answers| >= tries + CHUNK_COUNT
    decreases tries
  {
    if tries == 0 then Failed(TIMED_OUT)
    else if !answers[0].Reply? then Failed(ErrorOf(answers[0]))
    else
      var payload := answers[0].payload;
      if |payload| != ExpectedStatusLength(version) then Failed(UNUSABLE)
      else if payload[0] == FETCH_COMPLETE then Rows(MetaOf(version, payload), answers[1..], CHUNK_COUNT, [])
      else if payload[0] == FETCH_FAILED then Failed(payload[1])
      else if payload[0] != FETCH_CONNECTING && payload[0] != FETCH_RECEIVING then Failed(UNUSABLE)
      else Poll(version, answers[1..], tries - 1)
  }

  function Rows(meta: Meta, answers: seq<Answer>, chunks: nat, screen: seq<byte>): Outcome
    requires ValidAnswers(answers) && |answers| >= chunks
    decreases chunks
  {
    if chunks == 0 then Shown(meta, screen)
    else if !answers[0].Reply? then FailedLate(ErrorOf(answers[0]), meta)
    else if |answers[0].payload| != CHUNK_SIZE then FailedLate(UNUSABLE, meta)
    else Rows(meta, answers[1..], chunks - 1, screen + answers[0].payload)
  }

  // ---------------------------------------------------------------------------------------
  // What a fetch brings

  predicate IsStatus(version: nat, answer: Answer) {
    answer.Reply? && |answer.payload| == ExpectedStatusLength(version)
  }

  /** The Pico is still at work. */
  predicate StillFetching(version: nat, answer: Answer) {
    IsStatus(version, answer) && (answer.payload[0] == FETCH_CONNECTING || answer.payload[0] == FETCH_RECEIVING)
  }

  predicate IsChunk(answer: Answer) {
    answer.Reply? && |answer.payload| == CHUNK_SIZE
  }

  /** After n - 1 polls in vain the fetch is complete, and its screen arrives in four chunks. */
  ghost predicate Arrives(version: nat, answers: seq<Answer>, n: nat, meta: Meta, screen: seq<byte>)
    requires |answers| >= n + CHUNK_COUNT && n > 0
  {
    && (forall i :: 0 <= i < n - 1 ==> StillFetching(version, answers[i]))
    && IsStatus(version, answers[n - 1]) && answers[n - 1].payload[0] == FETCH_COMPLETE
    && meta == MetaOf(version, answers[n - 1].payload)
    && (forall i :: n <= i < n + CHUNK_COUNT ==> IsChunk(answers[i]))
    && screen == answers[n].payload + answers[n + 1].payload + answers[n + 2].payload + answers[n + 3].payload
  }

  lemma RowsArrive(meta: Meta, answers: seq<Answer>)
    requires ValidAnswers(answers) && |answers| >= CHUNK_COUNT
    ensures Rows(meta, answers, CHUNK_COUNT, []).Shown? <==> forall i :: 0 <= i < CHUNK_COUNT ==> IsChunk(answers[i])
    ensures Rows(meta, answers, CHUNK_COUNT, []).Shown? ==>
              Rows(meta, answers, CHUNK_COUNT, []) ==
              Shown(meta, answers[0].payload + answers[1].payload + answers[2].payload + answers[3].payload)
  {
    RowsStep(meta, answers, 0, []);
    if IsChunk(answers[0]) {
      var one := [] + answers[0].payload;
      assert one == answers[0].payload;
      RowsStep(meta, answers, 1, one);
      if IsChunk(answers[1]) {
        var two := one + answers[1].payload;
        RowsStep(meta, answers, 2, two);
        if IsChunk(answers[2]) {
          RowsStep(meta, answers, 3, two + answers[2].payload);
        }
      }
    }
  }

  lemma RowsStep(meta: Meta, answers: seq<Answer>, n: nat, screen: seq<byte>)
    requires ValidAnswers(answers) && n < CHUNK_COUNT <= |answers|
    ensures !IsChunk(answers[n]) ==> !Rows(meta, answers[n..], CHUNK_COUNT - n, screen).Shown?
    ensures IsChunk(answers[n]) ==>
              Rows(meta, answers[n..], CHUNK_COUNT - n, screen) ==
              if n == CHUNK_COUNT - 1 then Shown(meta, screen + answers[n].payload)
              else Rows(meta, answers[n + 1..], CHUNK_COUNT - n - 1, screen + answers[n].payload)
    ensures n == 0 ==> answers[n..] == answers
  {
    assert answers[n..][1..] == answers[n + 1..];
  }

  lemma {:induction false} PollShows(version: nat, answers: seq<Answer>, tries: nat) returns (n: nat)
    requires ValidAnswers(answers) && |answers| >= tries + CHUNK_COUNT
    ensures Poll(version, answers, tries).Shown? ==>
              && 1 <= n <= tries
              && Arrives(version, answers, n, Poll(version, answers, tries).meta, Poll(version, answers, tries).screen)
    decreases tries
  {
    hide Rows;
    n := 1;
    if tries > 0 && IsStatus(version, answers[0]) {
      if answers[0].payload[0] == FETCH_COMPLETE {
        RowsArrive(MetaOf(version, answers[0].payload), answers[1..]);
        var rest := answers[1..];
        assert forall i :: 1 <= i < 1 + CHUNK_COUNT ==> answers[i] == rest[i - 1];
      } else if StillFetching(version, answers[0]) {
        var m := PollShows(version, answers[1..], tries - 1);
        n := m + 1;
        if Poll(version, answers, tries).Shown? {
          ArrivesLater(version, answers, m, Poll(version, answers, tries).meta, Poll(version, answers, tries).screen);
        }
      }
    }
  }

  lemma ArrivesLater(version: nat, answers: seq<Answer>, n: nat, meta: Meta, screen: seq<byte>)
    requires n > 0 && |answers| >= n + 1 + CHUNK_COUNT && StillFetching(version, answers[0])
    ensures Arrives(version, answers, n + 1, meta, screen) <==> Arrives(version, answers[1..], n, meta, screen)
  {
    var rest := answers[1..];
    assert forall i :: 0 <= i < |rest| ==> rest[i] == answers[i + 1];
    if Arrives(version, answers, n + 1, meta, screen) {
      forall i | n <= i < n + CHUNK_COUNT
        ensures IsChunk(rest[i])
      {
        assert IsChunk(answers[i + 1]);
      }
      forall i | 0 <= i < n - 1
        ensures StillFetching(version, rest[i])
      {
        assert StillFetching(version, answers[i + 1]);
      }
    }
    if Arrives(version, rest, n, meta, screen) {
      forall i | n + 1 <= i < n + 1 + CHUNK_COUNT
        ensures IsChunk(answers[i])
      {
        assert IsChunk(rest[i - 1]);
      }
      forall i | 0 <= i < n
        ensures StillFetching(version, answers[i])
      {
        assert i > 0 ==> StillFetching(version, rest[i - 1]);
      }
    }
  }

  lemma {:induction false} ArrivingIsShown(version: nat, answers: seq<Answer>, tries: nat, n: nat, meta: Meta, screen: seq<byte>)
    requires ValidAnswers(answers) && |answers| >= tries + CHUNK_COUNT
    requires 1 <= n <= tries && Arrives(version, answers, n, meta, screen)
    ensures Poll(version, answers, tries) == Shown(meta, screen)
    decreases tries
  {
    hide Rows;
    if n == 1 {
      assert forall i :: 0 <= i < CHUNK_COUNT ==> answers[1..][i] == answers[1 + i];
      RowsArrive(meta, answers[1..]);
    } else {
      assert StillFetching(version, answers[0]);
      ArrivesLater(version, answers, n - 1, meta, screen);
      ArrivingIsShown(version, answers[1..], tries - 1, n - 1, meta, screen);
    }
  }

  /** A page is shown exactly when it arrives in time, and then as it arrived, with the links of that status. */
  lemma FetchShowsWhatArrives(version: nat, answers: seq<Answer>, meta: Meta, screen: seq<byte>)
    requires ValidAnswers(answers) && |answers| >= 1 + TRIES + CHUNK_COUNT
    ensures Fetch(version, answers) == Shown(meta, screen) <==>
            && answers[0] == Reply([])
            && exists n :: 1 <= n <= TRIES && Arrives(version, answers[1..], n, meta, screen)
  {
    hide Poll;
    if answers[0] == Reply([]) {
      var n := PollShows(version, answers[1..], TRIES);
      forall m | 1 <= m <= TRIES && Arrives(version, answers[1..], m, meta, screen)
        ensures Poll(version, answers[1..], TRIES) == Shown(meta, screen)
      {
        ArrivingIsShown(version, answers[1..], TRIES, m, meta, screen);
      }
    }
  }

  // ---------------------------------------------------------------------------------------
  // The navigation state

  datatype View = View(page: nat, subpage: byte, nextSubpage: byte, previousPage: nat, nextPage: nat,
                       paused: bool, cycleStarted: bool, auto: bool, retry: bool, error: byte)

  function TakeOver(v: View, meta: Meta): View {
    v.(nextSubpage := meta.nextSubpage,
       previousPage := if !meta.hasLinks then 0
                       else if v.subpage == 0 || meta.previousPage != 0 then meta.previousPage else v.previousPage,
       nextPage := if !meta.hasLinks then 0
                   else if v.subpage == 0 || meta.nextPage != 0 then meta.nextPage else v.nextPage)
  }

  function AfterFetch(v: View, outcome: Outcome): View {
    match outcome
    case Failed(error) => v.(error := error)
    case FailedLate(error, meta) => TakeOver(v, meta).(error := error)
    case Shown(meta, _) =>
      TakeOver(v, meta).(error := 0, cycleStarted := v.cycleStarted || meta.nextSubpage != 0)
  }

  /** Errors that concern the page itself. */
  predicate Skips(error: byte) {
    5 <= error <= 8
  }

  function AfterAutoFailure(v: View): View {
    if v.page == INDEX_PAGE then v.(auto := false)
    else v.(page := if !Skips(v.error) then v.page else if v.page == LAST_PAGE then INDEX_PAGE else v.page + 1,
            retry := true)
  }

  function RequestAuto(v: View, page: nat, outcome: Outcome): View {
    var fetched := AfterFetch(v.(page := page, subpage := 0, cycleStarted := false), outcome);
    if outcome.Shown? then fetched else AfterAutoFailure(fetched)
  }

  predicate GoesOn(v: View) {
    v.nextSubpage != 0 && v.nextSubpage > v.subpage
  }

  function Rotate(v: View, outcome: Outcome): View {
    var turned := if GoesOn(v) then v.(subpage := v.nextSubpage) else v.(subpage := 0, cycleStarted := false);
    var fetched := AfterFetch(turned, outcome);
    if outcome.Shown? then fetched
    else if v.auto then AfterAutoFailure(fetched)
    else fetched.(nextSubpage := 0, cycleStarted := false)
  }

  /** Without a key, something happens when the timer runs out. */
  predicate Enabled(v: View) {
    !v.paused && (v.auto || v.nextSubpage != 0 || v.cycleStarted)
  }

  function AutoTarget(v: View): nat {
    if v.retry then v.page else if v.nextPage != 0 then v.nextPage else INDEX_PAGE
  }

  function Tick(v: View, outcome: Outcome): View {
    if !Enabled(v) then v
    else if v.nextSubpage != 0 && (!v.auto || v.nextSubpage > v.subpage) then Rotate(v, outcome)
    else if v.auto then RequestAuto(v.(retry := false), AutoTarget(v), outcome)
    else Rotate(v, outcome)
  }

  // ---------------------------------------------------------------------------------------
  // The viewer

  class Viewer {
    var page: nat
    var subpage: byte
    var nextSubpage: byte
    var previousPage: nat
    var nextPage: nat
    var paused: bool
    var cycleStarted: bool
    var auto: bool
    var retry: bool
    var error: byte
    const screen: array<byte>

    ghost predicate Valid()
      reads this
    {
      screen.Length == SCREEN_SIZE
    }

    ghost function Now(): View
      reads this
    {
      View(page, subpage, nextSubpage, previousPage, nextPage, paused, cycleStarted, auto, retry, error)
    }

    /** The state after a source has been chosen. */
    constructor (startedAutomatically: bool)
      ensures Valid() && fresh(screen)
      ensures Now() == View(INDEX_PAGE, 0, 0, 0, 0, false, false, startedAutomatically, false, 0)
    {
      page, subpage, nextSubpage, previousPage, nextPage := INDEX_PAGE, 0, 0, 0, 0;
      paused, cycleStarted, auto, retry, error := false, false, startedAutomatically, false, 0;
      screen := new byte[SCREEN_SIZE];
    }

    method FailFetch(code: byte) returns (ok: bool)
      modifies this`error
      ensures !ok && error == code
    {
      error := code;
      return false;
    }

    /** A page, its metadata and its four chunks, from the answers to the requests made. */
    method FetchPage(version: nat, answers: seq<Answer>) returns (ok: bool)
      requires Valid() && ValidAnswers(answers) && |answers| >= 1 + TRIES + CHUNK_COUNT
      modifies this`error, this`nextSubpage, this`previousPage, this`nextPage, this`cycleStarted, screen
      ensures ok <==> Fetch(version, answers).Shown?
      ensures Now() == AfterFetch(old(Now()), Fetch(version, answers))
      ensures ok ==> screen[..] == Fetch(version, answers).screen
    {
      hide Poll, Rows, MetaOf;
      error := 0;
      if !answers[0].Reply? {
        ok := FailFetch(ErrorOf(answers[0]));
        return;
      }
      if answers[0].payload != [] {
        ok := FailFetch(UNUSABLE);
        return;
      }
      var status, next, failure := PollStatus(version, answers);
      if failure.Some? {
        ok := FailFetch(failure.value);
        return;
      }
      TakeStatus(version, status);
      var broken := ReadRows(MetaOf(version, status), answers, next);
      if broken.Some? {
        ok := FailFetch(broken.value);
        return;
      }
      if nextSubpage != 0 {
        cycleStarted := true;
      }
      return true;
    }

    /** The links of a status; an empty link of a later subpage does not displace the one known. */
    method TakeStatus(version: nat, status: seq<byte>)
      requires |status| == ExpectedStatusLength(version)
      modifies this`nextSubpage, this`previousPage, this`nextPage
      ensures Now() == TakeOver(old(Now()), MetaOf(version, status))
      ensures nextSubpage == MetaOf(version, status).nextSubpage
    {
      nextSubpage := status[4];
      if version >= 4 {
        var previous := status[13] as nat + status[14] as nat * 0x100;
        var following := status[15] as nat + status[16] as nat * 0x100;
        if subpage == 0 || previous != 0 {
          previousPage := previous;
        }
        if subpage == 0 || following != 0 {
          nextPage := following;
        }
      } else {
        previousPage, nextPage := 0, 0;
      }
    }

    method PollStatus(version: nat, answers: seq<Answer>) returns (status: seq<byte>, next: nat, failure: Option<byte>)
      requires ValidAnswers(answers) && |answers| >= 1 + TRIES + CHUNK_COUNT
      ensures failure.Some? ==> Poll(version, answers[1..], TRIES) == Failed(failure.value)
      ensures failure.None? ==>
                && next + CHUNK_COUNT <= |answers| && |status| == ExpectedStatusLength(version)
                && Poll(version, answers[1..], TRIES) == Rows(MetaOf(version, status), answers[next..], CHUNK_COUNT, [])
    {
      hide Rows, Poll;
      next := 1;
      var tries := TRIES;
      while tries != 0
        invariant next + tries == 1 + TRIES
        invariant Poll(version, answers[1..], TRIES) == Poll(version, answers[next..], tries)
        decreases tries
      {
        var answer := answers[next];
        PollStep(version, answers, next, tries);
        next, tries := next + 1, tries - 1;
        if !answer.Reply? {
          return [], next, Some(ErrorOf(answer));
        }
        if |answer.payload| != ExpectedStatusLength(version) {
          return [], next, Some(UNUSABLE);
        }
        if answer.payload[0] == FETCH_COMPLETE {
          return answer.payload, next, None;
        }
        if answer.payload[0] == FETCH_FAILED {
          return [], next, Some(answer.payload[1]);
        }
        if answer.payload[0] != FETCH_CONNECTING && answer.payload[0] != FETCH_RECEIVING {
          return [], next, Some(UNUSABLE);
        }
      }
      PollEnds(version, answers[next..]);
      return [], next, Some(TIMED_OUT);
    }

    method ReadRows(meta: Meta, answers: seq<Answer>, start: nat) returns (failure: Option<byte>)
      requires Valid() && ValidAnswers(answers) && start + CHUNK_COUNT <= |answers|
      modifies screen
      ensures failure.Some? ==> Rows(meta, answers[start..], CHUNK_COUNT, []) == FailedLate(failure.value, meta)
      ensures failure.None? ==> Rows(meta, answers[start..], CHUNK_COUNT, []) == Shown(meta, screen[..])
    {
      for chunk := 0 to CHUNK_COUNT
        invariant Rows(meta, answers[start..], CHUNK_COUNT, []) ==
                  Rows(meta, answers[start + chunk..], CHUNK_COUNT - chunk, screen[..chunk * CHUNK_SIZE])
      {
        var answer := answers[start + chunk];
        assert answers[start + chunk..][1..] == answers[start + chunk + 1..];
        if !answer.Reply? {
          return Some(ErrorOf(answer));
        }
        if |answer.payload| != CHUNK_SIZE {
          return Some(UNUSABLE);
        }
        ghost var before := screen[..chunk * CHUNK_SIZE];
        forall i | 0 <= i < CHUNK_SIZE {
          screen[chunk * CHUNK_SIZE + i] := answer.payload[i];
        }
        assert screen[..(chunk + 1) * CHUNK_SIZE] == before + answer.payload;
      }
      assert screen[..CHUNK_COUNT * CHUNK_SIZE] == screen[..];
      return None;
    }

    method HandleAutoFailure()
      modifies this`auto, this`page, this`retry
      ensures Now() == AfterAutoFailure(old(Now()))
    {
      if page == INDEX_PAGE {
        auto := false;
        return;
      }
      if 5 <= error <= 8 {
        page := page + 1;
        if page == 900 {
          page := INDEX_PAGE;
        }
      }
      retry := true;
    }

    method RequestAutoPage(target: nat, version: nat, answers: seq<Answer>)
      requires Valid() && ValidAnswers(answers) && |answers| >= 1 + TRIES + CHUNK_COUNT
      modifies this, screen
      ensures Now() == RequestAuto(old(Now()), target, Fetch(version, answers))
    {
      hide Fetch;
      page, subpage, cycleStarted := target, 0, false;
      var ok := FetchPage(version, answers);
      if !ok {
        HandleAutoFailure();
      }
    }

    method RotateSubpage(version: nat, answers: seq<Answer>)
      requires Valid() && ValidAnswers(answers) && |answers| >= 1 + TRIES + CHUNK_COUNT
      modifies this, screen
      ensures Now() == Rotate(old(Now()), Fetch(version, answers))
    {
      hide Fetch;
      if nextSubpage != 0 && nextSubpage > subpage {
        subpage := nextSubpage;
      } else {
        subpage, cycleStarted := 0, false;
      }
      var ok := FetchPage(version, answers);
      if !ok {
        if auto {
          HandleAutoFailure();
        } else {
          nextSubpage, cycleStarted := 0, false;
        }
      }
    }

    /** The branch of the viewer loop that is taken when the timer has run out. */
    method TimerTick(version: nat, answers: seq<Answer>)
      requires Valid() && ValidAnswers(answers) && |answers| >= 1 + TRIES + CHUNK_COUNT
      modifies this, screen
      ensures Now() == Tick(old(Now()), Fetch(version, answers))
    {
      hide Fetch, Rotate, RequestAuto;
      if !paused && (auto || nextSubpage != 0 || cycleStarted) {
        if nextSubpage != 0 && (!auto || nextSubpage > subpage) {
          RotateSubpage(version, answers);
        } else if auto {
          var target := if retry then page else if nextPage != 0 then nextPage else INDEX_PAGE;
          retry := false;
          RequestAutoPage(target, version, answers);
        } else {
          RotateSubpage(version, answers);
        }
      }
    }
  }

  lemma PollEnds(version: nat, answers: seq<Answer>)
    requires ValidAnswers(answers) && |answers| >= CHUNK_COUNT
    ensures Poll(version, answers, 0) == Failed(TIMED_OUT)
  {
  }

  /** One status request. */
  lemma PollStep(version: nat, answers: seq<Answer>, next: nat, tries: nat)
    requires ValidAnswers(answers) && tries > 0 && next + tries + CHUNK_COUNT <= |answers|
    ensures var answer, polled := answers[next], Poll(version, answers[next..], tries);
            && (!answer.Reply? ==> polled == Failed(ErrorOf(answer)))
            && (answer.Reply? && |answer.payload| != ExpectedStatusLength(version) ==> polled == Failed(UNUSABLE))
            && (answer.Reply? && |answer.payload| == ExpectedStatusLength(version) ==>
                  polled ==
                  if answer.payload[0] == FETCH_COMPLETE then
                    Rows(MetaOf(version, answer.payload), answers[next + 1..], CHUNK_COUNT, [])
                  else if answer.payload[0] == FETCH_FAILED then Failed(answer.payload[1])
                  else if answer.payload[0] == FETCH_CONNECTING || answer.payload[0] == FETCH_RECEIVING then
                    Poll(version, answers[next + 1..], tries - 1)
                  else Failed(UNUSABLE))
  {
    hide Rows, MetaOf;
    assert answers[next..][1..] == answers[next + 1..];
  }

  // ---------------------------------------------------------------------------------------
  // Automatic runs

  predicate IsPage(page: nat) {
    INDEX_PAGE <= page <= LAST_PAGE
  }

  /** The Pico passes on no other links than zero and page numbers. */
  predicate ValidMeta(meta: Meta) {
    meta.nextPage == 0 || IsPage(meta.nextPage)
  }

  predicate ValidOutcome(outcome: Outcome) {
    outcome.Failed? || ValidMeta(outcome.meta)
  }

  predicate InRange(v: View) {
    IsPage(v.page) && (v.nextPage == 0 || IsPage(v.nextPage))
  }

  /** Whatever the fetches bring, the viewer stays on pages that exist. */
  lemma TickStaysInRange(v: View, outcome: Outcome)
    requires InRange(v) && ValidOutcome(outcome)
    ensures InRange(Tick(v, outcome))
  {
  }

  function Run(v: View, outcomes: seq<Outcome>): View
    decreases |outcomes|
  {
    if outcomes == [] then v else Run(Tick(v, outcomes[0]), outcomes[1..])
  }

  lemma {:induction false} RunStaysInRange(v: View, outcomes: seq<Outcome>)
    requires InRange(v) && forall i :: 0 <= i < |outcomes| ==> ValidOutcome(outcomes[i])
    ensures InRange(Run(v, outcomes))
    decreases |outcomes|
  {
    if outcomes != [] {
      TickStaysInRange(v, outcomes[0]);
      RunStaysInRange(Tick(v, outcomes[0]), outcomes[1..]);
    }
  }

  /** All links of the run are valid, but for the one given. */
  predicate LinksWithin(outcomes: seq<Outcome>, link: nat) {
    forall i :: 0 <= i < |outcomes| ==> ValidOutcome(outcomes[i]) || outcomes[i].meta.nextPage == link
  }

  ghost predicate KeepsToPages(link: nat) {
    forall v, outcomes :: InRange(v) && LinksWithin(outcomes, link) ==> IsPage(Run(v, outcomes).page)
  }

  /** The cartridge itself checks no link: exactly the valid ones keep it on pages that exist. */
  lemma LinksExactly(link: nat)
    ensures KeepsToPages(link) <==> link == 0 || IsPage(link)
  {
    if link == 0 || IsPage(link) {
      forall v, outcomes | InRange(v) && LinksWithin(outcomes, link)
        ensures IsPage(Run(v, outcomes).page)
      {
        RunStaysInRange(v, outcomes);
      }
    } else {
      var v := View(INDEX_PAGE, 0, 0, 0, 0, false, false, true, false, 0);
      var shown, failed := Shown(Meta(0, true, 0, link), []), Failed(1);
      RunTwo(v, shown, failed);
      assert Tick(Tick(v, shown), failed).page == link;
      assert LinksWithin([shown, failed], link);
    }
  }

  lemma RunTwo(v: View, a: Outcome, b: Outcome)
    ensures Run(v, [a, b]) == Tick(Tick(v, a), b)
  {
    hide Tick;
    assert [a, b][1..] == [b] && [b][1..] == [];
    assert Run(Tick(v, a), [b]) == Run(Tick(Tick(v, a), b), []);
  }

  predicate SkippingFailure(outcome: Outcome) {
    outcome.IsFailure() && Skips(outcome.error)
  }

  /** The page the next tick asks for. */
  function NextTarget(v: View): nat {
    if v.nextSubpage != 0 && v.nextSubpage > v.subpage then v.page else AutoTarget(v)
  }

  /** Whichever page comes next exists; a link that is not going to be followed may be anything. */
  predicate AimsAtPage(v: View) {
    IsPage(v.page) && (v.retry || v.nextPage == 0 || IsPage(v.nextPage))
  }

  /** How many failing fetches an automatic run still has before it: one for each page up to the index. */
  function Remaining(v: View): (n: nat)
    requires AimsAtPage(v)
    ensures 1 <= n <= 800
  {
    if NextTarget(v) == INDEX_PAGE then 1 else LAST_PAGE + 2 - NextTarget(v)
  }

  predicate RunsAutomatically(v: View) {
    AimsAtPage(v) && v.auto && !v.paused
  }

  /** One failure: the run goes on with the page after the one asked for, or it ends on the index page. */
  lemma FailureMovesOn(v: View, outcome: Outcome)
    requires RunsAutomatically(v) && SkippingFailure(outcome)
    ensures var w := Tick(v, outcome);
            if Remaining(v) == 1 then w.page == INDEX_PAGE && !w.auto && !w.paused
            else RunsAutomatically(w) && w.retry && Remaining(w) == Remaining(v) - 1
                 && NextTarget(w) == w.page == if NextTarget(v) == LAST_PAGE then INDEX_PAGE else NextTarget(v) + 1
  {
  }

  /**
   A run in which every fetch fails this way asks for one page after the other and ends after a number of
   fetches known beforehand, at most 800, on the index page with the automatic mode off.
   */
  lemma {:induction false} FailingRunEnds(v: View, outcomes: seq<Outcome>)
    requires RunsAutomatically(v) && |outcomes| <= Remaining(v)
    requires forall i :: 0 <= i < |outcomes| ==> SkippingFailure(outcomes[i])
    ensures var w := Run(v, outcomes);
            if |outcomes| == Remaining(v) then w.page == INDEX_PAGE && !w.auto && !w.paused
            else RunsAutomatically(w) && Remaining(w) == Remaining(v) - |outcomes|
    decreases |outcomes|
  {
    if outcomes != [] {
      FailureMovesOn(v, outcomes[0]);
      if Remaining(v) == 1 {
        assert outcomes[1..] == [];
      } else {
        FailingRunEnds(Tick(v, outcomes[0]), outcomes[1..]);
      }
    }
  }

  /** Behind the end at most one more subpage is asked for; then nothing happens any more. */
  lemma {:induction false} QuietAfterEnd(v: View, first: Outcome, outcomes: seq<Outcome>)
    requires !v.auto && first.IsFailure()
    ensures var w := Tick(v, first); !Enabled(w) && Run(w, outcomes) == w && w.page == v.page && !w.auto
    decreases |outcomes|
  {
    if outcomes != [] {
      assert Tick(Tick(v, first), outcomes[0]) == Tick(v, first);
      QuietAfterEnd(v, first, outcomes[1..]);
    }
  }

  /** Eight hundred fetches can really be needed. */
  lemma LongestRun()
    ensures Remaining(View(100, 0, 0, 0, 101, false, false, true, false, 0)) == 800
  {
  }

  /**
   Only failures of the page itself make the viewer move on: with any other error, away from the index
   page, it asks for the same page again and again, however long the run.
   */
  lemma {:induction false} OtherErrorsRetryForever(v: View, outcomes: seq<Outcome>)
    requires RunsAutomatically(v) && v.retry && v.page != INDEX_PAGE
    requires forall i :: 0 <= i < |outcomes| ==>
               outcomes[i].IsFailure() && !Skips(outcomes[i].error)
    ensures var w := Run(v, outcomes); RunsAutomatically(w) && w.retry && w.page == v.page && NextTarget(w) == v.page
    decreases |outcomes|
  {
    if outcomes != [] {
      OtherErrorsRetryForever(Tick(v, outcomes[0]), outcomes[1..]);
    }
  }
}
