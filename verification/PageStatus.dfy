/**
 The status of a fetch: the bytes the Pico writes for each revision of the protocol, and what the viewer of
 the cartridge reads in them.
 */
module PageStatus {
  import opened Bytes
  import opened Clock
  import opened Viewer

  const NETWORK: byte := 4
  const DNS: byte := 9
  const RESPONSE_SIZE: nat := 512

  /** What core 0 has published about the fetch; the lwIP error is a signed byte taken as it is stored. */
  datatype Report = Report(
    state: byte, error: byte, received: nat, nextSubpage: byte, previousPage: uint16, nextPage: uint16,
    httpResult: byte, lwipError: byte, httpStatus: uint16)

  function LowHigh(value: uint16): (bytes: seq<byte>)
    ensures |bytes| == 2
  {
    [value % 0x100, value / 0x100]
  }

  /** Errors from name lookup on are newer than version 7; before, they were all errors of the network. */
  function ErrorFor(version: byte, error: byte): byte {
    if version < 7 && error >= 9 then 4 else error
  }

  function StartBytes(version: byte, r: Report): seq<byte> {
    [r.state, ErrorFor(version, r.error)] + LowHigh(if r.received > 0xffff then 0xffff else r.received) + [r.nextSubpage]
  }

  function ClockBytes(clockValid: bool, clock: Components): seq<byte> {
    [clock.hour, clock.minute, clock.second, if clockValid then 1 else 0, clock.day, clock.month, clock.year, clock.weekday]
  }

  function DetailBytes(r: Report): seq<byte> {
    [r.httpResult, r.lwipError] + LowHigh(r.httpStatus)
  }

  /** The fields of the status in the order the protocol lists them. */
  function StatusPayload(version: byte, r: Report, clockValid: bool, clock: Components): seq<byte> {
    StartBytes(version, r)
    + (if version < 3 then [] else ClockBytes(clockValid, clock))
    + (if version < 4 then [] else LowHigh(r.previousPage) + LowHigh(r.nextPage))
    + (if version < 7 then [] else DetailBytes(r))
  }

  method PutStart(version: byte, report: Report, response: array<byte>)
    requires response.Length == RESPONSE_SIZE
    modifies response
    ensures response[..5] == StartBytes(version, report)
  {
    var received := report.received;
    if received > 0xffff {
      received := 0xffff;
    }
    var fetchError := report.error;
    if version < 7 && fetchError >= DNS {
      fetchError := NETWORK;
    }
    response[0], response[1], response[4] := report.state, fetchError, report.nextSubpage;
    response[2], response[3] := received % 0x100, received / 0x100;
  }

  method PutClock(clockValid: bool, clock: Components, response: array<byte>)
    requires response.Length == RESPONSE_SIZE
    modifies response
    ensures response[..13] == old(response[..5]) + ClockBytes(clockValid, clock)
  {
    response[5], response[6], response[7] := clock.hour, clock.minute, clock.second;
    response[8] := if clockValid then 1 else 0;
    response[9], response[10], response[11], response[12] := clock.day, clock.month, clock.year, clock.weekday;
  }

  method PutLinks(report: Report, response: array<byte>)
    requires response.Length == RESPONSE_SIZE
    modifies response
    ensures response[..17] == old(response[..13]) + (LowHigh(report.previousPage) + LowHigh(report.nextPage))
  {
    response[13], response[14] := report.previousPage % 0x100, report.previousPage / 0x100;
    response[15], response[16] := report.nextPage % 0x100, report.nextPage / 0x100;
  }

  method PutDetails(report: Report, response: array<byte>)
    requires response.Length == RESPONSE_SIZE
    modifies response
    ensures response[..21] == old(response[..17]) + DetailBytes(report)
  {
    response[17], response[18] := report.httpResult, report.lwipError;
    response[19], response[20] := report.httpStatus % 0x100, report.httpStatus / 0x100;
  }

  /** pico_teletekst_fetch_status with the time of day; the payload of the response is filled from the left. */
  method FetchStatus(version: byte, report: Report, now: uint32, response: array<byte>)
    returns (length: nat, clockValid: bool, clock: Components)
    requires response.Length == RESPONSE_SIZE
    modifies response
    ensures length <= RESPONSE_SIZE && response[..length] == StatusPayload(version, report, clockValid, clock)
    ensures version >= 3 ==> (clockValid <==> now != 0)
    ensures version >= 3 && !clockValid ==> clock == Components(0, 0, 0, 0, 0, 0, 0)
    ensures version >= 3 ==> forall year :: 2000 <= year <= 2105 && InYear(now / DAY, year) ==>
              Shows(clock, now as nat + if FirmwareSummer(year, now) then 7200 else 3600)
  {
    hide StartBytes, ClockBytes, LowHigh, DetailBytes, Shows, InYear, FirmwareSummer;
    clockValid, clock := false, Components(0, 0, 0, 0, 0, 0, 0);
    PutStart(version, report, response);
    length := 5;
    if version >= 3 {
      clockValid, clock := LocalComponents(now);
      PutClock(clockValid, clock, response);
      if version >= 4 {
        PutLinks(report, response);
        if version >= 7 {
          PutDetails(report, response);
        }
      }
      length := if version >= 7 then 21 else if version >= 4 then 17 else 13;
    }
  }

  // ---------------------------------------------------------------------------------------
  // What the cartridge reads

  /** The links of the status; before version 4 there are none. */
  function LinksFor(version: byte, r: Report): Meta {
    if version >= 4 then Meta(r.nextSubpage, true, r.previousPage, r.nextPage) else Meta(r.nextSubpage, false, 0, 0)
  }

  /** The viewer finds the links the Pico has written. */
  lemma LinksArrive(version: byte, r: Report, clockValid: bool, clock: Components)
    requires version >= 2
    ensures |StatusPayload(version, r, clockValid, clock)| == ExpectedStatusLength(version)
    ensures MetaOf(version, StatusPayload(version, r, clockValid, clock)) == LinksFor(version, r)
  {
  }

  /** What one status makes of a fetch. */
  lemma StatusDecides(version: byte, r: Report, clockValid: bool, clock: Components, answers: seq<Answer>, tries: nat)
    requires version >= 2 && tries > 0 && ValidAnswers(answers) && |answers| >= tries + CHUNK_COUNT
    requires answers[0] == Reply(StatusPayload(version, r, clockValid, clock))
    ensures Poll(version, answers, tries) ==
            match r.state
            case 1 => Poll(version, answers[1..], tries - 1)
            case 2 => Poll(version, answers[1..], tries - 1)
            case 3 => Rows(LinksFor(version, r), answers[1..], 4, [])
            case 4 => Failed(ErrorFor(version, r.error))
            case _ => Failed(0x82)
  {
    hide Rows, MetaOf;
    LinksArrive(version, r, clockValid, clock);
  }

  /** How a fetch ends that does not get as far as a status. */
  lemma StartDecides(version: byte, answers: seq<Answer>)
    requires ValidAnswers(answers) && |answers| >= 1 + TRIES + CHUNK_COUNT
    ensures Fetch(version, answers) ==
            match answers[0]
            case RemoteError(code) => Failed(code)
            case LinkError(result) => Failed(if result == 1 then 0x81 else if result == 2 then 0x82 else 0x83)
            case Reply(payload) => if payload != [] then Failed(0x82) else Poll(version, answers[1..], 1875)
  {
  }

  /** A fetch that the Pico completes in time shows the rows sent and goes by the links of that status. */
  lemma CompleteFetch(version: byte, answers: seq<Answer>, n: nat, r: Report, clockValid: bool, clock: Components,
                      a: seq<byte>, b: seq<byte>, c: seq<byte>, d: seq<byte>)
    requires version >= 2 && ValidAnswers(answers) && |answers| >= 1 + TRIES + CHUNK_COUNT
    requires 1 <= n <= TRIES && answers[0] == Reply([])
    requires forall i :: 1 <= i < n ==> StillFetching(version, answers[i])
    requires r.state == 3 && answers[n] == Reply(StatusPayload(version, r, clockValid, clock))
    requires answers[n + 1] == Reply(a) && answers[n + 2] == Reply(b) && answers[n + 3] == Reply(c) && answers[n + 4] == Reply(d)
    requires |a| == |b| == |c| == |d| == 240
    ensures Fetch(version, answers) == Shown(LinksFor(version, r), a + b + c + d)
  {
    LinksArrive(version, r, clockValid, clock);
    assert StatusPayload(version, r, clockValid, clock)[0] == FETCH_COMPLETE;
    var rest := answers[1..];
    hide StatusPayload, MetaOf, Fetch;
    forall i | 0 <= i < n - 1
      ensures StillFetching(version, rest[i])
    {
      assert rest[i] == answers[i + 1];
    }
    assert rest[n - 1] == answers[n];
    assert rest[n] == Reply(a) && rest[n + 1] == Reply(b) && rest[n + 2] == Reply(c) && rest[n + 3] == Reply(d);
    assert Arrives(version, rest, n, LinksFor(version, r), a + b + c + d);
    FetchShowsWhatArrives(version, answers, LinksFor(version, r), a + b + c + d);
  }

  /** The clock of the page header, where the protocol has one. */
  function ClockOf(version: byte, payload: seq<byte>): Option<Components>
    requires |payload| == ExpectedStatusLength(version)
  {
    if version >= 3 && payload[8] != 0 then
      Some(Components(payload[5], payload[6], payload[7], payload[9], payload[10], payload[11], payload[12]))
    else None
  }

  datatype Details = Details(httpResult: byte, lwipError: byte, httpStatus: uint16)

  function DetailsOf(version: byte, payload: seq<byte>): Option<Details>
    requires |payload| == ExpectedStatusLength(version)
  {
    if version >= 7 then Some(Details(payload[17], payload[18], payload[19] as nat + payload[20] as nat * 0x100)) else None
  }

  lemma ClockArrives(version: byte, r: Report, clockValid: bool, clock: Components)
    requires version >= 2
    ensures |StatusPayload(version, r, clockValid, clock)| == ExpectedStatusLength(version)
    ensures ClockOf(version, StatusPayload(version, r, clockValid, clock)) ==
            if version >= 3 && clockValid then Some(clock) else None
    ensures DetailsOf(version, StatusPayload(version, r, clockValid, clock)) ==
            if version >= 7 then Some(Details(r.httpResult, r.lwipError, r.httpStatus)) else None
  {
  }

  // ---------------------------------------------------------------------------------------
  // Where the viewer goes next

  /** After a page that the Pico reported complete, the automatic mode asks for the link to the next page, or for 100. */
  lemma FollowsTheLink(v: View, version: byte, r: Report, screen: seq<byte>, next: Outcome)
    requires v.auto && !v.paused && !v.retry && v.subpage == 0 && r.nextSubpage == 0 && next.Shown?
    ensures var after := AfterFetch(v, Shown(LinksFor(version, r), screen));
            var target := if version >= 4 && r.nextPage != 0 then r.nextPage else 100;
            && after.previousPage == (if version >= 4 then r.previousPage else 0)
            && AutoTarget(after) == target
            && Tick(after, next).page == target && Tick(after, next).subpage == 0
  {
  }

  /** A later subpage may leave its links out; then those known already stay. */
  lemma KeepsTheLink(v: View, version: byte, r: Report, screen: seq<byte>)
    requires v.subpage != 0 && version >= 4
    ensures var after := AfterFetch(v, Shown(LinksFor(version, r), screen));
            && after.nextPage == (if r.nextPage != 0 then r.nextPage else v.nextPage)
            && after.previousPage == (if r.previousPage != 0 then r.previousPage else v.previousPage)
  {
  }

  /** Subpages come before the next page: the next higher one, as long as there is one. */
  lemma TurnsToSubpage(v: View, version: byte, r: Report, screen: seq<byte>, next: Outcome)
    requires !v.paused && r.nextSubpage > v.subpage && next.Shown?
    ensures var after := AfterFetch(v, Shown(LinksFor(version, r), screen));
            Tick(after, next).page == v.page && Tick(after, next).subpage == r.nextSubpage
  {
  }

  /** An error of the page itself moves the automatic mode on, any other repeats the page; page 100 ends it. */
  lemma FailureGoesTo(v: View)
    requires 100 <= v.page <= 899
    ensures var after := AfterAutoFailure(v);
            if v.page == 100 then after == v.(auto := false)
            else after.retry && after.page == (if v.error in {5, 6, 7, 8} then (if v.page < 899 then v.page + 1 else 100) else v.page)
  {
  }
}
