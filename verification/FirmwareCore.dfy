/**
 The command processor of the Pico: version negotiation, dispatch, and the one-entry reply cache
 that makes a retried request harmless.
 */
module FirmwareCore {
  import opened Bytes
  import opened Framing
  import opened Detection

  const BOOTSTRAP_VERSION: byte := 2
  const MIN_VERSION: byte := 2
  const MAX_VERSION: byte := 7

  const FLAG_RESPONSE: byte := 1
  const FLAG_ERROR: byte := 2

  const HELLO: byte := 0x01
  const ECHO_REQUEST: byte := 0x02
  const DEVICE_INFO: byte := 0x04
  const VERSION_CHECK_START: byte := 0x05
  const VERSION_CHECK_STATUS: byte := 0x06
  const WIFI_SCAN_START: byte := 0x10
  const WIFI_SCAN_STATUS: byte := 0x11
  const WIFI_SCAN_RESULT: byte := 0x12
  const WIFI_CONNECT: byte := 0x13
  const WIFI_STATUS: byte := 0x14
  const WIFI_PROFILE_STATUS: byte := 0x20
  const WIFI_PROFILE_CONNECT: byte := 0x21
  const WIFI_PROFILE_SAVE: byte := 0x22
  const WIFI_PROFILE_DELETE: byte := 0x23
  const TELETEKST_FETCH_START: byte := 0x30
  const TELETEKST_FETCH_STATUS: byte := 0x31
  const TELETEKST_FETCH_ROWS: byte := 0x32
  const TELETEKST_CUSTOM_URL_LOAD: byte := 0x33
  const TELETEKST_CUSTOM_URL_SAVE: byte := 0x34
  const TELETEKST_SETTINGS_LOAD: byte := 0x35
  const TELETEKST_SETTINGS_SAVE: byte := 0x36

  const ERROR_UNSUPPORTED_VERSION: byte := 1
  const ERROR_UNKNOWN_TYPE: byte := 2
  const ERROR_INVALID_PAYLOAD: byte := 3
  const ERROR_SEQUENCE_CONFLICT: byte := 4

  const WIFI_MAX_PASSWORD: nat := 63
  const CUSTOM_URL_MAX: nat := 96
  const CHUNK_COUNT: nat := 4
  const MAGIC: seq<byte> := [0x50, 0x32, 0x57, 0x50]
  const CAPABILITY_ECHO: byte := 1

  /** Settings fixed when the processor is built or initialised. */
  datatype Config = Config(hardwareModel: byte, firmware: (byte, byte, byte), minimum: byte, maximum: byte)

  datatype Cached = Cached(kind: byte, sequence: byte, identity: uint16, response: Frame)

  datatype CoreState = CoreState(version: byte, valid: bool, cached: Option<Cached>)

  const RESET_STATE := CoreState(BOOTSTRAP_VERSION, false, None)

  /** What a platform command does when it is called: a payload on success, or an error code. */
  datatype Outcome = Succeeded(payload: seq<byte>) | Failed(error: byte)

  /** The platform behind the processor, as it behaves during one request. */
  datatype Platform = Platform(commands: set<byte>, capabilities: Option<byte>, outcome: Outcome)

  // ---------------------------------------------------------------------------------------
  // Replies

  function MakeError(request: Frame, error: byte): Frame {
    Frame(request.version, FLAG_RESPONSE + FLAG_ERROR, request.kind, request.sequence, [error])
  }

  function MakeSuccess(version: byte, request: Frame, payload: seq<byte>): Frame {
    Frame(if request.kind == HELLO then BOOTSTRAP_VERSION else version, FLAG_RESPONSE,
          request.kind, request.sequence, payload)
  }

  predicate ValidHello(request: Frame) {
    && |request.payload| == 8
    && request.payload[..4] == MAGIC
    && request.payload[4] <= request.payload[5]
  }

  /** The newest revision both ranges contain, or zero. */
  function SelectVersion(hostMinimum: byte, hostMaximum: byte, ourMinimum: byte, ourMaximum: byte): (v: byte)
    ensures v != 0 ==> hostMinimum <= v <= hostMaximum && ourMinimum <= v <= ourMaximum
  {
    if hostMinimum > hostMaximum || ourMinimum > ourMaximum then 0
    else
      var lowest := if hostMinimum > ourMinimum then hostMinimum else ourMinimum;
      var highest := if hostMaximum < ourMaximum then hostMaximum else ourMaximum;
      if highest >= lowest then highest else 0
  }

  lemma SelectsNewest(hostMinimum: byte, hostMaximum: byte, ourMinimum: byte, ourMaximum: byte, shared: byte)
    requires hostMinimum <= shared <= hostMaximum && ourMinimum <= shared <= ourMaximum
    ensures shared <= SelectVersion(hostMinimum, hostMaximum, ourMinimum, ourMaximum)
  {
  }

  predicate PlatformPayloadIsValid(request: Frame) {
    var kind, payload := request.kind, request.payload;
    if kind in {VERSION_CHECK_START, VERSION_CHECK_STATUS, WIFI_SCAN_START, WIFI_SCAN_STATUS, WIFI_STATUS,
                WIFI_PROFILE_STATUS, WIFI_PROFILE_CONNECT, WIFI_PROFILE_DELETE, TELETEKST_FETCH_STATUS} then
      payload == []
    else if kind == TELETEKST_CUSTOM_URL_LOAD then request.version >= 5 && payload == []
    else if kind == TELETEKST_SETTINGS_LOAD then request.version >= 6 && payload == []
    else if kind == TELETEKST_SETTINGS_SAVE then
      request.version >= 6 && |payload| == 1 && (payload[0] == 0xff || payload[0] <= 3)
    else if kind == WIFI_SCAN_RESULT then |payload| == 1
    else if kind == WIFI_CONNECT then
      |payload| >= 2 && payload[1] <= WIFI_MAX_PASSWORD && |payload| == 2 + payload[1]
    else if kind == WIFI_PROFILE_SAVE then
      |payload| >= 1 && payload[0] <= WIFI_MAX_PASSWORD && |payload| == 1 + payload[0]
    else if kind == TELETEKST_FETCH_START then FetchStartIsValid(request)
    else if kind == TELETEKST_FETCH_ROWS then |payload| == 1 && payload[0] < CHUNK_COUNT
    else if kind == TELETEKST_CUSTOM_URL_SAVE then
      && request.version >= 5 && |payload| >= 2
      && 0 < payload[0] <= CUSTOM_URL_MAX && |payload| == 1 + payload[0]
    else false
  }

  predicate FetchStartIsValid(request: Frame) {
    var payload := request.payload;
    if |payload| < 4 then false
    else
      var page := payload[0] as nat + payload[1] as nat * 0x100;
      if page < 100 || page > 899 || payload[2] > 99 then false
      else if payload[3] <= 1 then |payload| == 4
      else if payload[3] == 3 then request.version >= 7 && |payload| == 4
      else if payload[3] != 2 || request.version < 4 || |payload| < 5 then false
      else 0 < payload[4] <= CUSTOM_URL_MAX && |payload| == 5 + payload[4]
  }

  // ---------------------------------------------------------------------------------------
  // Handling one request

  /** The new state, the reply, and whether a platform command was carried out for it. */
  datatype Handled = Handled(state: CoreState, response: Frame, performed: bool)

  predicate IsRetry(s: CoreState, request: Frame) {
    && s.cached.Some?
    && request.kind == s.cached.value.kind
    && request.sequence == s.cached.value.sequence
    && Identity(request) == s.cached.value.identity
  }

  function Refuse(s: CoreState, request: Frame, error: byte): Handled {
    Handled(s, MakeError(request, error), false)
  }

  function Accept(s: CoreState, request: Frame, response: Frame, performed: bool): Handled {
    Handled(s.(cached := Some(Cached(request.kind, request.sequence, Identity(request), response))), response, performed)
  }

  function Handle(config: Config, s: CoreState, platform: Platform, request: Frame): Handled {
    if IsRetry(s, request) then Handled(s, s.cached.value.response, false)
    else if request.flags % 2 == 1 then Refuse(s, request, ERROR_INVALID_PAYLOAD)
    else if request.kind == HELLO then HandleHello(config, s, platform, request)
    else if !s.valid || request.version != s.version then Refuse(s, request, ERROR_UNSUPPORTED_VERSION)
    else if s.cached.Some? && request.sequence == s.cached.value.sequence then
      Refuse(s, request, ERROR_SEQUENCE_CONFLICT)
    else if request.kind == DEVICE_INFO then
      if request.payload != [] then Refuse(s, request, ERROR_INVALID_PAYLOAD)
      else
        var (major, minor, patch) := config.firmware;
        Accept(s, request, MakeSuccess(s.version, request, [config.hardwareModel, major, minor, patch]), false)
    else if request.kind == ECHO_REQUEST then
      Accept(s, request, MakeSuccess(s.version, request, request.payload), false)
    else if request.kind !in platform.commands then Refuse(s, request, ERROR_UNKNOWN_TYPE)
    else if !PlatformPayloadIsValid(request) then Refuse(s, request, ERROR_INVALID_PAYLOAD)
    else match platform.outcome
      case Failed(error) => Refuse(s, request, error)
      case Succeeded(payload) => Accept(s, request, MakeSuccess(s.version, request, payload), true)
  }

  function HandleHello(config: Config, s: CoreState, platform: Platform, request: Frame): Handled {
    if request.version != BOOTSTRAP_VERSION then Refuse(s, request, ERROR_UNSUPPORTED_VERSION)
    else if !ValidHello(request) then Refuse(s, request, ERROR_INVALID_PAYLOAD)
    else
      var selected := SelectVersion(request.payload[4], request.payload[5], config.minimum, config.maximum);
      var hostLimit := request.payload[6] as nat + request.payload[7] as nat * 0x100;
      var limit := if hostLimit < MAX_PAYLOAD then hostLimit else MAX_PAYLOAD;
      if selected == 0 then Refuse(s, request, ERROR_UNSUPPORTED_VERSION)
      else if limit == 0 then Refuse(s, request, ERROR_INVALID_PAYLOAD)
      else
        var capabilities := if platform.capabilities.Some? then platform.capabilities.value else CAPABILITY_ECHO;
        var payload := MAGIC + [selected, capabilities, limit % 0x100, limit / 0x100];
        Accept(CoreState(selected, true, s.cached), request, MakeSuccess(s.version, request, payload), false)
  }

  // ---------------------------------------------------------------------------------------
  // The processor as the firmware has it, with fields updated in place

  class RequestBuffer {
    var version: byte
    var flags: byte
    var kind: byte
    var sequence: byte
    var payloadLength: nat
    const payload: array<byte>

    constructor (f: Frame)
      requires |f.payload| <= MAX_PAYLOAD
      ensures Valid() && fresh(payload) && Value() == f
    {
      version, flags, kind, sequence, payloadLength := f.version, f.flags, f.kind, f.sequence, |f.payload|;
      payload := new byte[MAX_PAYLOAD](i requires 0 <= i < MAX_PAYLOAD => if i < |f.payload| then f.payload[i] else 0);
      new;
      assert payload[..payloadLength] == f.payload;
    }

    ghost predicate Valid()
      reads this
    {
      payload.Length == MAX_PAYLOAD && payloadLength <= MAX_PAYLOAD
    }

    function Value(): Frame
      reads this, payload
      requires Valid()
    {
      Frame(version, flags, kind, sequence, payload[..payloadLength])
    }
  }

  /** Where a request carries a password, and how long it claims to be. */
  function SecretRange(f: Frame): (r: (nat, nat))
    ensures r.0 + r.1 <= |f.payload| || r.1 == 0
  {
    var (offset, length: nat) :=
      if f.kind == WIFI_CONNECT && |f.payload| >= 2 then (2, f.payload[1])
      else if f.kind == WIFI_PROFILE_SAVE && |f.payload| >= 1 then (1, f.payload[0])
      else (0, 0);
    var available := if |f.payload| > offset then |f.payload| - offset else 0;
    (offset, if length > available then available else length)
  }

  /** The request after its password bytes were overwritten. */
  function Scrubbed(f: Frame): Frame {
    var (offset, length) := SecretRange(f);
    f.(payload := seq(|f.payload|, i requires 0 <= i < |f.payload| =>
      if offset <= i < offset + length then 0 else f.payload[i]))
  }

  /** Nothing is left of a password in a request that passed validation. */
  lemma ScrubbedPasswords(f: Frame)
    requires PlatformPayloadIsValid(f)
    ensures f.kind == WIFI_CONNECT ==> forall i :: 2 <= i < |f.payload| ==> Scrubbed(f).payload[i] == 0
    ensures f.kind == WIFI_PROFILE_SAVE ==> forall i :: 1 <= i < |f.payload| ==> Scrubbed(f).payload[i] == 0
    ensures f.kind != WIFI_CONNECT && f.kind != WIFI_PROFILE_SAVE ==> Scrubbed(f) == f
  {
  }

  class Processor {
    const config: Config
    var sessionVersion: byte
    var sessionValid: bool
    var cachedRequestValid: bool
    var cachedRequestType: byte
    var cachedRequestSequence: byte
    var cachedRequestIdentity: uint16
    var cachedResponse: Frame

    ghost function State(): CoreState
      reads this
    {
      CoreState(sessionVersion, sessionValid,
                if cachedRequestValid
                then Some(Cached(cachedRequestType, cachedRequestSequence, cachedRequestIdentity, cachedResponse))
                else None)
    }

    constructor (config: Config)
      ensures State() == RESET_STATE && this.config == config
    {
      this.config := config;
      cachedRequestType, cachedRequestSequence, cachedRequestIdentity := 0, 0, 0;
      cachedResponse := Frame(0, 0, 0, 0, []);
      sessionVersion, sessionValid, cachedRequestValid := BOOTSTRAP_VERSION, false, false;
    }

    method Reset()
      modifies this
      ensures State() == RESET_STATE
    {
      sessionVersion, sessionValid, cachedRequestValid := BOOTSTRAP_VERSION, false, false;
    }

    /** Answer one request; its password bytes are gone afterwards. */
    method HandleRequest(platform: Platform, request: RequestBuffer) returns (response: Frame, performed: bool)
      requires request.Valid()
      modifies this, request.payload
      ensures request.Valid() && request.Value() == Scrubbed(old(request.Value()))
      ensures Handled(State(), response, performed) ==
              Handle(config, old(State()), platform, old(request.Value()))
    {
      response, performed := Dispatch(platform, request.Value());
      ClearSensitive(request);
    }

    method Dispatch(platform: Platform, request: Frame) returns (response: Frame, performed: bool)
      modifies this
      ensures Handled(State(), response, performed) == Handle(config, old(State()), platform, request)
    {
      hide Identity, PlatformPayloadIsValid, HandleHello, MakeError;
      performed := false;
      var identity := FrameIdentity(request);
      if cachedRequestValid && request.kind == cachedRequestType &&
         request.sequence == cachedRequestSequence && identity == cachedRequestIdentity {
        return cachedResponse, false;
      }
      if request.flags % 2 == 1 {
        return MakeError(request, ERROR_INVALID_PAYLOAD), false;
      }
      if request.kind == HELLO {
        response := OpenSession(platform, request, identity);
        return response, false;
      }
      if !sessionValid || request.version != sessionVersion {
        return MakeError(request, ERROR_UNSUPPORTED_VERSION), false;
      }
      if cachedRequestValid && request.sequence == cachedRequestSequence {
        return MakeError(request, ERROR_SEQUENCE_CONFLICT), false;
      }

      response := MakeSuccess(sessionVersion, request, []);
      if request.kind == DEVICE_INFO {
        if request.payload != [] {
          return MakeError(request, ERROR_INVALID_PAYLOAD), false;
        }
        var (major, minor, patch) := config.firmware;
        response := response.(payload := [config.hardwareModel, major, minor, patch]);
      } else if request.kind == ECHO_REQUEST {
        response := response.(payload := request.payload);
      } else {
        if request.kind !in platform.commands {
          return MakeError(request, ERROR_UNKNOWN_TYPE), false;
        }
        if !PlatformPayloadIsValid(request) {
          return MakeError(request, ERROR_INVALID_PAYLOAD), false;
        }
        match platform.outcome {
          case Failed(error) =>
            return MakeError(request, error), false;
          case Succeeded(payload) =>
            response, performed := response.(payload := payload), true;
        }
      }
      Remember(request, identity, response);
    }

    /** HELLO: agree on a version and start over with an empty cache. */
    method OpenSession(platform: Platform, request: Frame, identity: uint16) returns (response: Frame)
      requires identity == Identity(request)
      modifies this
      ensures Handled(State(), response, false) == HandleHello(config, old(State()), platform, request)
    {
      hide Identity, MakeError;
      if request.version != BOOTSTRAP_VERSION {
        return MakeError(request, ERROR_UNSUPPORTED_VERSION);
      }
      if !ValidHello(request) {
        return MakeError(request, ERROR_INVALID_PAYLOAD);
      }
      var selected := SelectVersion(request.payload[4], request.payload[5], config.minimum, config.maximum);
      if selected == 0 {
        return MakeError(request, ERROR_UNSUPPORTED_VERSION);
      }
      var hostLimit := request.payload[6] as nat + request.payload[7] as nat * 0x100;
      var limit := if hostLimit < MAX_PAYLOAD then hostLimit else MAX_PAYLOAD;
      if limit == 0 {
        return MakeError(request, ERROR_INVALID_PAYLOAD);
      }
      var capabilities := if platform.capabilities.Some? then platform.capabilities.value else CAPABILITY_ECHO;
      var payload := MAGIC + [selected, capabilities, limit % 0x100, limit / 0x100];
      response := MakeSuccess(sessionVersion, request, payload);
      cachedRequestValid := false;
      sessionVersion, sessionValid := selected, true;
      Remember(request, identity, response);
    }

    /** The reply to be given again when the request is repeated. */
    method Remember(request: Frame, identity: uint16, response: Frame)
      modifies this
      ensures State() == old(State()).(cached := Some(Cached(request.kind, request.sequence, identity, response)))
    {
      cachedRequestType, cachedRequestSequence := request.kind, request.sequence;
      cachedRequestIdentity, cachedResponse := identity, response;
      cachedRequestValid := true;
    }

    method ClearSensitive(request: RequestBuffer)
      requires request.Valid()
      modifies request.payload
      ensures request.Value() == Scrubbed(old(request.Value()))
    {
      ghost var before := request.Value();
      var (offset, length) := SecretRange(request.Value());
      var secret := offset;
      while secret < offset + length
        invariant offset <= secret <= offset + length
        invariant forall i :: 0 <= i < request.payloadLength ==>
          request.payload[i] == if offset <= i < secret then 0 else before.payload[i]
      {
        request.payload[secret] := 0;
        secret := secret + 1;
      }
      assert request.payload[..request.payloadLength] == Scrubbed(before).payload;
    }
  }
}
