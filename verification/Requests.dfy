/**
 The requests of the cartridge, as it writes them and as the Pico reads them. The two programs share no
 code: kinds, payloads and limits are stated here once more, from the side of the cartridge.
 */
module Requests {
  import opened Bytes
  import opened Framing
  import opened FirmwareCore
  import opened Detection
  import opened Protocol
  import Endpoint
  import UrlStore

  /** Text with a length byte in front of it. */
  type short = s: seq<byte> | |s| < 0x100

  datatype Source = Nos | P2000t | Custom(url: short) | Archive

  /** What can be asked of the Pico besides opening a session. */
  datatype Command =
    | CheckStart | CheckStatus
    | ScanStart | ScanStatus | ScanResult(index: byte) | Connect(index: byte, password: short) | WifiStatus
    | ProfileStatus | ProfileConnect | ProfileSave(password: short) | ProfileDelete
    | FetchStart(page: uint16, subpage: byte, source: Source) | FetchStatus | FetchRows(chunk: byte)
    | LoadUrl | SaveUrl(url: short) | LoadSettings | SaveSettings(choice: byte)

  function Kind(c: Command): byte {
    match c
    case CheckStart => 0x05
    case CheckStatus => 0x06
    case ScanStart => 0x10
    case ScanStatus => 0x11
    case ScanResult(_) => 0x12
    case Connect(_, _) => 0x13
    case WifiStatus => 0x14
    case ProfileStatus => 0x20
    case ProfileConnect => 0x21
    case ProfileSave(_) => 0x22
    case ProfileDelete => 0x23
    case FetchStart(_, _, _) => 0x30
    case FetchStatus => 0x31
    case FetchRows(_) => 0x32
    case LoadUrl => 0x33
    case SaveUrl(_) => 0x34
    case LoadSettings => 0x35
    case SaveSettings(_) => 0x36
  }

  function SourceCode(source: Source): byte {
    match source
    case Nos => 0
    case P2000t => 1
    case Custom(_) => 2
    case Archive => 3
  }

  function Counted(text: short): seq<byte> {
    [|text|] + text
  }

  function Payload(c: Command): seq<byte> {
    match c
    case ScanResult(index) => [index]
    case Connect(index, password) => [index] + Counted(password)
    case ProfileSave(password) => Counted(password)
    case FetchStart(page, subpage, source) =>
      [page % 0x100, page / 0x100, subpage, SourceCode(source)] + (if source.Custom? then Counted(source.url) else [])
    case FetchRows(chunk) => [chunk]
    case SaveUrl(url) => Counted(url)
    case SaveSettings(choice) => [choice]
    case _ => []
  }

  /** The limits of the protocol revisions: custom URLs since 4, kept since 5, settings since 6, the archive since 7. */
  predicate Sensible(version: byte, c: Command) {
    match c
    case Connect(_, password) => |password| <= 63
    case ProfileSave(password) => |password| <= 63
    case FetchStart(page, subpage, source) =>
      && 100 <= page <= 899 && subpage <= 99
      && (source.Custom? ==> version >= 4 && 1 <= |source.url| <= 96)
      && (source.Archive? ==> version >= 7)
    case FetchRows(chunk) => chunk < 4
    case LoadUrl => version >= 5
    case SaveUrl(url) => version >= 5 && 1 <= |url| <= 96
    case LoadSettings => version >= 6
    case SaveSettings(choice) => version >= 6 && (choice < 4 || choice == 0xff)
    case _ => true
  }

  function RequestOf(version: byte, sequence: byte, c: Command): Frame {
    Frame(version, 0, Kind(c), sequence, Payload(c))
  }

  // ---------------------------------------------------------------------------------------
  // What the Pico accepts

  lemma FetchStartExactly(version: byte, sequence: byte, page: uint16, subpage: byte, source: Source)
    ensures FetchStartIsValid(RequestOf(version, sequence, FetchStart(page, subpage, source))) <==>
            Sensible(version, FetchStart(page, subpage, source))
  {
    var payload := Payload(FetchStart(page, subpage, source));
    assert payload[0] as nat + payload[1] as nat * 0x100 == page && payload[2] == subpage && payload[3] == SourceCode(source);
    if source.Custom? {
      assert payload[4] == |source.url|;
    }
  }

  /** A request is valid exactly when it makes sense in its revision of the protocol. */
  lemma ValidExactly(version: byte, sequence: byte, c: Command)
    ensures PlatformPayloadIsValid(RequestOf(version, sequence, c)) <==> Sensible(version, c)
  {
    hide FetchStartIsValid;
    if c.FetchStart? {
      FetchStartExactly(version, sequence, c.page, c.subpage, c.source);
    }
  }

  // ---------------------------------------------------------------------------------------
  // What the Pico reads

  function SourceIn(payload: seq<byte>): Source
    requires |payload| >= 4 && (payload[3] == 2 ==> 5 <= |payload| <= 5 + CUSTOM_URL_MAX)
  {
    match payload[3]
    case 0 => Nos
    case 1 => P2000t
    case 2 => Custom(payload[5..])
    case _ => Archive
  }

  /** What the commands of the platform take out of a payload that has been found valid. */
  function Meaning(request: Frame): Command
    requires PlatformPayloadIsValid(request)
  {
    var payload := request.payload;
    if request.kind == WIFI_SCAN_RESULT then ScanResult(payload[0])
    else if request.kind == WIFI_CONNECT then Connect(payload[0], payload[2..])
    else if request.kind == WIFI_PROFILE_SAVE then ProfileSave(payload[1..])
    else if request.kind == TELETEKST_FETCH_START then
      FetchStart(payload[0] as nat + payload[1] as nat * 0x100, payload[2], SourceIn(payload))
    else if request.kind == TELETEKST_FETCH_ROWS then FetchRows(payload[0])
    else if request.kind == TELETEKST_CUSTOM_URL_SAVE then SaveUrl(payload[1..])
    else if request.kind == TELETEKST_SETTINGS_SAVE then SaveSettings(payload[0])
    else Plain(request.kind)
  }

  /** The commands without a payload. */
  function Plain(kind: byte): Command {
    if kind == VERSION_CHECK_START then CheckStart
    else if kind == VERSION_CHECK_STATUS then CheckStatus
    else if kind == WIFI_SCAN_START then ScanStart
    else if kind == WIFI_SCAN_STATUS then ScanStatus
    else if kind == WIFI_STATUS then WifiStatus
    else if kind == WIFI_PROFILE_STATUS then ProfileStatus
    else if kind == WIFI_PROFILE_CONNECT then ProfileConnect
    else if kind == WIFI_PROFILE_DELETE then ProfileDelete
    else if kind == TELETEKST_FETCH_STATUS then FetchStatus
    else if kind == TELETEKST_CUSTOM_URL_LOAD then LoadUrl
    else LoadSettings
  }

  /** The Pico reads what the cartridge has written. */
  lemma ReadsWhatWasWritten(version: byte, sequence: byte, c: Command)
    requires Sensible(version, c)
    ensures PlatformPayloadIsValid(RequestOf(version, sequence, c)) && Meaning(RequestOf(version, sequence, c)) == c
  {
    ValidExactly(version, sequence, c);
    hide PlatformPayloadIsValid;
    ReadsPayload(RequestOf(version, sequence, c), c);
  }

  lemma ReadsPayload(request: Frame, c: Command)
    requires PlatformPayloadIsValid(request) && request.kind == Kind(c) && request.payload == Payload(c)
    ensures Meaning(request) == c
  {
    hide PlatformPayloadIsValid;
    match c {
      case FetchStart(page, subpage, source) =>
        if source.Custom? {
          assert Payload(c)[5..] == source.url;
        }
      case Connect(index, password) => assert Payload(c)[2..] == password;
      case ProfileSave(password) => assert Payload(c)[1..] == password;
      case SaveUrl(url) => assert Payload(c)[1..] == url;
      case _ =>
    }
  }

  /** Whatever the Pico accepts is a request that the cartridge could have written. */
  lemma AcceptsOnlyRequests(request: Frame)
    requires PlatformPayloadIsValid(request)
    ensures request.kind == Kind(Meaning(request)) && request.payload == Payload(Meaning(request))
    ensures Sensible(request.version, Meaning(request))
  {
    var payload := request.payload;
    if request.kind == TELETEKST_FETCH_START {
      AcceptsOnlyFetches(request);
    } else {
      hide FetchStartIsValid;
      if request.kind == WIFI_CONNECT {
        assert payload == [payload[0]] + ([payload[1]] + payload[2..]);
      } else if request.kind == WIFI_PROFILE_SAVE || request.kind == TELETEKST_CUSTOM_URL_SAVE {
        assert payload == [payload[0]] + payload[1..];
      }
    }
  }

  lemma AcceptsOnlyFetches(request: Frame)
    requires FetchStartIsValid(request)
    ensures var payload := request.payload;
            var c := FetchStart(payload[0] as nat + payload[1] as nat * 0x100, payload[2], SourceIn(payload));
            payload == Payload(c) && Sensible(request.version, c)
  {
    var payload := request.payload;
    var page := payload[0] as nat + payload[1] as nat * 0x100;
    assert page % 0x100 == payload[0] && page / 0x100 == payload[1];
    if payload[3] == 2 {
      assert payload == [payload[0], payload[1], payload[2], payload[3]] + ([payload[4]] + payload[5..]);
    }
  }

  /** What the store can keep is what can be asked for, as far as the command processor is concerned. */
  lemma SettingsCanBeKept(version: byte, choice: byte, url: short)
    ensures version >= 6 ==> (Sensible(version, SaveSettings(choice)) <==> UrlStore.ValidSource(choice))
    ensures version >= 5 && Endpoint.Parse(url).Some? ==> Sensible(version, SaveUrl(url))
  {
    hide Endpoint.Parse;
    UrlStore.ValidUrl(url);
  }

  // ---------------------------------------------------------------------------------------
  // What becomes of a request

  function Refused(s: CoreState, request: Frame, error: byte): Handled {
    Handled(s, Frame(request.version, 3, request.kind, request.sequence, [error]), false)
  }

  function Answered(s: CoreState, request: Frame, payload: seq<byte>, performed: bool): Handled {
    var reply := Frame(request.version, 1, request.kind, request.sequence, payload);
    Handled(s.(cached := Some(Cached(request.kind, request.sequence, Identity(request), reply))), reply, performed)
  }

  predicate NewNumber(s: CoreState, sequence: byte) {
    s.cached.Some? ==> s.cached.value.sequence != sequence
  }

  /** In a session, a request with a new number is carried out exactly when it makes sense and the platform can. */
  lemma CarriedOutWhenSensible(config: Config, s: CoreState, platform: Platform, sequence: byte, c: Command)
    requires s.valid && NewNumber(s, sequence) && Kind(c) in platform.commands
    ensures var request := RequestOf(s.version, sequence, c);
            Handle(config, s, platform, request) ==
            if !Sensible(s.version, c) then Refused(s, request, 3)
            else match platform.outcome
                 case Failed(error) => Refused(s, request, error)
                 case Succeeded(payload) => Answered(s, request, payload, true)
  {
    ValidExactly(s.version, sequence, c);
    hide PlatformPayloadIsValid, Identity, Payload;
  }

  /** Without a session of that version nothing is carried out. */
  lemma RefusedOutsideSession(config: Config, s: CoreState, platform: Platform, version: byte, sequence: byte, c: Command)
    requires NewNumber(s, sequence) && (!s.valid || version != s.version)
    ensures var request := RequestOf(version, sequence, c);
            Handle(config, s, platform, request) == Refused(s, request, 1)
  {
    hide PlatformPayloadIsValid, Identity, Payload;
  }

  lemma RefusedWithoutCommand(config: Config, s: CoreState, platform: Platform, sequence: byte, c: Command)
    requires s.valid && NewNumber(s, sequence) && Kind(c) !in platform.commands
    ensures var request := RequestOf(s.version, sequence, c);
            Handle(config, s, platform, request) == Refused(s, request, 2)
  {
    hide PlatformPayloadIsValid, Identity, Payload;
  }

  /** An echo comes back as it was sent, and the Pico tells its model and version. */
  lemma EchoAndInfo(config: Config, s: CoreState, platform: Platform, sequence: byte, payload: seq<byte>)
    requires s.valid && NewNumber(s, sequence)
    ensures var request := Frame(s.version, 0, 0x02, sequence, payload);
            Handle(config, s, platform, request) == Answered(s, request, payload, false)
    ensures var request := Frame(s.version, 0, 0x04, sequence, payload);
            Handle(config, s, platform, request) ==
            if payload != [] then Refused(s, request, 3)
            else Answered(s, request, [config.hardwareModel, config.firmware.0, config.firmware.1, config.firmware.2], false)
  {
    hide Identity;
  }

  function Zeros(n: nat): seq<byte> {
    seq(n, _ => 0)
  }

  /** Of a password only its length is left; all other requests stay as they are. */
  lemma PasswordsAreWiped(version: byte, sequence: byte, c: Command)
    ensures var request := RequestOf(version, sequence, c);
            Scrubbed(request) == match c
                                 case Connect(index, password) => request.(payload := [index, |password|] + Zeros(|password|))
                                 case ProfileSave(password) => request.(payload := [|password|] + Zeros(|password|))
                                 case _ => request
  {
  }

  // ---------------------------------------------------------------------------------------
  // Opening a session

  /** HELLO of a host that speaks some versions and takes payloads up to a limit. */
  function HelloOf(sequence: byte, minimum: byte, maximum: byte, limit: uint16): Frame {
    Frame(2, 0, 0x01, sequence, [0x50, 0x32, 0x57, 0x50, minimum, maximum, limit % 0x100, limit / 0x100])
  }

  predicate Shared(config: Config, minimum: byte, maximum: byte, version: byte) {
    minimum <= version <= maximum && config.minimum <= version <= config.maximum
  }

  ghost predicate Newest(config: Config, minimum: byte, maximum: byte, version: byte) {
    && Shared(config, minimum, maximum, version)
    && forall other: byte :: Shared(config, minimum, maximum, other) ==> other <= version
  }

  /** A session opens in the newest version both sides speak; without one, nothing changes. */
  lemma SessionOpens(config: Config, s: CoreState, platform: Platform, sequence: byte, minimum: byte, maximum: byte,
                     limit: uint16, version: byte)
    requires NewNumber(s, sequence) && 0 < limit && Newest(config, minimum, maximum, version) && version > 0
    ensures var request := HelloOf(sequence, minimum, maximum, limit);
            var capabilities := if platform.capabilities.Some? then platform.capabilities.value else 1;
            var agreed := if limit < 512 then limit else 512;
            Handle(config, s, platform, request) ==
            Answered(CoreState(version, true, s.cached), request,
                     [0x50, 0x32, 0x57, 0x50, version, capabilities, agreed % 0x100, agreed / 0x100], false)
  {
    hide Identity;
    HelloIsValid(sequence, minimum, maximum, limit);
    SelectsNewest(minimum, maximum, config.minimum, config.maximum, version);
    assert Shared(config, minimum, maximum, SelectVersion(minimum, maximum, config.minimum, config.maximum));
    var request := HelloOf(sequence, minimum, maximum, limit);
    assert request.payload[6] as nat + request.payload[7] as nat * 0x100 == limit;
    var capabilities := if platform.capabilities.Some? then platform.capabilities.value else 1;
    var agreed := if limit < 512 then limit else 512;
    assert MAGIC + [version, capabilities, agreed % 0x100, agreed / 0x100] ==
           [0x50, 0x32, 0x57, 0x50, version, capabilities, agreed % 0x100, agreed / 0x100];
  }

  lemma SessionRefused(config: Config, s: CoreState, platform: Platform, sequence: byte, minimum: byte, maximum: byte,
                       limit: uint16)
    requires NewNumber(s, sequence)
    requires forall version: byte :: version > 0 ==> !Shared(config, minimum, maximum, version)
    ensures var request := HelloOf(sequence, minimum, maximum, limit);
            Handle(config, s, platform, request) == Refused(s, request, if minimum > maximum then 3 else 1)
  {
    hide Identity;
    HelloIsValid(sequence, minimum, maximum, limit);
    var selected := SelectVersion(minimum, maximum, config.minimum, config.maximum);
    assert selected > 0 ==> Shared(config, minimum, maximum, selected);
  }

  lemma HelloIsValid(sequence: byte, minimum: byte, maximum: byte, limit: uint16)
    ensures ValidHello(HelloOf(sequence, minimum, maximum, limit)) <==> minimum <= maximum
  {
    assert HelloOf(sequence, minimum, maximum, limit).payload[..4] == MAGIC;
  }

  /** A host that takes no payload at all is refused. */
  lemma NothingToAgreeOn(config: Config, s: CoreState, platform: Platform, sequence: byte, minimum: byte, maximum: byte,
                         version: byte)
    requires NewNumber(s, sequence) && Newest(config, minimum, maximum, version) && version > 0
    ensures var request := HelloOf(sequence, minimum, maximum, 0);
            Handle(config, s, platform, request) == Refused(s, request, 3)
  {
    hide Identity;
    HelloIsValid(sequence, minimum, maximum, 0);
    SelectsNewest(minimum, maximum, config.minimum, config.maximum, version);
    assert HelloOf(sequence, minimum, maximum, 0).payload[6..] == [0, 0];
  }

  /** Every valid HELLO is one of these. */
  lemma HelloIsWritten(request: Frame)
    requires ValidHello(request) && request.kind == 0x01 && request.version == 2 && request.flags == 0
    ensures var payload := request.payload;
            request == HelloOf(request.sequence, payload[4], payload[5], payload[6] as nat + payload[7] as nat * 0x100)
  {
    var payload := request.payload;
    var limit := payload[6] as nat + payload[7] as nat * 0x100;
    assert limit % 0x100 == payload[6] && limit / 0x100 == payload[7];
    assert payload == payload[..4] + [payload[4], payload[5], payload[6], payload[7]];
  }

  /** The cartridge is content with the answer exactly if the Pico offers Wi-Fi, the Internet and stored profiles. */
  lemma CartridgeOpens(config: Config, platform: Platform, version: byte)
    requires Newest(config, 2, 7, version)
    ensures HELLO_REQUEST == HelloOf(0, 2, 7, 240)
    ensures var handled := Handle(config, RESET_STATE, platform, HELLO_REQUEST);
            && handled.state.valid && handled.state.version == version && NewNumber(handled.state, 1)
            && Valid(HELLO_REQUEST, handled.response)
            && (ValidHelloReply(handled.response) <==>
                platform.capabilities.Some? && var c := platform.capabilities.value;
                c / 2 % 2 == 1 && c / 4 % 2 == 1 && c / 8 % 2 == 1)
  {
    hide Handle, Identity, ValidHelloReply;
    SessionOpens(config, RESET_STATE, platform, 0, 2, 7, 240, version);
    var capabilities := if platform.capabilities.Some? then platform.capabilities.value else 1;
    CartridgeIsContent(version, capabilities);
  }

  lemma CartridgeIsContent(version: byte, capabilities: byte)
    requires 2 <= version <= 7
    ensures ValidHelloReply(Frame(2, 1, 0x01, 0, [0x50, 0x32, 0x57, 0x50, version, capabilities, 240, 0])) <==>
            capabilities / 2 % 2 == 1 && capabilities / 4 % 2 == 1 && capabilities / 8 % 2 == 1
  {
    assert [0x50, 0x32, 0x57, 0x50, version, capabilities, 240, 0][..4] == MAGIC;
    ThreeBits(capabilities / 2);
  }

  lemma ThreeBits(n: nat)
    ensures n % 8 == 7 <==> n % 2 == 1 && n / 2 % 2 == 1 && n / 4 % 2 == 1
  {
    var q, r := n / 8, n % 8;
    assert n % 2 == r % 2;
    assert n / 2 == 4 * q + r / 2;
    assert n / 4 == 2 * q + r / 4;
    EvenPart(2 * q, r / 2);
    EvenPart(q, r / 4);
  }

  lemma EvenPart(q: nat, r: nat)
    ensures (2 * q + r) % 2 == r % 2
  {
  }
}
