/**
 The list of networks the user chooses from: an entry of the scan table as the Pico sends it, the line the
 cartridge makes of it, and the request to connect that may follow.
 */
module NetworkList {
  import opened Bytes
  import opened WifiScan
  import Requests

  const RESPONSE_SIZE: nat := 512
  const NAME_SHOWN: nat := 27
  const SHORTEST_PASSWORD: nat := 8
  const LONGEST_PASSWORD: nat := 63

  // ---------------------------------------------------------------------------------------
  // Flags of the radio

  /** The radio sets one flag each for WEP, WPA and WPA2; a password is taken for the latter two only. */
  lemma FlagsMean(wep: bool, wpa: bool, wpa2: bool, others: nat)
    requires others < 32
    ensures var flags := (if wep then 1 else 0) + (if wpa then 2 else 0) + (if wpa2 then 4 else 0) + 8 * others;
            && SecurityOf(flags) == (if wpa || wpa2 then Psk else if wep || others > 0 then Unsupported else Open)
            && AuthOf(flags) == (if wpa2 && wpa then Wpa2Mixed else if wpa2 then Wpa2Aes else if wpa then WpaTkip else NoAuth)
  {
  }

  // ---------------------------------------------------------------------------------------
  // What the Pico sends

  function SecurityCode(security: Security): byte {
    match security
    case Open => 0
    case Psk => 1
    case Unsupported => 2
  }

  /** Signal strength as a signed byte; nothing above 0 or below -127 is sent. */
  function SignalByte(signal: int): byte {
    if signal >= 0 then 0 else if signal < -127 then 0x81 else 0x100 + signal
  }

  function ResultPayload(index: byte, e: Entry): seq<byte>
    requires |e.ssid| <= 32
  {
    [index, SignalByte(e.rssi), SecurityCode(e.security), |e.ssid|] + e.ssid
  }

  /** pico_wifi_scan_result: an entry of a finished scan, or nothing. */
  method ScanResult(finished: bool, results: array<Entry>, count: nat, index: byte, response: array<byte>)
    returns (length: Option<nat>)
    requires response.Length == RESPONSE_SIZE && count <= results.Length
    requires forall i :: 0 <= i < count ==> |results[i].ssid| <= 32
    modifies response
    ensures length.Some? <==> finished && index < count
    ensures length.Some? ==>
              length.value <= RESPONSE_SIZE && response[..length.value] == ResultPayload(index, results[index])
  {
    if !finished || index >= count {
      return None;
    }
    var result := results[index];
    var rssi: int := result.rssi;
    if rssi < -127 {
      rssi := -127;
    } else if rssi > 0 {
      rssi := 0;
    }
    response[0], response[1] := index, rssi % 0x100;
    response[2] := match result.security case Open => 0 case Psk => 1 case Unsupported => 2;
    response[3] := |result.ssid|;
    for i := 0 to |result.ssid|
      invariant response[..4] == [index, SignalByte(result.rssi), SecurityCode(result.security), |result.ssid|]
      invariant forall k :: 0 <= k < i ==> response[4 + k] == result.ssid[k]
    {
      response[4 + i] := result.ssid[i];
    }
    assert response[..4 + |result.ssid|] == response[..4] + result.ssid;
    return Some(4 + |result.ssid|);
  }

  // ---------------------------------------------------------------------------------------
  // What the cartridge makes of it

  predicate Plausible(index: byte, payload: seq<byte>) {
    && |payload| >= 5 && payload[0] == index && payload[2] <= 2
    && 1 <= payload[3] <= 32 && |payload| == 4 + payload[3]
  }

  function Bars(signal: byte): nat {
    1 + (if signal >= 0xb5 then 1 else 0) + (if signal >= 0xbd then 1 else 0) + (if signal >= 0xc9 then 1 else 0)
  }

  function Mark(security: byte): byte {
    if security == 0 then ' ' as int else if security == 1 then '*' as int else '!' as int
  }

  /** Number, four bars or dots, a mark for the security, and the name, on a line of forty cells. */
  function Line(index: byte, bars: nat, mark: byte, name: seq<byte>, column: nat): byte
    requires index < 9 && column < 40
  {
    if column == 0 || column == 5 then 0x04
    else if column == 1 || column == 4 then 0x1d
    else if column == 2 then 0x07
    else if column == 3 then '1' as int + index
    else if 7 <= column < 11 then (if column < 7 + bars then 0x5f else '.' as int)
    else if column == 11 then mark
    else if 13 <= column < 13 + |name| then (if name[column - 13] == '#' as int then 0x5f else name[column - 13])
    else 0x20
  }

  method CountBars(signal: byte) returns (bars: nat)
    ensures bars == Bars(signal)
  {
    bars := 1;
    if signal >= 0xb5 {
      bars := bars + 1;
    }
    if signal >= 0xbd {
      bars := bars + 1;
    }
    if signal >= 0xc9 {
      bars := bars + 1;
    }
  }

  method ShowName(name: seq<byte>, line: array<byte>)
    requires line.Length == 40
    modifies line
    ensures forall c :: 0 <= c < 40 ==>
              line[c] == if 13 <= c < 13 + |name| then (if name[c - 13] == 0x23 then 0x5f else name[c - 13]) else old(line[c])
  {
    var shown := if |name| > NAME_SHOWN then NAME_SHOWN else |name|;
    for column := 0 to shown
      invariant forall c :: 0 <= c < 40 ==>
        line[c] == if 13 <= c < 13 + column then (if name[c - 13] == 0x23 then 0x5f else name[c - 13]) else old(line[c])
    {
      line[13 + column] := if name[column] == 0x23 then 0x5f else name[column];
    }
  }

  /** The line for one network, unless the answer cannot be right. */
  method ShowNetwork(index: byte, payload: seq<byte>, line: array<byte>) returns (ok: bool)
    requires index < 9 && line.Length == 40
    modifies line
    ensures ok <==> Plausible(index, payload)
    ensures ok ==> forall c :: 0 <= c < 40 ==>
              line[c] == Line(index, Bars(payload[1]), Mark(payload[2]), payload[4..], c)
  {
    if |payload| < 5 || payload[0] != index || payload[2] > 2 || payload[3] == 0 || payload[3] > 32 ||
       |payload| != 4 + payload[3] {
      return false;
    }
    for column := 0 to 40
      invariant forall c :: 0 <= c < column ==> line[c] == 0x20
    {
      line[column] := 0x20;
    }
    line[0], line[1], line[2], line[3], line[4], line[5] := 0x04, 0x1d, 0x07, 0x31 + index, 0x1d, 0x04;
    var bars := CountBars(payload[1]);
    ghost var blank := line[..];
    for column := 0 to 4
      invariant forall c :: 0 <= c < 40 ==>
        line[c] == if 7 <= c < 7 + column then (if c < 7 + bars then 0x5f else 0x2e) else blank[c]
    {
      line[7 + column] := if column < bars then 0x5f else 0x2e;
    }
    line[11] := if payload[2] == 0 then 0x20 else if payload[2] == 1 then 0x2a else 0x21;
    ShowName(payload[4..], line);
    return true;
  }

  // ---------------------------------------------------------------------------------------
  // From the radio to the line

  /** Strength in dBm: three thresholds. */
  function Strength(dbm: int): nat {
    if dbm >= -55 then 4 else if dbm >= -67 then 3 else if dbm >= -75 then 2 else 1
  }

  /** The bars tell the strength, except that a signal of 0 dBm or more, which is sent as 0, gets a single bar. */
  lemma BarsExactly(dbm: int)
    ensures Bars(SignalByte(dbm)) == Strength(dbm) <==> dbm < 0
    ensures dbm >= 0 ==> Bars(SignalByte(dbm)) == 1
  {
  }

  /** A listed network appears with its number, its strength, its kind and the first 27 characters of its name. */
  lemma EntryIsShown(s: Sighting, index: byte, column: nat)
    requires Usable(s) && index < 9 && column < 40
    ensures var payload := ResultPayload(index, EntryOf(s));
            && Plausible(index, payload)
            && Line(index, Bars(payload[1]), Mark(payload[2]), payload[4..], column) ==
               if column == 3 then '1' as int + index
               else if 7 <= column < 11 then
                 (if column < 7 + (if s.rssi < 0 then Strength(s.rssi) else 1) then 0x5f else '.' as int)
               else if column == 11 then
                 (match SecurityOf(s.authMode) case Open => 0x20 case Psk => '*' as int case Unsupported => '!' as int)
               else if 13 <= column < 13 + |s.ssid| then
                 (if s.ssid[column - 13] == '#' as int then 0x5f else s.ssid[column - 13])
               else Line(index, 1, 0x20, [], column)
  {
    hide SecurityOf, Bars, Strength, SignalByte;
    BarsExactly(s.rssi);
    assert ResultPayload(index, EntryOf(s))[4..] == s.ssid;
  }

  /** All networks heard are listed as long as nine lines are enough for them. */
  lemma NineLines(seen: seq<Sighting>)
    ensures var names := set s | s in seen && Usable(s) :: s.ssid;
            |InsertAll(seen)| == if |names| <= 9 then |names| else 9
  {
    TableSize(seen);
  }

  // ---------------------------------------------------------------------------------------
  // Connecting

  /** The check of pico_wifi_connect. */
  predicate ConnectIsAccepted(finished: bool, table: seq<Entry>, c: Requests.Command)
    requires c.Connect?
  {
    && finished && c.index < |table|
    && match table[c.index].security
       case Unsupported => false
       case Open => |c.password| == 0
       case Psk => SHORTEST_PASSWORD <= |c.password| <= LONGEST_PASSWORD
  }

  /** What the cartridge asks for after a network has been chosen: it knows the security from the answer only. */
  predicate CartridgeConnects(index: byte, security: byte, c: Requests.Command) {
    && c.Connect? && c.index == index && security != 2
    && if security == 1 then 8 <= |c.password| <= 63 else c.password == []
  }

  /** No choice from the list is turned down as invalid, in whatever version; and nothing else would be accepted. */
  lemma ChoiceIsAccepted(table: seq<Entry>, index: byte, c: Requests.Command, version: byte)
    requires index < |table| && |table[index].ssid| <= 32 && c.Connect? && c.index == index
    ensures ConnectIsAccepted(true, table, c) <==> CartridgeConnects(index, ResultPayload(index, table[index])[2], c)
    ensures ConnectIsAccepted(true, table, c) ==> Requests.Sensible(version, c)
  {
  }
}
