/**
 The settings record in flash: an optional URL and an auto-start choice in one checked record. The
 store is an object over a flash page; what it means is a pair of settings.
 */
module UrlStore {
  import opened Bytes
  import opened Bits
  import Endpoint

  const URL_MAX: nat := 96
  const RECORD_SIZE: nat := 112
  const FLASH_PAGE_SIZE: nat := 256
  const MAGIC: seq<byte> := [0x50, 0x32, 0x57, 0x50, 0x55, 0x52, 0x4c, 0x31]
  const VERSION: byte := 2
  const LEGACY_VERSION: byte := 1
  const DISABLED: byte := 0xff
  const MAX_SOURCE: byte := 3

  datatype Result = OK | NotFound | Corrupt | Failed | InvalidData | Unchanged

  // ---------------------------------------------------------------------------------------
  // Checksum (32-bit FNV-1a)

  const BASIS: uint32 := 2166136261
  const PRIME: nat := 16777619

  /** Exclusive or of the lowest n bits. */
  function XorBits(a: nat, b: nat, n: nat): (r: nat)
    decreases n
  {
    if n == 0 then 0 else (a + b) % 2 + 2 * XorBits(a / 2, b / 2, n - 1)
  }

  function FnvStep(sum: uint32, value: byte): uint32 {
    (sum - sum % 0x100 + XorBits(sum % 0x100, value, 8)) * PRIME % 0x1_0000_0000
  }

  function Fnv(sum: uint32, data: seq<byte>): uint32 {
    if data == [] then sum else FnvStep(Fnv(sum, data[..|data| - 1]), data[|data| - 1])
  }

  // ---------------------------------------------------------------------------------------
  // Records

  function UrlOf(r: seq<byte>): seq<byte>
    requires |r| == RECORD_SIZE && r[9] <= URL_MAX
  {
    r[16..16 + r[9]]
  }

  function Stored(r: seq<byte>): nat
    requires |r| == RECORD_SIZE
  {
    r[12] as nat + r[13] as nat * 0x100 + r[14] as nat * 0x1_0000 + r[15] as nat * 0x100_0000
  }

  function ChecksumOf(r: seq<byte>): uint32
    requires |r| == RECORD_SIZE && r[9] <= URL_MAX
  {
    Fnv(Fnv(BASIS, r[8..12]), UrlOf(r))
  }

  /** What the firmware finds in flash. */
  function Read(r: seq<byte>): Result
    requires |r| == RECORD_SIZE
  {
    if r[..8] != MAGIC then NotFound
    else if (r[8] != VERSION && r[8] != LEGACY_VERSION) || r[9] > URL_MAX || Stored(r) != ChecksumOf(r) then Corrupt
    else if r[8] == LEGACY_VERSION && r[9] == 0 then Corrupt
    else if r[8] == VERSION && r[10] != DISABLED && r[10] > MAX_SOURCE then Corrupt
    else if r[9] != 0 && Endpoint.Parse(UrlOf(r)).None? then Corrupt
    else OK
  }

  // ---------------------------------------------------------------------------------------
  // Meaning

  datatype Settings = Settings(url: Option<seq<byte>>, autostart: byte)

  const DEFAULTS := Settings(None, DISABLED)

  /** The settings a record stands for, on which the next change builds. */
  function Meaning(r: seq<byte>): Settings
    requires |r| == RECORD_SIZE
  {
    if Read(r) != OK then DEFAULTS
    else Settings(if r[9] == 0 then None else Some(UrlOf(r)), if r[8] == VERSION then r[10] else DISABLED)
  }

  predicate ValidSource(source: byte) {
    source == DISABLED || source <= MAX_SOURCE
  }

  predicate ValidSettings(s: Settings) {
    && (s.url.Some? ==> Endpoint.Parse(s.url.value).Some?)
    && ValidSource(s.autostart)
  }

  lemma ValidUrl(url: seq<byte>)
    ensures Endpoint.Parse(url).Some? ==> 1 <= |url| <= URL_MAX
  {
    hide Endpoint.EndpointAt;
  }

  lemma MeaningIsValid(r: seq<byte>)
    requires |r| == RECORD_SIZE
    ensures ValidSettings(Meaning(r))
  {
    hide Endpoint.Parse, ChecksumOf, Stored;
  }

  function UrlBytes(s: Settings): seq<byte> {
    if s.url.Some? then s.url.value else []
  }

  /** All of a record but its checksum; what does not belong to the settings is zero. */
  predicate Draft(r: seq<byte>, s: Settings) {
    && |r| == RECORD_SIZE && |UrlBytes(s)| <= URL_MAX
    && r[..8] == MAGIC && r[8] == VERSION && r[9] == |UrlBytes(s)| && r[10] == s.autostart && r[11] == 0
    && forall i :: 16 <= i < RECORD_SIZE ==> r[i] == if i - 16 < |UrlBytes(s)| then UrlBytes(s)[i - 16] else 0
  }

  /** The record the firmware writes for these settings. */
  predicate IsRecordOf(r: seq<byte>, s: Settings) {
    Draft(r, s) && Stored(r) == ChecksumOf(r)
  }

  lemma DraftUrl(r: seq<byte>, s: Settings)
    requires Draft(r, s)
    ensures UrlOf(r) == UrlBytes(s)
  {
    assert forall i :: 0 <= i < |UrlBytes(s)| ==> UrlOf(r)[i] == r[16 + i];
  }

  /** Written settings are read back. */
  lemma RecordReads(r: seq<byte>, s: Settings)
    requires IsRecordOf(r, s) && ValidSettings(s)
    ensures Read(r) == OK && Meaning(r) == s
  {
    hide Endpoint.Parse, ChecksumOf, Stored;
    DraftUrl(r, s);
    if s.url.Some? {
      ValidUrl(s.url.value);
    }
  }

  lemma StoredBytes(r: seq<byte>, q: seq<byte>)
    requires |r| == |q| == RECORD_SIZE && Stored(r) == Stored(q)
    ensures r[12] == q[12] && r[13] == q[13] && r[14] == q[14] && r[15] == q[15]
  {
    LowDigit(r[12], r[13] as nat + (r[14] as nat + r[15] as nat * 0x100) * 0x100,
             q[12], q[13] as nat + (q[14] as nat + q[15] as nat * 0x100) * 0x100);
    LowDigit(r[13], r[14] as nat + r[15] as nat * 0x100, q[13], q[14] as nat + q[15] as nat * 0x100);
    LowDigit(r[14], r[15], q[14], q[15]);
  }

  lemma LowDigit(low: byte, high: nat, low': byte, high': nat)
    requires low as nat + high * 0x100 == low' as nat + high' * 0x100
    ensures low == low' && high == high'
  {
  }

  /** There is only one record of given settings. */
  lemma RecordIsUnique(r: seq<byte>, q: seq<byte>, s: Settings)
    requires IsRecordOf(r, s) && IsRecordOf(q, s)
    ensures r == q
  {
    hide Stored, Fnv, Draft, ChecksumOf;
    DraftsAgree(r, q, s);
    SameChecksum(r, q);
    StoredBytes(r, q);
  }

  lemma DraftsAgree(r: seq<byte>, q: seq<byte>, s: Settings)
    requires Draft(r, s) && Draft(q, s)
    ensures forall i :: 0 <= i < RECORD_SIZE && !(12 <= i < 16) ==> r[i] == q[i]
    ensures |r| == |q| == RECORD_SIZE && r[9] == q[9] <= URL_MAX && r[8..12] == q[8..12] && UrlOf(r) == UrlOf(q)
  {
    DraftUrl(r, s);
    DraftUrl(q, s);
    assert forall i :: 0 <= i < 8 ==> r[i] == r[..8][i] == q[..8][i] == q[i];
  }

  /** All settings have a record. */
  lemma RecordExists(s: Settings) returns (r: seq<byte>)
    requires ValidSettings(s)
    ensures IsRecordOf(r, s) && Read(r) == OK && Meaning(r) == s
  {
    hide Fnv, Endpoint.Parse;
    if s.url.Some? {
      ValidUrl(s.url.value);
    }
    var url := UrlBytes(s);
    var head := [VERSION, |url|, s.autostart, 0];
    var sum := Fnv(Fnv(BASIS, head), url);
    LittleEndian(sum);
    var check := [sum % 0x100, sum / 0x100 % 0x100, sum / 0x1_0000 % 0x100, sum / 0x100_0000];
    var rest := url + seq(URL_MAX - |url|, _ => 0);
    r := MAGIC + head + check + rest;
    FourParts(MAGIC, head, check, rest);
    assert r[8] == head[0] && r[9] == head[1] && r[10] == head[2] && r[11] == head[3];
    assert Draft(r, s);
    DraftUrl(r, s);
    assert r[12] == check[0] && r[13] == check[1] && r[14] == check[2] && r[15] == check[3];
    RecordReads(r, s);
  }

  lemma FourParts(a: seq<byte>, b: seq<byte>, c: seq<byte>, d: seq<byte>)
    requires |a| == 8 && |b| == |c| == 4
    ensures var r := a + b + c + d;
            && r[..8] == a && r[8..12] == b
            && (forall i :: 8 <= i < 12 ==> r[i] == b[i - 8]) && (forall i :: 12 <= i < 16 ==> r[i] == c[i - 12])
            && forall i :: 16 <= i < |r| ==> r[i] == d[i - 16]
  {
  }

  // ---------------------------------------------------------------------------------------
  // The store

  /** How the flash operation ended: it may fail without or after its execution, never succeed without. */
  datatype Execution = Done | Refused | Interrupted

  /** A save of settings s over record r, as seen from outside. */
  predicate Saves(r: seq<byte>, s: Settings, q: seq<byte>, result: Result, erased: bool)
    requires |r| == RECORD_SIZE
  {
    if Read(r) == OK && IsRecordOf(r, s) then q == r && result == Unchanged && !erased
    else
      && (result == OK || result == Failed) && (result == OK ==> erased)
      && if erased then IsRecordOf(q, s) else q == r
  }

  class Store {
    const available: bool
    const flash: array<byte>
    var erases: nat

    ghost predicate Valid()
      reads this, flash
    {
      flash.Length == FLASH_PAGE_SIZE
    }

    ghost function Record(): (r: seq<byte>)
      reads this, flash
      requires Valid()
      ensures |r| == RECORD_SIZE
    {
      flash[..RECORD_SIZE]
    }

    constructor (flash: array<byte>, available: bool)
      requires flash.Length == FLASH_PAGE_SIZE
      ensures Valid() && this.flash == flash && this.available == available && erases == 0
    {
      this.flash, this.available, this.erases := flash, available, 0;
    }

    method Checksum(record: array<byte>) returns (sum: uint32)
      requires record.Length == RECORD_SIZE && record[9] <= URL_MAX
      ensures sum == ChecksumOf(record[..])
    {
      hide FnvStep;
      sum := BASIS;
      for i := 0 to 4
        invariant sum == Fnv(BASIS, record[..][8..8 + i])
      {
        assert record[..][8..8 + i + 1][..i] == record[..][8..8 + i];
        sum := FnvStep(sum, record[8 + i]);
      }
      ghost var settings := sum;
      for i := 0 to record[9]
        invariant sum == Fnv(settings, record[..][16..16 + i])
      {
        assert record[..][16..16 + i + 1][..i] == record[..][16..16 + i];
        sum := FnvStep(sum, record[16 + i]);
      }
    }

    method Seal(record: array<byte>, ghost s: Settings)
      requires record.Length == RECORD_SIZE && Draft(record[..], s)
      modifies record
      ensures IsRecordOf(record[..], s)
    {
      hide Fnv;
      var sum := Checksum(record);
      ghost var before := record[..];
      record[12], record[13] := sum % 0x100, sum / 0x100 % 0x100;
      record[14], record[15] := sum / 0x1_0000 % 0x100, sum / 0x100_0000;
      assert record[..][..8] == before[..8] && record[..][8..12] == before[8..12];
      DraftUrl(record[..], s);
      DraftUrl(before, s);
      LittleEndian(sum);
    }

    method ReadRecord(record: array<byte>) returns (result: Result)
      requires Valid() && record.Length == RECORD_SIZE && record != flash
      modifies record
      ensures available ==> record[..] == Record() && result == Read(Record())
      ensures !available ==> result == Failed
    {
      hide Endpoint.Parse;
      if !available {
        return Failed;
      }
      forall i | 0 <= i < RECORD_SIZE {
        record[i] := flash[i];
      }
      assert record[..] == Record();
      if record[..8] != MAGIC {
        return NotFound;
      }
      if (record[8] != VERSION && record[8] != LEGACY_VERSION) || record[9] > URL_MAX {
        return Corrupt;
      }
      var sum := Checksum(record);
      var stored := record[12] as nat + record[13] as nat * 0x100 + record[14] as nat * 0x1_0000 + record[15] as nat * 0x100_0000;
      if stored != sum {
        return Corrupt;
      }
      if record[8] == LEGACY_VERSION && record[9] == 0 {
        return Corrupt;
      }
      if record[8] == VERSION && record[10] != DISABLED && record[10] > MAX_SOURCE {
        return Corrupt;
      }
      if record[9] != 0 {
        var url := record[16..16 + record[9]];
        assert url == UrlOf(record[..]);
        var endpoint := Endpoint.ParseUrl(url);
        if endpoint.None? {
          return Corrupt;
        }
      }
      return OK;
    }

    method NewRecord(record: array<byte>, existing: array<byte>, existingResult: Result)
      requires record.Length == existing.Length == RECORD_SIZE && record != existing
      requires existingResult == OK ==> Read(existing[..]) == OK
      modifies record
      ensures Draft(record[..], if existingResult == OK then Meaning(existing[..]) else DEFAULTS)
    {
      hide Endpoint.Parse, ChecksumOf, Stored;
      forall i | 0 <= i < RECORD_SIZE {
        record[i] := if i < 8 then MAGIC[i] else 0;
      }
      record[8], record[10] := VERSION, DISABLED;
      if existingResult == OK {
        record[9] := existing[9];
        forall i | 0 <= i < existing[9] {
          record[16 + i] := existing[16 + i];
        }
        if existing[8] == VERSION {
          record[10] := existing[10];
        }
      }
      assert record[..][..8] == MAGIC;
      if existingResult == OK {
        assert existing[..] == old(existing[..]);
        var url := UrlOf(existing[..]);
        assert forall i :: 0 <= i < |url| ==> url[i] == existing[16 + i];
        assert UrlBytes(Meaning(existing[..])) == url;
      }
    }

    /** The erased and programmed page. */
    method Update(page: array<byte>)
      requires Valid() && page.Length == FLASH_PAGE_SIZE && page != flash
      modifies flash, this`erases
      ensures flash[..] == page[..] && erases == old(erases) + 1
    {
      forall i | 0 <= i < FLASH_PAGE_SIZE {
        flash[i] := 0xff;
      }
      erases := erases + 1;
      forall i | 0 <= i < FLASH_PAGE_SIZE {
        flash[i] := page[i];
      }
    }

    method WriteRecord(record: array<byte>, existing: array<byte>, existingResult: Result, execution: Execution, ghost s: Settings)
      returns (result: Result)
      requires Valid() && record.Length == existing.Length == RECORD_SIZE && record != flash
      requires IsRecordOf(record[..], s)
      requires available ==> existing[..] == Record() && existingResult == Read(Record())
      requires !available ==> existingResult == Failed
      modifies flash, this`erases
      ensures !available ==> result == Failed && flash[..] == old(flash[..]) && erases == old(erases)
      ensures available ==> Saves(old(Record()), s, Record(), result, erases != old(erases))
      ensures available && result != Unchanged ==> (result == OK <==> execution == Done)
      ensures erases <= old(erases) + 1 && (erases == old(erases) ==> flash[..] == old(flash[..]))
    {
      hide Draft, Read, ChecksumOf, Stored;
      ghost var content := record[..];
      if existingResult == OK && existing[..] == record[..] {
        return Unchanged;
      }
      if !available {
        return Failed;
      }
      if Read(Record()) == OK && IsRecordOf(Record(), s) {
        RecordIsUnique(Record(), record[..], s);
      }
      var page := new byte[FLASH_PAGE_SIZE](i => 0xff);
      forall i | 0 <= i < RECORD_SIZE {
        page[i] := record[i];
      }
      assert page[..][..RECORD_SIZE] == content;
      if execution != Refused {
        Update(page);
        assert Record() == content;
      } else {
        assert Record() == old(Record());
      }
      return if execution == Done then OK else Failed;
    }

    /** Replaces the URL and keeps the auto-start choice. */
    method Save(url: seq<byte>, execution: Execution) returns (result: Result)
      requires Valid()
      modifies flash, this`erases
      ensures result == InvalidData <==> Endpoint.Parse(url).None?
      ensures result == InvalidData || !available ==> flash[..] == old(flash[..]) && erases == old(erases)
      ensures result != InvalidData && !available ==> result == Failed
      ensures result != InvalidData && available ==>
                Saves(old(Record()), Meaning(old(Record())).(url := Some(url)), Record(), result, erases != old(erases))
    {
      hide Read, ChecksumOf, Stored, Endpoint.Parse, IsRecordOf;
      var endpoint := Endpoint.ParseUrl(url);
      if url == [] || |url| > URL_MAX || endpoint.None? {
        ValidUrl(url);
        return InvalidData;
      }
      var existing := new byte[RECORD_SIZE];
      var existingResult := ReadRecord(existing);
      var record := new byte[RECORD_SIZE];
      NewRecord(record, existing, existingResult);
      ghost var before, base := record[..], if existingResult == OK then Meaning(existing[..]) else DEFAULTS;
      record[9] := |url|;
      forall i | 16 <= i < RECORD_SIZE {
        record[i] := if i - 16 < |url| then url[i - 16] else 0;
      }
      assert record[..][..8] == before[..8];
      ghost var s := base.(url := Some(url));
      assert record[8] == before[8] && record[10] == before[10] && record[11] == before[11];
      assert UrlBytes(s) == url;
      assert Draft(record[..], s);
      Seal(record, s);
      result := WriteRecord(record, existing, existingResult, execution, s);
    }

    /** Replaces the auto-start choice and keeps the URL. */
    method SaveSettings(source: byte, execution: Execution) returns (result: Result)
      requires Valid()
      modifies flash, this`erases
      ensures result == InvalidData <==> !ValidSource(source)
      ensures result == InvalidData || !available ==> flash[..] == old(flash[..]) && erases == old(erases)
      ensures result != InvalidData && !available ==> result == Failed
      ensures result != InvalidData && available ==>
                Saves(old(Record()), Meaning(old(Record())).(autostart := source), Record(), result, erases != old(erases))
    {
      hide Read, ChecksumOf, Stored, IsRecordOf;
      if source != DISABLED && source > MAX_SOURCE {
        return InvalidData;
      }
      var existing := new byte[RECORD_SIZE];
      var existingResult := ReadRecord(existing);
      var record := new byte[RECORD_SIZE];
      NewRecord(record, existing, existingResult);
      ghost var before, base := record[..], if existingResult == OK then Meaning(existing[..]) else DEFAULTS;
      record[10] := source;
      assert record[..][..8] == before[..8];
      ghost var s := base.(autostart := source);
      assert Draft(record[..], s);
      Seal(record, s);
      result := WriteRecord(record, existing, existingResult, execution, s);
    }

    method Load() returns (result: Result, url: seq<byte>)
      requires Valid()
      ensures !available ==> result == Failed
      ensures available && Read(Record()) != OK ==> result == Read(Record())
      ensures available && Read(Record()) == OK ==>
                result == if Meaning(Record()).url.Some? then OK else NotFound
      ensures url == if result == OK then Meaning(Record()).url.value else []
    {
      hide ChecksumOf, Stored, Endpoint.Parse;
      var record := new byte[RECORD_SIZE];
      result := ReadRecord(record);
      url := [];
      if result != OK {
        return;
      }
      if record[9] == 0 {
        return NotFound, [];
      }
      url := record[16..16 + record[9]];
      assert url == UrlOf(record[..]);
    }

    method LoadSettings() returns (result: Result, source: byte)
      requires Valid()
      ensures result == if available then Read(Record()) else Failed
      ensures source == if available then Meaning(Record()).autostart else DISABLED
    {
      hide ChecksumOf, Stored, Endpoint.Parse;
      var record := new byte[RECORD_SIZE];
      result := ReadRecord(record);
      source := if result == OK && record[8] == VERSION then record[10] else DISABLED;
    }
  }

  lemma LittleEndian(sum: uint32)
    ensures sum % 0x100 + sum / 0x100 % 0x100 * 0x100 + sum / 0x1_0000 % 0x100 * 0x1_0000 + sum / 0x100_0000 * 0x100_0000 == sum
    ensures sum / 0x100_0000 < 0x100
  {
    var low, high := sum % 0x1_0000, sum / 0x1_0000;
    assert sum / 0x100 % 0x100 == low / 0x100 by {
      assert sum == high * 0x1_0000 + low;
      assert sum / 0x100 == high * 0x100 + low / 0x100;
    }
    assert sum % 0x100 == low % 0x100;
    assert sum / 0x100_0000 == high / 0x100;
  }

  // ---------------------------------------------------------------------------------------
  // Runs

  datatype Change = ChangeUrl(url: seq<byte>) | ChangeAutostart(source: byte)

  predicate ValidChange(change: Change) {
    match change
    case ChangeUrl(url) => Endpoint.Parse(url).Some?
    case ChangeAutostart(source) => ValidSource(source)
  }

  function Apply(s: Settings, change: Change): Settings {
    match change
    case ChangeUrl(url) => s.(url := Some(url))
    case ChangeAutostart(source) => s.(autostart := source)
  }

  /** After a successful save the changed setting is the new one, and the other is what it was. */
  lemma SuccessMeans(r: seq<byte>, change: Change, q: seq<byte>, result: Result, erased: bool)
    requires |r| == RECORD_SIZE && ValidChange(change) && Saves(r, Apply(Meaning(r), change), q, result, erased)
    ensures |q| == RECORD_SIZE
    ensures result != Failed ==> IsRecordOf(q, Apply(Meaning(r), change)) && Read(q) == OK && Meaning(q) == Apply(Meaning(r), change)
    ensures result == Failed ==> Meaning(q) == Meaning(r) || Meaning(q) == Apply(Meaning(r), change)
  {
    hide Endpoint.Parse, ChecksumOf, Stored, Read, Meaning;
    MeaningIsValid(r);
    if IsRecordOf(q, Apply(Meaning(r), change)) {
      RecordReads(q, Apply(Meaning(r), change));
    }
  }

  /** Repeating a successful save changes nothing and erases nothing. */
  lemma RepeatIsUnchanged(r: seq<byte>, change: Change, q: seq<byte>, result: Result, erased: bool,
                          again: seq<byte>, result': Result, erased': bool)
    requires |r| == RECORD_SIZE && ValidChange(change) && Saves(r, Apply(Meaning(r), change), q, result, erased) && result != Failed
    requires |q| == RECORD_SIZE && Saves(q, Apply(Meaning(q), change), again, result', erased')
    ensures again == q && result' == Unchanged && !erased'
  {
    hide Endpoint.Parse, ChecksumOf, Stored, Read, Meaning, IsRecordOf;
    SuccessMeans(r, change, q, result, erased);
  }

  /** The records of a run of successful saves. */
  ghost predicate IsRun(records: seq<seq<byte>>, changes: seq<Change>) {
    && |records| == |changes| + 1
    && (forall i :: 0 <= i < |records| ==> |records[i]| == RECORD_SIZE)
    && forall i :: 0 <= i < |changes| ==> ValidChange(changes[i]) && Succeeds(records[i], changes[i], records[i + 1])
  }

  ghost predicate Succeeds(r: seq<byte>, change: Change, q: seq<byte>)
    requires |r| == RECORD_SIZE
  {
    exists result, erased :: result != Failed && Saves(r, Apply(Meaning(r), change), q, result, erased)
  }

  function LastUrl(changes: seq<Change>, first: Option<seq<byte>>): Option<seq<byte>>
    decreases |changes|
  {
    if changes == [] then first
    else match changes[|changes| - 1]
      case ChangeUrl(url) => Some(url)
      case ChangeAutostart(_) => LastUrl(changes[..|changes| - 1], first)
  }

  function LastAutostart(changes: seq<Change>, first: byte): byte
    decreases |changes|
  {
    if changes == [] then first
    else match changes[|changes| - 1]
      case ChangeUrl(_) => LastAutostart(changes[..|changes| - 1], first)
      case ChangeAutostart(source) => source
  }

  /** After any run each setting is the last value saved for it, or else the one the run began with. */
  lemma {:induction false} LoadsReturnLastSaves(records: seq<seq<byte>>, changes: seq<Change>)
    requires IsRun(records, changes)
    ensures var s, first := Meaning(records[|changes|]), Meaning(records[0]);
            s.url == LastUrl(changes, first.url) && s.autostart == LastAutostart(changes, first.autostart)
    ensures changes != [] ==> Read(records[|changes|]) == OK
    decreases |changes|
  {
    hide Read, Meaning, ValidChange, Saves;
    if changes != [] {
      var n := |changes| - 1;
      LoadsReturnLastSaves(records[..n + 1], changes[..n]);
      var result, erased :| result != Failed && Saves(records[n], Apply(Meaning(records[n]), changes[n]), records[n + 1], result, erased);
      SuccessMeans(records[n], changes[n], records[n + 1], result, erased);
    }
  }

  /** A record of the older format keeps its URL, and any successful save turns it into the newer one. */
  lemma LegacyMigrates(r: seq<byte>, change: Change, q: seq<byte>, result: Result, erased: bool)
    requires |r| == RECORD_SIZE && Read(r) == OK && r[8] == LEGACY_VERSION
    requires ValidChange(change) && Saves(r, Apply(Meaning(r), change), q, result, erased) && result != Failed
    ensures Meaning(r) == Settings(Some(UrlOf(r)), DISABLED)
    ensures result == OK && erased && q[8] == VERSION && Meaning(q) == Apply(Settings(Some(UrlOf(r)), DISABLED), change)
  {
    hide Endpoint.Parse, ChecksumOf, Stored;
    SuccessMeans(r, change, q, result, erased);
  }

  // ---------------------------------------------------------------------------------------
  // Damage

  lemma {:induction false} XorCancels(a: nat, b: nat, c: nat, n: nat, bound: nat)
    requires b < bound && c < bound && bound == Pow2(n) && XorBits(a, b, n) == XorBits(a, c, n)
    ensures b == c
    decreases n
  {
    if n > 0 {
      SameParity(a, b, c, XorBits(a / 2, b / 2, n - 1), XorBits(a / 2, c / 2, n - 1));
      XorCancels(a / 2, b / 2, c / 2, n - 1, Pow2(n - 1));
    }
  }

  lemma SameParity(a: nat, b: nat, c: nat, x: nat, y: nat)
    requires (a + b) % 2 + 2 * x == (a + c) % 2 + 2 * y
    ensures x == y && b % 2 == c % 2
  {
  }

  lemma {:induction false} XorShape(a: nat, b: nat, n: nat)
    ensures XorBits(a, b, n) == XorBits(b, a, n) && XorBits(a, b, n) < Pow2(n)
    decreases n
  {
    if n > 0 {
      XorShape(a / 2, b / 2, n - 1);
    }
  }

  /** The multiplier is odd, so that multiplication by it can be undone. */
  lemma ProductCancels(x: nat, y: nat)
    requires x < 0x1_0000_0000 && y < 0x1_0000_0000 && x * PRIME % 0x1_0000_0000 == y * PRIME % 0x1_0000_0000
    ensures x == y
  {
    Inverse(x);
    Inverse(y);
  }

  lemma Inverse(x: nat)
    requires x < 0x1_0000_0000
    ensures x * PRIME % 0x1_0000_0000 * 899433627 % 0x1_0000_0000 == x
  {
    var high := x * PRIME / 0x1_0000_0000;
    var low := x * PRIME % 0x1_0000_0000;
    assert low == x * PRIME - high * 0x1_0000_0000;
    assert low * 899433627 == x + (x * 3513497 - high * 899433627) * 0x1_0000_0000;
  }

  /** A step of the checksum tells sums apart, and it tells bytes apart. */
  lemma StepCancels(sum: uint32, sum': uint32, value: byte, value': byte)
    requires FnvStep(sum, value) == FnvStep(sum', value')
    ensures value == value' ==> sum == sum'
    ensures sum == sum' ==> value == value'
  {
    hide XorBits, FnvStep;
    var low, low' := sum % 0x100, sum' % 0x100;
    assert Pow2(8) == 0x100 by {
      assert Pow2(4) == 0x10;
    }
    StepMixes(sum, sum', value, value');
    if sum == sum' {
      XorCancels(low, value, value', 8, 0x100);
    }
    if value == value' {
      XorShape(low, value, 8);
      XorShape(low', value, 8);
      XorCancels(value, low, low', 8, 0x100);
    }
  }

  lemma StepMixes(sum: uint32, sum': uint32, value: byte, value': byte)
    requires FnvStep(sum, value) == FnvStep(sum', value')
    ensures sum / 0x100 == sum' / 0x100 && XorBits(sum % 0x100, value, 8) == XorBits(sum' % 0x100, value', 8)
  {
    hide XorBits, FnvStep;
    var mixed, mixed' := Mixed(sum, value), Mixed(sum', value');
    var high, high' := sum / 0x100, sum' / 0x100;
    Product(sum, value, mixed);
    Product(sum', value', mixed');
    MixedCancels(high, mixed, high', mixed');
  }

  lemma MixedCancels(high: nat, mixed: byte, high': nat, mixed': byte)
    requires high < 0x100_0000 && high' < 0x100_0000
    requires (high * 0x100 + mixed) * PRIME % 0x1_0000_0000 == (high' * 0x100 + mixed') * PRIME % 0x1_0000_0000
    ensures high == high' && mixed == mixed'
  {
    ProductCancels(high * 0x100 + mixed, high' * 0x100 + mixed');
    LowDigit(mixed, high, mixed', high');
  }

  ghost function Mixed(sum: uint32, value: byte): (r: byte)
    ensures r == XorBits(sum % 0x100, value, 8)
  {
    assert Pow2(8) == 0x100 by {
      assert Pow2(4) == 0x10;
    }
    XorShape(sum % 0x100, value, 8);
    XorBits(sum % 0x100, value, 8)
  }

  lemma Product(sum: uint32, value: byte, mixed: byte)
    requires mixed == XorBits(sum % 0x100, value, 8)
    ensures FnvStep(sum, value) == (sum / 0x100 * 0x100 + mixed) * PRIME % 0x1_0000_0000
  {
    hide XorBits;
    assert sum - sum % 0x100 == sum / 0x100 * 0x100;
  }

  lemma {:induction false} FnvCancels(sum: uint32, sum': uint32, data: seq<byte>)
    requires Fnv(sum, data) == Fnv(sum', data)
    ensures sum == sum'
    decreases |data|
  {
    hide FnvStep;
    if data != [] {
      var init, last := data[..|data| - 1], data[|data| - 1];
      StepCancels(Fnv(sum, init), Fnv(sum', init), last, last);
      FnvCancels(sum, sum', init);
    }
  }

  lemma {:induction false} FnvSeesByte(sum: uint32, data: seq<byte>, i: nat, value: byte)
    requires i < |data| && value != data[i]
    ensures Fnv(sum, data[i := value]) != Fnv(sum, data)
    decreases |data|
  {
    hide FnvStep;
    var n := |data| - 1;
    var changed := data[i := value];
    if i == n {
      assert changed[..n] == data[..n];
      if Fnv(sum, changed) == Fnv(sum, data) {
        StepCancels(Fnv(sum, data[..n]), Fnv(sum, data[..n]), value, data[n]);
      }
    } else {
      assert changed[..n] == data[..n][i := value];
      FnvSeesByte(sum, data[..n], i, value);
      if Fnv(sum, changed) == Fnv(sum, data) {
        StepCancels(Fnv(sum, changed[..n]), Fnv(sum, data[..n]), data[n], data[n]);
      }
    }
  }

  /** The part of a record that counts: all of its head but the length, and the URL. */
  predicate Covered(r: seq<byte>, i: nat)
    requires |r| == RECORD_SIZE
  {
    i < 16 + r[9] as nat && i != 9
  }

  lemma ChecksumSeesByte(r: seq<byte>, i: nat, value: byte)
    requires |r| == RECORD_SIZE && r[9] <= URL_MAX && Covered(r, i) && (8 <= i < 12 || 16 <= i) && value != r[i]
    ensures ChecksumOf(r[i := value]) != ChecksumOf(r)
  {
    hide Fnv;
    var q := r[i := value];
    if i < 12 {
      assert q[8..12] == r[8..12][i - 8 := value] && UrlOf(q) == UrlOf(r);
      FnvSeesByte(BASIS, r[8..12], i - 8, value);
      if ChecksumOf(q) == ChecksumOf(r) {
        FnvCancels(Fnv(BASIS, q[8..12]), Fnv(BASIS, r[8..12]), UrlOf(r));
      }
    } else {
      assert q[8..12] == r[8..12] && UrlOf(q) == UrlOf(r)[i - 16 := value];
      FnvSeesByte(Fnv(BASIS, r[8..12]), UrlOf(r), i - 16, value);
    }
  }

  /** Damage to any single byte that counts is noticed. */
  lemma DamageIsNoticed(r: seq<byte>, i: nat, value: byte)
    requires |r| == RECORD_SIZE && Read(r) == OK && Covered(r, i) && value != r[i]
    ensures Read(r[i := value]) != OK
  {
    hide ChecksumOf, Endpoint.Parse, Stored;
    var q := r[i := value];
    if i < 8 {
      assert q[..8][i] != MAGIC[i];
    } else if 12 <= i < 16 {
      assert q[8..12] == r[8..12] && UrlOf(q) == UrlOf(r);
      SameChecksum(r, q);
      if Stored(q) == Stored(r) {
        StoredBytes(r, q);
      }
    } else {
      ChecksumSeesByte(r, i, value);
      SameStored(r, q);
    }
  }

  lemma SameChecksum(r: seq<byte>, q: seq<byte>)
    requires |r| == |q| == RECORD_SIZE && r[9] == q[9] <= URL_MAX && r[8..12] == q[8..12] && UrlOf(r) == UrlOf(q)
    ensures ChecksumOf(r) == ChecksumOf(q)
  {
  }

  lemma SameStored(r: seq<byte>, q: seq<byte>)
    requires |r| == |q| == RECORD_SIZE && r[12] == q[12] && r[13] == q[13] && r[14] == q[14] && r[15] == q[15]
    ensures Stored(r) == Stored(q)
  {
  }
}
