/**
 The streaming table of Wi-Fi scan results: at most nine entries, one per network name, kept while
 results arrive in any order and sorted once at the end.
 */
module WifiScan {
  import opened Bytes
  import opened Sequences

  const MAX_RESULTS: nat := 9

  type rssi = r: int | -0x8000 <= r < 0x8000

  datatype Security = Open | Psk | Unsupported
  datatype Auth = NoAuth | WpaTkip | Wpa2Aes | Wpa2Mixed

  /** One result the radio reports. */
  datatype Sighting = Sighting(ssid: seq<byte>, rssi: rssi, authMode: byte)

  datatype Entry = Entry(ssid: seq<byte>, rssi: rssi, security: Security, auth: Auth)

  function SecurityOf(authMode: byte): Security {
    if authMode == 0 then Open
    else if authMode / 2 % 2 == 1 || authMode / 4 % 2 == 1 then Psk
    else Unsupported
  }

  function AuthOf(authMode: byte): Auth {
    if authMode / 4 % 2 == 1 then (if authMode / 2 % 2 == 1 then Wpa2Mixed else Wpa2Aes)
    else if authMode / 2 % 2 == 1 then WpaTkip
    else NoAuth
  }

  function EntryOf(s: Sighting): Entry {
    Entry(s.ssid, s.rssi, SecurityOf(s.authMode), AuthOf(s.authMode))
  }

  predicate Usable(s: Sighting) {
    1 <= |s.ssid| <= 32
  }

  // ---------------------------------------------------------------------------------------
  // What one result does to the table

  /** Position of the first entry with this name, or the length. */
  function IndexOf(table: seq<Entry>, ssid: seq<byte>): (i: nat)
    ensures i <= |table|
    ensures i < |table| ==> table[i].ssid == ssid
    ensures forall j :: 0 <= j < i ==> table[j].ssid != ssid
  {
    if table == [] then 0
    else if table[0].ssid == ssid then 0
    else IndexOf(table[1..], ssid) + 1
  }

  /** Position of the first weakest entry among the first n. */
  function Weakest(table: seq<Entry>, n: nat): (w: nat)
    requires 1 <= n <= |table|
    ensures w < n
    ensures forall j :: 0 <= j < n ==> table[w].rssi <= table[j].rssi
  {
    if n == 1 then 0
    else
      var w := Weakest(table, n - 1);
      if table[n - 1].rssi < table[w].rssi then n - 1 else w
  }

  function Insert(table: seq<Entry>, s: Sighting): seq<Entry> {
    if !Usable(s) then table
    else
      var i := IndexOf(table, s.ssid);
      if i < |table| then (if s.rssi > table[i].rssi then table[i := EntryOf(s)] else table)
      else if |table| < MAX_RESULTS then table + [EntryOf(s)]
      else
        var w := Weakest(table, |table|);
        if s.rssi > table[w].rssi then table[w := EntryOf(s)] else table
  }

  function InsertAll(seen: seq<Sighting>): seq<Entry> {
    if seen == [] then [] else Insert(InsertAll(seen[..|seen| - 1]), seen[|seen| - 1])
  }

  /** Insertion of one value below everything at least as strong. */
  function Place(ranked: seq<Entry>, value: Entry): seq<Entry> {
    if ranked == [] || ranked[|ranked| - 1].rssi >= value.rssi then ranked + [value]
    else Place(ranked[..|ranked| - 1], value) + [ranked[|ranked| - 1]]
  }

  function Rank(table: seq<Entry>): (ranked: seq<Entry>)
  {
    if table == [] then [] else Place(Rank(table[..|table| - 1]), table[|table| - 1])
  }

  // ---------------------------------------------------------------------------------------
  // The table as the firmware has it

  class ScanTable {
    const results: array<Entry>
    var count: nat
    var running: bool

    ghost predicate Valid()
      reads this
    {
      results.Length == MAX_RESULTS && count <= MAX_RESULTS
    }

    ghost function Table(): seq<Entry>
      reads this, results
      requires Valid()
    {
      results[..count]
    }

    constructor ()
      ensures Valid() && fresh(results) && Table() == [] && running
    {
      results := new Entry[MAX_RESULTS](_ => Entry([], 0, Open, NoAuth));
      count, running := 0, true;
    }

    /** The scan callback: keep the strongest sighting of a name, and replace the weakest entry of a full table. */
    method Callback(result: Sighting)
      requires Valid()
      modifies this`count, results
      ensures Valid()
      ensures Table() == if running then Insert(old(Table()), result) else old(Table())
    {
      if |result.ssid| == 0 || |result.ssid| > 32 {
        return;
      }
      if !running {
        return;
      }
      ghost var table := Table();
      var index := 0;
      while index < count
        invariant index <= count
        invariant forall j :: 0 <= j < index ==> results[j].ssid != result.ssid
      {
        if results[index].ssid == result.ssid {
          FirstIndex(table, result.ssid, index);
          if result.rssi <= results[index].rssi {
            return;
          }
          break;
        }
        index := index + 1;
      }
      if index == count {
        FirstIndex(table, result.ssid, index);
        if count < MAX_RESULTS {
          count := count + 1;
        } else {
          var weakest := FindWeakest();
          if result.rssi <= results[weakest].rssi {
            return;
          }
          index := weakest;
        }
      }
      results[index] := EntryOf(result);
    }

    method FindWeakest() returns (weakest: nat)
      requires Valid() && count == MAX_RESULTS
      ensures weakest == Weakest(Table(), count)
    {
      weakest := 0;
      for candidate := 1 to MAX_RESULTS
        invariant weakest == Weakest(Table(), candidate)
      {
        if results[candidate].rssi < results[weakest].rssi {
          weakest := candidate;
        }
      }
    }

    /** Insertion sort by descending signal strength, shifting in place. */
    method SortResults()
      requires Valid()
      modifies results
      ensures Table() == Rank(old(Table()))
    {
      ghost var table := Table();
      if count == 0 {
        return;
      }
      RankOne(table);
      for index := 1 to count
        invariant results[..index] == Rank(table[..index])
        invariant forall k :: index <= k < count ==> results[k] == table[k]
      {
        Grow(table, index);
        MoveUp(index);
      }
      All(table);
    }

    method MoveUp(index: nat)
      requires Valid() && index < count
      modifies results
      ensures results[..index + 1] == Place(old(results[..index]), old(results[index]))
      ensures forall k :: index < k < count ==> results[k] == old(results[k])
    {
      hide Place, Shifted;
      ghost var before := results[..];
      ghost var ranked := before[..index];
      var value := results[index];
      var position := index;
      All(ranked);
      All(Place(ranked, value));
      ShiftStart(before, index);
      while position != 0 && results[position - 1].rssi < value.rssi
        invariant 0 <= position <= index
        invariant Shifted(results[..], before, index, position)
        invariant Place(ranked, value) == Place(ranked[..position], value) + ranked[position..]
      {
        ShiftStep(results[..], before, index, position);
        PlaceMoves(ranked, position, value);
        results[position] := results[position - 1];
        position := position - 1;
      }
      ShiftDone(results[..], before, index, position, value);
      PlaceStops(ranked, position, value);
      results[position] := value;
    }
  }

  /** Entries from position up to index have moved one place to the right. */
  ghost predicate Shifted(now: seq<Entry>, before: seq<Entry>, index: nat, position: nat) {
    && |now| == |before| && position <= index < |before|
    && (forall k :: 0 <= k < position ==> now[k] == before[k])
    && (forall k :: position < k <= index ==> now[k] == before[k - 1])
    && (forall k :: index < k < |before| ==> now[k] == before[k])
  }

  lemma ShiftStart(before: seq<Entry>, index: nat)
    requires index < |before|
    ensures Shifted(before, before, index, index)
  {
  }

  lemma ShiftStep(now: seq<Entry>, before: seq<Entry>, index: nat, position: nat)
    requires Shifted(now, before, index, position) && position > 0
    ensures Shifted(now[position := now[position - 1]], before, index, position - 1)
    ensures now[position - 1] == before[..index][position - 1]
  {
  }

  lemma ShiftDone(now: seq<Entry>, before: seq<Entry>, index: nat, position: nat, value: Entry)
    requires Shifted(now, before, index, position)
    ensures now[position := value][..index + 1] == before[..position] + [value] + before[position..index]
    ensures before[..index][..position] == before[..position] && before[..index][position..] == before[position..index]
    ensures forall k :: index < k < |before| ==> now[position := value][k] == before[k]
    ensures position > 0 ==> now[position - 1] == before[..index][position - 1]
  {
  }

  lemma FirstIndex(table: seq<Entry>, ssid: seq<byte>, index: nat)
    requires index <= |table| && forall j :: 0 <= j < index ==> table[j].ssid != ssid
    requires index < |table| ==> table[index].ssid == ssid
    ensures IndexOf(table, ssid) == index
  {
  }

  lemma RankOne(table: seq<Entry>)
    requires table != []
    ensures table[..1] == Rank(table[..1])
  {
    assert table[..1][..0] == [];
  }

  lemma PlaceStops(ranked: seq<Entry>, position: nat, value: Entry)
    requires position <= |ranked| && (position == 0 || ranked[position - 1].rssi >= value.rssi)
    ensures Place(ranked[..position], value) == ranked[..position] + [value]
  {
  }

  lemma PlaceMoves(ranked: seq<Entry>, position: nat, value: Entry)
    requires 1 <= position <= |ranked| && ranked[position - 1].rssi < value.rssi
    ensures Place(ranked[..position], value) + ranked[position..] ==
            Place(ranked[..position - 1], value) + ranked[position - 1..]
  {
    var head := ranked[..position];
    assert head[..position - 1] == ranked[..position - 1];
    assert [ranked[position - 1]] + ranked[position..] == ranked[position - 1..];
  }

  // ---------------------------------------------------------------------------------------
  // What the table says about everything that was seen

  /** The strongest sighting of its name: an entry made from one of them, and no other is stronger. */
  ghost predicate Strongest(e: Entry, seen: seq<Sighting>) {
    && (exists s :: s in seen && Usable(s) && EntryOf(s) == e)
    && forall s :: s in seen && s.ssid == e.ssid ==> s.rssi <= e.rssi
  }

  ghost predicate Distinct(table: seq<Entry>) {
    forall i, j :: 0 <= i < j < |table| ==> table[i].ssid != table[j].ssid
  }

  ghost predicate Listed(table: seq<Entry>, ssid: seq<byte>) {
    exists i :: 0 <= i < |table| && table[i].ssid == ssid
  }

  /** A name that is not listed has its place taken by nine networks at least as strong as it ever was. */
  ghost predicate RightlyOmitted(table: seq<Entry>, s: Sighting) {
    |table| == MAX_RESULTS && forall i :: 0 <= i < |table| ==> s.rssi <= table[i].rssi
  }

  ghost predicate Covered(table: seq<Entry>, s: Sighting) {
    Listed(table, s.ssid) || RightlyOmitted(table, s)
  }

  ghost predicate AllStrongest(table: seq<Entry>, seen: seq<Sighting>) {
    forall i :: 0 <= i < |table| ==> Strongest(table[i], seen)
  }

  ghost predicate AllCovered(table: seq<Entry>, seen: seq<Sighting>) {
    forall s :: s in seen && Usable(s) ==> Covered(table, s)
  }

  ghost predicate Summary(table: seq<Entry>, seen: seq<Sighting>) {
    |table| <= MAX_RESULTS && Distinct(table) && AllStrongest(table, seen) && AllCovered(table, seen)
  }

  lemma InsertKeepsSummary(table: seq<Entry>, seen: seq<Sighting>, s: Sighting)
    requires Summary(table, seen)
    ensures Summary(Insert(table, s), seen + [s])
  {
    hide Strongest, Distinct, Covered;
    if !Usable(s) {
      KeepUnusable(table, seen, s);
    } else if IndexOf(table, s.ssid) < |table| {
      InsertListed(table, seen, s);
    } else if |table| < MAX_RESULTS {
      InsertNew(table, seen, s);
    } else {
      InsertFull(table, seen, s);
    }
  }

  // What a sighting does to the entries

  lemma StaysStrongest(e: Entry, seen: seq<Sighting>, s: Sighting)
    requires Strongest(e, seen) && (Usable(s) && s.ssid == e.ssid ==> s.rssi <= e.rssi)
    ensures Strongest(e, seen + [s])
  {
    var w :| w in seen && Usable(w) && EntryOf(w) == e;
    assert w in seen + [s];
  }

  lemma BecomesStrongest(seen: seq<Sighting>, s: Sighting)
    requires Usable(s) && NoneStronger(seen, s)
    ensures Strongest(EntryOf(s), seen + [s])
  {
    assert s in seen + [s];
  }

  ghost predicate NoneStronger(seen: seq<Sighting>, s: Sighting) {
    forall x :: x in seen && x.ssid == s.ssid ==> x.rssi <= s.rssi
  }

  lemma KeepEntries(table: seq<Entry>, seen: seq<Sighting>, s: Sighting)
    requires AllStrongest(table, seen)
    requires forall i :: 0 <= i < |table| && Usable(s) && table[i].ssid == s.ssid ==> s.rssi <= table[i].rssi
    ensures AllStrongest(table, seen + [s])
  {
    hide Strongest;
    forall i | 0 <= i < |table|
      ensures Strongest(table[i], seen + [s])
    {
      StaysStrongest(table[i], seen, s);
    }
  }

  lemma ReplaceEntry(table: seq<Entry>, seen: seq<Sighting>, s: Sighting, at: nat)
    requires at < |table| && Usable(s) && NoneStronger(seen, s) && AllStrongest(table, seen) && Distinct(table)
    requires forall i :: 0 <= i < |table| && i != at ==> table[i].ssid != s.ssid
    ensures AllStrongest(table[at := EntryOf(s)], seen + [s])
    ensures Distinct(table[at := EntryOf(s)])
  {
    hide Strongest;
    BecomesStrongest(seen, s);
    forall i | 0 <= i < |table| && i != at
      ensures Strongest(table[i], seen + [s])
    {
      StaysStrongest(table[i], seen, s);
    }
  }

  lemma AddEntry(table: seq<Entry>, seen: seq<Sighting>, s: Sighting)
    requires Usable(s) && NoneStronger(seen, s) && AllStrongest(table, seen) && Distinct(table)
    requires forall i :: 0 <= i < |table| ==> table[i].ssid != s.ssid
    ensures AllStrongest(table + [EntryOf(s)], seen + [s])
    ensures Distinct(table + [EntryOf(s)])
  {
    hide Strongest;
    BecomesStrongest(seen, s);
    forall i | 0 <= i < |table|
      ensures Strongest(table[i], seen + [s])
    {
      StaysStrongest(table[i], seen, s);
    }
  }

  // What it does to the networks that are covered

  lemma CoverOneMore(table: seq<Entry>, seen: seq<Sighting>, s: Sighting)
    requires AllCovered(table, seen) && (Usable(s) ==> Covered(table, s))
    ensures AllCovered(table, seen + [s])
  {
    hide Covered;
  }

  lemma KeepUnusable(table: seq<Entry>, seen: seq<Sighting>, s: Sighting)
    requires Summary(table, seen) && !Usable(s)
    ensures Summary(table, seen + [s])
  {
    hide Strongest, Distinct, Covered;
    KeepEntries(table, seen, s);
    CoverOneMore(table, seen, s);
  }

  lemma ListedAt(table: seq<Entry>, i: nat)
    requires i < |table|
    ensures Listed(table, table[i].ssid)
  {
  }

  lemma StillCovered(table: seq<Entry>, e: Entry, at: nat, x: Sighting)
    requires at < |table| && e.ssid == table[at].ssid && e.rssi >= table[at].rssi && Covered(table, x)
    ensures Covered(table[at := e], x)
  {
    if Listed(table, x.ssid) {
      var i :| 0 <= i < |table| && table[i].ssid == x.ssid;
      ListedAt(table[at := e], i);
    }
  }

  lemma InsertListed(table: seq<Entry>, seen: seq<Sighting>, s: Sighting)
    requires Summary(table, seen) && Usable(s) && IndexOf(table, s.ssid) < |table|
    ensures Summary(Insert(table, s), seen + [s])
  {
    hide Strongest, Covered, Listed;
    var at := IndexOf(table, s.ssid);
    ListedAt(table, at);
    ListedCovered(table, s);
    if s.rssi > table[at].rssi {
      var t := table[at := EntryOf(s)];
      StrongestBounds(table[at], seen, s);
      OthersDiffer(table, at);
      ReplaceEntry(table, seen, s, at);
      forall x | x in seen + [s] && Usable(x)
        ensures Covered(t, x)
      {
        StillCovered(table, EntryOf(s), at, x);
      }
    } else {
      OthersDiffer(table, at);
      KeepEntries(table, seen, s);
      CoverOneMore(table, seen, s);
    }
  }

  lemma ListedCovered(table: seq<Entry>, s: Sighting)
    requires Listed(table, s.ssid)
    ensures Covered(table, s)
  {
  }

  lemma StrongestBounds(e: Entry, seen: seq<Sighting>, s: Sighting)
    requires Strongest(e, seen) && e.ssid == s.ssid && e.rssi <= s.rssi
    ensures NoneStronger(seen, s)
  {
  }

  lemma OthersDiffer(table: seq<Entry>, at: nat)
    requires Distinct(table) && at < |table|
    ensures forall i :: 0 <= i < |table| && i != at ==> table[i].ssid != table[at].ssid
  {
  }

  lemma InsertNew(table: seq<Entry>, seen: seq<Sighting>, s: Sighting)
    requires Summary(table, seen) && Usable(s) && IndexOf(table, s.ssid) == |table| < MAX_RESULTS
    ensures Summary(Insert(table, s), seen + [s])
  {
    hide Strongest, Distinct, Covered;
    var t := table + [EntryOf(s)];
    NeverSeen(table, seen, s);
    AddEntry(table, seen, s);
    forall x | x in seen && Usable(x)
      ensures Covered(t, x)
    {
      CoveredByMore(table, EntryOf(s), x);
    }
    ListedAt(t, |table|);
    ListedCovered(t, s);
    CoverOneMore(t, seen, s);
  }

  lemma CoveredByMore(table: seq<Entry>, e: Entry, x: Sighting)
    requires Covered(table, x) && |table| < MAX_RESULTS
    ensures Covered(table + [e], x)
  {
    var i :| 0 <= i < |table| && table[i].ssid == x.ssid;
    ListedAt(table + [e], i);
  }

  /** What is not listed was never seen, or never stronger than anything in a table that is full. */
  lemma NeverSeen(table: seq<Entry>, seen: seq<Sighting>, s: Sighting)
    requires AllCovered(table, seen) && Usable(s) && IndexOf(table, s.ssid) == |table|
    requires |table| == MAX_RESULTS ==> exists i :: 0 <= i < |table| && table[i].rssi <= s.rssi
    ensures NoneStronger(seen, s)
  {
    forall x | x in seen && x.ssid == s.ssid
      ensures x.rssi <= s.rssi
    {
      assert Covered(table, x);
      assert !Listed(table, x.ssid);
    }
  }

  lemma InsertFull(table: seq<Entry>, seen: seq<Sighting>, s: Sighting)
    requires Summary(table, seen) && Usable(s) && IndexOf(table, s.ssid) == |table| == MAX_RESULTS
    ensures Summary(Insert(table, s), seen + [s])
  {
    hide Strongest, Distinct, Covered;
    var w := Weakest(table, |table|);
    if s.rssi > table[w].rssi {
      var t := table[w := EntryOf(s)];
      NeverSeen(table, seen, s);
      ReplaceEntry(table, seen, s, w);
      forall x | x in seen && Usable(x)
        ensures Covered(t, x)
      {
        AfterEviction(table, seen, w, EntryOf(s), x);
      }
      ListedAt(t, w);
      ListedCovered(t, s);
      CoverOneMore(t, seen, s);
    } else {
      KeepEntries(table, seen, s);
      OmitWeakest(table, s);
      CoverOneMore(table, seen, s);
    }
  }

  lemma OmitWeakest(table: seq<Entry>, s: Sighting)
    requires |table| == MAX_RESULTS && s.rssi <= table[Weakest(table, |table|)].rssi
    ensures Covered(table, s)
  {
  }

  /** The evicted network was the weakest, so it is now rightly omitted; so is whatever was before. */
  lemma AfterEviction(table: seq<Entry>, seen: seq<Sighting>, w: nat, e: Entry, x: Sighting)
    requires |table| == MAX_RESULTS && AllStrongest(table, seen) && x in seen && Covered(table, x)
    requires w == Weakest(table, |table|) && table[w].rssi < e.rssi
    ensures Covered(table[w := e], x)
  {
    if Listed(table, x.ssid) {
      var i :| 0 <= i < |table| && table[i].ssid == x.ssid;
      if i == w {
        assert Strongest(table[w], seen);
      } else {
        ListedAt(table[w := e], i);
      }
    }
  }

  lemma {:induction false} TableSummary(seen: seq<Sighting>)
    ensures Summary(InsertAll(seen), seen)
  {
    if seen != [] {
      var init := seen[..|seen| - 1];
      TableSummary(init);
      InsertKeepsSummary(InsertAll(init), init, seen[|seen| - 1]);
      assert init + [seen[|seen| - 1]] == seen;
    }
  }

  /** The number of entries is the number of different names, but never more than nine. */
  lemma TableSize(seen: seq<Sighting>)
    ensures var names := set s | s in seen && Usable(s) :: s.ssid;
            |InsertAll(seen)| == if |names| < MAX_RESULTS then |names| else MAX_RESULTS
  {
    TableSummary(seen);
    var table := InsertAll(seen);
    var names := set s | s in seen && Usable(s) :: s.ssid;
    var listed := Names(table);
    DistinctNames(table);
    assert listed <= names by {
      forall i: nat | i < |table|
        ensures table[i].ssid in names
      {
        assert Strongest(table[i], seen);
      }
    }
    SubsetSize(listed, names);
    if |table| < MAX_RESULTS {
      forall n | n in names
        ensures n in listed
      {
        var s :| s in seen && Usable(s) && s.ssid == n;
        assert Listed(table, n);
      }
      assert listed == names;
    }
  }

  ghost function Names(table: seq<Entry>): set<seq<byte>> {
    set i: nat | i < |table| :: table[i].ssid
  }

  lemma NamesOfMore(table: seq<Entry>, e: Entry)
    ensures Names(table + [e]) == Names(table) + {e.ssid}
  {
    var t := table + [e];
    forall x | x in Names(table) + {e.ssid}
      ensures x in Names(t)
    {
      if x == e.ssid {
        assert t[|table|].ssid == x;
      } else {
        var i: nat :| i < |table| && table[i].ssid == x;
        assert t[i].ssid == x;
      }
    }
    forall i: nat | i < |t|
      ensures t[i].ssid in Names(table) + {e.ssid}
    {
      assert i < |table| ==> t[i] == table[i];
    }
  }

  lemma {:induction false} DistinctNames(table: seq<Entry>)
    requires Distinct(table)
    ensures |Names(table)| == |table|
  {
    if table == [] {
      assert Names(table) == {};
    } else {
      var init, last := table[..|table| - 1], table[|table| - 1];
      assert table == init + [last];
      DistinctNames(init);
      NamesOfMore(init, last);
      assert last.ssid !in Names(init);
    }
  }

  lemma {:induction false} SubsetSize<T>(a: set<T>, b: set<T>)
    requires a <= b
    ensures |a| <= |b|
    decreases |a|
  {
    if a != {} {
      var x :| x in a;
      SubsetSize(a - {x}, b - {x});
    }
  }

  // ---------------------------------------------------------------------------------------
  // The sorted table

  ghost predicate Descending(table: seq<Entry>) {
    forall i, j :: 0 <= i < j < |table| ==> table[i].rssi >= table[j].rssi
  }

  lemma {:induction false} PlaceKeeps(ranked: seq<Entry>, value: Entry)
    ensures multiset(Place(ranked, value)) == multiset(ranked) + multiset{value}
  {
    if ranked != [] && ranked[|ranked| - 1].rssi < value.rssi {
      var init := ranked[..|ranked| - 1];
      PlaceKeeps(init, value);
      assert ranked == init + [ranked[|ranked| - 1]];
    }
  }

  lemma {:induction false} PlaceBounded(ranked: seq<Entry>, value: Entry, low: rssi)
    requires value.rssi >= low && forall i :: 0 <= i < |ranked| ==> ranked[i].rssi >= low
    ensures forall i :: 0 <= i < |Place(ranked, value)| ==> Place(ranked, value)[i].rssi >= low
  {
    if ranked != [] && ranked[|ranked| - 1].rssi < value.rssi {
      PlaceBounded(ranked[..|ranked| - 1], value, low);
    }
  }

  lemma {:induction false} PlaceSorts(ranked: seq<Entry>, value: Entry)
    requires Descending(ranked)
    ensures Descending(Place(ranked, value))
  {
    if ranked != [] && ranked[|ranked| - 1].rssi < value.rssi {
      var init, last := ranked[..|ranked| - 1], ranked[|ranked| - 1];
      PlaceSorts(init, value);
      PlaceBounded(init, value, last.rssi);
    }
  }

  lemma {:induction false} RankSorts(table: seq<Entry>)
    ensures Descending(Rank(table))
    ensures multiset(Rank(table)) == multiset(table)
  {
    if table != [] {
      var init := table[..|table| - 1];
      RankSorts(init);
      PlaceSorts(Rank(init), table[|table| - 1]);
      PlaceKeeps(Rank(init), table[|table| - 1]);
      assert table == init + [table[|table| - 1]];
    }
  }

  lemma SamePlaces(a: seq<Entry>, b: seq<Entry>)
    requires multiset(a) == multiset(b)
    ensures |a| == |b|
    ensures forall e :: e in a <==> e in b
  {
    assert |multiset(a)| == |a| && |multiset(b)| == |b|;
    forall e
      ensures e in a <==> e in b
    {
      assert e in a <==> e in multiset(a);
      assert e in b <==> e in multiset(b);
    }
  }

  /** Each entry occurs once when names are distinct, and then the names of any permutation are distinct. */
  lemma PermutationDistinct(a: seq<Entry>, b: seq<Entry>)
    requires Distinct(a) && multiset(a) == multiset(b)
    ensures Distinct(b)
  {
    SamePlaces(a, b);
    forall i, j | 0 <= i < j < |b|
      ensures b[i].ssid != b[j].ssid
    {
      assert b[i] in a && b[j] in a;
      if b[i].ssid == b[j].ssid {
        assert b[i] == b[j];
        TwiceIn(b, i, j);
        OnceIn(a, b[i]);
      }
    }
  }

  lemma TwiceIn(b: seq<Entry>, i: nat, j: nat)
    requires i < j < |b| && b[i] == b[j]
    ensures multiset(b)[b[i]] >= 2
  {
    SplitAt(b, j);
    assert b[i] in b[..j] && b[j] in b[j..];
    assert multiset(b[..j] + b[j..]) == multiset(b[..j]) + multiset(b[j..]);
    assert multiset(b[..j])[b[i]] >= 1 && multiset(b[j..])[b[i]] >= 1;
  }

  lemma {:induction false} OnceIn(a: seq<Entry>, e: Entry)
    requires Distinct(a)
    ensures multiset(a)[e] <= 1
  {
    if a != [] {
      var init, last := a[..|a| - 1], a[|a| - 1];
      assert a == init + [last];
      OnceIn(init, e);
      if e == last {
        assert e !in init;
        assert multiset(init)[e] == 0;
      }
    }
  }

  /**
   After any stream of scan results the sorted table lists different names, the strongest first,
   each as it was sighted strongest; and no network left out was ever stronger than a listed one.
   */
  lemma RankedSummary(seen: seq<Sighting>)
    ensures Descending(Rank(InsertAll(seen)))
    ensures Summary(Rank(InsertAll(seen)), seen)
  {
    var table := InsertAll(seen);
    var ranked := Rank(table);
    TableSummary(seen);
    RankSorts(table);
    SamePlaces(table, ranked);
    PermutationDistinct(table, ranked);
    forall i | 0 <= i < |ranked|
      ensures Strongest(ranked[i], seen)
    {
      assert ranked[i] in table;
    }
    forall s | s in seen && Usable(s)
      ensures Listed(ranked, s.ssid) || RightlyOmitted(ranked, s)
    {
      if Listed(table, s.ssid) {
        var i :| 0 <= i < |table| && table[i].ssid == s.ssid;
        assert table[i] in ranked;
      } else {
        forall i | 0 <= i < |ranked|
          ensures s.rssi <= ranked[i].rssi
        {
          assert ranked[i] in table;
        }
      }
    }
  }
}
