/** Reading string values out of a JSON response, the way the firmware does it: without a JSON parser. */
module Json {
  import opened Bytes
  import opened Numbers
  import opened Sequences

  const QUOTE: byte := 0x22
  const COLON: byte := 0x3a
  const BACKSLASH: byte := 0x5c

  // ---------------------------------------------------------------------------------------
  // Finding a property

  /** "key" stands at cursor, with at least one more byte behind it. */
  predicate KeyAt(text: seq<byte>, key: seq<byte>, cursor: nat) {
    && cursor + |key| + 2 < |text|
    && text[cursor] == QUOTE
    && text[cursor + 1..cursor + 1 + |key|] == key
    && text[cursor + |key| + 1] == QUOTE
  }

  predicate IsSpace(value: byte) {
    value == 0x20 || value == 0x09 || value == 0x0d || value == 0x0a
  }

  function SkipSpaces(text: seq<byte>, cursor: nat): (r: nat)
    requires cursor <= |text|
    ensures cursor <= r <= |text| && (r < |text| ==> !IsSpace(text[r]))
    decreases |text| - cursor
  {
    if cursor < |text| && IsSpace(text[cursor]) then SkipSpaces(text, cursor + 1) else cursor
  }

  /** Behind the key: a colon and the opening quote of the value. */
  function ValueAt(text: seq<byte>, cursor: nat): Option<nat>
    requires cursor <= |text|
  {
    var colon := SkipSpaces(text, cursor);
    if colon >= |text| || text[colon] != COLON then None
    else
      var value := SkipSpaces(text, colon + 1);
      if value < |text| && text[value] == QUOTE then Some(value + 1) else None
  }

  /** The first place where the quoted key stands decides, wherever that is. */
  function Find(text: seq<byte>, key: seq<byte>, cursor: nat): (r: Option<nat>)
    ensures r.Some? ==> r.value <= |text|
    decreases |text| - cursor
  {
    if cursor + |key| + 2 >= |text| then None
    else if KeyAt(text, key, cursor) then ValueAt(text, cursor + |key| + 2)
    else Find(text, key, cursor + 1)
  }

  method FindJsonString(text: seq<byte>, key: seq<byte>) returns (value: Option<nat>)
    ensures value == Find(text, key, 0)
  {
    var cursor := 0;
    while cursor + |key| + 2 < |text|
      invariant Find(text, key, cursor) == Find(text, key, 0)
      decreases |text| - cursor
    {
      if text[cursor] != QUOTE || text[cursor + 1..cursor + 1 + |key|] != key || text[cursor + |key| + 1] != QUOTE {
        cursor := cursor + 1;
        continue;
      }
      cursor := cursor + |key| + 2;
      ghost var start := cursor;
      while cursor < |text| && IsSpace(text[cursor])
        invariant start <= cursor <= |text| && SkipSpaces(text, cursor) == SkipSpaces(text, start)
      {
        cursor := cursor + 1;
      }
      if cursor >= |text| || text[cursor] != COLON {
        return None;
      }
      cursor := cursor + 1;
      ghost var after := cursor;
      while cursor < |text| && IsSpace(text[cursor])
        invariant after <= cursor <= |text| && SkipSpaces(text, cursor) == SkipSpaces(text, after)
      {
        cursor := cursor + 1;
      }
      return if cursor < |text| && text[cursor] == QUOTE then Some(cursor + 1) else None;
    }
    return None;
  }

  // ---------------------------------------------------------------------------------------
  // Reading a string

  /** One code point, the closing quote, or malformed input. */
  datatype Token = Code(code: nat) | End | Bad

  /** The digits of a \u escape from cursor on. */
  function HexDigits(text: seq<byte>, cursor: nat, digits: nat, code: nat): Option<nat>
    decreases digits
  {
    if digits == 0 then Some(code)
    else if cursor >= |text| || Digit(text[cursor], 16).None? then None
    else HexDigits(text, cursor + 1, digits - 1, code * 16 + Digit(text[cursor], 16).value)
  }

  lemma {:induction false} HexDigitsBound(text: seq<byte>, cursor: nat, digits: nat, code: nat)
    ensures HexDigits(text, cursor, digits, code).Some? ==> cursor + digits <= |text| || digits == 0
    decreases digits
  {
    if digits > 0 && cursor < |text| && Digit(text[cursor], 16).Some? {
      HexDigitsBound(text, cursor + 1, digits - 1, code * 16 + Digit(text[cursor], 16).value);
    }
  }

  function Simple(value: byte): Option<nat> {
    if value == QUOTE || value == BACKSLASH || value == 0x2f then Some(value)
    else if value == 0x62 then Some(8)
    else if value == 0x66 then Some(12)
    else if value == 0x6e then Some(10)
    else if value == 0x72 then Some(13)
    else if value == 0x74 then Some(9)
    else None
  }

  /** The next code point of a string and the position behind it. */
  function Next(text: seq<byte>, position: nat): (r: (Token, nat))
    ensures r.0.Code? ==> position < r.1 <= |text|
    ensures r.0.End? ==> position < r.1 <= |text|
  {
    if position >= |text| then (Bad, position)
    else if text[position] == QUOTE then (End, position + 1)
    else if text[position] != BACKSLASH then (Code(text[position]), position + 1)
    else if position + 1 >= |text| then (Bad, position)
    else if text[position + 1] == 0x75 then
      HexDigitsBound(text, position + 2, 4, 0);
      match HexDigits(text, position + 2, 4, 0)
      case Some(code) => (Code(code), position + 6)
      case None => (Bad, position)
    else match Simple(text[position + 1])
      case Some(code) => (Code(code), position + 2)
      case None => (Bad, position)
  }

  /** All code points up to the closing quote. */
  function StringAt(text: seq<byte>, position: nat): Option<seq<nat>>
    decreases |text| - position
  {
    var (token, after) := Next(text, position);
    match token
    case Bad => None
    case End => Some([])
    case Code(code) =>
      match StringAt(text, after)
      case None => None
      case Some(codes) => Some([code] + codes)
  }

  // Codes already read, in front of what remains to be read

  ghost function PrefixedBy(before: seq<nat>, codes: Option<seq<nat>>): Option<seq<nat>> {
    match codes
    case None => None
    case Some(rest) => Some(before + rest)
  }

  lemma PrefixedByNothing(codes: Option<seq<nat>>)
    ensures PrefixedBy([], codes) == codes
  {
    if codes.Some? {
      All(codes.value);
    }
  }

  lemma PrefixedByStep(before: seq<nat>, text: seq<byte>, position: nat)
    ensures var (token, after) := Next(text, position);
            && (token.Code? ==>
                  PrefixedBy(before, StringAt(text, position)) == PrefixedBy(before + [token.code], StringAt(text, after)))
            && (token.End? ==> PrefixedBy(before, StringAt(text, position)) == Some(before))
            && (token.Bad? ==> PrefixedBy(before, StringAt(text, position)) == None)
  {
    var (token, after) := Next(text, position);
    if token.Code? && StringAt(text, after).Some? {
      Associative(before, [token.code], StringAt(text, after).value);
    }
    All(before);
  }

  /** Bytes that stand for themselves inside a string. */
  predicate Plain(text: seq<byte>) {
    forall i :: 0 <= i < |text| ==> text[i] != QUOTE && text[i] != BACKSLASH
  }

  function Codes(text: seq<byte>): seq<nat> {
    seq(|text|, i requires 0 <= i < |text| => text[i])
  }

  lemma CodesOfMore(b: byte, text: seq<byte>)
    ensures Codes([b] + text) == [b as nat] + Codes(text)
  {
  }

  /** A string of plain bytes is read as these bytes. */
  lemma {:induction false} PlainString(text: seq<byte>, from: nat, until: nat)
    requires from <= until < |text| && text[until] == QUOTE && Plain(text[from..until])
    ensures StringAt(text, from) == Some(Codes(text[from..until]))
    decreases until - from
  {
    if from == until {
      assert Codes(text[from..until]) == [];
      assert Next(text, from) == (End, from + 1);
    } else {
      assert text[from..until][0] == text[from];
      assert text[from..until] == [text[from]] + text[from + 1..until];
      assert Next(text, from) == (Code(text[from]), from + 1);
      PlainString(text, from + 1, until);
      CodesOfMore(text[from], text[from + 1..until]);
    }
  }

  // ---------------------------------------------------------------------------------------
  // Skipping what is not the key

  /** Where the key does not stand, the search goes on. */
  lemma FindStepsOver(text: seq<byte>, key: seq<byte>, cursor: nat)
    requires !KeyAt(text, key, cursor)
    ensures Find(text, key, cursor) == Find(text, key, cursor + 1)
  {
  }

  /** A key that stands nowhere is not found. */
  lemma {:induction false} FindNothing(text: seq<byte>, key: seq<byte>, cursor: nat)
    requires forall i :: i >= cursor ==> !KeyAt(text, key, i)
    ensures Find(text, key, cursor) == None
    decreases |text| - cursor
  {
    if cursor < |text| {
      FindNothing(text, key, cursor + 1);
    }
  }

  /** Where a key stands, its characters stand. */
  lemma KeyCharacter(text: seq<byte>, key: seq<byte>, cursor: nat, k: nat)
    requires KeyAt(text, key, cursor) && k < |key|
    ensures text[cursor + 1 + k] == key[k]
  {
    assert text[cursor + 1..cursor + 1 + |key|][k] == key[k];
  }

  /** Text without quotes cannot contain the beginning of a key. */
  lemma {:induction false} FindSkips(text: seq<byte>, key: seq<byte>, from: nat, until: nat)
    requires from <= until <= |text| && forall i :: from <= i < until ==> text[i] != QUOTE
    ensures Find(text, key, from) == Find(text, key, until)
    decreases until - from
  {
    if from < until {
      FindStepsOver(text, key, from);
      FindSkips(text, key, from + 1, until);
    }
  }

  /** A whole string that is not the key is passed over, together with the mark before it. */
  lemma FindPassesString(text: seq<byte>, key: seq<byte>, mark: nat, close: nat)
    requires mark + 1 < close && close + 1 < |text|
    requires text[mark] != QUOTE && text[mark + 1] == QUOTE && text[close] == QUOTE
    requires forall i :: mark + 2 <= i < close ==> text[i] != QUOTE
    requires key != [] && QUOTE !in key && text[mark + 2..close] != key && text[close + 1] != key[0]
    ensures Find(text, key, mark) == Find(text, key, close + 1)
  {
    FindStepsOver(text, key, mark);
    SameString(text, key, mark + 2, close);
    FindStepsOver(text, key, mark + 1);
    FindSkips(text, key, mark + 2, close);
    FirstOfKey(text, key, close);
    FindStepsOver(text, key, close);
  }

  /** If the key stands at an opening quote, it is the whole string. */
  lemma SameString(text: seq<byte>, key: seq<byte>, from: nat, until: nat)
    requires 1 <= from <= until < |text| && QUOTE !in key
    requires text[until] == QUOTE && forall i :: from <= i < until ==> text[i] != QUOTE
    ensures KeyAt(text, key, from - 1) ==> text[from..until] == key
  {
    if KeyAt(text, key, from - 1) {
      assert forall i :: 0 <= i < |key| ==> text[from + i] == text[from..from + |key|][i] == key[i];
      assert text[from + |key|] == QUOTE;
    }
  }

  lemma FirstOfKey(text: seq<byte>, key: seq<byte>, cursor: nat)
    requires key != [] && cursor + 1 < |text|
    ensures KeyAt(text, key, cursor) ==> text[cursor + 1] == key[0]
  {
    if KeyAt(text, key, cursor) {
      assert text[cursor + 1..cursor + 1 + |key|][0] == key[0];
    }
  }

  /** Where the key stands, the string behind the colon is found. */
  lemma FindHits(text: seq<byte>, key: seq<byte>, mark: nat, close: nat, end: nat)
    requires mark + 1 < close && close + 2 < end < |text|
    requires text[mark] != QUOTE && text[mark + 1] == QUOTE && text[mark + 2..close] == key && text[close] == QUOTE
    requires text[close + 1] == COLON && text[close + 2] == QUOTE && text[end] == QUOTE
    requires Plain(text[close + 3..end])
    ensures Find(text, key, mark) == Some(close + 3)
    ensures StringAt(text, close + 3) == Some(Codes(text[close + 3..end]))
  {
    FindStepsOver(text, key, mark);
    assert KeyAt(text, key, mark + 1);
    PlainString(text, close + 3, end);
  }
}
