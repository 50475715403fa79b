/**
 Markup round trip: any page of coloured characters can be written as markup, and the parser reads
 back the same page.
 */
module PageText {
  import opened Bytes
  import opened Sequences
  import opened Json
  import opened Numbers
  import opened Saa5050
  import opened Markup
  import opened PageContent
  import opened PageFields

  /** One character with its colours. */
  datatype Spot = Spot(style: Style, code: nat)

  /** Every code point but the line ends, and but the value reserved for "none". */
  predicate Writable(spot: Spot) {
    spot.code != CR && spot.code != LF && spot.code < NO_CODEPOINT
  }

  predicate WritableRow(spots: seq<Spot>) {
    forall i :: 0 <= i < |spots| ==> Writable(spots[i])
  }

  // ---------------------------------------------------------------------------------------
  // Writing

  function ClassList(style: Style): seq<byte> {
    ColourName(style.foreground) + [SPACE] + BG + ColourName(style.background)
  }

  function OpeningTag(style: Style): seq<byte> {
    SPAN + [SPACE] + CLASS_ATTRIBUTE + ClassList(style) + [QUOTE]
  }

  const CLOSING_TAG: seq<byte> := [SLASH, 0x73, 0x70, 0x61, 0x6e]

  function Entity(code: nat): seq<byte> {
    [0x23] + Decimal(code)
  }

  /** The character as a numeric entity in an element of its own, in front of the rest of the page. */
  function WriteSpot(spot: Spot, rest: seq<nat>): seq<nat> {
    var closed := [LESS as nat] + (Codes(CLOSING_TAG) + [GREATER as nat] + rest);
    var entity := [AMPERSAND as nat] + (Codes(Entity(spot.code)) + [SEMICOLON as nat] + closed);
    [LESS as nat] + (Codes(OpeningTag(spot.style)) + [GREATER as nat] + entity)
  }

  function WriteRow(spots: seq<Spot>, rest: seq<nat>): seq<nat> {
    if spots == [] then rest else WriteSpot(spots[0], WriteRow(spots[1..], rest))
  }

  function WriteRows(rows: seq<seq<Spot>>): seq<nat> {
    if rows == [] then [] else WriteRow(rows[0], [LF as nat] + WriteRows(rows[1..]))
  }

  function CellsOf(spots: seq<Spot>): seq<Cell> {
    seq(|spots|, i requires 0 <= i < |spots| => CellOf(spots[i].style, spots[i].code))
  }

  // ---------------------------------------------------------------------------------------
  // Reading the parts

  lemma EntityReads(code: nat)
    requires code < NO_CODEPOINT
    ensures EntityCode(Entity(code)) == Some(code) && |Entity(code)| < ENTITY_MAX
    ensures SEMICOLON !in Entity(code)
  {
    hide NamedEntity;
    DecimalReads(code);
    assert PowerOfTen(10) == 10_000_000_000 by {
      assert PowerOfTen(5) == 100_000;
    }
    DecimalLength(code, 10, PowerOfTen(10));
    assert Entity(code)[1..] == Decimal(code);
  }

  /** A decimal entity is read as its number exactly below the reserved value; at and above it there is no entity. */
  lemma EntityExactly(code: nat)
    ensures EntityCode(Entity(code)) == if code < NO_CODEPOINT then Some(code) else None
  {
    hide NamedEntity, NumberOf, Decimal;
    DecimalReads(code);
    assert Entity(code)[1..] == Decimal(code);
    assert Entity(code)[1] == Decimal(code)[0];
  }

  lemma ColourReads(colour: Colour)
    ensures ColourFromClass(ColourName(colour)) == Some(colour)
  {
  }

  lemma ColourNameShape(colour: Colour)
    ensures 3 <= |ColourName(colour)| <= 7 && ColourName(colour)[1] != 0x67
    ensures forall i :: 0 <= i < |ColourName(colour)| ==> 0x61 <= ColourName(colour)[i] <= 0x7a && ColourName(colour)[i] != 0x76
  {
  }

  lemma ApplyForeground(colour: Colour, style: Style)
    ensures ApplyClass(ColourName(colour), style) == style.(foreground := colour)
  {
    hide ColourFromClass, ColourName;
    ColourReads(colour);
    ColourNameShape(colour);
    if ColourName(colour)[..3] == BG {
      assert ColourName(colour)[..3][1] == 0x67;
    }
  }

  lemma ApplyBackground(colour: Colour, style: Style)
    ensures ApplyClass(BG + ColourName(colour), style) == style.(background := colour)
  {
    hide ColourFromClass, ColourName;
    ColourReads(colour);
    ColourNameShape(colour);
    assert (BG + ColourName(colour))[..3] == BG && (BG + ColourName(colour))[3..] == ColourName(colour);
  }

  lemma ClassListReads(style: Style, before: Style)
    ensures Restyle(ClassList(style), before) == style
  {
    hide Restyle, ColourName, ApplyClass;
    var classes, n := ClassList(style), |ColourName(style.foreground)|;
    ColourNameShape(style.foreground);
    ColourNameShape(style.background);
    assert classes[0..] == classes && classes[|classes|..] == [];
    assert classes[0..n] == ColourName(style.foreground) && classes[n] == SPACE;
    assert classes[n + 1..|classes|] == BG + ColourName(style.background);
    RestyleToken(classes, 0, n, before);
    ApplyForeground(style.foreground, before);
    var middle := before.(foreground := style.foreground);
    RestyleSpace(classes, n, middle);
    RestyleToken(classes, n + 1, |classes|, middle);
    ApplyBackground(style.background, middle);
    RestyleNothing(style);
  }

  /** A character that neither ends a tag nor needs an escape, and is mild. */
  predicate TagCharacter(character: byte) {
    0x20 <= character && MildCode(character) && character != GREATER && character != BACKSLASH
  }

  lemma ClassListShape(style: Style)
    ensures var classes := ClassList(style);
            && |classes| <= 18
            && forall i :: 0 <= i < |classes| ==> TagCharacter(classes[i]) && classes[i] != QUOTE
  {
    hide ColourName;
    ColourNameShape(style.foreground);
    ColourNameShape(style.background);
  }

  lemma OpeningTagShape(style: Style)
    ensures var tag := OpeningTag(style);
            && 13 <= |tag| <= 31 && tag[..4] == SPAN && tag[4] == SPACE && tag[5..12] == CLASS_ATTRIBUTE
            && tag[12..|tag| - 1] == ClassList(style) && tag[|tag| - 1] == QUOTE
            && (forall i :: 12 <= i < |tag| - 1 ==> tag[i] != QUOTE)
            && (forall i :: 0 <= i < |tag| ==> TagCharacter(tag[i]))
  {
    hide ClassList;
    ClassListShape(style);
    var tag, classes := OpeningTag(style), ClassList(style);
    assert forall i :: 12 <= i < |tag| - 1 ==> tag[i] == classes[i - 12];
  }

  lemma OpeningTagReads(style: Style)
    ensures TagEvent(OpeningTag(style)) == Opens(ClassList(style))
  {
    hide OpeningTag, ClassList;
    var tag := OpeningTag(style);
    OpeningTagShape(style);
    assert forall i :: 0 <= i < 4 ==> tag[i] == SPAN[i];
    assert SkipBlanks(tag, 0) == 0;
    assert NameEnd(tag, 0) == 4;
    assert tag[0..4] == SPAN;
    assert tag[4..11][0] != CLASS_ATTRIBUTE[0];
    assert QuoteFrom(tag, 12) == |tag| - 1;
    assert ClassesFrom(tag, 4) == ClassesFrom(tag, 5);
  }

  lemma ClosingTagReads()
    ensures TagEvent(CLOSING_TAG) == Closes
  {
    assert SkipBlanks(CLOSING_TAG, 0) == 0;
    assert NameEnd(CLOSING_TAG, 1) == 5;
    assert CLOSING_TAG[1..5] == SPAN;
  }

  lemma TagTextOfCodes(bytes: seq<byte>)
    requires forall i :: 0 <= i < |bytes| ==> bytes[i] <= 0x7f
    ensures TagText(Codes(bytes)) == bytes
  {
  }

  // ---------------------------------------------------------------------------------------
  // Reading a character, a row and a page

  lemma SpotReads(g: Grid, spot: Spot, rest: seq<nat>)
    requires Writable(spot) && g.row < SOURCE_ROWS && g.column < COLUMNS
    ensures Finish(Layout(Styles(PLAIN, []), g), Some(WriteSpot(spot, rest))) ==
            Finish(Layout(Styles(PLAIN, []), Grid(g.cells + [CellOf(spot.style, spot.code)], g.row, g.column + 1)), Some(rest))
  {
    hide Finish, ItemsOf, TagEvent, EntityCode, CellOf, OpeningTag, Entity, Restyle, ClassList;
    var plain, styled := Styles(PLAIN, []), Styles(spot.style, [PLAIN]);
    var written := Grid(g.cells + [CellOf(spot.style, spot.code)], g.row, g.column + 1);
    var closed := [LESS as nat] + (Codes(CLOSING_TAG) + [GREATER as nat] + rest);
    var entity := [AMPERSAND as nat] + (Codes(Entity(spot.code)) + [SEMICOLON as nat] + closed);
    OpenReads(Layout(plain, g), spot.style, entity);
    ClassListReads(spot.style, PLAIN);
    assert [] + [PLAIN] == [PLAIN];
    EntityIsPlaced(Layout(styled, g), spot.code, closed);
    CloseReads(Layout(styled, written), rest);
    assert [PLAIN][..0] == [];
  }

  lemma OpenReads(m: Layout, style: Style, rest: seq<nat>)
    ensures Finish(m, Some([LESS as nat] + (Codes(OpeningTag(style)) + [GREATER as nat] + rest))) ==
            FinishItem(m, Tag(Opens(ClassList(style))), Some(rest))
  {
    hide Finish, FinishItem, ItemsOf, TagEvent, OpeningTag, ClassList;
    OpeningTagShape(style);
    OpeningTagReads(style);
    TagTextOfCodes(OpeningTag(style));
    TagItems(Codes(OpeningTag(style)), rest);
    FinishFirst(m, Tag(Opens(ClassList(style))), [LESS as nat] + (Codes(OpeningTag(style)) + [GREATER as nat] + rest), rest);
  }

  lemma CloseReads(m: Layout, rest: seq<nat>)
    ensures Finish(m, Some([LESS as nat] + (Codes(CLOSING_TAG) + [GREATER as nat] + rest))) ==
            FinishItem(m, Tag(Closes), Some(rest))
  {
    hide Finish, FinishItem, ItemsOf, TagEvent;
    ClosingTagReads();
    TagTextOfCodes(CLOSING_TAG);
    TagItems(Codes(CLOSING_TAG), rest);
    FinishFirst(m, Tag(Closes), [LESS as nat] + (Codes(CLOSING_TAG) + [GREATER as nat] + rest), rest);
  }

  lemma EntityIsPlaced(m: Layout, code: nat, rest: seq<nat>)
    requires code < NO_CODEPOINT
    ensures Finish(m, Some([AMPERSAND as nat] + (Codes(Entity(code)) + [SEMICOLON as nat] + rest))) ==
            FinishItem(m, Character(code), Some(rest))
  {
    hide Finish, FinishItem, ItemsOf, EntityCode;
    EntityReads(code);
    TagTextOfCodes(Entity(code));
    EntityItems(Codes(Entity(code)), rest);
    FinishFirst(m, Character(code), [AMPERSAND as nat] + (Codes(Entity(code)) + [SEMICOLON as nat] + rest), rest);
  }

  lemma {:induction false} RowReads(g: Grid, spots: seq<Spot>, rest: seq<nat>)
    requires WritableRow(spots) && g.row < SOURCE_ROWS && g.column + |spots| <= COLUMNS
    ensures Finish(Layout(Styles(PLAIN, []), g), Some(WriteRow(spots, rest))) ==
            Finish(Layout(Styles(PLAIN, []), Grid(g.cells + CellsOf(spots), g.row, g.column + |spots|)), Some(rest))
    decreases |spots|
  {
    hide Finish, WriteSpot, CellOf;
    if spots == [] {
      All(g.cells);
    } else {
      var cell := CellOf(spots[0].style, spots[0].code);
      SpotReads(g, spots[0], WriteRow(spots[1..], rest));
      RowReads(Grid(g.cells + [cell], g.row, g.column + 1), spots[1..], rest);
      Associative(g.cells, [cell], CellsOf(spots[1..]));
      assert [cell] + CellsOf(spots[1..]) == CellsOf(spots);
    }
  }

  function PageCells(rows: seq<seq<Spot>>): seq<Cell> {
    if rows == [] then [] else CellsOf(rows[0]) + PageCells(rows[1..])
  }

  lemma LineEnds(g: Grid, rest: seq<nat>)
    requires g.row < SOURCE_ROWS && g.column == COLUMNS
    ensures Finish(Layout(Styles(PLAIN, []), g), Some([LF as nat] + rest)) ==
            Finish(Layout(Styles(PLAIN, []), Grid(g.cells, g.row + 1, 0)), Some(rest))
  {
    hide Finish, ItemsOf;
    CharacterItems(LF, rest);
    FinishFirst(Layout(Styles(PLAIN, []), g), Character(LF), [LF as nat] + rest, rest);
  }

  lemma {:induction false} RowsRead(g: Grid, rows: seq<seq<Spot>>)
    requires g.column == 0 && g.row + |rows| == SOURCE_ROWS
    requires forall r :: 0 <= r < |rows| ==> |rows[r]| == COLUMNS && WritableRow(rows[r])
    ensures Finish(Layout(Styles(PLAIN, []), g), Some(WriteRows(rows))) ==
            Some(Layout(Styles(PLAIN, []), Grid(g.cells + PageCells(rows), SOURCE_ROWS, 0)))
    decreases |rows|
  {
    hide Finish, WriteRow, CellsOf;
    if rows == [] {
      All(g.cells);
      FinishAtEnd(Layout(Styles(PLAIN, []), g));
    } else {
      var cells := CellsOf(rows[0]);
      RowReads(g, rows[0], [LF as nat] + WriteRows(rows[1..]));
      LineEnds(Grid(g.cells + cells, g.row, COLUMNS), WriteRows(rows[1..]));
      RowsRead(Grid(g.cells + cells, g.row + 1, 0), rows[1..]);
      Associative(g.cells, cells, PageCells(rows[1..]));
    }
  }

  lemma {:induction false} PageCellsAt(rows: seq<seq<Spot>>, r: nat, c: nat)
    requires forall i :: 0 <= i < |rows| ==> |rows[i]| == COLUMNS
    requires r < |rows| && c < COLUMNS
    ensures |PageCells(rows)| == |rows| * COLUMNS
    ensures PageCells(rows)[r * COLUMNS + c] == CellOf(rows[r][c].style, rows[r][c].code)
    decreases |rows|
  {
    hide CellOf;
    if r > 0 {
      PageCellsAt(rows[1..], r - 1, c);
    } else if |rows| > 1 {
      PageCellsAt(rows[1..], 0, 0);
    }
  }

  // ---------------------------------------------------------------------------------------
  // The string in the response (section 7 of RFC 8259)

  function EscapeCode(code: nat): (text: seq<byte>)
    requires code < 0x80
  {
    if code == QUOTE || code == BACKSLASH then [BACKSLASH, code]
    else if code == LF then [BACKSLASH, 0x6e]
    else [code]
  }

  predicate Ascii(codes: seq<nat>) {
    forall i :: 0 <= i < |codes| ==> codes[i] < 0x80
  }

  function Escape(codes: seq<nat>, rest: seq<byte>): seq<byte>
    requires Ascii(codes)
  {
    if codes == [] then rest else EscapeCode(codes[0]) + Escape(codes[1..], rest)
  }

  lemma {:induction false} EscapeReads(before: seq<byte>, codes: seq<nat>, rest: seq<byte>)
    requires Ascii(codes)
    ensures StringAt(before + Escape(codes, [QUOTE] + rest), |before|) == Some(codes)
    decreases |codes|
  {
    hide StringAt, Json.Next;
    var text := before + Escape(codes, [QUOTE] + rest);
    if codes == [] {
      assert text[|before|] == QUOTE;
      StringEnds(text, |before|);
    } else {
      var first, more := EscapeCode(codes[0]), Escape(codes[1..], [QUOTE] + rest);
      Associative(before, first, more);
      EscapeReads(before + first, codes[1..], rest);
      CodeReads(before, codes[0], more);
      StringGoesOn(text, |before|, codes[0], |before + first|);
      assert [codes[0]] + codes[1..] == codes;
    }
  }

  lemma StringEnds(text: seq<byte>, position: nat)
    requires position < |text| && text[position] == QUOTE
    ensures StringAt(text, position) == Some([])
  {
  }

  lemma StringGoesOn(text: seq<byte>, position: nat, code: nat, after: nat)
    requires Json.Next(text, position) == (Code(code), after)
    requires StringAt(text, after).Some?
    ensures StringAt(text, position) == Some([code] + StringAt(text, after).value)
  {
  }

  lemma CodeReads(before: seq<byte>, code: nat, rest: seq<byte>)
    requires code < 0x80
    ensures Json.Next(before + (EscapeCode(code) + rest), |before|) == (Code(code), |before + EscapeCode(code)|)
  {
    var text, n := before + (EscapeCode(code) + rest), |before|;
    assert text[n] == EscapeCode(code)[0];
    if |EscapeCode(code)| == 2 {
      assert text[n + 1] == EscapeCode(code)[1];
    }
  }

  /** ASCII without the letters that tell the other property names apart: D, P and v. */
  predicate Mild(codes: seq<nat>) {
    forall i :: 0 <= i < |codes| ==> MildCode(codes[i])
  }

  predicate MildCode(code: nat) {
    code < 0x80 && code != 0x44 && code != 0x50 && code != 0x76
  }

  lemma SpotIsMild(spot: Spot, rest: seq<nat>)
    requires Mild(rest)
    ensures Mild(WriteSpot(spot, rest))
  {
    hide Mild, OpeningTag, Entity, Codes;
    var closed := [LESS as nat] + (Codes(CLOSING_TAG) + [GREATER as nat] + rest);
    var entity := Codes(Entity(spot.code)) + [SEMICOLON as nat];
    PartsAreMild(spot);
    MildConcat(Codes(CLOSING_TAG), [GREATER as nat]);
    MildConcat(Codes(CLOSING_TAG) + [GREATER as nat], rest);
    MildConcat([LESS as nat], Codes(CLOSING_TAG) + [GREATER as nat] + rest);
    MildConcat(Codes(Entity(spot.code)), [SEMICOLON as nat]);
    MildConcat(entity, closed);
    MildConcat([AMPERSAND as nat], entity + closed);
    MildConcat(Codes(OpeningTag(spot.style)), [GREATER as nat]);
    MildConcat(Codes(OpeningTag(spot.style)) + [GREATER as nat], [AMPERSAND as nat] + (entity + closed));
    MildConcat([LESS as nat], Codes(OpeningTag(spot.style)) + [GREATER as nat] + ([AMPERSAND as nat] + (entity + closed)));
  }

  lemma MildConcat(a: seq<nat>, b: seq<nat>)
    requires Mild(a) && Mild(b)
    ensures Mild(a + b)
  {
  }

  lemma PartsAreMild(spot: Spot)
    ensures Mild(Codes(OpeningTag(spot.style))) && Mild(Codes(Entity(spot.code))) && Mild(Codes(CLOSING_TAG))
    ensures Mild([LESS as nat]) && Mild([GREATER as nat]) && Mild([AMPERSAND as nat]) && Mild([SEMICOLON as nat])
  {
    hide OpeningTag, Decimal;
    OpeningTagShape(spot.style);
  }

  lemma {:induction false} RowIsMild(spots: seq<Spot>, rest: seq<nat>)
    requires Mild(rest)
    ensures Mild(WriteRow(spots, rest))
    decreases |spots|
  {
    hide WriteSpot;
    if spots != [] {
      RowIsMild(spots[1..], rest);
      SpotIsMild(spots[0], WriteRow(spots[1..], rest));
    }
  }

  lemma {:induction false} RowsAreMild(rows: seq<seq<Spot>>)
    ensures Mild(WriteRows(rows)) && Ascii(WriteRows(rows))
    decreases |rows|
  {
    hide WriteRow;
    if rows != [] {
      RowsAreMild(rows[1..]);
      RowIsMild(rows[0], [LF as nat] + WriteRows(rows[1..]));
    }
  }

  /** No next subpage, and then the content. */
  const BEFORE_CONTENT: seq<byte> :=
    [0x7b, QUOTE] + NEXT_SUBPAGE + [QUOTE, COLON, QUOTE, QUOTE, 0x2c, QUOTE] + CONTENT + [QUOTE, COLON, QUOTE]

  /** A response with the page as its content. */
  function ResponseWith(rows: seq<seq<Spot>>): seq<byte> {
    RowsAreMild(rows);
    BEFORE_CONTENT + Escape(WriteRows(rows), [QUOTE] + [0x7d])
  }

  lemma ContentFound(rest: seq<byte>)
    requires rest != []
    ensures Find(BEFORE_CONTENT + rest, CONTENT, 0) == Some(|BEFORE_CONTENT|)
  {
    hide Find;
    var text := BEFORE_CONTENT + rest;
    assert forall i :: 0 <= i < |BEFORE_CONTENT| ==> text[i] == BEFORE_CONTENT[i];
    assert |text[2..13]| != |CONTENT| && |text[16..16]| != |CONTENT|;
    FindPassesString(text, CONTENT, 0, 13);
    FindPassesString(text, CONTENT, 14, 16);
    FindStepsOver(text, CONTENT, 17);
    ContentKey(text);
  }

  lemma ContentKey(text: seq<byte>)
    requires |text| > |BEFORE_CONTENT| && forall i :: 0 <= i < |BEFORE_CONTENT| ==> text[i] == BEFORE_CONTENT[i]
    ensures Find(text, CONTENT, 18) == Some(|BEFORE_CONTENT|)
  {
    assert text[19..26] == CONTENT;
    assert KeyAt(text, CONTENT, 18);
    assert SkipSpaces(text, 27) == 27 && SkipSpaces(text, 28) == 28;
  }

  lemma EscapeNotEmpty(codes: seq<nat>, rest: seq<byte>)
    requires Ascii(codes) && rest != []
    ensures Escape(codes, rest) != []
  {
  }

  /** Every page of twenty-five by forty coloured characters is read back as it was written. */
  lemma MarkupRoundTrip(rows: seq<seq<Spot>>)
    requires |rows| == SOURCE_ROWS
    requires forall r :: 0 <= r < |rows| ==> |rows[r]| == COLUMNS && WritableRow(rows[r])
    ensures ContentOf(ResponseWith(rows)).Some? && |ContentOf(ResponseWith(rows)).value| == SOURCE_ROWS * COLUMNS
    ensures forall r, c :: 0 <= r < SOURCE_ROWS && 0 <= c < COLUMNS ==>
              ContentOf(ResponseWith(rows)).value[r * COLUMNS + c] == CellOf(rows[r][c].style, rows[r][c].code)
  {
    hide ContentOf, ResponseWith, WritableRow, CellOf, PageCells;
    PageIsRead(rows);
    PageCellsAt(rows, 0, 0);
    forall r, c | 0 <= r < SOURCE_ROWS && 0 <= c < COLUMNS
      ensures PageCells(rows)[r * COLUMNS + c] == CellOf(rows[r][c].style, rows[r][c].code)
    {
      PageCellsAt(rows, r, c);
    }
  }

  lemma PageIsRead(rows: seq<seq<Spot>>)
    requires |rows| == SOURCE_ROWS
    requires forall r :: 0 <= r < |rows| ==> |rows[r]| == COLUMNS && WritableRow(rows[r])
    ensures ContentOf(ResponseWith(rows)) == Some(PageCells(rows))
  {
    hide Find, StringAt, Finish, WriteRows, CellOf, Escape, PageCells;
    RowsAreMild(rows);
    EscapeNotEmpty(WriteRows(rows), [QUOTE] + [0x7d]);
    ContentFound(Escape(WriteRows(rows), [QUOTE] + [0x7d]));
    EscapeReads(BEFORE_CONTENT, WriteRows(rows), [0x7d]);
    RowsRead(Grid([], 0, 0), rows);
    All(PageCells(rows));
    PageCellsAt(rows, 0, 0);
  }
}
