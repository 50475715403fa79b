/**
 From a page to the screen: what the decoder makes of a page that has been written as markup.
 */
module PageRoundTrip {
  import opened Bytes
  import opened Json
  import opened PageFields
  import opened PageText
  import Borders
  import Markup
  import PageContent
  import PageDecoder
  import RowMeaning
  import Saa5050
  import Server

  predicate MildText(text: seq<byte>) {
    forall i :: 0 <= i < |text| ==> MildCode(text[i])
  }

  lemma {:induction false} EscapeIsMild(codes: seq<nat>, rest: seq<byte>)
    requires Ascii(codes) && Mild(codes) && MildText(rest)
    ensures MildText(Escape(codes, rest))
    decreases |codes|
  {
    if codes != [] {
      EscapeIsMild(codes[1..], rest);
    }
  }

  /** Behind the name of the first property, the letters D, P and v do not occur. */
  lemma ResponseLetters(rows: seq<seq<Spot>>)
    ensures var text := ResponseWith(rows);
            && |text| > |BEFORE_CONTENT| && text[..|BEFORE_CONTENT|] == BEFORE_CONTENT
            && forall i :: 0 <= i < |text| ==> text[i] != 0x44 && text[i] != 0x76 && (text[i] == 0x50 ==> i == 9)
  {
    hide WriteRows, Escape;
    RowsAreMild(rows);
    EscapeIsMild(WriteRows(rows), [QUOTE] + [0x7d]);
    EscapeNotEmpty(WriteRows(rows), [QUOTE] + [0x7d]);
    var content := Escape(WriteRows(rows), [QUOTE] + [0x7d]);
    assert forall i :: 0 <= i < |BEFORE_CONTENT| ==>
      BEFORE_CONTENT[i] != 0x44 && BEFORE_CONTENT[i] != 0x76 && (BEFORE_CONTENT[i] == 0x50 ==> i == 9);
    assert forall i :: 0 <= i < |content| ==> MildCode(content[i]);
  }

  /** The properties that the response does not have are not found in its content either. */
  lemma OthersAbsent(rows: seq<seq<Spot>>)
    ensures var text := ResponseWith(rows);
            && Find(text, BINARY_DISPLAY, 0) == None && Find(text, PREV_PAGE, 0) == None && Find(text, NEXT_PAGE, 0) == None
  {
    hide ResponseWith, KeyAt, Find;
    var text := ResponseWith(rows);
    ResponseLetters(rows);
    forall i: nat
      ensures !KeyAt(text, BINARY_DISPLAY, i) && !KeyAt(text, PREV_PAGE, i) && !KeyAt(text, NEXT_PAGE, i)
    {
      NoOtherKey(text, i);
    }
    FindNothing(text, BINARY_DISPLAY, 0);
    FindNothing(text, PREV_PAGE, 0);
    FindNothing(text, NEXT_PAGE, 0);
  }

  lemma NoOtherKey(text: seq<byte>, i: nat)
    requires |text| > |BEFORE_CONTENT| && text[..|BEFORE_CONTENT|] == BEFORE_CONTENT
    requires forall k :: 0 <= k < |text| ==> text[k] != 0x44 && text[k] != 0x76 && (text[k] == 0x50 ==> k == 9)
    ensures !KeyAt(text, BINARY_DISPLAY, i) && !KeyAt(text, PREV_PAGE, i) && !KeyAt(text, NEXT_PAGE, i)
  {
    assert text[4] == text[..|BEFORE_CONTENT|][4] == BEFORE_CONTENT[4];
    if KeyAt(text, BINARY_DISPLAY, i) {
      KeyCharacter(text, BINARY_DISPLAY, i, 6);
    }
    if KeyAt(text, PREV_PAGE, i) {
      KeyCharacter(text, PREV_PAGE, i, 3);
    }
    if KeyAt(text, NEXT_PAGE, i) {
      KeyCharacter(text, NEXT_PAGE, i, 4);
    }
  }

  lemma NoNextSubpage(rows: seq<seq<Spot>>, page: nat)
    ensures NextSubpageOf(ResponseWith(rows), page) == Some(0)
  {
    hide ResponseWith, Find, StringAt, LinkOf, SubpageOf;
    var text := ResponseWith(rows);
    ResponseLetters(rows);
    assert forall i :: 0 <= i < |BEFORE_CONTENT| ==> text[i] == text[..|BEFORE_CONTENT|][i];
    FirstProperty();
    assert text[2..13] == text[..|BEFORE_CONTENT|][2..13];
    assert text[16..16] == [];
    FindHits(text, NEXT_SUBPAGE, 0, 13, 16);
    Server.NoSubpageReads(page);
  }

  lemma FirstProperty()
    ensures BEFORE_CONTENT[2..13] == NEXT_SUBPAGE
  {
  }

  /**
   A page of coloured characters, written as markup, is accepted by the decoder exactly when its first
   twenty-four rows have encodings without inverse spaces, and the screen then holds the best of these
   for the transliterated characters.
   */
  lemma WrittenPageIsShown(rows: seq<seq<Spot>>, page: nat, screen: seq<byte>)
    requires |rows| == Markup.SOURCE_ROWS && 100 <= page <= 899
    requires forall r :: 0 <= r < |rows| ==> |rows[r]| == Saa5050.COLUMNS && WritableRow(rows[r])
    ensures var text := ResponseWith(rows);
            && (PageDecoder.Acceptable(text, page) <==>
                  forall r :: 0 <= r < PageDecoder.DISPLAY_ROWS ==> RowMeaning.Representable(CellsOf(rows[r])))
            && (PageDecoder.IsScreenOf(text, screen) <==>
                  RowMeaning.RowsCompiled(DisplayCells(rows), screen, PageDecoder.DISPLAY_ROWS))
  {
    hide ResponseWith, NextSubpageOf, PageContent.ContentOf, RowMeaning.Representable, RowMeaning.RowsCompiled, CellsOf;
    OthersAbsent(rows);
    NoNextSubpage(rows, page);
    ResponseLetters(rows);
    RowsAreShown(rows);
    assert forall r :: 0 <= r < PageDecoder.DISPLAY_ROWS ==>
      PageDecoder.ContentRows(ResponseWith(rows))[r] == DisplayCells(rows)[r] == CellsOf(rows[r]);
  }

  /** If all blocks in which inverse spaces could be used are bordered, it is accepted exactly when the display can show it. */
  lemma WrittenPageIsDisplayed(rows: seq<seq<Spot>>, page: nat)
    requires |rows| == Markup.SOURCE_ROWS && 100 <= page <= 899
    requires forall r :: 0 <= r < |rows| ==> |rows[r]| == Saa5050.COLUMNS && WritableRow(rows[r])
    requires forall r :: 0 <= r < PageDecoder.DISPLAY_ROWS ==> Borders.Contained(CellsOf(rows[r]))
    ensures PageDecoder.Acceptable(ResponseWith(rows), page) <==>
            forall r :: 0 <= r < PageDecoder.DISPLAY_ROWS ==> RowMeaning.Displayable(CellsOf(rows[r]))
  {
    hide ResponseWith, PageDecoder.Acceptable, CellsOf, RowMeaning.Displayable, RowMeaning.Representable;
    hide Borders.Contained;
    WrittenPageIsShown(rows, page, []);
    forall r | 0 <= r < PageDecoder.DISPLAY_ROWS
      ensures RowMeaning.Representable(CellsOf(rows[r])) <==> RowMeaning.Displayable(CellsOf(rows[r]))
    {
      Borders.ContainedKeeps(CellsOf(rows[r]));
    }
  }

  function DisplayCells(rows: seq<seq<Spot>>): seq<seq<Saa5050.Cell>>
    requires |rows| == Markup.SOURCE_ROWS
  {
    seq(PageDecoder.DISPLAY_ROWS, r requires 0 <= r < PageDecoder.DISPLAY_ROWS => CellsOf(rows[r]))
  }

  lemma RowsAreShown(rows: seq<seq<Spot>>)
    requires |rows| == Markup.SOURCE_ROWS
    requires forall r :: 0 <= r < |rows| ==> |rows[r]| == Saa5050.COLUMNS && WritableRow(rows[r])
    ensures PageContent.ContentOf(ResponseWith(rows)).Some?
    ensures PageDecoder.ContentRows(ResponseWith(rows)) == DisplayCells(rows)
  {
    hide ResponseWith, PageContent.ContentOf, Markup.CellOf;
    MarkupRoundTrip(rows);
    var text := ResponseWith(rows);
    var cells := PageContent.ContentOf(text).value;
    forall r | 0 <= r < PageDecoder.DISPLAY_ROWS
      ensures PageDecoder.ContentRows(text)[r] == DisplayCells(rows)[r]
    {
      var slice := cells[r * Saa5050.COLUMNS..r * Saa5050.COLUMNS + Saa5050.COLUMNS];
      assert forall c :: 0 <= c < Saa5050.COLUMNS ==> slice[c] == cells[r * Saa5050.COLUMNS + c] == CellsOf(rows[r])[c];
      assert slice == CellsOf(rows[r]);
    }
  }
}
