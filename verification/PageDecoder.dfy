/**
 The whole decoder: from the body of a response to a screen, the next subpage and the neighbouring
 pages. An exact screen image takes precedence; otherwise the markup is parsed and compiled.
 */
module PageDecoder {
  import opened Bytes
  import opened Saa5050
  import opened RowMeaning
  import opened PageFields
  import opened PageContent
  import opened PageMeaning
  import Markup
  import Server

  const DISPLAY_ROWS: nat := 24

  datatype Result = Decoded | InvalidArgument | InvalidNextSubpage | InvalidBinaryDisplay | InvalidContent
                  | UnrepresentableRow

  datatype Metadata = Metadata(nextSubpage: nat, previousPage: nat, nextPage: nat)

  predicate ValidArguments(text: seq<byte>, page: nat) {
    text != [] && 100 <= page <= 899
  }

  /** The rows that are displayed; the last source row holds prompts and is left out. */
  function DisplayRows(cells: seq<Cell>): (rows: seq<seq<Cell>>)
    requires |cells| == Markup.SOURCE_ROWS * COLUMNS
    ensures |rows| == DISPLAY_ROWS && forall r :: 0 <= r < |rows| ==> |rows[r]| == COLUMNS
  {
    seq(DISPLAY_ROWS, r requires 0 <= r < DISPLAY_ROWS => cells[r * COLUMNS..r * COLUMNS + COLUMNS])
  }

  function ContentRows(text: seq<byte>): (rows: seq<seq<Cell>>)
    requires ContentOf(text).Some?
    ensures |rows| == DISPLAY_ROWS && forall r :: 0 <= r < |rows| ==> |rows[r]| == COLUMNS && PrintableRow(rows[r])
  {
    ContentMeans(text);
    DisplayRows(ContentOf(text).value)
  }

  /** The screen shows the exact image of the response, or the best encodings of its rows. */
  ghost predicate IsScreenOf(text: seq<byte>, screen: seq<byte>) {
    match BinaryDisplayOf(text)
    case Exact(image) => screen == image
    case Invalid => false
    case Absent => ContentOf(text).Some? && RowsCompiled(ContentRows(text), screen, DISPLAY_ROWS)
  }

  /** Row number (from one) of the first row without an encoding in the compiler's language. */
  ghost predicate FirstUnrepresentable(rows: seq<seq<Cell>>, row: nat) {
    && 1 <= row <= |rows|
    && !Representable(rows[row - 1])
    && forall r :: 0 <= r < row - 1 ==> Representable(rows[r])
  }

  lemma CompiledIsRepresentable(rows: seq<seq<Cell>>, screen: seq<byte>, n: nat)
    requires RowsCompiled(rows, screen, n)
    ensures forall r :: 0 <= r < n ==> Representable(rows[r])
  {
    forall r | 0 <= r < n
      ensures Representable(rows[r])
    {
      assert BestEncoding(rows[r], screen[r * COLUMNS..r * COLUMNS + COLUMNS]);
      assert Faithful(rows[r], screen[r * COLUMNS..r * COLUMNS + COLUMNS]);
    }
  }

  method DecodeDiagnostic(text: seq<byte>, page: nat, screen: array<byte>)
    returns (result: Result, nextSubpage: nat, failedRow: nat)
    requires screen.Length == SCREEN_SIZE
    modifies screen
    ensures result.InvalidArgument? <==> !ValidArguments(text, page)
    ensures result.InvalidNextSubpage? <==> ValidArguments(text, page) && NextSubpageOf(text, page).None?
    ensures result.InvalidBinaryDisplay? <==>
            ValidArguments(text, page) && NextSubpageOf(text, page).Some? && BinaryDisplayOf(text).Invalid?
    ensures result.InvalidContent? <==>
            ValidArguments(text, page) && NextSubpageOf(text, page).Some? && BinaryDisplayOf(text).Absent? && ContentOf(text).None?
    ensures result.UnrepresentableRow? ==>
              BinaryDisplayOf(text).Absent? && ContentOf(text).Some? && FirstUnrepresentable(ContentRows(text), failedRow)
    ensures !result.UnrepresentableRow? ==> failedRow == 0
    ensures result.Decoded? ==> NextSubpageOf(text, page) == Some(nextSubpage) && IsScreenOf(text, screen[..])
  {
    hide NextSubpageOf, BinaryDisplayOf, ContentOf, RowsCompiled, Representable;
    if !ValidArguments(text, page) {
      return InvalidArgument, 0, 0;
    }
    var subpage := ParseNextSubpage(text, page);
    if subpage.None? {
      return InvalidNextSubpage, 0, 0;
    }
    var display := ParseBinaryDisplay(text, screen);
    match display
    case Invalid => return InvalidBinaryDisplay, 0, 0;
    case Exact(_) => return Decoded, subpage.value, 0;
    case Absent =>
      var cells := new Cell[Markup.SOURCE_ROWS * COLUMNS];
      var parsed := ParseContent(text, cells);
      if !parsed {
        return InvalidContent, 0, 0;
      }
      ContentMeans(text);
      failedRow := CompileScreen(DisplayRows(cells[..]), screen);
      if failedRow > 0 {
        CompiledIsRepresentable(ContentRows(text), screen[..], failedRow - 1);
        return UnrepresentableRow, 0, failedRow;
      }
      return Decoded, subpage.value, 0;
  }

  ghost predicate HasScreen(text: seq<byte>) {
    match BinaryDisplayOf(text)
    case Exact(_) => true
    case Invalid => false
    case Absent => ContentOf(text).Some? && forall r :: 0 <= r < DISPLAY_ROWS ==> Representable(ContentRows(text)[r])
  }

  ghost predicate Acceptable(text: seq<byte>, page: nat) {
    && ValidArguments(text, page)
    && HasScreen(text)
    && NextSubpageOf(text, page).Some?
    && PageLinkOf(text, PREV_PAGE).Some?
    && PageLinkOf(text, NEXT_PAGE).Some?
  }

  /** A response is accepted exactly when all its parts are, and then every part is as the response says. */
  method DecodeJson(text: seq<byte>, page: nat, screen: array<byte>) returns (metadata: Option<Metadata>)
    requires screen.Length == SCREEN_SIZE
    modifies screen
    ensures metadata.Some? <==> Acceptable(text, page)
    ensures metadata.Some? ==>
              && IsScreenOf(text, screen[..])
              && NextSubpageOf(text, page) == Some(metadata.value.nextSubpage)
              && PageLinkOf(text, PREV_PAGE) == Some(metadata.value.previousPage)
              && PageLinkOf(text, NEXT_PAGE) == Some(metadata.value.nextPage)
  {
    hide NextSubpageOf, BinaryDisplayOf, ContentOf, PageLinkOf, RowsCompiled, Representable;
    var result, nextSubpage, failedRow := DecodeDiagnostic(text, page, screen);
    if !result.Decoded? {
      return None;
    }
    if BinaryDisplayOf(text).Absent? {
      CompiledIsRepresentable(ContentRows(text), screen[..], DISPLAY_ROWS);
    }
    var previousPage := ParsePageLink(text, PREV_PAGE);
    if previousPage.None? {
      return None;
    }
    var nextPage := ParsePageLink(text, NEXT_PAGE);
    if nextPage.None? {
      return None;
    }
    return Some(Metadata(nextSubpage, previousPage.value, nextPage.value));
  }

  /** Every response of the example server is accepted, and only with the server's screen. */
  lemma ServerIsAccepted(catalog: Server.Catalog, page: nat, subpage: nat, screen: seq<byte>)
    requires Server.ValidCatalog(catalog) && (page, subpage) in catalog
    ensures Acceptable(Server.ResponseText(Server.PageResponse(catalog, page, subpage).value), page)
    ensures IsScreenOf(Server.ResponseText(Server.PageResponse(catalog, page, subpage).value), screen) <==>
            screen == catalog[(page, subpage)]
  {
    hide Server.ResponseText, NextSubpageOf, BinaryDisplayOf, PageLinkOf;
    Server.InCatalog(catalog);
    Server.ResponseRoundTrip(catalog, page, subpage);
    Server.TextIsNotEmpty(Server.PageResponse(catalog, page, subpage).value);
  }
}
