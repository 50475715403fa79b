/**
 What an accepted page means: which markup is accepted, and what each cell then shows. The style of
 a character is worked out from the elements around it, without saving or restoring anything.
 */
module PageMeaning {
  import opened Bytes
  import opened Json
  import opened Saa5050
  import opened Markup
  import opened PageContent

  /** The class lists of the elements that are open behind the items, the outermost first. */
  ghost function OpenElements(items: seq<Item>): (r: Option<seq<seq<byte>>>)
    ensures r.Some? ==> |r.value| <= STYLE_STACK_DEPTH
    decreases |items|
  {
    if items == [] then Some([])
    else match OpenElements(items[..|items| - 1])
      case None => None
      case Some(open) =>
        match items[|items| - 1]
        case Character(_) => Some(open)
        case Tag(Ignored) => Some(open)
        case Tag(Malformed) => None
        case Tag(Closes) => if open == [] then None else Some(open[..|open| - 1])
        case Tag(Opens(classes)) => if |open| < STYLE_STACK_DEPTH then Some(open + [classes]) else None
  }

  /** The style inside elements with these class lists. */
  function StyleInside(open: seq<seq<byte>>): Style
    decreases |open|
  {
    if open == [] then PLAIN else Restyle(open[|open| - 1], StyleInside(open[..|open| - 1]))
  }

  datatype Glyph = Glyph(style: Style, code: nat)

  /** The characters of the page with their styles; carriage returns do not count. */
  ghost function Glyphs(items: seq<Item>): seq<Glyph>
    decreases |items|
  {
    if items == [] then []
    else
      var init, last := items[..|items| - 1], items[|items| - 1];
      if last.Character? && last.code != CR && OpenElements(init).Some?
      then Glyphs(init) + [Glyph(StyleInside(OpenElements(init).value), last.code)]
      else Glyphs(init)
  }

  /** Lines of forty characters, each ended by a line feed. */
  ghost predicate InLines(glyphs: seq<Glyph>) {
    && |glyphs| <= SOURCE_ROWS * (COLUMNS + 1)
    && forall i :: 0 <= i < |glyphs| ==> (glyphs[i].code == LF <==> i % (COLUMNS + 1) == COLUMNS)
  }

  /** Balanced markup around exactly twenty-five lines. */
  ghost predicate IsPage(items: seq<Item>) {
    OpenElements(items) == Some([]) && InLines(Glyphs(items)) && |Glyphs(items)| == SOURCE_ROWS * (COLUMNS + 1)
  }

  /** Each cell shows its character, in reading order. */
  ghost predicate Shows(glyphs: seq<Glyph>, cells: seq<Cell>) {
    forall i :: 0 <= i < |cells| ==>
      i + i / COLUMNS < |glyphs| && cells[i] == CellOf(glyphs[i + i / COLUMNS].style, glyphs[i + i / COLUMNS].code)
  }

  // ---------------------------------------------------------------------------------------
  // The layout machine against this meaning

  /** The machine remembers exactly the styles of the open elements, and has placed the characters. */
  ghost predicate Mirrors(m: Layout, open: seq<seq<byte>>, glyphs: seq<Glyph>) {
    && RemembersStyles(m.styles, open)
    && HasPlaced(m.grid, glyphs)
  }

  ghost predicate RemembersStyles(s: Styles, open: seq<seq<byte>>) {
    && |s.saved| == |open|
    && s.current == StyleInside(open)
    && forall k :: 0 <= k < |open| ==> s.saved[k] == StyleInside(open[..k])
  }

  ghost predicate HasPlaced(g: Grid, glyphs: seq<Glyph>) {
    && g.row <= SOURCE_ROWS && g.column <= COLUMNS && (g.row == SOURCE_ROWS ==> g.column == 0)
    && |glyphs| == g.row * (COLUMNS + 1) + g.column
    && |g.cells| == g.row * COLUMNS + g.column
    && Shows(glyphs, g.cells)
  }

  lemma PlaceLast(m: Layout, items: seq<Item>)
    requires items != []
    ensures PlaceAll(m, items) ==
            match PlaceAll(m, items[..|items| - 1])
            case None => None
            case Some(next) => Place(next, items[|items| - 1])
    decreases |items|
  {
    hide Place;
    var init := items[..|items| - 1];
    if |items| == 1 {
      assert items[1..] == [];
    } else {
      assert init[1..] == items[1..][..|items| - 2] && init[0] == items[0];
      if Place(m, items[0]).Some? {
        PlaceLast(Place(m, items[0]).value, items[1..]);
      }
    }
  }

  lemma StylesStep(s: Styles, open: seq<seq<byte>>, event: Event)
    requires RemembersStyles(s, open) && |open| <= STYLE_STACK_DEPTH
    ensures event.Ignored? ==> ApplyEvent(s, event) == Some(s)
    ensures event.Malformed? ==> ApplyEvent(s, event).None?
    ensures event.Closes? ==>
              && (ApplyEvent(s, event).Some? <==> open != [])
              && (open != [] ==> RemembersStyles(ApplyEvent(s, event).value, open[..|open| - 1]))
    ensures event.Opens? ==>
              && (ApplyEvent(s, event).Some? <==> |open| < STYLE_STACK_DEPTH)
              && (|open| < STYLE_STACK_DEPTH ==> RemembersStyles(ApplyEvent(s, event).value, open + [event.classes]))
  {
    hide Restyle;
    if event.Closes? && open != [] {
      var fewer := open[..|open| - 1];
      assert forall k :: 0 <= k < |fewer| ==> fewer[..k] == open[..k];
    }
    if event.Opens? {
      var more := open + [event.classes];
      assert more[..|open|] == open;
      assert forall k :: 0 <= k < |open| ==> more[..k] == open[..k];
    }
  }

  lemma GridStep(g: Grid, glyphs: seq<Glyph>, style: Style, code: nat)
    requires HasPlaced(g, glyphs) && InLines(glyphs)
    ensures code == CR ==> Append(g, style, code) == Some(g)
    ensures code != CR ==>
              && (Append(g, style, code).Some? <==> InLines(glyphs + [Glyph(style, code)]))
              && (Append(g, style, code).Some? ==> HasPlaced(Append(g, style, code).value, glyphs + [Glyph(style, code)]))
  {
    hide CellOf;
    if code != CR {
      var n, longer := |glyphs|, glyphs + [Glyph(style, code)];
      assert longer[n].code == code;
      assert n / (COLUMNS + 1) == g.row && n % (COLUMNS + 1) == g.column;
      assert forall i :: 0 <= i < n ==> longer[i] == glyphs[i];
    }
  }

  /** After any part of the markup: the machine goes on exactly when the part can belong to a page. */
  lemma {:induction false} LayoutMirrors(items: seq<Item>)
    ensures PlaceAll(START, items).Some? <==> OpenElements(items).Some? && InLines(Glyphs(items))
    ensures PlaceAll(START, items).Some? ==> Mirrors(PlaceAll(START, items).value, OpenElements(items).value, Glyphs(items))
    decreases |items|
  {
    if items == [] {
      assert Mirrors(START, [], []);
    } else {
      var init, last := items[..|items| - 1], items[|items| - 1];
      LayoutMirrors(init);
      PlaceLast(START, items);
      if PlaceAll(START, init).Some? {
        var m, open := PlaceAll(START, init).value, OpenElements(init).value;
        match last
        case Tag(event) => StylesStep(m.styles, open, event);
        case Character(code) => GridStep(m.grid, Glyphs(init), m.styles.current, code);
      } else {
        LinesStayBroken(items);
      }
    }
  }

  lemma LinesStayBroken(items: seq<Item>)
    requires items != []
    ensures OpenElements(items).Some? && InLines(Glyphs(items)) ==>
              OpenElements(items[..|items| - 1]).Some? && InLines(Glyphs(items[..|items| - 1]))
  {
    var before, glyphs := Glyphs(items[..|items| - 1]), Glyphs(items);
    assert forall i :: 0 <= i < |before| ==> glyphs[i] == before[i];
  }

  /**
   A response is accepted exactly when its content is a well-formed string of balanced markup around
   twenty-five lines of forty characters; the cells then show these characters, each written once, in
   the style of the elements around it.
   */
  lemma ContentMeans(text: seq<byte>)
    ensures ContentOf(text).Some? <==> ContentItems(text).Some? && IsPage(ContentItems(text).value)
    ensures ContentOf(text).Some? ==>
              && |ContentOf(text).value| == SOURCE_ROWS * COLUMNS
              && Shows(Glyphs(ContentItems(text).value), ContentOf(text).value)
              && (forall i :: 0 <= i < |ContentOf(text).value| ==> 0x20 <= ContentOf(text).value[i].glyph < 0x80)
  {
    if ContentItems(text).Some? {
      LayoutMirrors(ContentItems(text).value);
    }
  }

  /** The items of the content, as far as string and tags can be read at all. */
  function ContentItems(text: seq<byte>): Option<seq<Item>> {
    match Find(text, CONTENT, 0)
    case None => None
    case Some(start) =>
      match StringAt(text, start)
      case None => None
      case Some(codes) => ItemsOf(codes)
  }

  /** Styled elements are opened as often as they are closed. */
  lemma {:induction false} OpenCounts(items: seq<Item>)
    requires OpenElements(items).Some?
    ensures |OpenElements(items).value| == Count(items, true) - Count(items, false)
    decreases |items|
  {
    if items != [] {
      OpenCounts(items[..|items| - 1]);
    }
  }

  /** How many opening or closing tags of styled elements there are. */
  ghost function Count(items: seq<Item>, opening: bool): nat
    decreases |items|
  {
    if items == [] then 0
    else
      var last := items[|items| - 1];
      Count(items[..|items| - 1], opening) +
      if last.Tag? && (if opening then last.event.Opens? else last.event.Closes?) then 1 else 0
  }
}
