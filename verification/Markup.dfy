/**
 The HTML-like page markup: colour classes, tags, entities and the glyphs of the P2000T.
 Tags and entities are recognised in a sequence of code points; the layout machine then places
 the characters on the page.
 */
module Markup {
  import opened Bytes
  import opened Sequences
  import opened Json
  import opened Numbers
  import opened Saa5050

  const SOURCE_ROWS: nat := 25
  const STYLE_STACK_DEPTH: nat := 8
  const TAG_MAX: nat := 127
  const ENTITY_MAX: nat := 31

  const SPACE: byte := 0x20
  const SLASH: byte := 0x2f
  const GREATER: byte := 0x3e
  const LESS: byte := 0x3c
  const AMPERSAND: byte := 0x26
  const SEMICOLON: byte := 0x3b
  const CR: byte := 0x0d
  const LF: byte := 0x0a

  // ---------------------------------------------------------------------------------------
  // Colour classes

  datatype Style = Style(foreground: Colour, background: Colour)

  const PLAIN := Style(WHITE, BLACK)

  function ColourName(colour: Colour): seq<byte> {
    match colour
    case 0 => [0x62, 0x6c, 0x61, 0x63, 0x6b]
    case 1 => [0x72, 0x65, 0x64]
    case 2 => [0x67, 0x72, 0x65, 0x65, 0x6e]
    case 3 => [0x79, 0x65, 0x6c, 0x6c, 0x6f, 0x77]
    case 4 => [0x62, 0x6c, 0x75, 0x65]
    case 5 => [0x6d, 0x61, 0x67, 0x65, 0x6e, 0x74, 0x61]
    case 6 => [0x63, 0x79, 0x61, 0x6e]
    case _ => [0x77, 0x68, 0x69, 0x74, 0x65]
  }

  function ColourFromClass(name: seq<byte>): (r: Option<Colour>)
    ensures r.Some? ==> name == ColourName(r.value)
    ensures r.None? ==> forall colour: Colour :: name != ColourName(colour)
  {
    if name == ColourName(0) then Some(0)
    else if name == ColourName(1) then Some(1)
    else if name == ColourName(2) then Some(2)
    else if name == ColourName(3) then Some(3)
    else if name == ColourName(4) then Some(4)
    else if name == ColourName(5) then Some(5)
    else if name == ColourName(6) then Some(6)
    else if name == ColourName(7) then Some(7)
    else None
  }

  const BG: seq<byte> := [0x62, 0x67, 0x2d]

  function ApplyClass(token: seq<byte>, style: Style): Style {
    if |token| > 3 && token[..3] == BG then
      match ColourFromClass(token[3..])
      case Some(colour) => style.(background := colour)
      case None => style
    else
      match ColourFromClass(token)
      case Some(colour) => style.(foreground := colour)
      case None => style
  }

  function TokenLength(classes: seq<byte>): (n: nat)
    ensures n <= |classes| && (forall i :: 0 <= i < n ==> classes[i] != SPACE) && (n < |classes| ==> classes[n] == SPACE)
  {
    if classes == [] || classes[0] == SPACE then 0 else TokenLength(classes[1..]) + 1
  }

  /** The words of a class list, applied from left to right. */
  function Restyle(classes: seq<byte>, style: Style): Style
    decreases |classes|
  {
    if classes == [] then style
    else if classes[0] == SPACE then Restyle(classes[1..], style)
    else
      var n := TokenLength(classes);
      Restyle(classes[n..], ApplyClass(classes[..n], style))
  }

  lemma TokenLengthUnique(classes: seq<byte>, n: nat)
    requires n <= |classes| && (forall i :: 0 <= i < n ==> classes[i] != SPACE) && (n < |classes| ==> classes[n] == SPACE)
    ensures TokenLength(classes) == n
  {
  }

  lemma RestyleSpace(classes: seq<byte>, offset: nat, style: Style)
    requires offset < |classes| && classes[offset] == SPACE
    ensures Restyle(classes[offset..], style) == Restyle(classes[offset + 1..], style)
  {
    assert classes[offset..][1..] == classes[offset + 1..];
  }

  lemma RestyleToken(classes: seq<byte>, start: nat, offset: nat, style: Style)
    requires start < offset <= |classes| && (forall i :: start <= i < offset ==> classes[i] != SPACE)
    requires offset < |classes| ==> classes[offset] == SPACE
    ensures Restyle(classes[start..], style) == Restyle(classes[offset..], ApplyClass(classes[start..offset], style))
  {
    var rest, n := classes[start..], offset - start;
    assert forall i :: 0 <= i < n ==> rest[i] == classes[start + i];
    TokenLengthUnique(rest, n);
    assert rest[..n] == classes[start..offset] && rest[n..] == classes[offset..];
  }

  method ApplyClasses(classes: seq<byte>, initial: Style) returns (style: Style)
    ensures style == Restyle(classes, initial)
  {
    hide Restyle, TokenLength;
    var offset := 0;
    style := initial;
    All(classes);
    while offset < |classes|
      invariant offset <= |classes|
      invariant Restyle(classes[offset..], style) == Restyle(classes, initial)
    {
      ghost var before := offset;
      while offset < |classes| && classes[offset] == SPACE
        invariant before <= offset <= |classes|
        invariant Restyle(classes[offset..], style) == Restyle(classes, initial)
      {
        RestyleSpace(classes, offset, style);
        offset := offset + 1;
      }
      var start := offset;
      while offset < |classes| && classes[offset] != SPACE
        invariant start <= offset <= |classes|
        invariant forall i :: start <= i < offset ==> classes[i] != SPACE
      {
        offset := offset + 1;
      }
      if offset == start {
        continue;
      }
      RestyleToken(classes, start, offset, style);
      var name := classes[start..offset];
      var background := |name| > 3 && name[..3] == BG;
      var colour := ColourFromClass(if background then name[3..] else name);
      if colour.Some? {
        if background {
          style := style.(background := colour.value);
        } else {
          style := style.(foreground := colour.value);
        }
      }
    }
    RestyleNothing(style);
  }

  lemma RestyleNothing(style: Style)
    ensures Restyle([], style) == style
  {
  }

  // ---------------------------------------------------------------------------------------
  // Tags

  /** What a tag does to the style. */
  datatype Event = Ignored | Opens(classes: seq<byte>) | Closes | Malformed

  const SPAN: seq<byte> := [0x73, 0x70, 0x61, 0x6e]
  const ANCHOR: seq<byte> := [0x61]
  const CLASS_ATTRIBUTE: seq<byte> := [0x63, 0x6c, 0x61, 0x73, 0x73, 0x3d, 0x22]

  function SkipBlanks(tag: seq<byte>, offset: nat): (r: nat)
    requires offset <= |tag|
    ensures offset <= r <= |tag| && (r < |tag| ==> tag[r] != SPACE)
    decreases |tag| - offset
  {
    if offset < |tag| && tag[offset] == SPACE then SkipBlanks(tag, offset + 1) else offset
  }

  predicate EndsName(character: byte) {
    character == SPACE || character == SLASH || character == GREATER
  }

  function NameEnd(tag: seq<byte>, offset: nat): (r: nat)
    requires offset <= |tag|
    ensures offset <= r <= |tag| && (r < |tag| ==> EndsName(tag[r]))
    ensures forall i :: offset <= i < r ==> !EndsName(tag[i])
    decreases |tag| - offset
  {
    if offset < |tag| && !EndsName(tag[offset]) then NameEnd(tag, offset + 1) else offset
  }

  function QuoteFrom(tag: seq<byte>, cursor: nat): (r: nat)
    requires cursor <= |tag|
    ensures cursor <= r <= |tag| && (r < |tag| ==> tag[r] == QUOTE)
    ensures forall i :: cursor <= i < r ==> tag[i] != QUOTE
    decreases |tag| - cursor
  {
    if cursor < |tag| && tag[cursor] != QUOTE then QuoteFrom(tag, cursor + 1) else cursor
  }

  /** The first class attribute behind the name; one that is not closed makes the tag malformed. */
  function ClassesFrom(tag: seq<byte>, cursor: nat): (r: Event)
    ensures r.Opens? || r.Malformed?
    decreases |tag| - cursor
  {
    if cursor + 7 >= |tag| then Opens([])
    else if tag[cursor..cursor + 7] != CLASS_ATTRIBUTE then ClassesFrom(tag, cursor + 1)
    else
      var end := QuoteFrom(tag, cursor + 7);
      if end >= |tag| then Malformed else Opens(tag[cursor + 7..end])
  }

  /** Whether the tag closes an element, and where its name begins and ends. */
  function TagHead(tag: seq<byte>): (r: (bool, nat, nat))
    ensures r.1 <= r.2 <= |tag|
  {
    var first := SkipBlanks(tag, 0);
    var closing := first < |tag| && tag[first] == SLASH;
    var start := if closing then first + 1 else first;
    (closing, start, NameEnd(tag, start))
  }

  function TagEvent(tag: seq<byte>): Event {
    var (closing, start, end) := TagHead(tag);
    if tag[start..end] != SPAN && tag[start..end] != ANCHOR then Ignored
    else if closing then Closes
    else ClassesFrom(tag, end)
  }

  /** The current style and the saved styles of the enclosing elements. */
  datatype Styles = Styles(current: Style, saved: seq<Style>)

  function ApplyEvent(s: Styles, event: Event): Option<Styles> {
    match event
    case Ignored => Some(s)
    case Malformed => None
    case Closes =>
      if s.saved == [] then None else Some(Styles(s.saved[|s.saved| - 1], s.saved[..|s.saved| - 1]))
    case Opens(classes) =>
      if |s.saved| >= STYLE_STACK_DEPTH then None else Some(Styles(Restyle(classes, s.current), s.saved + [s.current]))
  }

  method FindClasses(tag: seq<byte>, offset: nat) returns (attribute: Event)
    ensures attribute == ClassesFrom(tag, offset)
  {
    var cursor := offset;
    while cursor + 7 < |tag|
      invariant ClassesFrom(tag, cursor) == ClassesFrom(tag, offset)
    {
      if tag[cursor..cursor + 7] != CLASS_ATTRIBUTE {
        cursor := cursor + 1;
        continue;
      }
      cursor := cursor + 7;
      var classStart := cursor;
      while cursor < |tag| && tag[cursor] != QUOTE
        invariant classStart <= cursor <= |tag| && QuoteFrom(tag, cursor) == QuoteFrom(tag, classStart)
      {
        cursor := cursor + 1;
      }
      return if cursor >= |tag| then Malformed else Opens(tag[classStart..cursor]);
    }
    return Opens([]);
  }

  /** Blanks, an optional slash, and the name. */
  method FindName(tag: seq<byte>) returns (closing: bool, nameStart: nat, offset: nat)
    ensures (closing, nameStart, offset) == TagHead(tag)
  {
    offset := 0;
    while offset < |tag| && tag[offset] == SPACE
      invariant offset <= |tag| && SkipBlanks(tag, offset) == SkipBlanks(tag, 0)
    {
      offset := offset + 1;
    }
    closing := offset < |tag| && tag[offset] == SLASH;
    if closing {
      offset := offset + 1;
    }
    nameStart := offset;
    while offset < |tag| && !EndsName(tag[offset])
      invariant nameStart <= offset <= |tag| && NameEnd(tag, offset) == NameEnd(tag, nameStart)
    {
      offset := offset + 1;
    }
  }

  method ParseTag(tag: seq<byte>, initial: Style, stack: array<Style>, initialDepth: nat)
    returns (ok: bool, style: Style, depth: nat)
    requires stack.Length == STYLE_STACK_DEPTH && initialDepth <= STYLE_STACK_DEPTH
    modifies stack
    ensures depth <= STYLE_STACK_DEPTH
    ensures ApplyEvent(Styles(initial, old(stack[..initialDepth])), TagEvent(tag)) ==
            if ok then Some(Styles(style, stack[..depth])) else None
  {
    hide TagHead, Restyle, ClassesFrom;
    style, depth := initial, initialDepth;
    var closing, nameStart, offset := FindName(tag);
    var name := tag[nameStart..offset];
    if name != SPAN && name != ANCHOR {
      return true, style, depth;
    }
    if closing {
      if depth == 0 {
        return false, style, depth;
      }
      depth := depth - 1;
      style := stack[depth];
      assert stack[..depth] == stack[..initialDepth][..depth];
      return true, style, depth;
    }
    if depth >= STYLE_STACK_DEPTH {
      return false, style, depth;
    }
    stack[depth] := style;
    depth := depth + 1;
    assert stack[..depth] == old(stack[..initialDepth]) + [initial];
    var attribute := FindClasses(tag, offset);
    if attribute.Malformed? {
      return false, style, depth;
    }
    style := ApplyClasses(attribute.classes, style);
    return true, style, depth;
  }

  // ---------------------------------------------------------------------------------------
  // Entities

  /** The value the C code reserves for "no code point". */
  const NO_CODEPOINT: nat := 0xffff_ffff

  /** A number beyond 32 bits is not an entity, and neither is the reserved value. */
  function NumericEntity(entity: seq<byte>): Option<nat>
    requires |entity| >= 2
  {
    var hexadecimal := entity[1] == 0x78 || entity[1] == 0x58;
    var digits := entity[if hexadecimal then 2 else 1..];
    var number := NumberOf(digits, if hexadecimal then 16 else 10);
    if digits == [] || number.None? || number.value >= NO_CODEPOINT then None else number
  }

  function NamedEntity(name: seq<byte>): Option<nat> {
    if name == [0x61, 0x6d, 0x70] then Some(0x26)                             // amp
    else if name == [0x6c, 0x74] then Some(0x3c)                              // lt
    else if name == [0x67, 0x74] then Some(0x3e)                              // gt
    else if name == [0x71, 0x75, 0x6f, 0x74] then Some(0x22)                  // quot
    else if name == [0x61, 0x70, 0x6f, 0x73] then Some(0x27)                  // apos
    else if name == [0x6e, 0x62, 0x73, 0x70] then Some(0x20)                  // nbsp
    else if name == [0x70, 0x6f, 0x75, 0x6e, 0x64] then Some(0xa3)            // pound
    else if name == [0x61, 0x61, 0x63, 0x75, 0x74, 0x65] then Some(0xe1)      // aacute
    else if name == [0x41, 0x61, 0x63, 0x75, 0x74, 0x65] then Some(0xc1)
    else if name == [0x61, 0x67, 0x72, 0x61, 0x76, 0x65] then Some(0xe0)      // agrave
    else if name == [0x41, 0x67, 0x72, 0x61, 0x76, 0x65] then Some(0xc0)
    else if name == [0x61, 0x75, 0x6d, 0x6c] then Some(0xe4)                  // auml
    else if name == [0x41, 0x75, 0x6d, 0x6c] then Some(0xc4)
    else if name == [0x65, 0x61, 0x63, 0x75, 0x74, 0x65] then Some(0xe9)      // eacute
    else if name == [0x45, 0x61, 0x63, 0x75, 0x74, 0x65] then Some(0xc9)
    else if name == [0x65, 0x67, 0x72, 0x61, 0x76, 0x65] then Some(0xe8)      // egrave
    else if name == [0x45, 0x67, 0x72, 0x61, 0x76, 0x65] then Some(0xc8)
    else if name == [0x65, 0x75, 0x6d, 0x6c] then Some(0xeb)                  // euml
    else if name == [0x45, 0x75, 0x6d, 0x6c] then Some(0xcb)
    else if name == [0x69, 0x75, 0x6d, 0x6c] then Some(0xef)                  // iuml
    else if name == [0x49, 0x75, 0x6d, 0x6c] then Some(0xcf)
    else if name == [0x6f, 0x75, 0x6d, 0x6c] then Some(0xf6)                  // ouml
    else if name == [0x4f, 0x75, 0x6d, 0x6c] then Some(0xd6)
    else if name == [0x75, 0x75, 0x6d, 0x6c] then Some(0xfc)                  // uuml
    else if name == [0x55, 0x75, 0x6d, 0x6c] then Some(0xdc)
    else if name == [0x63, 0x63, 0x65, 0x64, 0x69, 0x6c] then Some(0xe7)      // ccedil
    else if name == [0x43, 0x63, 0x65, 0x64, 0x69, 0x6c] then Some(0xc7)
    else None
  }

  function EntityCode(entity: seq<byte>): Option<nat> {
    if |entity| >= 2 && entity[0] == 0x23 then NumericEntity(entity) else NamedEntity(entity)
  }

  method EntityCodepoint(entity: seq<byte>) returns (codepoint: Option<nat>)
    ensures codepoint == EntityCode(entity)
  {
    hide NamedEntity, NumberOf;
    if |entity| >= 2 && entity[0] == 0x23 {
      var offset, base := 1, 10;
      if entity[1] == 0x78 || entity[1] == 0x58 {
        base, offset := 16, 2;
      }
      if offset == |entity| {
        return None;
      }
      var digits := entity[offset..];
      var value: nat := 0;
      NumberOfNothing(base);
      for i := 0 to |digits|
        invariant NumberOf(digits[..i], base) == Some(value) && value <= 0xffff_ffff
      {
        var digit := Digit(digits[i], base);
        NumberStep(digits, base, i);
        NumberPrefix(digits, base, i + 1);
        if digit.None? {
          return None;
        }
        if value > (0xffff_ffff - digit.value) / base {
          return None;
        }
        value := value * base + digit.value;
      }
      assert digits[..|digits|] == digits;
      return if value == NO_CODEPOINT then None else Some(value);
    }
    return NamedEntity(entity);
  }

  // ---------------------------------------------------------------------------------------
  // Glyphs

  /** The closest glyph of the P2000T set. */
  function Transliterate(code: nat): (glyph: byte)
    ensures 0x20 <= glyph < 0x80
  {
    if code == 0x23 then 0x5f
    else if code == 0x7c then 0x7c
    else if code == 0x5b || code == 0x7b then 0x28
    else if code == 0x5c then 0x2f
    else if code == 0x5d || code == 0x7d then 0x29
    else if code == 0x5e || code == 0x2191 then 0x5e
    else if code == 0x5f || code == 0x7e || code == 0x2014 then 0x60
    else if code == 0x60 then 0x27
    else if code == 0x7f then 0x3f
    else if code == 0xa3 then 0x23
    else if code == 0xbc then 0x7b
    else if code == 0xbd then 0x5c
    else if code == 0xbe then 0x7d
    else if code == 0xf7 then 0x7e
    else if code == 0x2190 then 0x5b
    else if code == 0x2192 then 0x5d
    else if code == 0x2588 || code == 0x25a0 then 0x7f
    else if 0x20 <= code <= 0x7a then code
    else if 0xc0 <= code <= 0xc5 then 0x41
    else if 0xe0 <= code <= 0xe5 then 0x61
    else if code == 0xc7 then 0x43
    else if code == 0xe7 then 0x63
    else if 0xc8 <= code <= 0xcb then 0x45
    else if 0xe8 <= code <= 0xeb then 0x65
    else if 0xcc <= code <= 0xcf then 0x49
    else if 0xec <= code <= 0xef then 0x69
    else if code == 0xd1 then 0x4e
    else if code == 0xf1 then 0x6e
    else if 0xd2 <= code <= 0xd6 then 0x4f
    else if 0xf2 <= code <= 0xf6 then 0x6f
    else if 0xd9 <= code <= 0xdc then 0x55
    else if 0xf9 <= code <= 0xfc then 0x75
    else 0x3f
  }

  /** The private-use code points that stand for mosaic characters have bit 5 set. */
  predicate IsMosaic(code: nat) {
    0xf020 <= code <= 0xf07f && code / 0x20 % 2 == 1
  }

  function CellOf(style: Style, code: nat): (cell: Cell)
    ensures 0x20 <= cell.glyph < 0x80
  {
    if IsMosaic(code) then Cell(code - 0xf000, style.foreground, style.background, Graphics)
    else Cell(Transliterate(code), style.foreground, style.background, Alpha)
  }

  /** The cells written so far, in reading order, and the place of the next one. */
  datatype Grid = Grid(cells: seq<Cell>, row: nat, column: nat)

  function Append(g: Grid, style: Style, code: nat): Option<Grid> {
    if code == CR then Some(g)
    else if code == LF then
      if g.column != COLUMNS || g.row >= SOURCE_ROWS then None else Some(Grid(g.cells, g.row + 1, 0))
    else if g.row >= SOURCE_ROWS || g.column >= COLUMNS then None
    else Some(Grid(g.cells + [CellOf(style, code)], g.row, g.column + 1))
  }

  /** The cells stand in the page in reading order; the page is one block of memory. */
  method AppendCell(cells: array<Cell>, initialRow: nat, initialColumn: nat, style: Style, code: nat)
    returns (ok: bool, row: nat, column: nat)
    requires cells.Length == SOURCE_ROWS * COLUMNS
    requires initialRow <= SOURCE_ROWS && initialColumn <= COLUMNS && initialRow * COLUMNS + initialColumn <= cells.Length
    modifies cells
    ensures row <= SOURCE_ROWS && column <= COLUMNS && row * COLUMNS + column <= cells.Length
    ensures Append(Grid(old(cells[..initialRow * COLUMNS + initialColumn]), initialRow, initialColumn), style, code) ==
            if ok then Some(Grid(cells[..row * COLUMNS + column], row, column)) else None
    ensures forall i :: initialRow * COLUMNS + initialColumn < i < cells.Length ==> cells[i] == old(cells[i])
  {
    row, column := initialRow, initialColumn;
    if code == CR {
      return true, row, column;
    }
    if code == LF {
      if column != COLUMNS || row >= SOURCE_ROWS {
        return false, row, column;
      }
      return true, row + 1, 0;
    }
    if row >= SOURCE_ROWS || column >= COLUMNS {
      return false, row, column;
    }
    var position := row * COLUMNS + column;
    column := column + 1;
    if 0xf020 <= code <= 0xf07f && code / 0x20 % 2 == 1 {
      cells[position] := Cell(code - 0xf000, style.foreground, style.background, Graphics);
    } else {
      cells[position] := Cell(Transliterate(code), style.foreground, style.background, Alpha);
    }
    assert cells[..position + 1] == old(cells[..position]) + [CellOf(style, code)];
    return true, row, column;
  }
}
