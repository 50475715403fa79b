/**
 The page parser: one pass over the JSON string that recognises tags and entities and places the
 characters. Its specification takes the pass apart into reading the string, recognising items and
 laying them out.
 */
module PageContent {
  import opened Bytes
  import opened Sequences
  import opened Json
  import opened Saa5050
  import opened Markup

  const CONTENT: seq<byte> := [0x63, 0x6f, 0x6e, 0x74, 0x65, 0x6e, 0x74]

  // ---------------------------------------------------------------------------------------
  // Items

  datatype Item = Tag(event: Event) | Character(code: nat)

  /** The first stop code within room; an entity also ends at the first code outside ASCII. */
  function Until(codes: seq<nat>, stop: nat, room: nat, ascii: bool): (r: Option<nat>)
    ensures r.Some? ==> r.value < |codes| && r.value < room && codes[r.value] == stop
  {
    if codes == [] || room == 0 then None
    else if codes[0] == stop then Some(0)
    else if ascii && codes[0] > 0x7f then None
    else match Until(codes[1..], stop, room - 1, ascii)
      case None => None
      case Some(n) => Some(n + 1)
  }

  function TagByte(code: nat): byte {
    if code <= 0x7f then code else 0x3f
  }

  function TagText(codes: seq<nat>): seq<byte> {
    seq(|codes|, i requires 0 <= i < |codes| => TagByte(codes[i]))
  }

  function Prepend(item: Item, items: Option<seq<Item>>): Option<seq<Item>> {
    match items
    case None => None
    case Some(rest) => Some([item] + rest)
  }

  /** The entity behind an ampersand, and its length with the semicolon. */
  function EntityAt(codes: seq<nat>): (r: Option<(nat, nat)>)
    ensures r.Some? ==> r.value.1 <= |codes|
  {
    match Until(codes, SEMICOLON, ENTITY_MAX, true)
    case None => None
    case Some(n) =>
      match EntityCode(TagText(codes[..n]))
      case None => None
      case Some(code) => Some((code, n + 1))
  }

  /** Markup as items. A tag must be closed in time; an ampersand that starts no entity stands for itself. */
  function ItemsOf(codes: seq<nat>): Option<seq<Item>>
    decreases |codes|
  {
    if codes == [] then Some([])
    else if codes[0] == LESS then
      match Until(codes[1..], GREATER, TAG_MAX, false)
      case None => None
      case Some(n) => Prepend(Tag(TagEvent(TagText(codes[1..][..n]))), ItemsOf(codes[1..][n + 1..]))
    else if codes[0] == AMPERSAND then
      match EntityAt(codes[1..])
      case None => Prepend(Character(AMPERSAND), ItemsOf(codes[1..]))
      case Some((code, length)) => Prepend(Character(code), ItemsOf(codes[1..][length..]))
    else Prepend(Character(codes[0]), ItemsOf(codes[1..]))
  }

  // ---------------------------------------------------------------------------------------
  // Layout

  datatype Layout = Layout(styles: Styles, grid: Grid)

  const START := Layout(Styles(PLAIN, []), Grid([], 0, 0))

  function Place(m: Layout, item: Item): Option<Layout> {
    match item
    case Tag(event) =>
      (match ApplyEvent(m.styles, event)
       case None => None
       case Some(styles) => Some(m.(styles := styles)))
    case Character(code) =>
      match Append(m.grid, m.styles.current, code)
      case None => None
      case Some(grid) => Some(m.(grid := grid))
  }

  function PlaceAll(m: Layout, items: seq<Item>): Option<Layout>
    decreases |items|
  {
    if items == [] then Some(m)
    else match Place(m, items[0])
      case None => None
      case Some(next) => PlaceAll(next, items[1..])
  }

  predicate Complete(m: Layout) {
    m.styles.saved == [] && m.grid.row == SOURCE_ROWS && m.grid.column == 0
  }

  /** The layout that the rest of the string leads to. */
  function Finish(m: Layout, codes: Option<seq<nat>>): Option<Layout> {
    match codes
    case None => None
    case Some(all) =>
      match ItemsOf(all)
      case None => None
      case Some(items) => PlaceAll(m, items)
  }

  /** The cells of the page in the response, if its markup is acceptable. */
  function ContentOf(text: seq<byte>): Option<seq<Cell>> {
    match Find(text, CONTENT, 0)
    case None => None
    case Some(start) =>
      match Finish(START, StringAt(text, start))
      case Some(m) => if Complete(m) then Some(m.grid.cells) else None
      case None => None
  }

  // ---------------------------------------------------------------------------------------
  // One item at a time

  lemma PlaceFirst(m: Layout, item: Item, items: Option<seq<Item>>)
    ensures Prepend(item, items).Some? <==> items.Some?
    ensures items.Some? && Place(m, item).None? ==> PlaceAll(m, Prepend(item, items).value).None?
    ensures items.Some? && Place(m, item).Some? ==>
              PlaceAll(m, Prepend(item, items).value) == PlaceAll(Place(m, item).value, items.value)
  {
    if items.Some? {
      assert ([item] + items.value)[1..] == items.value;
    }
  }

  /** Finish, when the first item and the codes behind it are known. */
  ghost function FinishItem(m: Layout, item: Item, rest: Option<seq<nat>>): Option<Layout> {
    match Place(m, item)
    case None => None
    case Some(next) => Finish(next, rest)
  }

  lemma FinishFirst(m: Layout, item: Item, codes: seq<nat>, rest: seq<nat>)
    requires ItemsOf(codes) == Prepend(item, ItemsOf(rest))
    ensures Finish(m, Some(codes)) == FinishItem(m, item, Some(rest))
  {
    PlaceFirst(m, item, ItemsOf(rest));
  }

  lemma {:induction false} UntilFinds(before: seq<nat>, stop: nat, room: nat, ascii: bool, rest: seq<nat>)
    requires stop !in before && |before| < room && (ascii ==> forall i :: 0 <= i < |before| ==> before[i] <= 0x7f)
    ensures Until(before + [stop] + rest, stop, room, ascii) == Some(|before|)
  {
    var codes := before + [stop] + rest;
    if before != [] {
      assert codes[1..] == before[1..] + [stop] + rest;
      UntilFinds(before[1..], stop, room - 1, ascii, rest);
    }
  }

  /** Too far, nowhere, or behind something that cannot belong to it. */
  lemma {:induction false} UntilMisses(before: seq<nat>, stop: nat, room: nat, ascii: bool, rest: seq<nat>)
    requires stop !in before
    requires |before| >= room || rest == [] || (ascii && rest[0] > 0x7f && rest[0] != stop)
    ensures Until(before + rest, stop, room, ascii) == None
  {
    var codes := before + rest;
    if before != [] && room > 0 {
      assert codes[1..] == before[1..] + rest;
      UntilMisses(before[1..], stop, room - 1, ascii, rest);
    } else {
      assert before == [] ==> codes == rest;
    }
  }

  lemma CutAround(before: seq<nat>, stop: nat, rest: seq<nat>)
    ensures (before + [stop] + rest)[..|before|] == before
    ensures (before + [stop] + rest)[|before| + 1..] == rest
  {
  }

  lemma TagItems(before: seq<nat>, rest: seq<nat>)
    requires GREATER !in before && |before| < TAG_MAX
    ensures ItemsOf([LESS as nat] + (before + [GREATER as nat] + rest)) == Prepend(Tag(TagEvent(TagText(before))), ItemsOf(rest))
  {
    hide TagEvent;
    var inner := before + [GREATER as nat] + rest;
    UntilFinds(before, GREATER, TAG_MAX, false, rest);
    CutAround(before, GREATER, rest);
    TailOfConcat([LESS as nat], inner);
    assert ([LESS as nat] + inner)[1..] == inner;
  }

  lemma TagUnclosed(before: seq<nat>, rest: seq<nat>)
    requires GREATER !in before && (|before| >= TAG_MAX || rest == [])
    ensures ItemsOf([LESS as nat] + (before + rest)) == None
  {
    hide TagEvent;
    UntilMisses(before, GREATER, TAG_MAX, false, rest);
    assert ([LESS as nat] + (before + rest))[1..] == before + rest;
  }

  lemma EntityItems(before: seq<nat>, rest: seq<nat>)
    requires SEMICOLON !in before && |before| < ENTITY_MAX && forall i :: 0 <= i < |before| ==> before[i] <= 0x7f
    requires EntityCode(TagText(before)).Some?
    ensures ItemsOf([AMPERSAND as nat] + (before + [SEMICOLON as nat] + rest)) ==
            Prepend(Character(EntityCode(TagText(before)).value), ItemsOf(rest))
  {
    hide EntityCode;
    var inner := before + [SEMICOLON as nat] + rest;
    UntilFinds(before, SEMICOLON, ENTITY_MAX, true, rest);
    CutAround(before, SEMICOLON, rest);
    assert ([AMPERSAND as nat] + inner)[1..] == inner;
  }

  lemma BareAmpersand(codes: seq<nat>)
    requires EntityAt(codes).None?
    ensures ItemsOf([AMPERSAND as nat] + codes) == Prepend(Character(AMPERSAND), ItemsOf(codes))
  {
    hide EntityAt;
    assert ([AMPERSAND as nat] + codes)[1..] == codes;
  }

  lemma CharacterItems(code: nat, rest: seq<nat>)
    requires code != LESS && code != AMPERSAND
    ensures ItemsOf([code] + rest) == Prepend(Character(code), ItemsOf(rest))
  {
    assert ([code] + rest)[1..] == rest;
  }

  // ---------------------------------------------------------------------------------------
  // The parser

  lemma TagTextGrows(before: seq<nat>, code: nat)
    ensures TagText(before + [code]) == TagText(before) + [TagByte(code)]
  {
  }

  /** Reads the inside of a tag, up to and including its closing bracket. */
  method ReadTag(text: seq<byte>, start: nat) returns (tag: Option<seq<byte>>, position: nat)
    ensures tag.Some? ==> start < position <= |text|
    ensures TagRead(StringAt(text, start), tag, StringAt(text, position))
  {
    hide ItemsOf, StringAt, TagText;
    position := start;
    ghost var before: seq<nat> := [];
    var gathered: seq<byte> := [];
    TagTextOfNothing();
    PrefixedByNothing(StringAt(text, start));
    while true
      invariant start <= position && |gathered| == |before| <= TAG_MAX && gathered == TagText(before)
      invariant GREATER !in before
      invariant PrefixedBy(before, StringAt(text, position)) == StringAt(text, start)
      decreases |text| - position
    {
      var (token, after) := Json.Next(text, position);
      PrefixedByStep(before, text, position);
      if !token.Code? || |gathered| >= TAG_MAX {
        NoTag(before, text, start, position);
        return None, position;
      }
      if token.code == GREATER {
        TagEnds(before, text, start, after);
        return Some(gathered), after;
      }
      TagTextGrows(before, token.code);
      gathered := gathered + [TagByte(token.code)];
      before := before + [token.code];
      position := after;
    }
  }

  lemma TagTextOfNothing()
    ensures TagText([]) == []
  {
  }

  /** What follows an opening bracket is a tag and the rest, or else the markup is not acceptable. */
  ghost predicate TagRead(codes: Option<seq<nat>>, tag: Option<seq<byte>>, rest: Option<seq<nat>>) {
    match tag
    case Some(inside) =>
      && (codes.Some? <==> rest.Some?)
      && (codes.Some? ==>
            ItemsOf([LESS as nat] + codes.value) == Prepend(Tag(TagEvent(inside)), ItemsOf(rest.value)))
    case None => codes.Some? ==> ItemsOf([LESS as nat] + codes.value) == None
  }

  lemma TagEnds(before: seq<nat>, text: seq<byte>, start: nat, after: nat)
    requires GREATER !in before && |before| < TAG_MAX
    requires StringAt(text, start) == PrefixedBy(before + [GREATER as nat], StringAt(text, after))
    ensures TagRead(StringAt(text, start), Some(TagText(before)), StringAt(text, after))
  {
    hide StringAt, ItemsOf, TagEvent;
    if StringAt(text, after).Some? {
      TagItems(before, StringAt(text, after).value);
    }
  }

  lemma NoTag(before: seq<nat>, text: seq<byte>, start: nat, position: nat)
    requires GREATER !in before && (|before| >= TAG_MAX || !Json.Next(text, position).0.Code?)
    requires StringAt(text, start) == PrefixedBy(before, StringAt(text, position))
    ensures TagRead(StringAt(text, start), None, StringAt(text, position))
  {
    hide ItemsOf, TagEvent;
    if StringAt(text, position).Some? {
      TagUnclosed(before, StringAt(text, position).value);
    }
  }

  /** Reads an entity; without one, the position before it is kept. */
  method ReadEntity(text: seq<byte>, start: nat) returns (code: Option<nat>, position: nat)
    ensures code.Some? ==> start < position <= |text|
    ensures code.None? ==> position == start
    ensures EntityRead(StringAt(text, start), code, StringAt(text, position))
  {
    hide ItemsOf, StringAt, TagText, EntityCode, EntityAt;
    position := start;
    ghost var before: seq<nat> := [];
    var gathered: seq<byte> := [];
    TagTextOfNothing();
    PrefixedByNothing(StringAt(text, start));
    while true
      invariant start <= position && |gathered| == |before| <= ENTITY_MAX && gathered == TagText(before)
      invariant SEMICOLON !in before && forall i :: 0 <= i < |before| ==> before[i] <= 0x7f
      invariant PrefixedBy(before, StringAt(text, position)) == StringAt(text, start)
      decreases |text| - position
    {
      var (token, after) := Json.Next(text, position);
      PrefixedByStep(before, text, position);
      if !token.Code? || |gathered| >= ENTITY_MAX {
        NoEntity(before, text, start, position);
        return None, start;
      }
      if token.code == SEMICOLON {
        code := EntityCodepoint(gathered);
        EntityEnds(before, text, start, after);
        position := if code.Some? then after else start;
        return;
      }
      if token.code > 0x7f {
        NoEntity(before, text, start, position);
        return None, start;
      }
      TagTextGrows(before, token.code);
      gathered := gathered + [TagByte(token.code)];
      before := before + [token.code];
      position := after;
    }
  }

  /** What follows an ampersand is an entity and the rest, or else the ampersand stands for itself. */
  ghost predicate EntityRead(codes: Option<seq<nat>>, code: Option<nat>, rest: Option<seq<nat>>) {
    && (codes.Some? <==> rest.Some?)
    && (codes.Some? ==>
          ItemsOf([AMPERSAND as nat] + codes.value) ==
          Prepend(Character(if code.Some? then code.value else AMPERSAND), ItemsOf(rest.value)))
  }

  lemma EntityEnds(before: seq<nat>, text: seq<byte>, start: nat, after: nat)
    requires SEMICOLON !in before && |before| < ENTITY_MAX && forall i :: 0 <= i < |before| ==> before[i] <= 0x7f
    requires StringAt(text, start) == PrefixedBy(before + [SEMICOLON as nat], StringAt(text, after))
    ensures var code := EntityCode(TagText(before));
            EntityRead(StringAt(text, start), code, if code.Some? then StringAt(text, after) else StringAt(text, start))
  {
    hide StringAt, ItemsOf, EntityCode;
    if StringAt(text, after).Some? {
      var rest := StringAt(text, after).value;
      if EntityCode(TagText(before)).Some? {
        EntityItems(before, rest);
      } else {
        UntilFinds(before, SEMICOLON, ENTITY_MAX, true, rest);
        CutAround(before, SEMICOLON, rest);
        BareAmpersand(before + [SEMICOLON as nat] + rest);
      }
    }
  }

  lemma NoEntity(before: seq<nat>, text: seq<byte>, start: nat, position: nat)
    requires SEMICOLON !in before
    requires var token := Json.Next(text, position).0;
             |before| >= ENTITY_MAX || !token.Code? || (token.code > 0x7f && token.code != SEMICOLON)
    requires StringAt(text, start) == PrefixedBy(before, StringAt(text, position))
    ensures EntityRead(StringAt(text, start), None, StringAt(text, start))
  {
    hide ItemsOf, EntityCode;
    if StringAt(text, position).Some? {
      var rest := StringAt(text, position).value;
      UntilMisses(before, SEMICOLON, ENTITY_MAX, true, rest);
      BareAmpersand(before + rest);
    }
  }

  lemma FinishAtEnd(m: Layout)
    ensures Finish(m, Some([])) == Some(m)
  {
  }

  lemma FinishTag(m: Layout, text: seq<byte>, position: nat, after: nat, tag: Option<seq<byte>>, behind: nat)
    requires Json.Next(text, position) == (Code(LESS), after)
    requires TagRead(StringAt(text, after), tag, StringAt(text, behind))
    ensures Finish(m, StringAt(text, position)) ==
            if tag.Some? then FinishItem(m, Tag(TagEvent(tag.value)), StringAt(text, behind)) else None
  {
    hide ItemsOf, Place, TagEvent;
    var codes, rest := StringAt(text, after), StringAt(text, behind);
    if codes.Some? && tag.Some? {
      FinishFirst(m, Tag(TagEvent(tag.value)), [LESS as nat] + codes.value, rest.value);
    }
  }

  lemma FinishEntity(m: Layout, text: seq<byte>, position: nat, after: nat, code: Option<nat>, behind: nat)
    requires Json.Next(text, position) == (Code(AMPERSAND), after)
    requires EntityRead(StringAt(text, after), code, StringAt(text, behind))
    ensures Finish(m, StringAt(text, position)) ==
            FinishItem(m, Character(if code.Some? then code.value else AMPERSAND), StringAt(text, behind))
  {
    hide ItemsOf, Place;
    var codes, rest := StringAt(text, after), StringAt(text, behind);
    if codes.Some? {
      FinishFirst(m, Character(if code.Some? then code.value else AMPERSAND), [AMPERSAND as nat] + codes.value, rest.value);
    }
  }

  lemma FinishCharacter(m: Layout, text: seq<byte>, position: nat, code: nat, after: nat)
    requires Json.Next(text, position) == (Code(code), after) && code != LESS && code != AMPERSAND
    ensures Finish(m, StringAt(text, position)) == FinishItem(m, Character(code), StringAt(text, after))
  {
    hide ItemsOf, Place;
    var rest := StringAt(text, after);
    if rest.Some? {
      CharacterItems(code, rest.value);
      FinishFirst(m, Character(code), [code] + rest.value, rest.value);
    }
  }

  /**
   The page in the response. Every turn of the loop leaves less of the text to read, also after the
   reader has gone back to an ampersand.
   */
  method ParseContent(text: seq<byte>, cells: array<Cell>) returns (ok: bool)
    requires cells.Length == SOURCE_ROWS * COLUMNS
    modifies cells
    ensures ok <==> ContentOf(text).Some?
    ensures ok ==> cells[..] == ContentOf(text).value
  {
    hide StringAt, Finish, TagEvent, ApplyEvent, Append, ItemsOf, TagRead, EntityRead;
    var content := FindJsonString(text, CONTENT);
    if content.None? {
      return false;
    }
    var position, style, stack := content.value, PLAIN, new Style[STYLE_STACK_DEPTH];
    var depth: nat, row: nat, column: nat := 0, 0, 0;
    ghost var m := START;
    while true
      invariant depth <= STYLE_STACK_DEPTH && row <= SOURCE_ROWS && column <= COLUMNS
      invariant row * COLUMNS + column <= cells.Length
      invariant m.styles == Styles(style, stack[..depth])
      invariant m.grid == Grid(cells[..row * COLUMNS + column], row, column)
      invariant Finish(m, StringAt(text, position)) == Finish(START, StringAt(text, content.value))
      decreases |text| - position
    {
      var (token, after) := Json.Next(text, position);
      if token.End? {
        break;
      }
      if token.Bad? {
        FinishBad(m, text, position);
        return false;
      }
      if token.code == LESS {
        var tag, behind := ReadTag(text, after);
        FinishTag(m, text, position, after, tag, behind);
        if tag.None? {
          return false;
        }
        var parsed;
        parsed, style, depth := ParseTag(tag.value, style, stack, depth);
        if !parsed {
          return false;
        }
        m, position := m.(styles := Styles(style, stack[..depth])), behind;
        continue;
      }
      var codepoint := token.code;
      if token.code == AMPERSAND {
        var entity, behind := ReadEntity(text, after);
        FinishEntity(m, text, position, after, entity, behind);
        codepoint := if entity.Some? then entity.value else AMPERSAND;
        position := behind;
      } else {
        FinishCharacter(m, text, position, token.code, after);
        position := after;
      }
      var appended;
      appended, row, column := AppendCell(cells, row, column, style, codepoint);
      if !appended {
        return false;
      }
      m := m.(grid := Grid(cells[..row * COLUMNS + column], row, column));
    }
    FinishEnds(m, text, position);
    All(cells[..]);
    return depth == 0 && row == SOURCE_ROWS && column == 0;
  }

  lemma FinishBad(m: Layout, text: seq<byte>, position: nat)
    requires Json.Next(text, position).0.Bad?
    ensures Finish(m, StringAt(text, position)) == None
  {
  }

  lemma FinishEnds(m: Layout, text: seq<byte>, position: nat)
    requires Json.Next(text, position).0.End?
    ensures Finish(m, StringAt(text, position)) == Some(m)
  {
    FinishAtEnd(m);
  }
}
