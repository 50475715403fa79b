/**
 Where the row compiler falls short of the display: inverse spaces, which it never emits. A blank cell
 on a colour is the only place for one, and each place and colour where it can be used at all is
 shown to make a difference for some row.
 */
module InverseSpaces {
  import opened Bytes
  import opened Saa5050
  import opened RowMeaning

  const INVERSE_SPACE: byte := 0xa0
  const NEW_BACKGROUND: byte := 0x1d
  const BLACK_BACKGROUND: byte := 0x1c

  // ---------------------------------------------------------------------------------------
  // Rows and encodings

  const BLANK_CELL := Cell(0x20, WHITE, BLACK, Alpha)

  /** The states named for each column are those the bytes lead through. */
  lemma {:induction false} EncodesThrough(cells: seq<Cell>, bytes: seq<byte>, states: seq<State>, n: nat)
    requires n <= |bytes| <= |cells| && |states| == |bytes| + 1 && states[0] == INITIAL
    requires forall i :: 0 <= i < |bytes| ==>
               Represents(cells[i], states[i], bytes[i]) && states[i + 1] == Next(states[i], bytes[i])
    ensures Encodes(cells, bytes[..n]) && StateAfter(bytes[..n]) == states[n]
  {
    if n > 0 {
      EncodesThrough(cells, bytes, states, n - 1);
      assert bytes[..n - 1] + [bytes[n - 1]] == bytes[..n];
      EncodesExtend(cells, bytes[..n - 1], bytes[n - 1]);
    } else {
      assert bytes[..0] == [];
    }
  }

  lemma PrefixEncodes(cells: seq<Cell>, bytes: seq<byte>, n: nat)
    requires Faithful(cells, bytes) && n < |bytes|
    ensures Represents(cells[n], StateAfter(bytes[..n]), bytes[n]) && bytes[n] != INVERSE_SPACE
    ensures StateAfter(bytes[..n + 1]) == Next(StateAfter(bytes[..n]), bytes[n])
    ensures n == 0 ==> StateAfter(bytes[..n]) == INITIAL
  {
    assert bytes[..n + 1][..n] == bytes[..n];
    if n == 0 {
      assert bytes[..0] == [];
    }
  }

  /** A cell behind which only an inverse space could leave another background than its own. */
  predicate Fixing(cell: Cell) {
    Blank(cell) || cell.foreground == cell.background
  }

  lemma BackgroundStays(cell: Cell, s: State, value: byte)
    requires Fixing(cell) && Represents(cell, s, value) && value != INVERSE_SPACE
    ensures Next(s, value).background == cell.background
    ensures s.background != cell.background ==> IsControl(value) && Next(s, value).foreground == s.foreground
    ensures s.background != cell.background && cell.background != BLACK ==> s.foreground == cell.background
  {
  }

  // ---------------------------------------------------------------------------------------
  // A block in an empty row, with a glyph behind it: loss

  function Block(i: nat, colour: Colour, glyph: byte): (cells: seq<Cell>)
    ensures |cells| == COLUMNS
  {
    seq(COLUMNS, k => if k == i then Cell(0x20, WHITE, colour, Alpha)
                      else if k == i + 1 then Cell(glyph, colour, BLACK, Alpha) else BLANK_CELL)
  }

  function BlockBytes(i: nat, colour: Colour, glyph: byte): (bytes: seq<byte>)
    ensures |bytes| == COLUMNS
  {
    seq(COLUMNS, k => if k == i then INVERSE_SPACE else if k == i + 1 then glyph
                      else if k + 1 == i && colour != WHITE then colour else 0x20)
  }

  /** Where an inverse space can be used: on a colour, and not before its ink can be chosen. */
  predicate Usable(i: nat, colour: Colour) {
    i < COLUMNS && colour != BLACK && !OutOfReach(i, colour)
  }

  function BlockState(i: nat, colour: Colour, k: int): State
    requires colour != BLACK
  {
    if k < i then INITIAL else State(colour, BLACK, Alpha)
  }

  lemma BlockStep(i: nat, colour: Colour, glyph: byte, k: nat)
    requires Usable(i, colour) && 0x20 <= glyph < 0x80 && k < COLUMNS
    ensures var s, value := BlockState(i, colour, k), BlockBytes(i, colour, glyph)[k];
            Represents(Block(i, colour, glyph)[k], s, value) && BlockState(i, colour, k + 1) == Next(s, value)
  {
  }

  lemma BlockIsDisplayed(i: nat, colour: Colour, glyph: byte)
    requires Usable(i, colour) && 0x20 <= glyph < 0x80
    ensures Displays(Block(i, colour, glyph), BlockBytes(i, colour, glyph))
  {
    hide Represents, Next, StateAfter, Block, BlockBytes, BlockState;
    var cells, bytes := Block(i, colour, glyph), BlockBytes(i, colour, glyph);
    var states := seq(COLUMNS + 1, k => BlockState(i, colour, k));
    forall k | 0 <= k < COLUMNS
      ensures Represents(cells[k], states[k], bytes[k]) && states[k + 1] == Next(states[k], bytes[k])
    {
      BlockStep(i, colour, glyph, k);
    }
    BlockStarts(i, colour);
    EncodesThrough(cells, bytes, states, COLUMNS);
    assert bytes[..COLUMNS] == bytes;
  }

  lemma BlockStarts(i: nat, colour: Colour)
    requires Usable(i, colour)
    ensures BlockState(i, colour, 0) == INITIAL
  {
  }

  lemma BlockKeepsGlyphs(i: nat, colour: Colour, glyph: byte)
    requires Usable(i, colour) && 0x20 <= glyph < 0x80
    ensures KeepsGlyphs(Block(i, colour, glyph), BlockBytes(i, colour, glyph))
  {
  }

  lemma {:induction false} BlockLoss(i: nat, colour: Colour, glyph: byte, n: nat)
    requires Usable(i, colour) && 0x20 <= glyph < 0x80 && n <= COLUMNS
    ensures Loss(Block(i, colour, glyph), BlockBytes(i, colour, glyph)[..n]) ==
            if colour != WHITE && n >= i then 1 else 0
  {
    var bytes := BlockBytes(i, colour, glyph);
    if n > 0 {
      BlockLoss(i, colour, glyph, n - 1);
      assert bytes[..n][..n - 1] == bytes[..n - 1];
    }
  }

  /** Up to the block a faithful encoding has changed nothing for nothing. */
  lemma {:induction false} BeforeBlock(i: nat, colour: Colour, glyph: byte, bytes: seq<byte>, n: nat)
    requires Usable(i, colour) && Faithful(Block(i, colour, glyph), bytes) && n <= i
    ensures StateAfter(bytes[..n]).background == BLACK
    ensures StateAfter(bytes[..n]).foreground == WHITE || Loss(Block(i, colour, glyph), bytes[..n]) >= 1
  {
    var cells := Block(i, colour, glyph);
    if n == 0 {
      assert bytes[..0] == [];
    } else {
      BeforeBlock(i, colour, glyph, bytes, n - 1);
      PrefixEncodes(cells, bytes, n - 1);
      BackgroundStays(cells[n - 1], StateAfter(bytes[..n - 1]), bytes[n - 1]);
      assert bytes[..n][..n - 1] == bytes[..n - 1];
    }
  }

  lemma {:induction false} LossGrows(cells: seq<Cell>, bytes: seq<byte>, n: nat)
    requires n <= |bytes| <= |cells|
    ensures Loss(cells, bytes[..n]) <= Loss(cells, bytes)
    decreases |bytes|
  {
    if n < |bytes| {
      var init := bytes[..|bytes| - 1];
      LossGrows(cells, init, n);
      assert init[..n] == bytes[..n];
    } else {
      assert bytes[..n] == bytes;
    }
  }

  /** In the compiler's language the block costs a control code in its own cell, and the background changes with it. */
  lemma BlockCosts(i: nat, colour: Colour, glyph: byte, bytes: seq<byte>)
    requires Usable(i, colour) && 0x20 <= glyph < 0x80 && Faithful(Block(i, colour, glyph), bytes)
    ensures Loss(Block(i, colour, glyph), bytes) > Loss(Block(i, colour, glyph), BlockBytes(i, colour, glyph))
    ensures StateAfter(bytes[..i + 1]).background == colour
  {
    var cells := Block(i, colour, glyph);
    BeforeBlock(i, colour, glyph, bytes, i);
    PrefixEncodes(cells, bytes, i);
    BackgroundStays(cells[i], StateAfter(bytes[..i]), bytes[i]);
    assert bytes[..i + 1][..i] == bytes[..i];
    LossGrows(cells, bytes, i + 1);
    BlockLoss(i, colour, glyph, COLUMNS);
    assert BlockBytes(i, colour, glyph)[..COLUMNS] == BlockBytes(i, colour, glyph);
  }

  /** A letter in the ink of the block, behind it, is lost. */
  lemma LetterIsLost(i: nat, colour: Colour, bytes: seq<byte>)
    requires Usable(i, colour) && i + 1 < COLUMNS && Faithful(Block(i, colour, 0x41), bytes)
    ensures !KeepsGlyphs(Block(i, colour, 0x41), bytes)
  {
    BlockCosts(i, colour, 0x41, bytes);
    PrefixEncodes(Block(i, colour, 0x41), bytes, i + 1);
    assert !Blank(Block(i, colour, 0x41)[i + 1]);
  }

  /**
   The display could show a block with a letter in its ink behind it without losing anything, but only
   with an inverse space: every encoding the compiler can find loses the letter.
   */
  lemma InverseSpaceWouldBeBetter(i: nat, colour: Colour)
    requires Usable(i, colour) && i + 1 < COLUMNS
    ensures Displays(Block(i, colour, 0x41), BlockBytes(i, colour, 0x41))
    ensures KeepsGlyphs(Block(i, colour, 0x41), BlockBytes(i, colour, 0x41))
    ensures forall bytes :: Faithful(Block(i, colour, 0x41), bytes) ==> !KeepsGlyphs(Block(i, colour, 0x41), bytes)
  {
    BlockIsDisplayed(i, colour, 0x41);
    BlockKeepsGlyphs(i, colour, 0x41);
    forall bytes | Faithful(Block(i, colour, 0x41), bytes)
      ensures !KeepsGlyphs(Block(i, colour, 0x41), bytes)
    {
      LetterIsLost(i, colour, bytes);
    }
  }

  // ---------------------------------------------------------------------------------------
  // Rows that are refused although the display can show them

  /** Behind a block in the first colour, one black cell is too little to prepare a second colour. */
  function Gap(i: nat, colour: Colour, second: Colour): (cells: seq<Cell>)
    ensures |cells| == COLUMNS
  {
    seq(COLUMNS, k => if k == i then Cell(0x20, WHITE, colour, Alpha)
                      else if k == i + 2 then Cell(0x41, second, second, Alpha) else BLANK_CELL)
  }

  function GapBytes(i: nat, colour: Colour, second: Colour): (bytes: seq<byte>)
    ensures |bytes| == COLUMNS
  {
    seq(COLUMNS, k => if k == i then INVERSE_SPACE else if k == i + 1 then second else if k == i + 2 then NEW_BACKGROUND
                      else if k + 1 == i then colour else if k < i then 0x20 else BLACK_BACKGROUND)
  }

  function GapState(i: nat, colour: Colour, second: Colour, k: int): State
    requires colour != BLACK && second != BLACK
  {
    if k < i then INITIAL
    else if k <= i + 1 then State(colour, BLACK, Alpha)
    else if k == i + 3 then State(second, second, Alpha)
    else State(second, BLACK, Alpha)
  }

  lemma GapStep(i: nat, colour: Colour, second: Colour, k: nat)
    requires Usable(i, colour) && i + 2 < COLUMNS && second != BLACK && k < COLUMNS
    ensures var s, value := GapState(i, colour, second, k), GapBytes(i, colour, second)[k];
            Represents(Gap(i, colour, second)[k], s, value) && GapState(i, colour, second, k + 1) == Next(s, value)
  {
  }

  lemma GapIsDisplayed(i: nat, colour: Colour, second: Colour)
    requires Usable(i, colour) && i + 2 < COLUMNS && second != BLACK
    ensures Displays(Gap(i, colour, second), GapBytes(i, colour, second))
  {
    hide Represents, Next, StateAfter, Gap, GapBytes;
    var cells, bytes := Gap(i, colour, second), GapBytes(i, colour, second);
    var states := seq(COLUMNS + 1, k => GapState(i, colour, second, k));
    forall k | 0 <= k < COLUMNS
      ensures Represents(cells[k], states[k], bytes[k]) && states[k + 1] == Next(states[k], bytes[k])
    {
      GapStep(i, colour, second, k);
    }
    EncodesThrough(cells, bytes, states, COLUMNS);
    assert bytes[..COLUMNS] == bytes;
  }

  lemma {:induction false} BeforeGap(i: nat, colour: Colour, second: Colour, bytes: seq<byte>, n: nat)
    requires Faithful(Gap(i, colour, second), bytes) && n <= i < COLUMNS
    ensures StateAfter(bytes[..n]).background == BLACK
  {
    if n == 0 {
      assert bytes[..0] == [];
    } else {
      BeforeGap(i, colour, second, bytes, n - 1);
      PrefixEncodes(Gap(i, colour, second), bytes, n - 1);
      BackgroundStays(BLANK_CELL, StateAfter(bytes[..n - 1]), bytes[n - 1]);
    }
  }

  /** No three bytes lead through the block, the black cell and the second colour. */
  lemma GapBlocks(colour: Colour, second: Colour, s: State, p: byte, q: byte, r: byte)
    requires s.background == BLACK && colour != BLACK && second != BLACK && second != colour
    requires p != INVERSE_SPACE && q != INVERSE_SPACE && r != INVERSE_SPACE
    requires Represents(Cell(0x20, WHITE, colour, Alpha), s, p) && Represents(BLANK_CELL, Next(s, p), q)
    ensures !Represents(Cell(0x41, second, second, Alpha), Next(Next(s, p), q), r)
  {
    hide Represents, Next;
    BackgroundStays(Cell(0x20, WHITE, colour, Alpha), s, p);
    BackgroundStays(BLANK_CELL, Next(s, p), q);
    if Represents(Cell(0x41, second, second, Alpha), Next(Next(s, p), q), r) {
      BackgroundStays(Cell(0x41, second, second, Alpha), Next(Next(s, p), q), r);
    }
  }

  lemma GapCells(i: nat, colour: Colour, second: Colour)
    requires i + 2 < COLUMNS
    ensures var cells := Gap(i, colour, second);
            && cells[i] == Cell(0x20, WHITE, colour, Alpha) && cells[i + 1] == BLANK_CELL
            && cells[i + 2] == Cell(0x41, second, second, Alpha)
  {
  }

  lemma GapIsRefused(i: nat, colour: Colour, second: Colour)
    requires i + 2 < COLUMNS && colour != BLACK && second != BLACK && second != colour
    ensures !Representable(Gap(i, colour, second))
  {
    hide Represents, Next, StateAfter, Gap, Encodes, UsesInverseSpace;
    var cells := Gap(i, colour, second);
    GapCells(i, colour, second);
    forall bytes | Faithful(cells, bytes)
      ensures false
    {
      BeforeGap(i, colour, second, bytes, i);
      PrefixEncodes(cells, bytes, i);
      PrefixEncodes(cells, bytes, i + 1);
      PrefixEncodes(cells, bytes, i + 2);
      GapBlocks(colour, second, StateAfter(bytes[..i]), bytes[i], bytes[i + 1], bytes[i + 2]);
    }
  }

  /** A block inside cells of another colour, which come back behind it. */
  function Inlay(i: nat, colour: Colour, around: Colour, glyph: byte): (cells: seq<Cell>)
    ensures |cells| == COLUMNS
  {
    seq(COLUMNS, k => if k == i then Cell(0x20, WHITE, colour, Alpha)
                      else if k == i + 1 || k + 1 == i || k + 2 == i then Cell(glyph, around, around, Alpha) else BLANK_CELL)
  }

  function InlayBytes(i: nat, colour: Colour, around: Colour): (bytes: seq<byte>)
    ensures |bytes| == COLUMNS
  {
    seq(COLUMNS, k => if k == i then INVERSE_SPACE else if k == i + 1 || k + 1 == i then colour
                      else if k + 2 == i then NEW_BACKGROUND else if k + 3 == i then around
                      else if k < i then 0x20 else BLACK_BACKGROUND)
  }

  function InlayState(i: nat, colour: Colour, around: Colour, k: int): State
    requires colour != BLACK && around != BLACK
  {
    if k + 2 < i then INITIAL
    else if k + 2 == i then State(around, BLACK, Alpha)
    else if k + 1 == i then State(around, around, Alpha)
    else if k <= i + 2 then State(colour, around, Alpha)
    else State(colour, BLACK, Alpha)
  }

  lemma InlayStep(i: nat, colour: Colour, around: Colour, glyph: byte, k: nat)
    requires 3 <= i < COLUMNS && colour != BLACK && around != BLACK && k < COLUMNS
    ensures var s, value := InlayState(i, colour, around, k), InlayBytes(i, colour, around)[k];
            Represents(Inlay(i, colour, around, glyph)[k], s, value) && InlayState(i, colour, around, k + 1) == Next(s, value)
  {
  }

  lemma InlayIsDisplayed(i: nat, colour: Colour, around: Colour, glyph: byte)
    requires 3 <= i < COLUMNS && colour != BLACK && around != BLACK
    ensures Displays(Inlay(i, colour, around, glyph), InlayBytes(i, colour, around))
  {
    hide Represents, Next, StateAfter, Inlay, InlayBytes;
    var cells, bytes := Inlay(i, colour, around, glyph), InlayBytes(i, colour, around);
    var states := seq(COLUMNS + 1, k => InlayState(i, colour, around, k));
    forall k | 0 <= k < COLUMNS
      ensures Represents(cells[k], states[k], bytes[k]) && states[k + 1] == Next(states[k], bytes[k])
    {
      InlayStep(i, colour, around, glyph, k);
    }
    EncodesThrough(cells, bytes, states, COLUMNS);
    assert bytes[..COLUMNS] == bytes;
  }

  /** Nor through a cell around the block, the block, and a cell around it again. */
  lemma InlayBlocks(colour: Colour, around: Cell, s: State, p: byte, q: byte, r: byte)
    requires Fixing(around) && colour != BLACK && around.background != BLACK && around.background != colour
    requires p != INVERSE_SPACE && q != INVERSE_SPACE && r != INVERSE_SPACE
    requires Represents(around, s, p) && Represents(Cell(0x20, WHITE, colour, Alpha), Next(s, p), q)
    ensures !Represents(around, Next(Next(s, p), q), r)
  {
    hide Represents, Next;
    BackgroundStays(around, s, p);
    BackgroundStays(Cell(0x20, WHITE, colour, Alpha), Next(s, p), q);
    if Represents(around, Next(Next(s, p), q), r) {
      BackgroundStays(around, Next(Next(s, p), q), r);
    }
  }

  lemma InlayCells(i: nat, colour: Colour, around: Colour, glyph: byte)
    requires 3 <= i && i + 1 < COLUMNS
    ensures var cells, side := Inlay(i, colour, around, glyph), Cell(glyph, around, around, Alpha);
            cells[i - 1] == side && cells[i] == Cell(0x20, WHITE, colour, Alpha) && cells[i + 1] == side
  {
  }

  lemma InlayIsRefused(i: nat, colour: Colour, around: Colour, glyph: byte)
    requires 3 <= i && i + 1 < COLUMNS && colour != BLACK && around != BLACK && colour != around
    ensures !Representable(Inlay(i, colour, around, glyph))
  {
    hide Represents, Next, StateAfter, Inlay, Encodes, UsesInverseSpace;
    var cells := Inlay(i, colour, around, glyph);
    InlayCells(i, colour, around, glyph);
    forall bytes | Faithful(cells, bytes)
      ensures false
    {
      var j := i - 1;
      PrefixEncodes(cells, bytes, j);
      PrefixEncodes(cells, bytes, i);
      PrefixEncodes(cells, bytes, i + 1);
      InlayBlocks(colour, cells[j], StateAfter(bytes[..j]), bytes[j], bytes[i], bytes[i + 1]);
    }
  }

  /** A row of blanks on black, red, red, white, red, black: the display can show it, the compiler refuses it. */
  lemma RefusedRow()
    ensures PrintableRow(Inlay(3, WHITE, 1, 0x20)) && Displayable(Inlay(3, WHITE, 1, 0x20))
    ensures !Representable(Inlay(3, WHITE, 1, 0x20))
  {
    InlayIsDisplayed(3, WHITE, 1, 0x20);
    InlayIsRefused(3, WHITE, 1, 0x20);
  }

  // ---------------------------------------------------------------------------------------
  // Exactly when the compiler does as well as the display

  /** Rows whose coloured blanks are all at listed places in listed colours. */
  ghost predicate Within(cells: seq<Cell>, places: set<(nat, Colour)>) {
    && |cells| == COLUMNS && PrintableRow(cells)
    && forall i :: 0 <= i < |cells| && ColouredBlank(cells, i) ==> (i, cells[i].background) in places
  }

  /**
   The compiler finds the best of all encodings of every row with coloured blanks at given places only,
   if and only if no inverse space can be used at these places.
   */
  lemma BestOfAllExactly(places: set<(nat, Colour)>)
    ensures (forall cells :: Within(cells, places) ==> MatchesLoss(cells)) <==>
            (forall place :: place in places ==> !Usable(place.0, place.1))
  {
    if place :| place in places && Usable(place.0, place.1) {
      var cells := Block(place.0, place.1, 0x20);
      BlockIsDisplayed(place.0, place.1, 0x20);
      forall bytes | Faithful(cells, bytes)
        ensures Loss(cells, bytes) > Loss(cells, BlockBytes(place.0, place.1, 0x20))
      {
        BlockCosts(place.0, place.1, 0x20, bytes);
      }
      assert Within(cells, places) && !MatchesLoss(cells);
    } else {
      forall cells | Within(cells, places)
        ensures MatchesLoss(cells)
      {
        NoInverseNoDifference(cells);
      }
    }
  }

  /** It keeps all glyphs that can be kept, if and only if none can be used before the last column. */
  lemma GlyphsExactly(places: set<(nat, Colour)>)
    ensures (forall cells :: Within(cells, places) ==> MatchesGlyphs(cells)) <==>
            (forall place :: place in places && Usable(place.0, place.1) ==> place.0 == COLUMNS - 1)
  {
    if place :| place in places && Usable(place.0, place.1) && place.0 != COLUMNS - 1 {
      var cells := Block(place.0, place.1, 0x41);
      InverseSpaceWouldBeBetter(place.0, place.1);
      assert Within(cells, places) && !MatchesGlyphs(cells);
    } else {
      forall cells | Within(cells, places)
        ensures MatchesGlyphs(cells)
      {
        InverseAtEndKeeps(cells);
      }
    }
  }

  /** And under the same condition it refuses no row that the display can show. */
  lemma RefusalExactly(places: set<(nat, Colour)>)
    ensures (forall cells :: Within(cells, places) ==> MatchesDisplay(cells)) <==>
            (forall place :: place in places && Usable(place.0, place.1) ==> place.0 == COLUMNS - 1)
  {
    if place :| place in places && Usable(place.0, place.1) && place.0 != COLUMNS - 1 {
      var other: Colour := if place.1 == 1 then 2 else 1;
      var cells := RefusedWith(place.0, place.1, other);
      assert Within(cells, places) && !MatchesDisplay(cells);
    } else {
      forall cells | Within(cells, places)
        ensures MatchesDisplay(cells)
      {
        InverseAtEndKeeps(cells);
      }
    }
  }

  lemma RefusedWith(i: nat, colour: Colour, other: Colour) returns (cells: seq<Cell>)
    requires Usable(i, colour) && i + 1 < COLUMNS && other != colour && other != BLACK
    ensures |cells| == COLUMNS && PrintableRow(cells) && Displayable(cells) && !Representable(cells)
    ensures forall k :: 0 <= k < COLUMNS && ColouredBlank(cells, k) ==> k == i && cells[k].background == colour
  {
    if i + 2 < COLUMNS {
      cells := Gap(i, colour, other);
      GapIsDisplayed(i, colour, other);
      GapIsRefused(i, colour, other);
    } else {
      cells := Inlay(i, colour, other, 0x41);
      InlayIsDisplayed(i, colour, other, 0x41);
      InlayIsRefused(i, colour, other, 0x41);
    }
  }
}
