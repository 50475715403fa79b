/**
 What the compiled bytes mean: compilation preserves the picture, finds an encoding whenever there
 is one without the inverse space, and sacrifices as little as possible. Where the inverse space makes
 no difference, all of this holds for the whole display language.
 */
module RowMeaning {
  import opened Bytes
  import opened Saa5050
  import opened RowCompiler

  /** Glyphs the page parser can produce. */
  predicate Printable(cell: Cell) {
    0x20 <= cell.glyph < 0x80
  }

  predicate PrintableRow(cells: seq<Cell>) {
    forall i :: 0 <= i < |cells| ==> Printable(cells[i])
  }

  /** A complete encoding of the row in the whole display language. */
  ghost predicate Displays(cells: seq<Cell>, bytes: seq<byte>) {
    |bytes| == |cells| && Encodes(cells, bytes)
  }

  /** A complete encoding in the part of the language the compiler uses, without inverse spaces. */
  ghost predicate Faithful(cells: seq<Cell>, bytes: seq<byte>) {
    Displays(cells, bytes) && !UsesInverseSpace(bytes)
  }

  ghost predicate BestEncoding(cells: seq<Cell>, bytes: seq<byte>) {
    && Faithful(cells, bytes)
    && forall other :: Faithful(cells, other) ==> Loss(cells, bytes) <= Loss(cells, other)
  }

  // ---------------------------------------------------------------------------------------
  // Moves of the compiler and steps of the display

  /** A move emits a byte that represents its cell, at the loss it is charged for. */
  lemma MoveRepresents(cell: Cell, s: State, value: byte, t: State, cost: nat)
    requires Printable(cell) && Move(cell, s, value, t, cost)
    ensures Represents(cell, s, value)
    ensures Next(s, value) == t
    ensures CellLoss(cell, value) == cost
    ensures value != 0xa0
  {
  }

  /** The byte the compiler would use where some encoding uses value. */
  function Canonical(cell: Cell, s: State, value: byte): byte {
    var control := value % 0x80;
    if !IsControl(value) then value
    else if 1 <= control <= 7 || 0x11 <= control <= 0x17 || control == 0x1c || control == 0x1d then control
    else if s.mode == Alpha then s.foreground  // a control that changes nothing: name the current state again
    else 0x10 + s.foreground
  }

  /** Whatever byte represents a cell, the compiler has a move with the same effect and loss. */
  lemma RepresentationHasMove(cell: Cell, s: State, value: byte)
    requires Printable(cell) && Represents(cell, s, value) && value != 0xa0
    ensures Move(cell, s, Canonical(cell, s, value), Next(s, value), CellLoss(cell, value))
  {
    var control := value % 0x80;
    if IsControl(value) {
      if 1 <= control <= 7 {
      } else if 0x11 <= control <= 0x17 {
      } else if control == 0x1c {
      } else if control == 0x1d {
      } else {
        assert Next(s, value) == s;
      }
    }
  }

  // ---------------------------------------------------------------------------------------
  // Paths and encodings

  lemma EncodesExtend(cells: seq<Cell>, bytes: seq<byte>, value: byte)
    requires Encodes(cells, bytes) && |bytes| < |cells|
    requires Represents(cells[|bytes|], StateAfter(bytes), value)
    ensures Encodes(cells, bytes + [value])
    ensures StateAfter(bytes + [value]) == Next(StateAfter(bytes), value)
    ensures Loss(cells, bytes + [value]) == Loss(cells, bytes) + CellLoss(cells[|bytes|], value)
  {
    var longer := bytes + [value];
    assert longer[..|bytes|] == bytes;
    forall i | 0 <= i < |longer|
      ensures Represents(cells[i], StateAfter(longer[..i]), longer[i])
    {
      if i < |bytes| {
        assert longer[..i] == bytes[..i];
      }
    }
  }

  /** Preservation: the bytes of a path render as the path says. */
  lemma {:induction false} PathEncodes(cells: seq<Cell>, p: Path)
    requires PrintableRow(cells) && IsPath(cells, p)
    ensures p.Length() <= |cells|
    ensures Encodes(cells, p.Output())
    ensures StateAfter(p.Output()) == p.End()
    ensures Loss(cells, p.Output()) == p.Cost()
    ensures !UsesInverseSpace(p.Output())
  {
    hide Move, Represents, Encodes, StateAfter, Loss, CellLoss, Next;
    NothingEncodes(cells);
    if p.Extend? {
      PathEncodes(cells, p.init);
      MoveRepresents(cells[p.init.Length()], p.init.End(), p.value, p.state, p.cost);
      EncodesExtend(cells, p.init.Output(), p.value);
    }
  }

  lemma NothingEncodes(cells: seq<Cell>)
    ensures Encodes(cells, []) && StateAfter([]) == INITIAL && Loss(cells, []) == 0
  {
  }

  /** Completeness: every encoding without inverse spaces is matched by a path of the same loss. */
  lemma {:induction false} EncodingHasPath(cells: seq<Cell>, bytes: seq<byte>) returns (p: Path)
    requires PrintableRow(cells) && Encodes(cells, bytes) && !UsesInverseSpace(bytes)
    ensures IsPath(cells, p) && p.Length() == |bytes|
    ensures p.End() == StateAfter(bytes)
    ensures p.Cost() == Loss(cells, bytes)
  {
    if bytes == [] {
      p := Start;
    } else {
      var init, value := bytes[..|bytes| - 1], bytes[|bytes| - 1];
      assert forall i :: 0 <= i < |init| ==> init[..i] == bytes[..i];
      var q := EncodingHasPath(cells, init);
      var cell, s := cells[|init|], StateAfter(init);
      RepresentationHasMove(cell, s, value);
      p := Extend(q, Canonical(cell, s, value), Next(s, value), CellLoss(cell, value));
    }
  }

  // ---------------------------------------------------------------------------------------
  // The compiler as a whole

  lemma CheapestIsBest(cells: seq<Cell>, p: Path)
    requires PrintableRow(cells) && Cheapest(cells, p)
    ensures BestEncoding(cells, p.Output())
  {
    PathEncodes(cells, p);
    forall other | Faithful(cells, other)
      ensures Loss(cells, p.Output()) <= Loss(cells, other)
    {
      var q := EncodingHasPath(cells, other);
    }
  }

  /** The best encoding shows every glyph of the row exactly when some encoding does. */
  lemma BestKeepsGlyphs(cells: seq<Cell>, best: seq<byte>)
    requires |cells| == COLUMNS && BestEncoding(cells, best)
    ensures KeepsGlyphs(cells, best) <==> exists other :: Faithful(cells, other) && KeepsGlyphs(cells, other)
  {
    LossCountsGlyphs(cells, best);
    forall other | Faithful(cells, other) && KeepsGlyphs(cells, other)
      ensures KeepsGlyphs(cells, best)
    {
      LossCountsGlyphs(cells, other);
    }
  }

  // What the best encoding gives up, counted without the costs the search works with

  /** Letters, digits and signs that gave way to control codes. */
  function LettersLost(cells: seq<Cell>, bytes: seq<byte>): nat
    requires |bytes| <= |cells|
  {
    if bytes == [] then 0
    else
      var n := |bytes| - 1;
      LettersLost(cells, bytes[..n]) + (if cells[n].glyph != 0x20 && cells[n].mode == Alpha && IsControl(bytes[n]) then 1 else 0)
  }

  /** Mosaic characters that gave way to control codes. */
  function MosaicsLost(cells: seq<Cell>, bytes: seq<byte>): nat
    requires |bytes| <= |cells|
  {
    if bytes == [] then 0
    else
      var n := |bytes| - 1;
      MosaicsLost(cells, bytes[..n]) + (if cells[n].glyph != 0x20 && cells[n].mode == Graphics && IsControl(bytes[n]) then 1 else 0)
  }

  /** Blank cells with a control code in them. */
  function BlanksUsed(cells: seq<Cell>, bytes: seq<byte>): nat
    requires |bytes| <= |cells|
  {
    if bytes == [] then 0
    else
      var n := |bytes| - 1;
      BlanksUsed(cells, bytes[..n]) + (if cells[n].glyph == 0x20 && IsControl(bytes[n]) then 1 else 0)
  }

  lemma {:induction false} LossCounts(cells: seq<Cell>, bytes: seq<byte>)
    requires |bytes| <= |cells|
    ensures Loss(cells, bytes) == 200 * LettersLost(cells, bytes) + 100 * MosaicsLost(cells, bytes) + BlanksUsed(cells, bytes)
    ensures BlanksUsed(cells, bytes) <= |bytes|
  {
    if bytes != [] {
      LossCounts(cells, bytes[..|bytes| - 1]);
    }
  }

  /**
   A letter weighs as much as two mosaics, and control codes in blank cells only decide between encodings
   that are equal in that.
   */
  lemma BestGivesUpLeast(cells: seq<Cell>, best: seq<byte>, other: seq<byte>)
    requires |cells| == COLUMNS && BestEncoding(cells, best) && Faithful(cells, other)
    ensures var given, instead := 2 * LettersLost(cells, best) + MosaicsLost(cells, best),
                                  2 * LettersLost(cells, other) + MosaicsLost(cells, other);
            given < instead || (given == instead && BlanksUsed(cells, best) <= BlanksUsed(cells, other))
    ensures LettersLost(cells, other) == 0 && MosaicsLost(cells, other) <= 1 ==> LettersLost(cells, best) == 0
  {
    LossCounts(cells, best);
    LossCounts(cells, other);
  }

  /** The row has an encoding without inverse spaces. */
  ghost predicate Representable(cells: seq<Cell>) {
    exists bytes :: Faithful(cells, bytes)
  }

  /** The row has an encoding at all. */
  ghost predicate Displayable(cells: seq<Cell>) {
    exists bytes :: Displays(cells, bytes)
  }

  /** When the search finds no path, there is no encoding without inverse spaces. */
  lemma NoPathNoEncoding(cells: seq<Cell>)
    requires PrintableRow(cells)
    requires forall p: Path :: !(IsPath(cells, p) && p.Length() == |cells|)
    ensures !Representable(cells)
  {
    forall bytes | Faithful(cells, bytes)
      ensures false
    {
      var p := EncodingHasPath(cells, bytes);
    }
  }

  // ---------------------------------------------------------------------------------------
  // Inverse spaces

  /** A blank cell on a colour: only such a cell can be shown by an inverse space. */
  predicate ColouredBlank(cells: seq<Cell>, i: nat) {
    i < |cells| && Blank(cells[i]) && cells[i].background != BLACK
  }

  /** At the start of a row only white ink is at hand. */
  predicate OutOfReach(i: nat, colour: Colour) {
    i == 0 && colour != WHITE
  }

  /** No cell of the row can be shown by an inverse space. */
  predicate NeedsNoInverse(cells: seq<Cell>) {
    forall i :: 0 <= i < |cells| && ColouredBlank(cells, i) ==> OutOfReach(i, cells[i].background)
  }

  /** At most the last cell of the row can. */
  predicate InverseAtEndOnly(cells: seq<Cell>) {
    forall i :: 0 <= i < |cells| && ColouredBlank(cells, i) ==>
      OutOfReach(i, cells[i].background) || i == |cells| - 1
  }

  lemma InverseShowsColouredBlank(cells: seq<Cell>, bytes: seq<byte>, i: nat)
    requires Encodes(cells, bytes) && i < |bytes| && bytes[i] == 0xa0
    ensures ColouredBlank(cells, i) && !OutOfReach(i, cells[i].background)
  {
    assert Represents(cells[i], StateAfter(bytes[..i]), bytes[i]);
    if i == 0 {
      assert bytes[..0] == [];
    }
  }

  /** The best of all encodings of a row, inverse spaces included. */
  ghost predicate BestDisplay(cells: seq<Cell>, bytes: seq<byte>) {
    Displays(cells, bytes) && forall other :: Displays(cells, other) ==> Loss(cells, bytes) <= Loss(cells, other)
  }

  /** Whatever the display can show, the compiler's language shows at no greater loss. */
  ghost predicate MatchesLoss(cells: seq<Cell>) {
    forall other :: Displays(cells, other) ==> exists bytes :: Faithful(cells, bytes) && Loss(cells, bytes) <= Loss(cells, other)
  }

  /** Whatever the display can show without losing a glyph, the compiler's language can. */
  ghost predicate MatchesGlyphs(cells: seq<Cell>) {
    forall other :: Displays(cells, other) && KeepsGlyphs(cells, other) ==>
      exists bytes :: Faithful(cells, bytes) && KeepsGlyphs(cells, bytes)
  }

  /** Whatever the display can show at all, the compiler's language can. */
  ghost predicate MatchesDisplay(cells: seq<Cell>) {
    Displayable(cells) ==> Representable(cells)
  }

  /** Where no inverse space can be used, all encodings are in the compiler's language, and its best is the best of all. */
  lemma NoInverseNoDifference(cells: seq<Cell>)
    requires NeedsNoInverse(cells)
    ensures forall bytes :: Displays(cells, bytes) <==> Faithful(cells, bytes)
    ensures MatchesLoss(cells)
    ensures forall bytes :: BestEncoding(cells, bytes) <==> BestDisplay(cells, bytes)
  {
    forall bytes | Displays(cells, bytes)
      ensures Faithful(cells, bytes)
    {
      if UsesInverseSpace(bytes) {
        var i :| 0 <= i < |bytes| && bytes[i] == 0xa0;
        InverseShowsColouredBlank(cells, bytes, i);
      }
    }
  }

  /** The compiler's best is the best of all exactly where its language matches every loss. */
  lemma BestIsBestOfAll(cells: seq<Cell>, best: seq<byte>)
    requires BestEncoding(cells, best)
    ensures BestDisplay(cells, best) <==> MatchesLoss(cells)
  {
  }

  /** The control code that does for the last cell what the inverse space does. */
  lemma ReplaceLast(cells: seq<Cell>, bytes: seq<byte>) returns (other: seq<byte>)
    requires InverseAtEndOnly(cells) && Displays(cells, bytes)
    ensures Faithful(cells, other)
    ensures KeepsGlyphs(cells, bytes) <==> KeepsGlyphs(cells, other)
  {
    other := bytes;
    if UsesInverseSpace(bytes) {
      var last := |bytes| - 1;
      InverseAtLast(cells, bytes);
      other := bytes[..last] + [0x1d];
      forall i | 0 <= i < |other|
        ensures Represents(cells[i], StateAfter(other[..i]), other[i])
      {
        assert other[..i] == bytes[..i];
        RepresentsOrReplaces(cells[i], StateAfter(bytes[..i]), bytes[i]);
      }
    }
  }

  lemma InverseAtLast(cells: seq<Cell>, bytes: seq<byte>)
    requires InverseAtEndOnly(cells) && Displays(cells, bytes) && UsesInverseSpace(bytes)
    ensures bytes[|bytes| - 1] == 0xa0 && Blank(cells[|bytes| - 1])
    ensures forall i :: 0 <= i < |bytes| - 1 ==> bytes[i] != 0xa0
  {
    forall i | 0 <= i < |bytes| && bytes[i] == 0xa0
      ensures i == |bytes| - 1 && Blank(cells[i])
    {
      InverseShowsColouredBlank(cells, bytes, i);
    }
  }

  lemma RepresentsOrReplaces(cell: Cell, s: State, value: byte)
    requires Represents(cell, s, value)
    ensures value == 0xa0 ==> Represents(cell, s, 0x1d)
  {
  }

  /** Where only the last cell could use an inverse space, no picture and no glyph depends on it. */
  lemma InverseAtEndKeeps(cells: seq<Cell>)
    requires InverseAtEndOnly(cells)
    ensures Representable(cells) <==> Displayable(cells)
    ensures MatchesGlyphs(cells)
  {
    forall bytes | Displays(cells, bytes)
      ensures Representable(cells)
      ensures KeepsGlyphs(cells, bytes) ==> exists other :: Faithful(cells, other) && KeepsGlyphs(cells, other)
    {
      var other := ReplaceLast(cells, bytes);
    }
  }

  /** On such rows the best encoding keeps all glyphs if and only if the display can. */
  lemma BestKeepsWhatDisplayKeeps(cells: seq<Cell>, best: seq<byte>)
    requires |cells| == COLUMNS && BestEncoding(cells, best) && InverseAtEndOnly(cells)
    ensures KeepsGlyphs(cells, best) <==> exists other :: Displays(cells, other) && KeepsGlyphs(cells, other)
  {
    InverseAtEndKeeps(cells);
    BestKeepsGlyphs(cells, best);
  }

  // ---------------------------------------------------------------------------------------
  // The screen

  /** The first rows of the screen hold the best encodings of the first rows of the page. */
  ghost predicate RowsCompiled(cells: seq<seq<Cell>>, screen: seq<byte>, rows: nat) {
    && rows <= |cells| && rows * COLUMNS <= |screen|
    && forall r :: 0 <= r < rows ==> BestEncoding(cells[r], screen[r * COLUMNS..r * COLUMNS + COLUMNS])
  }

  lemma RowsExtend(cells: seq<seq<Cell>>, before: seq<byte>, screen: seq<byte>, rows: nat, p: Path)
    requires RowsCompiled(cells, before, rows) && rows < |cells| && rows * COLUMNS + COLUMNS <= |screen|
    requires screen[..rows * COLUMNS] == before[..rows * COLUMNS]
    requires PrintableRow(cells[rows]) && Cheapest(cells[rows], p)
    requires p.Output() == screen[rows * COLUMNS..rows * COLUMNS + COLUMNS]
    ensures RowsCompiled(cells, screen, rows + 1)
  {
    CheapestIsBest(cells[rows], p);
    forall r | 0 <= r < rows + 1
      ensures BestEncoding(cells[r], screen[r * COLUMNS..r * COLUMNS + COLUMNS])
    {
      if r < rows {
        SameSlice(screen, before, rows * COLUMNS, r * COLUMNS, r * COLUMNS + COLUMNS);
      }
    }
  }

  lemma SameSlice(a: seq<byte>, b: seq<byte>, n: nat, from: nat, to: nat)
    requires n <= |a| && n <= |b| && a[..n] == b[..n] && from <= to <= n
    ensures a[from..to] == b[from..to]
  {
    assert a[..n][from..to] == a[from..to] && b[..n][from..to] == b[from..to];
  }

  /** Compile the display rows of a page up to the first one that cannot be represented. */
  method CompileScreen(cells: seq<seq<Cell>>, screen: array<byte>) returns (failedRow: nat)
    requires |cells| * COLUMNS == screen.Length
    requires forall r :: 0 <= r < |cells| ==> |cells[r]| == COLUMNS && PrintableRow(cells[r])
    modifies screen
    ensures failedRow == 0 ==> RowsCompiled(cells, screen[..], |cells|)
    ensures failedRow > 0 ==> RowsCompiled(cells, screen[..], failedRow - 1)
    ensures failedRow > 0 ==> failedRow <= |cells| && !Representable(cells[failedRow - 1])
    ensures failedRow > 0 && InverseAtEndOnly(cells[failedRow - 1]) ==> !Displayable(cells[failedRow - 1])
  {
    for row := 0 to |cells|
      invariant RowsCompiled(cells, screen[..], row)
    {
      ghost var before := screen[..];
      var ok := CompileRow(cells[row], screen, row * COLUMNS);
      if !ok {
        NoPathNoEncoding(cells[row]);
        if InverseAtEndOnly(cells[row]) {
          InverseAtEndKeeps(cells[row]);
        }
        return row + 1;
      }
      ghost var p: Path :| Cheapest(cells[row], p) && p.Output() == screen[row * COLUMNS..row * COLUMNS + COLUMNS];
      RowsExtend(cells, before, screen[..], row, p);
    }
    return 0;
  }
}
