/**
 The display language of the SAA5050: what one row of bytes looks like on the screen.
 This is the meaning against which the row compiler is judged.
 */
module Saa5050 {
  import opened Bytes

  const COLUMNS: nat := 40

  const BLACK: Colour := 0
  const WHITE: Colour := 7

  type Colour = c: int | 0 <= c < 8

  /** A colour that a control code can select as foreground; there is no code for black. */
  type Ink = c: int | 1 <= c < 8 witness 7

  datatype Mode = Alpha | Graphics

  datatype Cell = Cell(glyph: byte, foreground: Colour, background: Colour, mode: Mode)

  datatype State = State(foreground: Ink, background: Colour, mode: Mode)

  const INITIAL := State(WHITE, BLACK, Alpha)

  predicate Blank(cell: Cell) {
    cell.glyph == 0x20
  }

  /** Spacing attributes; bit 7 does not matter for them. */
  predicate IsControl(value: byte) {
    value % 0x80 < 0x20
  }

  /** The state after one byte has been shown. */
  function Next(s: State, value: byte): State {
    var control := value % 0x80;
    if 1 <= control <= 7 then s.(foreground := control, mode := Alpha)
    else if 0x11 <= control <= 0x17 then s.(foreground := control - 0x10, mode := Graphics)
    else if control == 0x1c then s.(background := BLACK)
    else if control == 0x1d then s.(background := s.foreground)
    else s
  }

  /** The cell one byte puts on the screen. Background controls act at once, the others afterwards. */
  function Show(s: State, value: byte): Cell {
    if IsControl(value) then Cell(0x20, s.foreground, Next(s, value).background, s.mode)
    else if value < 0x80 then Cell(value, s.foreground, s.background, s.mode)
    else Cell(value - 0x80, s.background, s.foreground, s.mode)
  }

  function StateAfter(bytes: seq<byte>): State {
    if bytes == [] then INITIAL
    else Next(StateAfter(bytes[..|bytes| - 1]), bytes[|bytes| - 1])
  }

  /** The renderer: a loop that carries the display state from column to column. */
  method RenderRow(input: array<byte>, rendered: array<Cell>)
    requires input.Length == rendered.Length == COLUMNS
    modifies rendered
    ensures forall i :: 0 <= i < COLUMNS ==> rendered[i] == Show(StateAfter(input[..i]), input[i])
  {
    var state := INITIAL;
    assert input[..0] == [];
    for column := 0 to COLUMNS
      invariant state == StateAfter(input[..column])
      invariant forall i :: 0 <= i < column ==> rendered[i] == Show(StateAfter(input[..i]), input[i])
    {
      rendered[column] := Show(state, input[column]);
      assert input[..column + 1][..column] == input[..column];
      state := Next(state, input[column]);
    }
  }

  /** The wanted cell is on the screen; colour and mode of a blank cell do not show. */
  predicate Depicts(cell: Cell, shown: Cell) {
    && shown.glyph == cell.glyph
    && shown.background == cell.background
    && (!Blank(cell) ==> shown == cell)
  }

  /** A control code may stand in for a cell as long as the background is right; any other byte must show it. */
  predicate Represents(cell: Cell, s: State, value: byte) {
    if IsControl(value) then Show(s, value).background == cell.background
    else Depicts(cell, Show(s, value))
  }

  /** What it costs the viewer that a control code took the place of a cell. */
  function ControlLoss(cell: Cell): nat {
    if Blank(cell) then 1 else if cell.mode == Graphics then 100 else 200
  }

  function CellLoss(cell: Cell, value: byte): nat {
    if IsControl(value) then ControlLoss(cell) else 0
  }

  ghost predicate Encodes(cells: seq<Cell>, bytes: seq<byte>) {
    && |bytes| <= |cells|
    && forall i :: 0 <= i < |bytes| ==> Represents(cells[i], StateAfter(bytes[..i]), bytes[i])
  }

  /** Total loss of an encoding, summed over its columns. */
  function Loss(cells: seq<Cell>, bytes: seq<byte>): nat
    requires |bytes| <= |cells|
  {
    if bytes == [] then 0
    else Loss(cells, bytes[..|bytes| - 1]) + CellLoss(cells[|bytes| - 1], bytes[|bytes| - 1])
  }

  /** No glyph of the row gave way to a control code. */
  ghost predicate KeepsGlyphs(cells: seq<Cell>, bytes: seq<byte>) {
    && |bytes| <= |cells|
    && forall i :: 0 <= i < |bytes| && !Blank(cells[i]) ==> !IsControl(bytes[i])
  }

  /** The inverse-video space, which shows the foreground colour as background. */
  ghost predicate UsesInverseSpace(bytes: seq<byte>) {
    exists i :: 0 <= i < |bytes| && bytes[i] == 0xa0
  }

  /** The loss of an encoding tells whether a glyph was lost: at most one per blank, at least 100 per glyph. */
  lemma {:induction false} LossCountsGlyphs(cells: seq<Cell>, bytes: seq<byte>)
    requires |bytes| <= |cells|
    ensures KeepsGlyphs(cells, bytes) ==> Loss(cells, bytes) <= |bytes|
    ensures !KeepsGlyphs(cells, bytes) ==> Loss(cells, bytes) >= 100
    ensures Loss(cells, bytes) <= 200 * |bytes|
  {
    if bytes != [] {
      var init := bytes[..|bytes| - 1];
      LossCountsGlyphs(cells, init);
      assert KeepsGlyphs(cells, bytes) <==>
             KeepsGlyphs(cells, init) && (Blank(cells[|init|]) || !IsControl(bytes[|init|]));
    }
  }
}
