/**
 A condition on single rows under which inverse spaces make no difference to what can be shown: blocks of
 blank cells on a colour that have blank cells on black around them, two of them behind each block.
 */
module Borders {
  import opened Bytes
  import opened Saa5050
  import opened RowMeaning
  import InverseSpaces

  const INVERSE_SPACE: byte := 0xa0
  const NEW_BACKGROUND: byte := 0x1d
  const BLACK_BACKGROUND: byte := 0x1c
  const SPACE: byte := 0x20

  /** A blank cell on black. */
  predicate BlackBlank(cells: seq<Cell>, i: nat) {
    i < |cells| && Blank(cells[i]) && cells[i].background == BLACK
  }

  predicate SameBlock(cells: seq<Cell>, i: nat) {
    ColouredBlank(cells, i) && ColouredBlank(cells, i + 1) && cells[i].background == cells[i + 1].background
  }

  /** In front of the cell is a gap, its own block or the edge of the screen; behind it, its block or two gaps. */
  predicate Bordered(cells: seq<Cell>, i: nat) {
    && (i > 0 ==> BlackBlank(cells, i - 1) || SameBlock(cells, i - 1))
    && (i + 1 < |cells| ==> SameBlock(cells, i) || (BlackBlank(cells, i + 1) && (i + 2 < |cells| ==> BlackBlank(cells, i + 2))))
  }

  /** Wherever an inverse space could be used before the last column, the block around it is bordered. */
  predicate Contained(cells: seq<Cell>) {
    forall i :: 0 <= i < |cells| && ColouredBlank(cells, i) ==>
      OutOfReach(i, cells[i].background) || i == |cells| - 1 || Bordered(cells, i)
  }

  lemma AtEndIsContained(cells: seq<Cell>)
    requires InverseAtEndOnly(cells)
    ensures Contained(cells)
  {
  }

  // ---------------------------------------------------------------------------------------
  // Doing without inverse spaces

  /** What the background can be behind a blank cell. */
  predicate Behind(cells: seq<Cell>, k: nat, s: State) {
    if k == 0 then s == INITIAL
    else if BlackBlank(cells, k - 1) then s.background == BLACK
    else ColouredBlank(cells, k - 1) ==> s.background == BLACK || s.background == cells[k - 1].background || k == |cells|
  }

  /** In a block the background has been set that the other encoding shows by inverse spaces. */
  predicate Filled(cells: seq<Cell>, k: nat, s: State, t: State) {
    && k > 0 && ColouredBlank(cells, k - 1) && Bordered(cells, k - 1)
    && s.background == BLACK && s.foreground == cells[k - 1].background
    && t == s.(background := s.foreground)
  }

  /** The first gap behind a block went into setting the background back. */
  predicate Late(cells: seq<Cell>, k: nat, s: State, t: State) {
    && BlackBlank(cells, k) && s.background == t.background == BLACK
  }

  /** How an encoding with inverse spaces and its replacement can stand to each other after k cells. */
  predicate Related(cells: seq<Cell>, k: nat, s: State, t: State) {
    k == |cells| || (Behind(cells, k, s) && (s == t || Filled(cells, k, s, t) || Late(cells, k, s, t)))
  }

  /** A blank cell on the background that is there anyway. */
  lemma BackgroundKept(cells: seq<Cell>, k: nat, s: State, value: byte)
    requires Contained(cells) && k < |cells| && Behind(cells, k, s) && Represents(cells[k], s, value)
    ensures Behind(cells, k + 1, Next(s, value))
  {
  }

  /** The control code that names the colour and mode of a state. */
  function Naming(s: State): byte {
    if s.mode == Alpha then s.foreground else 0x10 + s.foreground
  }

  lemma NamingNames(s: State, t: State)
    requires s.background == t.background
    ensures IsControl(Naming(s)) && Next(t, Naming(s)) == s && Naming(s) != INVERSE_SPACE
    ensures Show(t, Naming(s)).background == t.background
  {
  }

  lemma StepTogether(cells: seq<Cell>, k: nat, s: State, value: byte) returns (other: byte)
    requires Contained(cells) && k < |cells| && Behind(cells, k, s) && Represents(cells[k], s, value)
    ensures Represents(cells[k], s, other) && other != INVERSE_SPACE && Related(cells, k + 1, Next(s, value), Next(s, other))
    ensures IsControl(other) && !Blank(cells[k]) ==> IsControl(value)
  {
    BackgroundKept(cells, k, s, value);
    other := if value == INVERSE_SPACE then NEW_BACKGROUND else value;
  }

  lemma StepFilled(cells: seq<Cell>, k: nat, s: State, t: State, value: byte) returns (other: byte)
    requires Contained(cells) && k < |cells| && Behind(cells, k, s) && Filled(cells, k, s, t) && Represents(cells[k], s, value)
    ensures Blank(cells[k]) && Represents(cells[k], t, other) && other != INVERSE_SPACE
    ensures Related(cells, k + 1, Next(s, value), Next(t, other))
  {
    BackgroundKept(cells, k, s, value);
    other := if BlackBlank(cells, k) then BLACK_BACKGROUND else SPACE;
  }

  lemma StepLate(cells: seq<Cell>, k: nat, s: State, t: State, value: byte) returns (other: byte)
    requires Contained(cells) && k < |cells| && Behind(cells, k, s) && Late(cells, k, s, t) && Represents(cells[k], s, value)
    ensures Blank(cells[k]) && Represents(cells[k], t, other) && other != INVERSE_SPACE
    ensures Related(cells, k + 1, Next(s, value), Next(t, other))
  {
    BackgroundKept(cells, k, s, value);
    NamingNames(Next(s, value), t);
    other := Naming(Next(s, value));
  }

  lemma OneStep(cells: seq<Cell>, k: nat, s: State, t: State, value: byte) returns (other: byte)
    requires Contained(cells) && k < |cells| && Related(cells, k, s, t) && Represents(cells[k], s, value)
    ensures Represents(cells[k], t, other) && other != INVERSE_SPACE && Related(cells, k + 1, Next(s, value), Next(t, other))
    ensures IsControl(other) && !Blank(cells[k]) ==> IsControl(value)
  {
    hide Represents, Next, Contained, Filled, Late, Behind;
    if s == t {
      other := StepTogether(cells, k, s, value);
    } else if Filled(cells, k, s, t) {
      other := StepFilled(cells, k, s, t, value);
    } else {
      other := StepLate(cells, k, s, t, value);
    }
  }

  /** An encoding without inverse spaces that gives up no more glyphs. */
  lemma {:induction false} Replace(cells: seq<Cell>, bytes: seq<byte>) returns (other: seq<byte>)
    requires Contained(cells) && Encodes(cells, bytes)
    ensures |other| == |bytes| && Encodes(cells, other) && !UsesInverseSpace(other)
    ensures Related(cells, |bytes|, StateAfter(bytes), StateAfter(other))
    ensures KeepsGlyphs(cells, bytes) ==> KeepsGlyphs(cells, other)
    decreases |bytes|
  {
    hide Contained, Related, Represents, Next;
    if bytes == [] {
      other := [];
      StartTogether(cells);
    } else {
      var n := |bytes| - 1;
      var init, value := bytes[..n], bytes[n];
      assert bytes == init + [value];
      EncodesInit(cells, init, value);
      var shorter := Replace(cells, init);
      var last := OneStep(cells, n, StateAfter(init), StateAfter(shorter), value);
      EncodesExtend(cells, shorter, last);
      other := shorter + [last];
      KeepsOneMore(cells, init, value, shorter, last);
    }
  }

  lemma StartTogether(cells: seq<Cell>)
    ensures Related(cells, 0, StateAfter([]), StateAfter([]))
  {
  }

  lemma EncodesInit(cells: seq<Cell>, init: seq<byte>, value: byte)
    requires Encodes(cells, init + [value])
    ensures Encodes(cells, init) && Represents(cells[|init|], StateAfter(init), value)
    ensures StateAfter(init + [value]) == Next(StateAfter(init), value)
  {
    hide Represents, Next;
    var bytes, n := init + [value], |init|;
    assert bytes[..n] == init;
    assert Represents(cells[n], StateAfter(bytes[..n]), bytes[n]);
    forall i | 0 <= i < n
      ensures Represents(cells[i], StateAfter(init[..i]), init[i])
    {
      SameBefore(init, value, i);
      assert Represents(cells[i], StateAfter(bytes[..i]), bytes[i]);
    }
  }

  lemma SameBefore(init: seq<byte>, value: byte, i: nat)
    requires i < |init|
    ensures (init + [value])[..i] == init[..i] && (init + [value])[i] == init[i]
  {
  }

  lemma KeepsOneMore(cells: seq<Cell>, init: seq<byte>, value: byte, shorter: seq<byte>, last: byte)
    requires |init| == |shorter| < |cells| && !UsesInverseSpace(shorter) && last != INVERSE_SPACE
    requires KeepsGlyphs(cells, init) ==> KeepsGlyphs(cells, shorter)
    requires IsControl(last) && !Blank(cells[|init|]) ==> IsControl(value)
    ensures KeepsGlyphs(cells, init + [value]) ==> KeepsGlyphs(cells, shorter + [last])
    ensures !UsesInverseSpace(shorter + [last])
  {
    var bytes := init + [value];
    assert forall i :: 0 <= i < |init| ==> bytes[i] == init[i];
    assert bytes[|init|] == value;
  }

  /** On such rows inverse spaces matter neither for showing the row at all nor for keeping its glyphs. */
  lemma ContainedKeeps(cells: seq<Cell>)
    requires Contained(cells)
    ensures Representable(cells) <==> Displayable(cells)
    ensures MatchesGlyphs(cells)
  {
    hide Contained;
    forall bytes | Displays(cells, bytes)
      ensures Representable(cells)
      ensures KeepsGlyphs(cells, bytes) ==> exists other :: Faithful(cells, other) && KeepsGlyphs(cells, other)
    {
      var other := Replace(cells, bytes);
      assert Faithful(cells, other);
    }
  }

  /** So the compiler's best encoding of such a row keeps all glyphs if and only if the display can. */
  lemma BestKeepsContained(cells: seq<Cell>, best: seq<byte>)
    requires |cells| == COLUMNS && BestEncoding(cells, best) && Contained(cells)
    ensures KeepsGlyphs(cells, best) <==> exists other :: Displays(cells, other) && KeepsGlyphs(cells, other)
  {
    hide Contained;
    ContainedKeeps(cells);
    BestKeepsGlyphs(cells, best);
  }

  /** One blank on black behind a block is too little: what it has to prepare for the next colour finds no room. */
  lemma OneGapIsTooFew(i: nat, colour: Colour, second: Colour)
    requires InverseSpaces.Usable(i, colour) && i + 2 < COLUMNS && second != BLACK && second != colour
    ensures var cells := InverseSpaces.Gap(i, colour, second);
            && (forall k :: 0 <= k < COLUMNS && ColouredBlank(cells, k) ==> k == i)
            && BlackBlank(cells, i + 1) && (i > 0 ==> BlackBlank(cells, i - 1))
            && Displayable(cells) && !Representable(cells)
  {
    hide Represents, Next, StateAfter;
    InverseSpaces.GapIsDisplayed(i, colour, second);
    InverseSpaces.GapIsRefused(i, colour, second);
  }
}
