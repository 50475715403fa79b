/** Page files of the example server: how their contents become a screen, and that a text file can hold any screen. */
module ScreenFile {
  import opened Bytes
  import opened Sequences
  import opened Json
  import opened Numbers

  const ROWS: nat := 24
  const COLUMNS: nat := 40
  const SPACE: byte := 0x20
  const HASH: byte := 0x23
  const UNDERSCORE: byte := 0x5f
  const QUESTION: byte := 0x3f
  const CR: nat := 0x0d
  const LF: nat := 0x0a

  /** The bytes of a .bin file, or the code points of a .txt file. */
  datatype File = Binary(contents: seq<byte>) | Text(text: seq<nat>)

  // ---------------------------------------------------------------------------------------
  // Lines

  predicate EndsLine(code: nat) {
    0x0a <= code <= 0x0d || 0x1c <= code <= 0x1e || code == 0x85 || code == 0x2028 || code == 0x2029
  }

  /** Where the first line ends; behind the end of a text without line ends. */
  function LineLength(text: seq<nat>): (n: nat)
    ensures n <= |text| && (n < |text| ==> EndsLine(text[n]))
    ensures forall i :: 0 <= i < n ==> !EndsLine(text[i])
  {
    if text == [] || EndsLine(text[0]) then 0 else LineLength(text[1..]) + 1
  }

  /** CR and LF together end one line, and what follows the last line end is a line only if it is not empty. */
  function Lines(text: seq<nat>): seq<seq<nat>>
    decreases |text|
  {
    if text == [] then []
    else
      var n := LineLength(text);
      var next := if n == |text| then n else if text[n] == CR && n + 1 < |text| && text[n + 1] == LF then n + 2 else n + 1;
      [text[..n]] + Lines(text[next..])
  }

  function Ascii(line: seq<nat>): (r: seq<byte>)
    ensures |r| == |line|
  {
    seq(|line|, i requires 0 <= i < |line| => if line[i] < 0x80 then line[i] else QUESTION)
  }

  // ---------------------------------------------------------------------------------------
  // Rows

  /** The hash is not what it seems on this display. */
  function WithoutHash(line: seq<byte>): (r: seq<byte>)
    ensures |r| == |line|
  {
    seq(|line|, i requires 0 <= i < |line| => if line[i] == HASH then UNDERSCORE else line[i])
  }

  predicate EscapeAt(line: seq<byte>) {
    |line| >= 4 && line[0] == BACKSLASH && line[1] == 0x78 && Digit(line[2], 16).Some? && Digit(line[3], 16).Some?
  }

  /** Two hexadecimal digits behind a backslash and an x stand for one byte. */
  function Unescape(line: seq<byte>): seq<byte>
    decreases |line|
  {
    if line == [] then []
    else if EscapeAt(line) then [Digit(line[2], 16).value * 16 + Digit(line[3], 16).value] + Unescape(line[4..])
    else [line[0]] + Unescape(line[1..])
  }

  function Spaces(n: nat): (r: seq<byte>)
    ensures |r| == n
  {
    seq(n, i requires 0 <= i < n => SPACE)
  }

  /** Forty bytes of a line: cut off or filled up with spaces. */
  function Fit(row: seq<byte>): (r: seq<byte>)
    ensures |r| == COLUMNS
  {
    if |row| >= COLUMNS then row[..COLUMNS] else row + Spaces(COLUMNS - |row|)
  }

  function RowOf(line: seq<nat>): (r: seq<byte>)
    ensures |r| == COLUMNS
  {
    Fit(Unescape(WithoutHash(Ascii(line))))
  }

  /** Line by line, and spaces below. */
  ghost predicate IsScreenOf(lines: seq<seq<nat>>, screen: seq<byte>) {
    && |screen| == ROWS * COLUMNS
    && forall r :: 0 <= r < ROWS ==>
         screen[r * COLUMNS..r * COLUMNS + COLUMNS] == if r < |lines| then RowOf(lines[r]) else Spaces(COLUMNS)
  }

  method UnescapeLine(line: seq<byte>) returns (row: seq<byte>)
    ensures row == Unescape(line)
  {
    row := [];
    var position := 0;
    All(line);
    while position < |line|
      invariant position <= |line| && Unescape(line) == row + Unescape(line[position..])
    {
      ghost var rest := line[position..];
      if position + 4 <= |line| && EscapeAt(line[position..position + 4]) {
        var value := Digit(line[position + 2], 16).value * 16 + Digit(line[position + 3], 16).value;
        EscapedStep(line, position);
        Associative(row, [value], Unescape(line[position + 4..]));
        row, position := row + [value], position + 4;
      } else {
        PlainStep(line, position);
        Associative(row, [line[position]], Unescape(line[position + 1..]));
        row, position := row + [line[position]], position + 1;
      }
    }
    All(row);
  }

  lemma EscapedStep(line: seq<byte>, position: nat)
    requires position + 4 <= |line| && EscapeAt(line[position..position + 4])
    ensures Unescape(line[position..]) ==
            [Digit(line[position + 2], 16).value * 16 + Digit(line[position + 3], 16).value] + Unescape(line[position + 4..])
  {
    assert line[position..][4..] == line[position + 4..];
  }

  lemma PlainStep(line: seq<byte>, position: nat)
    requires position < |line| && (position + 4 <= |line| ==> !EscapeAt(line[position..position + 4]))
    ensures Unescape(line[position..]) == [line[position]] + Unescape(line[position + 1..])
  {
    assert line[position..][1..] == line[position + 1..];
  }

  /** A binary file holds exactly a screen; a text file holds at most as many lines as a screen has rows. */
  method LoadScreen(file: File) returns (screen: Option<seq<byte>>)
    ensures file.Binary? ==> screen == if |file.contents| == ROWS * COLUMNS then Some(file.contents) else None
    ensures file.Text? ==> (screen.Some? <==> |Lines(file.text)| <= ROWS)
    ensures file.Text? && screen.Some? ==> IsScreenOf(Lines(file.text), screen.value)
  {
    match file
    case Binary(contents) =>
      return if |contents| == ROWS * COLUMNS then Some(contents) else None;
    case Text(text) =>
      screen := LoadLines(Lines(text));
  }

  method LoadLines(lines: seq<seq<nat>>) returns (screen: Option<seq<byte>>)
    ensures screen.Some? <==> |lines| <= ROWS
    ensures screen.Some? ==> IsScreenOf(lines, screen.value)
  {
    if |lines| > ROWS {
      return None;
    }
    hide RowsOf, IsScreenOf, Fit, Unescape;
    var image: seq<byte> := [];
    NoRows(lines);
    for r := 0 to |lines|
      invariant RowsOf(lines, image, r)
    {
      var row := UnescapeLine(WithoutHash(Ascii(lines[r])));
      OneMoreRow(lines, image, r);
      image := image + Fit(row);
    }
    RowsFill(lines, image);
    return Some(image + Spaces(ROWS * COLUMNS - |image|));
  }

  /** The first n lines as rows. */
  ghost predicate RowsOf(lines: seq<seq<nat>>, image: seq<byte>, n: nat) {
    && n <= |lines| && |image| == n * COLUMNS
    && forall r :: 0 <= r < n ==> image[r * COLUMNS..r * COLUMNS + COLUMNS] == RowOf(lines[r])
  }

  lemma NoRows(lines: seq<seq<nat>>)
    ensures RowsOf(lines, [], 0)
  {
  }

  lemma OneMoreRow(lines: seq<seq<nat>>, image: seq<byte>, n: nat)
    requires RowsOf(lines, image, n) && n < |lines|
    ensures RowsOf(lines, image + RowOf(lines[n]), n + 1)
  {
    hide RowOf;
    forall r | 0 <= r < n + 1
      ensures (image + RowOf(lines[n]))[r * COLUMNS..r * COLUMNS + COLUMNS] == RowOf(lines[r])
    {
      RowKept(image, RowOf(lines[n]), r);
    }
  }

  lemma RowsFill(lines: seq<seq<nat>>, image: seq<byte>)
    requires RowsOf(lines, image, |lines|) && |lines| <= ROWS
    ensures |image| <= ROWS * COLUMNS && IsScreenOf(lines, image + Spaces(ROWS * COLUMNS - |image|))
  {
    hide RowOf, Spaces;
    var rest := Spaces(ROWS * COLUMNS - |image|);
    forall r | 0 <= r < ROWS
      ensures (image + rest)[r * COLUMNS..r * COLUMNS + COLUMNS] == if r < |lines| then RowOf(lines[r]) else Spaces(COLUMNS)
    {
      if r < |lines| {
        RowKept(image, rest, r);
      } else {
        BlankRow(image, r);
      }
    }
  }

  lemma BlankRow(image: seq<byte>, r: nat)
    requires |image| <= r * COLUMNS && r < ROWS
    ensures (image + Spaces(ROWS * COLUMNS - |image|))[r * COLUMNS..r * COLUMNS + COLUMNS] == Spaces(COLUMNS)
  {
  }

  lemma RowKept(image: seq<byte>, more: seq<byte>, k: nat)
    ensures k * COLUMNS + COLUMNS <= |image| ==>
              (image + more)[k * COLUMNS..k * COLUMNS + COLUMNS] == image[k * COLUMNS..k * COLUMNS + COLUMNS]
    ensures k * COLUMNS == |image| && |more| == COLUMNS ==> (image + more)[k * COLUMNS..k * COLUMNS + COLUMNS] == more
  {
  }

  // ---------------------------------------------------------------------------------------
  // Any screen can be written as text

  function HexDigit(n: nat): (digit: byte)
    requires n < 16
    ensures Digit(digit, 16) == Some(n) && digit != HASH
  {
    if n < 10 then 0x30 + n else 0x61 + n - 10
  }

  function EscapeByte(value: byte): seq<byte> {
    [BACKSLASH, 0x78, HexDigit(value / 16), HexDigit(value % 16)]
  }

  function EscapeRow(row: seq<byte>): seq<byte> {
    if row == [] then [] else EscapeByte(row[0]) + EscapeRow(row[1..])
  }

  lemma EscapedByteReads(value: byte, rest: seq<byte>)
    ensures Unescape(EscapeByte(value) + rest) == [value] + Unescape(rest)
  {
    hide HexDigit, Digit;
    var line := EscapeByte(value) + rest;
    assert line[0] == BACKSLASH && line[1] == 0x78 && line[2] == HexDigit(value / 16) && line[3] == HexDigit(value % 16);
    assert line[4..] == rest;
  }

  lemma {:induction false} EscapeRowReads(row: seq<byte>)
    ensures Unescape(EscapeRow(row)) == row
    decreases |row|
  {
    hide Unescape, EscapeByte;
    if row == [] {
      NothingToUnescape();
    } else {
      EscapeRowReads(row[1..]);
      EscapedByteReads(row[0], EscapeRow(row[1..]));
      assert [row[0]] + row[1..] == row;
    }
  }

  lemma NothingToUnescape()
    ensures Unescape([]) == []
  {
  }

  /** Written bytes are read as they stand: no line ends among them, nothing beyond ASCII, no hash. */
  predicate PlainCharacter(character: byte) {
    character < 0x80 && character != HASH && !EndsLine(character)
  }

  lemma {:induction false} EscapeRowIsPlain(row: seq<byte>)
    ensures forall i :: 0 <= i < |EscapeRow(row)| ==> PlainCharacter(EscapeRow(row)[i])
    decreases |row|
  {
    hide HexDigit, PlainCharacter;
    if row != [] {
      EscapeRowIsPlain(row[1..]);
      HexIsPlain(row[0] / 16);
      HexIsPlain(row[0] % 16);
    }
  }

  lemma HexIsPlain(n: nat)
    requires n < 16
    ensures PlainCharacter(HexDigit(n)) && PlainCharacter(BACKSLASH) && PlainCharacter(0x78)
  {
  }

  function LinesOf(screen: seq<byte>): seq<seq<nat>>
    requires |screen| == ROWS * COLUMNS
  {
    seq(ROWS, r requires 0 <= r < ROWS => Codes(EscapeRow(screen[r * COLUMNS..r * COLUMNS + COLUMNS])))
  }

  /** One line after the other, each with a line feed behind it. */
  function Join(lines: seq<seq<nat>>): seq<nat> {
    if lines == [] then [] else lines[0] + ([LF] + Join(lines[1..]))
  }

  lemma {:induction false} JoinedLines(lines: seq<seq<nat>>)
    requires forall r, i :: 0 <= r < |lines| && 0 <= i < |lines[r]| ==> !EndsLine(lines[r][i])
    ensures Lines(Join(lines)) == lines
  {
    if lines != [] {
      JoinedLines(lines[1..]);
      FirstLine(lines[0], Join(lines[1..]));
    }
  }

  lemma FirstLine(line: seq<nat>, rest: seq<nat>)
    requires forall i :: 0 <= i < |line| ==> !EndsLine(line[i])
    ensures Lines(line + ([LF] + rest)) == [line] + Lines(rest)
  {
    var text := line + ([LF] + rest);
    assert text[|line|] == LF;
    assert LineLength(text) == |line|;
    assert text[..|line|] == line && text[|line| + 1..] == rest;
  }

  /** Every screen can be kept in a text file, and it is the only one that the file stands for. */
  lemma TextHoldsAnyScreen(screen: seq<byte>, loaded: seq<byte>)
    requires |screen| == ROWS * COLUMNS
    ensures |Lines(Join(LinesOf(screen)))| == ROWS
    ensures IsScreenOf(Lines(Join(LinesOf(screen))), loaded) <==> loaded == screen
  {
    hide Unescape, EscapeRow, RowOf, Lines, Join;
    var lines := LinesOf(screen);
    forall r | 0 <= r < ROWS
      ensures RowOf(lines[r]) == screen[r * COLUMNS..r * COLUMNS + COLUMNS]
      ensures forall i :: 0 <= i < |lines[r]| ==> !EndsLine(lines[r][i])
    {
      RowIsRead(screen[r * COLUMNS..r * COLUMNS + COLUMNS]);
    }
    JoinedLines(lines);
    if IsScreenOf(lines, loaded) {
      forall r | 0 <= r < ROWS
        ensures screen[r * COLUMNS..r * COLUMNS + COLUMNS] == loaded[r * COLUMNS..r * COLUMNS + COLUMNS]
      {
        assert RowOf(lines[r]) == screen[r * COLUMNS..r * COLUMNS + COLUMNS];
      }
      SameRows(screen, loaded);
    }
  }

  lemma RowIsRead(row: seq<byte>)
    requires |row| == COLUMNS
    ensures RowOf(Codes(EscapeRow(row))) == row
    ensures forall i :: 0 <= i < |Codes(EscapeRow(row))| ==> !EndsLine(Codes(EscapeRow(row))[i])
  {
    hide Unescape, EscapeRow;
    EscapeRowReads(row);
    EscapeRowIsPlain(row);
    var line := EscapeRow(row);
    assert Ascii(Codes(line)) == line;
    assert WithoutHash(line) == line;
    All(row);
  }

  lemma SameRows(a: seq<byte>, b: seq<byte>)
    requires |a| == |b| == ROWS * COLUMNS
    requires forall r :: 0 <= r < ROWS ==> a[r * COLUMNS..r * COLUMNS + COLUMNS] == b[r * COLUMNS..r * COLUMNS + COLUMNS]
    ensures a == b
  {
    forall i | 0 <= i < |a|
      ensures a[i] == b[i]
    {
      var r, c := i / COLUMNS, i % COLUMNS;
      assert a[r * COLUMNS..r * COLUMNS + COLUMNS][c] == b[r * COLUMNS..r * COLUMNS + COLUMNS][c];
    }
  }
}
