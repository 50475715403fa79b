/**
 Bytes and characters spelled with escapes, however they are spelled: in the strings of a JSON response, and
 in the page files of the example server.
 */
module Escapes {
  import opened Bytes
  import opened Json
  import opened Numbers
  import opened Sequences
  import opened ScreenFile

  /** A hexadecimal digit as a capital or a small letter. */
  function Hex(n: nat, capital: bool): byte
    requires n < 16
  {
    if n < 10 then 0x30 + n else if capital then 0x41 + n - 10 else 0x61 + n - 10
  }

  lemma HexReads(n: nat, capital: bool)
    requires n < 16
    ensures Digit(Hex(n, capital), 16) == Some(n)
  {
  }

  // ---------------------------------------------------------------------------------------
  // Strings of a response

  /** One character as an encoder may write it: as it is, by a short escape, or by its code. */
  datatype Written = Direct(value: byte) | Short(letter: byte) | Coded(code: uint16, a: bool, b: bool, c: bool, d: bool)

  /** Backspace, form feed, line feed, carriage return, tab, and three characters that stand for themselves. */
  function ShortCode(letter: byte): Option<nat> {
    match letter
    case 0x62 => Some(0x08)
    case 0x66 => Some(0x0c)
    case 0x6e => Some(0x0a)
    case 0x72 => Some(0x0d)
    case 0x74 => Some(0x09)
    case 0x22 => Some(0x22)
    case 0x2f => Some(0x2f)
    case 0x5c => Some(0x5c)
    case _ => None
  }

  predicate WellWritten(w: Written) {
    match w
    case Direct(value) => value != 0x22 && value != 0x5c
    case Short(letter) => ShortCode(letter).Some?
    case Coded(_, _, _, _, _) => true
  }

  function Spelled(w: Written): seq<byte> {
    match w
    case Direct(value) => [value]
    case Short(letter) => [0x5c, letter]
    case Coded(code, a, b, c, d) =>
      [0x5c, 0x75, Hex(code / 0x1000, a), Hex(code / 0x100 % 0x10, b), Hex(code / 0x10 % 0x10, c), Hex(code % 0x10, d)]
  }

  function Denoted(w: Written): nat
    requires WellWritten(w)
  {
    match w
    case Direct(value) => value
    case Short(letter) => ShortCode(letter).value
    case Coded(code, _, _, _, _) => code
  }

  predicate AllWellWritten(ws: seq<Written>) {
    forall i :: 0 <= i < |ws| ==> WellWritten(ws[i])
  }

  function SpelledAll(ws: seq<Written>): seq<byte> {
    if ws == [] then [] else Spelled(ws[0]) + SpelledAll(ws[1..])
  }

  function DenotedAll(ws: seq<Written>): seq<nat>
    requires AllWellWritten(ws)
  {
    seq(|ws|, i requires 0 <= i < |ws| => Denoted(ws[i]))
  }

  /** A well-written character is read as what it denotes. */
  lemma WrittenReads(text: seq<byte>, position: nat, w: Written)
    requires WellWritten(w) && position + |Spelled(w)| <= |text|
    requires text[position..position + |Spelled(w)|] == Spelled(w)
    ensures Next(text, position) == (Code(Denoted(w)), position + |Spelled(w)|)
  {
    hide HexDigits, Hex;
    var spelled := text[position..position + |Spelled(w)|];
    assert text[position] == spelled[0];
    if w.Coded? {
      CodedReads(text, position, w.code, w.a, w.b, w.c, w.d);
    } else if w.Short? {
      assert text[position + 1] == spelled[1];
    }
  }

  lemma CodedReads(text: seq<byte>, position: nat, code: uint16, a: bool, b: bool, c: bool, d: bool)
    requires position + 6 <= |text| && text[position..position + 6] == Spelled(Coded(code, a, b, c, d))
    ensures text[position] == BACKSLASH && text[position + 1] == 0x75 && HexDigits(text, position + 2, 4, 0) == Some(code)
  {
    hide HexDigits, Hex;
    var spelled := text[position..position + 6];
    assert text[position] == spelled[0] && text[position + 1] == spelled[1];
    assert text[position + 2] == spelled[2] && text[position + 3] == spelled[3];
    assert text[position + 4] == spelled[4] && text[position + 5] == spelled[5];
    FourDigits(text, position + 2, code / 0x1000, code / 0x100 % 0x10, code / 0x10 % 0x10, code % 0x10, a, b, c, d);
    Nibbles(code);
  }

  lemma FourDigits(text: seq<byte>, position: nat, w: nat, x: nat, y: nat, z: nat, a: bool, b: bool, c: bool, d: bool)
    requires w < 16 && x < 16 && y < 16 && z < 16 && position + 4 <= |text|
    requires text[position] == Hex(w, a) && text[position + 1] == Hex(x, b)
    requires text[position + 2] == Hex(y, c) && text[position + 3] == Hex(z, d)
    ensures HexDigits(text, position, 4, 0) == Some(((w * 16 + x) * 16 + y) * 16 + z)
  {
    hide HexDigits, Hex;
    HexStep(text, position, 4, 0, w, a);
    HexStep(text, position + 1, 3, w, x, b);
    HexStep(text, position + 2, 2, w * 16 + x, y, c);
    HexStep(text, position + 3, 1, (w * 16 + x) * 16 + y, z, d);
    NoMoreDigits(text, position + 4, ((w * 16 + x) * 16 + y) * 16 + z);
  }

  lemma HexStep(text: seq<byte>, position: nat, digits: nat, code: nat, n: nat, capital: bool)
    requires n < 16 && digits > 0 && position < |text| && text[position] == Hex(n, capital)
    ensures HexDigits(text, position, digits, code) == HexDigits(text, position + 1, digits - 1, code * 16 + n)
  {
    HexReads(n, capital);
  }

  lemma NoMoreDigits(text: seq<byte>, position: nat, code: nat)
    ensures HexDigits(text, position, 0, code) == Some(code)
  {
  }

  lemma Nibbles(code: uint16)
    ensures ((code as nat / 0x1000 * 16 + code / 0x100 % 0x10) * 16 + code / 0x10 % 0x10) * 16 + code % 0x10 == code
  {
    assert code / 0x10 / 0x10 == code / 0x100;
    assert code / 0x100 / 0x10 == code / 0x1000;
  }

  /** However a string is written, it is read as what its characters denote. */
  lemma {:induction false} StringReads(text: seq<byte>, position: nat, ws: seq<Written>, rest: seq<byte>)
    requires AllWellWritten(ws) && position <= |text| && text[position..] == SpelledAll(ws) + ([QUOTE] + rest)
    ensures StringAt(text, position) == Some(DenotedAll(ws))
    decreases |ws|
  {
    hide Next, Spelled, Denoted;
    if ws == [] {
      assert SpelledAll(ws) == [];
      assert text[position..] == [QUOTE] + rest;
      assert text[position..][0] == QUOTE;
      Closes(text, position);
    } else {
      var first, others := Spelled(ws[0]), SpelledAll(ws[1..]) + ([QUOTE] + rest);
      Associative(first, SpelledAll(ws[1..]), [QUOTE] + rest);
      FrontOf(text, position, first, others);
      WrittenReads(text, position, ws[0]);
      StringReads(text, position + |first|, ws[1..], rest);
      assert DenotedAll(ws) == [Denoted(ws[0])] + DenotedAll(ws[1..]);
    }
  }

  lemma Closes(text: seq<byte>, position: nat)
    requires position < |text| && text[position] == QUOTE
    ensures StringAt(text, position) == Some([])
  {
  }

  lemma FrontOf(text: seq<byte>, position: nat, a: seq<byte>, b: seq<byte>)
    requires position <= |text| && text[position..] == a + b
    ensures position + |a| <= |text| && text[position..position + |a|] == a && text[position + |a|..] == b
  {
    assert text[position..][..|a|] == text[position..position + |a|];
    assert text[position..][|a|..] == text[position + |a|..];
  }

  /** Any other letter behind the backslash makes the string unreadable. */
  lemma OtherEscapesAreBad(text: seq<byte>, position: nat)
    requires position + 1 < |text| && text[position] == 0x5c && text[position + 1] != 0x75
    requires ShortCode(text[position + 1]).None?
    ensures StringAt(text, position) == None
  {
  }

  /** The white space of JSON. */
  predicate Blank(text: seq<byte>) {
    forall i :: 0 <= i < |text| ==> text[i] in {0x20, 0x09, 0x0a, 0x0d}
  }

  lemma {:induction false} BlanksAreSkipped(text: seq<byte>, cursor: nat, blank: seq<byte>, rest: seq<byte>)
    requires cursor <= |text| && Blank(blank) && text[cursor..] == blank + rest && rest != [] && !Blank([rest[0]])
    ensures SkipSpaces(text, cursor) == cursor + |blank|
    decreases |blank|
  {
    if blank == [] {
      assert text[cursor..][0] == rest[0] == text[cursor];
      assert [rest[0]][0] == rest[0];
    } else {
      assert text[cursor] == text[cursor..][0] == blank[0];
      assert text[cursor + 1..] == text[cursor..][1..] == blank[1..] + rest;
      BlanksAreSkipped(text, cursor + 1, blank[1..], rest);
    }
  }

  /** White space around the colon does not matter. */
  lemma ValueIsFound(text: seq<byte>, cursor: nat, before: seq<byte>, after: seq<byte>, rest: seq<byte>)
    requires cursor <= |text| && Blank(before) && Blank(after)
    requires text[cursor..] == before + ([0x3a] + (after + ([0x22] + rest)))
    ensures ValueAt(text, cursor) == Some(cursor + |before| + 1 + |after| + 1)
  {
    hide SkipSpaces;
    var behind := after + ([0x22] + rest);
    BlanksAreSkipped(text, cursor, before, [0x3a] + behind);
    FrontOf(text, cursor, before, [0x3a] + behind);
    FrontOf(text, cursor + |before|, [0x3a], behind);
    assert text[cursor + |before|..][0] == 0x3a;
    BlanksAreSkipped(text, cursor + |before| + 1, after, [0x22] + rest);
    FrontOf(text, cursor + |before| + 1, after, [0x22] + rest);
    assert text[cursor + |before| + 1 + |after|..][0] == 0x22;
  }

  // ---------------------------------------------------------------------------------------
  // Lines of a page file

  /** A character as it stands, or a byte by its two hexadecimal digits. */
  datatype Piece = Plain(code: nat) | ByOctet(value: byte, a: bool, b: bool)

  /** No backslash stands for itself here, and nothing that ends the line. */
  predicate AllGood(pieces: seq<Piece>) {
    forall i :: 0 <= i < |pieces| && pieces[i].Plain? ==> pieces[i].code != 0x5c
  }

  function PieceText(p: Piece): seq<nat> {
    match p
    case Plain(code) => [code]
    case ByOctet(value, a, b) => [0x5c, 0x78, Hex(value / 16, a), Hex(value % 16, b)]
  }

  function LineText(pieces: seq<Piece>): seq<nat> {
    if pieces == [] then [] else PieceText(pieces[0]) + LineText(pieces[1..])
  }

  /** The hash has another place on the display, and what is not ASCII cannot be shown. */
  function PieceByte(p: Piece): byte {
    match p
    case Plain(code) => if code == 0x23 then 0x5f else if code < 0x80 then code else 0x3f
    case ByOctet(value, _, _) => value
  }

  function Cleaned(text: seq<nat>): seq<byte> {
    WithoutHash(Ascii(text))
  }

  lemma CleanedConcat(a: seq<nat>, b: seq<nat>)
    ensures Cleaned(a + b) == Cleaned(a) + Cleaned(b)
  {
  }

  lemma CleanedPiece(p: Piece, rest: seq<byte>)
    requires p.Plain? ==> p.code != 0x5c
    ensures Unescape(Cleaned(PieceText(p)) + rest) == [PieceByte(p)] + Unescape(rest)
  {
    var line := Cleaned(PieceText(p)) + rest;
    if p.Plain? {
      assert line[0] == PieceByte(p) && line[1..] == rest;
    } else {
      HexReads(p.value / 16, p.a);
      HexReads(p.value % 16, p.b);
      assert Cleaned(PieceText(p)) == [0x5c, 0x78, Hex(p.value / 16, p.a), Hex(p.value % 16, p.b)];
      assert line[4..] == rest;
    }
  }

  lemma {:induction false} LineReads(pieces: seq<Piece>)
    requires AllGood(pieces)
    ensures Unescape(Cleaned(LineText(pieces))) == seq(|pieces|, i requires 0 <= i < |pieces| => PieceByte(pieces[i]))
    decreases |pieces|
  {
    hide Unescape, PieceText, PieceByte, Cleaned;
    if pieces == [] {
      NothingLeft();
    } else {
      LineReads(pieces[1..]);
      CleanedConcat(PieceText(pieces[0]), LineText(pieces[1..]));
      CleanedPiece(pieces[0], Cleaned(LineText(pieces[1..])));
    }
  }

  lemma NothingLeft()
    ensures Unescape(Cleaned(LineText([]))) == []
  {
  }

  /** A row shows the pieces of its line from the left, as many as fit, and spaces behind them. */
  lemma RowShows(pieces: seq<Piece>, column: nat)
    requires AllGood(pieces) && column < 40
    ensures RowOf(LineText(pieces))[column] == if column < |pieces| then PieceByte(pieces[column]) else 0x20
  {
    hide Unescape, LineText, PieceByte;
    LineReads(pieces);
  }

  /** What ends a line in Python: line feed to carriage return, the separators of ASCII, and those of Unicode. */
  predicate IsEnd(code: nat) {
    code in {0x0a, 0x0b, 0x0c, 0x0d, 0x1c, 0x1d, 0x1e, 0x85, 0x2028, 0x2029}
  }

  predicate Ending(end: seq<nat>) {
    end == [0x0d, 0x0a] || (|end| == 1 && IsEnd(end[0]))
  }

  predicate WithoutEnd(line: seq<nat>) {
    forall i :: 0 <= i < |line| ==> !IsEnd(line[i])
  }

  lemma EndsAre(code: nat)
    ensures EndsLine(code) <==> IsEnd(code)
  {
  }

  lemma NoneEnds(line: seq<nat>)
    requires WithoutEnd(line)
    ensures forall i :: 0 <= i < |line| ==> !EndsLine(line[i])
  {
    hide EndsLine, IsEnd;
    forall i | 0 <= i < |line|
      ensures !EndsLine(line[i])
    {
      EndsAre(line[i]);
    }
  }

  lemma LengthIs(text: seq<nat>, n: nat)
    requires n <= |text| && (n < |text| ==> EndsLine(text[n])) && forall i :: 0 <= i < n ==> !EndsLine(text[i])
    ensures LineLength(text) == n
  {
    hide EndsLine;
  }

  /** However a line ends, it is taken off the text as it is; CR with LF is one end. */
  lemma LineEnds(line: seq<nat>, end: seq<nat>, rest: seq<nat>)
    requires WithoutEnd(line) && Ending(end)
    requires end == [0x0d] && rest != [] ==> rest[0] != 0x0a
    ensures Lines(line + (end + rest)) == [line] + Lines(rest)
  {
    hide EndsLine, IsEnd, LineLength, Lines;
    CarriageReturnEnds();
    FirstEnd(line, end, rest);
    CutLine(line, end, rest);
    FirstTaken(line + (end + rest), |line|, |line| + |end|);
  }

  lemma FirstTaken(text: seq<nat>, n: nat, next: nat)
    requires n < |text| && LineLength(text) == n
    requires next == if text[n] == 0x0d && n + 1 < |text| && text[n + 1] == 0x0a then n + 2 else n + 1
    ensures next <= |text| && Lines(text) == [text[..n]] + Lines(text[next..])
  {
    hide EndsLine, LineLength;
  }

  lemma FirstEnd(line: seq<nat>, end: seq<nat>, rest: seq<nat>)
    requires WithoutEnd(line) && end != [] && IsEnd(end[0])
    ensures LineLength(line + (end + rest)) == |line|
  {
    hide EndsLine, IsEnd, LineLength;
    NoneEnds(line);
    EndsAre(end[0]);
    LengthIs(line + (end + rest), |line|);
  }

  lemma CutLine(line: seq<nat>, end: seq<nat>, rest: seq<nat>)
    requires end != []
    ensures var text := line + (end + rest);
            && text[..|line|] == line && text[|line|] == end[0] && text[|line| + |end|..] == rest
            && (|end| > 1 ==> text[|line| + 1] == end[1])
            && (|end| == 1 ==> if rest == [] then |text| == |line| + 1 else text[|line| + 1] == rest[0])
  {
  }

  lemma CarriageReturnEnds()
    ensures IsEnd(0x0d)
  {
  }

  /** A last line without an end counts unless it is empty. */
  lemma LastLine(line: seq<nat>)
    requires WithoutEnd(line)
    ensures Lines(line) == if line == [] then [] else [line]
  {
    hide EndsLine, IsEnd, LineLength;
    NoneEnds(line);
    LengthIs(line, |line|);
    assert line[..|line|] == line && line[|line|..] == [];
  }

  /** A line of a page file and what ends it. */
  datatype Ended = Ended(pieces: seq<Piece>, end: seq<nat>)

  predicate WellEnded(e: Ended) {
    AllGood(e.pieces) && WithoutEnd(LineText(e.pieces)) && Ending(e.end)
  }

  /** CR and LF never come together by chance. */
  predicate AllEnded(lines: seq<Ended>) {
    && (forall i :: 0 <= i < |lines| ==> WellEnded(lines[i]))
    && (forall i :: 0 < i < |lines| ==> lines[i - 1].end != [0x0d] || lines[i].pieces != [] || lines[i].end[..1] != [0x0a])
  }

  function FileText(lines: seq<Ended>): seq<nat> {
    if lines == [] then [] else LineText(lines[0].pieces) + (lines[0].end + FileText(lines[1..]))
  }

  lemma FileStarts(lines: seq<Ended>)
    requires AllEnded(lines) && FileText(lines) != [] && FileText(lines)[0] == 0x0a
    ensures lines != [] && lines[0].pieces == [] && lines[0].end[..1] == [0x0a]
  {
    hide IsEnd, PieceText;
    FeedEnds();
    var line := LineText(lines[0].pieces);
    assert WellEnded(lines[0]);
    assert line == [];
    if lines[0].pieces != [] {
      PieceIsThere(lines[0].pieces);
    }
    assert FileText(lines)[0] == lines[0].end[0];
  }

  lemma FeedEnds()
    ensures IsEnd(0x0a)
  {
  }

  lemma PieceIsThere(pieces: seq<Piece>)
    requires pieces != []
    ensures LineText(pieces) != []
  {
  }

  lemma {:induction false} FileLines(lines: seq<Ended>)
    requires AllEnded(lines)
    ensures Lines(FileText(lines)) == seq(|lines|, i requires 0 <= i < |lines| => LineText(lines[i].pieces))
    decreases |lines|
  {
    hide Lines, LineText, IsEnd, AllGood;
    if lines == [] {
      NoLines();
    } else {
      var others := lines[1..];
      assert forall i :: 0 <= i < |others| ==> others[i] == lines[i + 1];
      FileLines(others);
      assert WellEnded(lines[0]);
      if lines[0].end == [0x0d] && FileText(others) != [] && FileText(others)[0] == 0x0a {
        FileStarts(others);
        assert false;
      }
      LineEnds(LineText(lines[0].pieces), lines[0].end, FileText(others));
    }
  }

  lemma NoLines()
    ensures Lines([]) == []
  {
  }

  lemma RowIs(lines: seq<seq<nat>>, screen: seq<byte>, row: nat)
    requires IsScreenOf(lines, screen) && row < 24
    ensures |screen| == 960 && screen[row * 40..row * 40 + 40] == if row < |lines| then RowOf(lines[row]) else Spaces(40)
  {
    hide RowOf, Spaces;
    assert row * COLUMNS == row * 40;
  }

  /** Each cell of a loaded page file is the piece that stands there, or a space. */
  lemma FileShows(lines: seq<Ended>, screen: seq<byte>, row: nat, column: nat)
    requires AllEnded(lines) && IsScreenOf(Lines(FileText(lines)), screen) && row < 24 && column < 40
    ensures screen[row * 40 + column] ==
            if row < |lines| && column < |lines[row].pieces| then PieceByte(lines[row].pieces[column]) else 0x20
  {
    hide Lines, LineText, RowOf, PieceByte, WithoutEnd, Ending, FileText;
    FileLines(lines);
    RowIs(Lines(FileText(lines)), screen, row);
    assert screen[row * 40 + column] == screen[row * 40..row * 40 + 40][column];
    if row < |lines| {
      assert WellEnded(lines[row]);
      RowShows(lines[row].pieces, column);
    }
  }
}
