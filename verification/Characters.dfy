/**
 The characters of the P2000T's display, written as Unicode, and what becomes of the characters that a
 page may contain: what the glyph table and the table of named entities are for, apart from both.
 */
module Characters {
  import opened Bytes
  import opened Markup
  import opened Numbers
  import opened Saa5050

  // ---------------------------------------------------------------------------------------
  // Glyphs

  /** What is seen on the screen: ASCII except for twelve positions. */
  function Shown(glyph: byte): nat
    requires 0x20 <= glyph < 0x80
  {
    match glyph
    case 0x23 => 0xa3    // pound sign
    case 0x5b => 0x2190  // arrow to the left
    case 0x5c => 0xbd    // one half
    case 0x5d => 0x2192  // arrow to the right
    case 0x5e => 0x2191  // arrow upwards
    case 0x5f => '#' as int
    case 0x60 => 0x2014  // long dash
    case 0x7b => 0xbc    // one quarter
    case 0x7c => '|' as int
    case 0x7d => 0xbe    // three quarters
    case 0x7e => 0xf7    // division sign
    case 0x7f => 0x2588  // full block
    case _ => glyph
  }

  predicate HasGlyph(code: nat) {
    exists glyph: byte :: 0x20 <= glyph < 0x80 && Shown(glyph) == code
  }

  /** Characters that another one can stand in for. */
  function LooksLike(code: nat): Option<nat> {
    if code == '[' as int || code == '{' as int then Some('(' as int)
    else if code == ']' as int || code == '}' as int then Some(')' as int)
    else if code == '\\' as int then Some('/' as int)
    else if code == '^' as int then Some(0x2191)
    else if code == '_' as int || code == '~' as int then Some(0x2014)
    else if code == '`' as int then Some('\'' as int)
    else if code == 0x25a0 then Some(0x2588)
    else None
  }

  /** The letter that an accented letter of Latin-1 is written with. */
  function Unaccented(code: nat): Option<nat> {
    match code
    case 0xc0 | 0xc1 | 0xc2 | 0xc3 | 0xc4 | 0xc5 => Some('A' as int)  // grave, acute, circumflex, tilde, diaeresis, ring
    case 0xc7 => Some('C' as int)                                     // cedilla
    case 0xc8 | 0xc9 | 0xca | 0xcb => Some('E' as int)
    case 0xcc | 0xcd | 0xce | 0xcf => Some('I' as int)
    case 0xd1 => Some('N' as int)                                     // tilde
    case 0xd2 | 0xd3 | 0xd4 | 0xd5 | 0xd6 => Some('O' as int)
    case 0xd9 | 0xda | 0xdb | 0xdc => Some('U' as int)
    case 0xe0 | 0xe1 | 0xe2 | 0xe3 | 0xe4 | 0xe5 => Some('a' as int)
    case 0xe7 => Some('c' as int)
    case 0xe8 | 0xe9 | 0xea | 0xeb => Some('e' as int)
    case 0xec | 0xed | 0xee | 0xef => Some('i' as int)
    case 0xf1 => Some('n' as int)
    case 0xf2 | 0xf3 | 0xf4 | 0xf5 | 0xf6 => Some('o' as int)
    case 0xf9 | 0xfa | 0xfb | 0xfc => Some('u' as int)
    case _ => None
  }

  /** Every character of the display is kept. */
  lemma GlyphsAreKept(glyph: byte)
    requires 0x20 <= glyph < 0x80
    ensures Transliterate(Shown(glyph)) == glyph
  {
  }

  /**
   What is seen in place of any character: itself if the display has it; else one that looks like it, the
   letter without its accent, or a question mark.
   */
  lemma TransliteratesExactly(code: nat)
    ensures Shown(Transliterate(code)) ==
            if HasGlyph(code) then code
            else if LooksLike(code).Some? then LooksLike(code).value
            else if Unaccented(code).Some? then Unaccented(code).value
            else '?' as int
  {
    if HasGlyph(code) {
      var glyph: byte :| 0x20 <= glyph < 0x80 && Shown(glyph) == code;
      GlyphsAreKept(glyph);
    } else {
      NoGlyph(code);
      NotItself(code);
      hide HasGlyph;
      StandIn(code);
    }
  }

  lemma StandIn(code: nat)
    requires code !in {0xa3, 0xbc, 0xbd, 0xbe, 0xf7, 0x2014, 0x2190, 0x2191, 0x2192, 0x2588, '#' as int, '|' as int}
    requires 0x20 <= code < 0x80 ==> Shown(code) != code
    ensures Shown(Transliterate(code)) ==
            if LooksLike(code).Some? then LooksLike(code).value
            else if Unaccented(code).Some? then Unaccented(code).value
            else '?' as int
  {
  }

  lemma NotItself(code: nat)
    requires !HasGlyph(code)
    ensures 0x20 <= code < 0x80 ==> Shown(code) != code
  {
  }

  lemma NoGlyph(code: nat)
    requires !HasGlyph(code)
    ensures code !in {0xa3, 0xbc, 0xbd, 0xbe, 0xf7, 0x2014, 0x2190, 0x2191, 0x2192, 0x2588, '#' as int, '|' as int}
  {
    assert Shown(0x23) == 0xa3 && Shown(0x7b) == 0xbc && Shown(0x5c) == 0xbd && Shown(0x7d) == 0xbe;
    assert Shown(0x7e) == 0xf7 && Shown(0x60) == 0x2014 && Shown(0x5b) == 0x2190 && Shown(0x5e) == 0x2191;
    assert Shown(0x5d) == 0x2192 && Shown(0x7f) == 0x2588 && Shown(0x5f) == '#' as int && Shown(0x7c) == '|' as int;
  }

  /** A question mark stands for nothing else that the display has. */
  lemma QuestionMarkIsItself(code: nat)
    requires HasGlyph(code) && Transliterate(code) == 0x3f
    ensures code == '?' as int
  {
    TransliteratesExactly(code);
  }

  /** In its style, a character of the display becomes its glyph, and a mosaic code point its mosaic. */
  lemma CellShows(style: Style, glyph: byte)
    requires 0x20 <= glyph < 0x80
    ensures CellOf(style, Shown(glyph)) == Cell(glyph, style.foreground, style.background, Alpha)
    ensures glyph < 0x40 || glyph >= 0x60 ==>
              CellOf(style, 0xf000 + glyph as nat) == Cell(glyph, style.foreground, style.background, Graphics)
  {
    GlyphsAreKept(glyph);
  }

  /** All other code points stand for characters, also those of the private use area between the mosaics. */
  lemma OnlyMosaicsAreGraphics(style: Style, code: nat)
    requires !(0xf020 <= code <= 0xf03f || 0xf060 <= code <= 0xf07f)
    ensures CellOf(style, code) == Cell(Transliterate(code), style.foreground, style.background, Alpha)
  {
    hide Transliterate;
  }

  // ---------------------------------------------------------------------------------------
  // Named entities

  datatype Accent = Grave | Acute | Umlaut | Cedilla

  function AccentName(accent: Accent): seq<byte> {
    match accent
    case Grave => Text("grave")
    case Acute => Text("acute")
    case Umlaut => Text("uml")
    case Cedilla => Text("cedil")
  }

  /** The names known to the firmware: vowels and c with some of the accents that HTML has names for. */
  predicate Known(letter: byte, accent: Accent) {
    match accent
    case Grave => letter == 0x41 || letter == 0x61 || letter == 0x45 || letter == 0x65
    case Acute => letter == 0x41 || letter == 0x61 || letter == 0x45 || letter == 0x65
    case Umlaut => Vowel(letter)
    case Cedilla => letter == 0x43 || letter == 0x63
  }

  predicate Vowel(letter: byte) {
    var capital := if letter >= 0x60 then letter - 0x20 else letter;
    capital == 0x41 || capital == 0x45 || capital == 0x49 || capital == 0x4f || capital == 0x55
  }

  /** Latin-1 lists the accents of a letter in the order grave, acute, circumflex, tilde (of A and O only), umlaut. */
  function Latin1(letter: byte, accent: Accent): nat
    requires Known(letter, accent)
  {
    var small := letter >= 0x60;
    var capital := if small then letter - 0x20 else letter;
    var first := match capital
      case 0x41 => 0xc0
      case 0x43 => 0xc7
      case 0x45 => 0xc8
      case 0x49 => 0xcc
      case 0x4f => 0xd2
      case _ => 0xd9;
    var place := match accent
      case Grave => 0
      case Acute => 1
      case Umlaut => if capital == 0x41 || capital == 0x4f then 4 else 3
      case Cedilla => 0;
    first + place + if small then 0x20 else 0
  }

  /** An accented letter is named after the letter and the accent, and is shown as the letter. */
  lemma AccentsAreNamed(letter: byte, accent: Accent)
    requires Known(letter, accent)
    ensures NamedEntity([letter] + AccentName(accent)) == Some(Latin1(letter, accent))
    ensures Transliterate(Latin1(letter, accent)) == letter
  {
    hide Text, NamedEntity, AccentName, Transliterate;
    FullName(letter, accent);
    ShownPlain(letter, accent);
    match accent {
      case Grave => GraveIsNamed(letter);
      case Acute => AcuteIsNamed(letter);
      case Umlaut => UmlautIsNamed(letter);
      case Cedilla => CedillaIsNamed(letter);
    }
  }

  lemma FullName(letter: byte, accent: Accent)
    ensures [letter] + AccentName(accent) ==
            match accent
            case Grave => [letter, 0x67, 0x72, 0x61, 0x76, 0x65]
            case Acute => [letter, 0x61, 0x63, 0x75, 0x74, 0x65]
            case Umlaut => [letter, 0x75, 0x6d, 0x6c]
            case Cedilla => [letter, 0x63, 0x65, 0x64, 0x69, 0x6c]
  {
    AccentNames();
  }

  lemma ShownPlain(letter: byte, accent: Accent)
    requires Known(letter, accent)
    ensures Transliterate(Latin1(letter, accent)) == letter
  {
  }

  lemma GraveIsNamed(letter: byte)
    requires Known(letter, Grave)
    ensures NamedEntity([letter, 0x67, 0x72, 0x61, 0x76, 0x65]) == Some(Latin1(letter, Grave))
  {
  }

  lemma AcuteIsNamed(letter: byte)
    requires Known(letter, Acute)
    ensures NamedEntity([letter, 0x61, 0x63, 0x75, 0x74, 0x65]) == Some(Latin1(letter, Acute))
  {
  }

  lemma UmlautIsNamed(letter: byte)
    requires Known(letter, Umlaut)
    ensures NamedEntity([letter, 0x75, 0x6d, 0x6c]) == Some(Latin1(letter, Umlaut))
  {
  }

  lemma CedillaIsNamed(letter: byte)
    requires Known(letter, Cedilla)
    ensures NamedEntity([letter, 0x63, 0x65, 0x64, 0x69, 0x6c]) == Some(Latin1(letter, Cedilla))
  {
  }

  lemma AccentNames()
    ensures AccentName(Grave) == [0x67, 0x72, 0x61, 0x76, 0x65] && AccentName(Acute) == [0x61, 0x63, 0x75, 0x74, 0x65]
    ensures AccentName(Umlaut) == [0x75, 0x6d, 0x6c] && AccentName(Cedilla) == [0x63, 0x65, 0x64, 0x69, 0x6c]
  {
  }

  function SpecialNames(): seq<seq<byte>> {
    [Text("amp"), Text("lt"), Text("gt"), Text("quot"), Text("apos"), Text("nbsp"), Text("pound")]
  }

  function SpecialCodes(): seq<nat> {
    ['&' as int, '<' as int, '>' as int, '"' as int, '\'' as int, ' ' as int, 0xa3]
  }

  lemma NamesInBytes()
    ensures SpecialNames() == [[0x61, 0x6d, 0x70], [0x6c, 0x74], [0x67, 0x74], [0x71, 0x75, 0x6f, 0x74],
                               [0x61, 0x70, 0x6f, 0x73], [0x6e, 0x62, 0x73, 0x70], [0x70, 0x6f, 0x75, 0x6e, 0x64]]
  {
    assert Text("amp") == [0x61, 0x6d, 0x70] && Text("lt") == [0x6c, 0x74] && Text("gt") == [0x67, 0x74];
    assert Text("quot") == [0x71, 0x75, 0x6f, 0x74] && Text("apos") == [0x61, 0x70, 0x6f, 0x73];
    assert Text("nbsp") == [0x6e, 0x62, 0x73, 0x70] && Text("pound") == [0x70, 0x6f, 0x75, 0x6e, 0x64];
  }

  lemma SpecialsAreNamed(i: nat)
    requires i < 7
    ensures NamedEntity(SpecialNames()[i]) == Some(SpecialCodes()[i])
  {
    NamesInBytes();
  }

  /** There are no other names. */
  lemma NothingElseIsNamed(name: seq<byte>)
    requires NamedEntity(name).Some?
    ensures name in SpecialNames() || exists letter, accent :: Known(letter, accent) && name == [letter] + AccentName(accent)
  {
    hide Text, NamedEntity, AccentName;
    SpecialsInBytes(name);
    if name !in SpecialNames() {
      AccentedInBytes(name);
      FullName(name[0], AccentOf(name));
    }
  }

  function AccentOf(name: seq<byte>): Accent {
    if |name| < 6 then Umlaut else if name[1] == 0x67 then Grave else if name[1] == 0x61 then Acute else Cedilla
  }

  predicate IsSpecial(name: seq<byte>) {
    || name == [0x61, 0x6d, 0x70] || name == [0x6c, 0x74] || name == [0x67, 0x74] || name == [0x71, 0x75, 0x6f, 0x74]
    || name == [0x61, 0x70, 0x6f, 0x73] || name == [0x6e, 0x62, 0x73, 0x70] || name == [0x70, 0x6f, 0x75, 0x6e, 0x64]
  }

  lemma SpecialsInBytes(name: seq<byte>)
    ensures name in SpecialNames() <==> IsSpecial(name)
  {
    NamesInBytes();
  }

  lemma AccentedInBytes(name: seq<byte>)
    requires NamedEntity(name).Some? && !IsSpecial(name)
    ensures |name| >= 4 && Known(name[0], AccentOf(name))
    ensures name == match AccentOf(name)
                    case Grave => [name[0], 0x67, 0x72, 0x61, 0x76, 0x65]
                    case Acute => [name[0], 0x61, 0x63, 0x75, 0x74, 0x65]
                    case Umlaut => [name[0], 0x75, 0x6d, 0x6c]
                    case Cedilla => [name[0], 0x63, 0x65, 0x64, 0x69, 0x6c]
  {
    hide NamedEntity, IsSpecial;
    if |name| < 6 {
      UmlautInBytes(name);
    } else {
      OthersInBytes(name);
    }
  }

  lemma UmlautInBytes(name: seq<byte>)
    requires NamedEntity(name).Some? && !IsSpecial(name) && |name| < 6
    ensures |name| == 4 && Vowel(name[0]) && name == [name[0], 0x75, 0x6d, 0x6c]
  {
  }

  lemma OthersInBytes(name: seq<byte>)
    requires NamedEntity(name).Some? && |name| >= 6
    ensures Known(name[0], AccentOf(name))
    ensures name == [name[0], 0x67, 0x72, 0x61, 0x76, 0x65] || name == [name[0], 0x61, 0x63, 0x75, 0x74, 0x65]
            || name == [name[0], 0x63, 0x65, 0x64, 0x69, 0x6c]
  {
  }

  // ---------------------------------------------------------------------------------------
  // Numeric entities

  /** A number behind a hash is decimal, behind a hash and an x of either case hexadecimal. */
  lemma NumbersAreCodes(digits: seq<byte>)
    requires digits != []
    ensures EntityCode([0x23, 0x78] + digits) == InRange(NumberOf(digits, 16))
    ensures EntityCode([0x23, 0x58] + digits) == InRange(NumberOf(digits, 16))
    ensures digits[0] != 0x78 && digits[0] != 0x58 ==> EntityCode([0x23] + digits) == InRange(NumberOf(digits, 10))
  {
    hide NumberOf;
    assert ([0x23, 0x78] + digits)[2..] == digits;
    assert ([0x23, 0x58] + digits)[2..] == digits;
    assert ([0x23] + digits)[1..] == digits;
  }

  /** The largest number of 32 bits is not a character. */
  function InRange(number: Option<nat>): Option<nat> {
    if number.Some? && number.value < 0xffff_ffff then number else None
  }
}
