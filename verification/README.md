# P2000T Teletekst over Pico W: a verified model

This project models the parts of the P2000T Teletekst system in which a mistake would be hard to see, and proves
what they are for. It covers the Pico firmware, the Z80 cartridge, the link between the two, and the example page
server. All of it is Dafny 4.11; `dafny verify dfyconfig.toml` checks the whole project.

Code that updates state in place is modelled by methods and classes over arrays and fields, each proved against a
function of the old state; what that function guarantees is then stated by lemmas. Pure code is modelled by
functions. Concurrency (the two cores of the Pico, the two ends of the link) is modelled by state machines whose
steps are the code between two points where the other side can interfere. Clocks, timers, the radio, the HTTP
library, lost frames and the outcome of a flash operation are parameters or arbitrary steps.

## The parts

**Display rows** (`Saa5050`, `RowCompiler`, `RowMeaning`, `InverseSpaces`, `Borders`). The display chip's rows carry colours as
control codes that occupy cells. `compile_row` searches 112 display states over 40 columns for the cheapest bytes. The
search is proved to return a cheapest path of its transition relation, and to fail exactly when there is none. Against
the renderer's meaning of the bytes, the result is the best of all encodings without inverse spaces (byte a0), which the
compiler never emits: right backgrounds everywhere, right glyphs, colours and modes wherever a glyph is shown, and no
glyph lost when some such encoding loses none. An inverse space can only stand on a blank cell of a coloured
background; on rows where no such cell is in its reach the result is the best of all encodings, and where at most the
last cell is, it still keeps every glyph that can be kept and refuses only rows that cannot be shown at all.
`InverseSpaces` proves that these conditions are exact for sets of positions and colours. For a single row `Borders`
widens the second one to coloured blocks with blank cells on black around them, two behind each block. The double-height, flash, conceal and hold codes of the chip are
outside the language of comparison, as they are outside the renderer in `firmware/tests/test_p2wp.c`.

**Pages** (`Json`, `Numbers`, `PageFields`, `Markup`, `PageContent`, `PageMeaning`, `PageText`, `PageDecoder`,
`PageRoundTrip`, `Server`, `ScreenFile`, `Characters`, `Tags`, `Escapes`). The firmware reads a response without a JSON parser: it looks for a quoted
name and reads the string behind it. The markup parser works in one pass with a style stack of depth 8 and goes back
to a bare ampersand; its specification separates the string, the items (tags, entities, characters) and the layout.
Accepted markup is characterised exactly, with styles computed from the enclosing elements alone. Round trips are
proved for arbitrary pages of coloured code points and for every response of the example server. `Characters` fixes what
is seen of each character by the display's own character set, `Tags` what the words of the format are and where they
count, `Escapes` that strings and page files are read however they are spelled.

**The link** (`Bits`, `Crc`, `Framing`, `Detection`, `HostLink`, `FirmwareCore`, `Protocol`, `CacheGuard`,
`ProtocolLimits`, `Transactions`, `Conflicts`, `LinkLoss`, `Requests`, `KnownAnswers`). Byte stuffing, CRC-16, the streaming parser of the Pico and the receiver of the
cartridge, and the command processor with its one-entry reply cache. Host, Pico and two lossy FIFO channels form one
state machine that starts with HELLO on a freshly reset Pico; `LinkLoss` shows that frames cut off anywhere make just
such a channel. No stale reply and at most once hold in every run.
A success the host has seen was carried out once if and only if the Pico never answered it from a cache that
held another transaction, and the guard of the cache is characterised exactly (`CacheGuard`). Fewer than 255 errors in a
row keep that from happening, and 254 is the best such bound: error replies are not cached and sequence numbers wrap.
`Requests` states every request once more as the cartridge writes it and proves that the Pico accepts exactly those and
reads in them what was meant; `KnownAnswers` ties the checksums to the C code's words, check values and the frame shown in
`docs/protocol.md`.

**The Pico** (`FetchCycle`, `FetchLimits`, `FetchOutcome`, `WifiScan`, `Clock`, `Endpoint`, `Addresses`, `UrlStore`). The life of every fetch across
the two cores, in every interleaving of their mutex sections, from its acceptance to the last row served, and the outcome
that each answer of a server leads to; the nine
strongest networks of a stream of scan results; Unix time as Dutch civil time; URLs of custom servers; and the settings
record in flash.

**The cartridge** (`Lz4`, `Viewer`, `PageStatus`, `NetworkList`). The Z80 decoder for raw LZ4 blocks over 64 KiB of memory,
the viewer's fetching and automatic navigation, and two answers of the Pico from the side that writes them to the side
that reads them: the status of a fetch in every revision of the protocol, and the list of networks.

`Bytes` and `Sequences` hold shared types and facts about slices.

## Where the code differs from its description

- `firmware/src/main.c:302` calls day index 304 of the year October 31. In a year without February 29 it is November 1.
  When that is a Sunday, summer time ends on it instead of a week earlier (Articles 2 and 3 of Directive 2000/84/EC).
  `Clock.SummerTimeExactly` gives the exact times at which the clock is wrong, `Clock.SummerTooLong` one of them.
- `docs/protocol.md:189-190` wants every reuse of a sequence number with different content refused. The Pico compares
  16-bit checksums: `Conflicts.ConflictExactly` says which reuses it refuses, `Conflicts.ConflictMissed` shows two
  different requests of which the second gets the first one's reply.
- A deadline during DNS lookup publishes FAILED while the request is still live (`firmware/src/main.c:868-883`). The first
  fetch after reset can meet one (`FetchLimits.LookupIsReached`), and two live requests can follow
  (`FetchLimits.TwoRequestsFromReset`). From any state reached without such a deadline, a step keeps each of these for all
  that can follow if and only if it is none itself: one live request, one outcome for each fetch, work on no other fetch
  than the last, and an unchanged screen while rows are served (`FetchLimits.SafeExactly`).
- The CRC travels low byte first, so that a change of the last covered byte together with the byte behind it can go
  unnoticed. `Detection.UndetectedPairs` says exactly which change of two adjacent bytes does: one per frame with a
  payload, and none elsewhere.
- `docs/protocol.md:184-190` wants the cached reply only for a retry. Sequence numbers have 8 bits and also count refused
  requests, which are not cached, so that a new request can be answered with the reply to one 256 transactions older.
  `CacheGuard.RetryExactly` gives the guard, `CacheGuard.CarriedOutExactly` what follows from it in every run,
  `ProtocolLimits.ExactlyOnceNeedsShortErrorRuns` a run, and `ProtocolLimits.BoundIsSharp` the bound.
- `compile_row` never emits an inverse space (`firmware/src/teletekst.c:855-888`). It refuses rows that the display can
  show (`InverseSpaces.RefusedRow`) and loses glyphs that an inverse space would keep
  (`InverseSpaces.InverseSpaceWouldBeBetter`). `InverseSpaces.RefusalExactly`, `InverseSpaces.GlyphsExactly` and
  `InverseSpaces.BestOfAllExactly` say for which positions and colours of blank cells this never happens.
- The viewer checks no link it is sent (`src/teletekst.c:649-660`): `Viewer.LinksExactly` says which ones keep it on pages
  that exist.
- A signal of 0 dBm or more is sent as 0, which the cartridge takes for the weakest (`firmware/src/main.c:1777-1783`,
  `src/wifi.c:183-186`). `NetworkList.BarsExactly`: the bars tell the strength exactly below 0 dBm.
- A numeric entity for 4294967295 equals the value the code reserves for "no code point" and is read as a bare
  ampersand; a decimal entity is read as its number exactly below that value (`PageText.EntityExactly`).

## Model

| member | source | states |
|---|---|---|
| Saa5050.RenderRow | firmware/tests/test_p2wp.c:329-365 | rendering shows in every column the cell given by the state that all bytes before it have set |
| Saa5050.LossCountsGlyphs | firmware/src/teletekst.c:846-849 | an encoding costs at most 40 when it keeps all glyphs of a row and at least 100 when it loses one, so cost orders encodings by lost glyphs first; what kind of glyph is given up is stated by RowMeaning.BestGivesUpLeast |
| RowCompiler.IndexRoundTrip | firmware/src/teletekst.c:71-89 | packing a display state and unpacking it gives the state back |
| RowCompiler.StateRoundTrip | firmware/src/teletekst.c:71-89 | unpacking any of the 112 indices and packing the state gives the index back |
| RowCompiler.Relax | firmware/src/teletekst.c:798-812 | a strictly cheaper way replaces cost and predecessor of its state, anything else changes nothing |
| RowCompiler.RelaxState | firmware/src/teletekst.c:850-943 | after all moves out of one state, none of them can improve the next column, and every recorded predecessor is a real move at its recorded cost |
| RowCompiler.RelaxColumn | firmware/src/teletekst.c:840-945 | the same for all reached states of a column |
| RowCompiler.NextLayer | firmware/src/teletekst.c:824-967 | if the costs of a column are those of cheapest paths, so are the costs of the next one, reachable through its predecessors |
| RowCompiler.CompileRow | firmware/src/teletekst.c:824-967 | on success the output is a cheapest path through all 40 columns; on failure no path exists and the output is untouched; no 16-bit cost overflows; what cheapest means for the viewer is stated by RowMeaning.BestGivesUpLeast |
| RowCompiler.Minimum | firmware/src/teletekst.c:947-957 | the final state is one of least cost |
| RowCompiler.Backtrack | firmware/src/teletekst.c:958-965 | following the predecessors never meets an invalid one and writes the bytes of the path they record |
| RowMeaning.MoveRepresents | firmware/src/teletekst.c:846-943 | every move emits a byte that represents its cell in its state, leads to the renderer's next state and costs what it loses |
| RowMeaning.RepresentationHasMove | firmware/src/teletekst.c:846-943 | for every byte but the inverse space that represents a cell, the compiler has a move of the same effect and loss |
| RowMeaning.PathEncodes | firmware/src/teletekst.c:824-967 | preservation: the bytes of a path render as an encoding of the row, with the loss the path cost |
| RowMeaning.EncodingHasPath | firmware/src/teletekst.c:824-967 | completeness: every encoding without inverse spaces is matched by a path of the same loss |
| RowMeaning.CheapestIsBest | firmware/src/teletekst.c:824-967 | a cheapest path is an encoding that no other encoding without inverse spaces beats |
| RowMeaning.BestKeepsGlyphs | firmware/src/teletekst.c:798-967 | the best encoding keeps all glyphs if and only if some encoding without inverse spaces does |
| RowMeaning.LossCounts | firmware/src/teletekst.c:846-849 | the loss of an encoding is 200 for each letter and 100 for each mosaic it gives up, counted from cells and bytes, and 1 for each blank that a control code takes |
| RowMeaning.BestGivesUpLeast | firmware/src/teletekst.c:798-967 | no encoding without inverse spaces gives up less than the best one, a letter counting as two mosaics, or as much with fewer control codes in blanks; no letter is lost where one mosaic would do |
| RowMeaning.NoPathNoEncoding | firmware/src/teletekst.c:824-967 | when the search fails, the row has no encoding without inverse spaces |
| RowMeaning.NoInverseNoDifference | firmware/src/teletekst.c:798-967 | on a row without coloured blanks in reach of an inverse space, the encodings without inverse spaces are all encodings, and the best of them is the best of all |
| RowMeaning.BestIsBestOfAll | firmware/src/teletekst.c:798-967 | the compiler's best is the best of all encodings if and only if every encoding is matched in loss by one without inverse spaces |
| RowMeaning.InverseAtEndKeeps | firmware/src/teletekst.c:798-967 | on a row where only the last cell could use an inverse space, there is an encoding without one if and only if there is any, and glyphs can be kept by the one if and only if by the other |
| RowMeaning.BestKeepsWhatDisplayKeeps | firmware/src/teletekst.c:798-967 | on such a row the best encoding keeps all glyphs if and only if any encoding does |
| RowMeaning.CompileScreen | firmware/src/teletekst.c:1010-1020 | all rows become best encodings in their place, or the first row reported has no encoding without inverse spaces, and none at all if only its last cell could use one |
| InverseSpaces.InverseSpaceWouldBeBetter | firmware/src/teletekst.c:855-888 | for every place before the last column and every colour in reach there, a row that every encoding of the compiler robs of a glyph although an inverse space would lose none |
| InverseSpaces.RefusedRow | firmware/src/teletekst.c:855-967 | a row of blanks that the display shows and the compiler refuses |
| InverseSpaces.BestOfAllExactly | firmware/src/teletekst.c:855-967 | for any set of places and colours of blanks: the compiler's language matches the loss of every encoding of all rows with coloured blanks there only, if and only if no inverse space can be used at these places |
| InverseSpaces.GlyphsExactly | firmware/src/teletekst.c:855-967 | the same for keeping all glyphs, if and only if an inverse space can be used in the last column at most |
| InverseSpaces.RefusalExactly | firmware/src/teletekst.c:855-967 | and under that same condition, and no wider one, no row that can be shown is refused |
| Borders.Replace | firmware/src/teletekst.c:855-967 | on a row whose coloured blocks in reach of inverse spaces before the last column are bordered, every encoding can be replaced by one without inverse spaces that gives up no further glyph |
| Borders.ContainedKeeps | firmware/src/teletekst.c:855-967 | such a row has an encoding without inverse spaces if and only if it can be shown, and one that keeps all glyphs if and only if the display has one |
| Borders.BestKeepsContained | firmware/src/teletekst.c:798-967 | the best encoding of such a row keeps all glyphs if and only if any encoding does |
| Borders.OneGapIsTooFew | firmware/src/teletekst.c:855-967 | with one blank on black behind a block instead of two there is a row that can be shown and is refused, at every place and in every colour |
| Json.FindJsonString | firmware/src/teletekst.c:99-129 | the first place where the quoted name stands decides whether and where a string value is found |
| Json.PlainString | firmware/src/teletekst.c:137-190 | a string without quotes and backslashes is read as its bytes |
| Json.FindPassesString | firmware/src/teletekst.c:99-129 | a string that is not the name is passed over as a whole |
| Json.FindHits | firmware/src/teletekst.c:99-190 | where name, colon and plain string stand, that string is found and read |
| Json.FindNothing | firmware/src/teletekst.c:99-129 | a name that stands nowhere is not found |
| Escapes.StringReads | firmware/src/teletekst.c:137-190 | however the characters of a string are written, directly, by a short escape or by four hexadecimal digits of any case, they are read back |
| Escapes.OtherEscapesAreBad | firmware/src/teletekst.c:137-190 | any other escape makes the string unreadable |
| Escapes.ValueIsFound | firmware/src/teletekst.c:99-129 | blanks, tabs and line ends around the colon do not matter |
| PageFields.Base64RoundTrip | firmware/src/teletekst.c:198-263 | decoding inverts base64 encoding for data of whole groups |
| KnownAnswers.Alphabet | firmware/src/teletekst.c:198-215 | the alphabet is that of section 4 of RFC 4648 |
| PageFields.StreamDecodesString | firmware/src/teletekst.c:225-263 | decoding four codes at a time straight from the JSON string equals decoding the string read beforehand |
| PageFields.ParseBinaryDisplay | firmware/src/teletekst.c:225-263 | absent, invalid, or an image of exactly 960 bytes, which then is the screen |
| PageFields.ParseNextSubpage | firmware/src/teletekst.c:274-332 | the next subpage is n if and only if the field is there and its string names n: for zero an empty string, zero or the requested page alone, else the requested page, a dash and n, in decimal digits within 999 and 255; otherwise the response is refused |
| PageFields.SubpageIsNamed | firmware/src/teletekst.c:274-332 | reading character by character accepts exactly the strings that name a subpage of the requested page |
| PageFields.ParsePageLink | firmware/src/teletekst.c:335-368 | a link is zero when missing or empty, else exactly three digits from 100 to 899 |
| Markup.ColourFromClass | firmware/src/teletekst.c:377-394 | a class is a colour if and only if it is the name of that colour |
| Markup.ApplyClasses | firmware/src/teletekst.c:407-441 | the scan applies the words of the class list from left to right |
| Markup.ParseTag | firmware/src/teletekst.c:455-509 | the style and the saved styles after a tag, or failure: closing without opening, more than eight levels, or an unclosed class attribute |
| Markup.EntityCodepoint | firmware/src/teletekst.c:518-573 | a numeric entity is the number its digits denote unless that exceeds 32 bits or equals the reserved value; other entities are named |
| Markup.Transliterate | firmware/src/teletekst.c:581-647 | every code point becomes a displayable glyph, 20 to 7f; which one is stated by Characters.TransliteratesExactly |
| Characters.GlyphsAreKept | firmware/src/teletekst.c:581-647 | every character the display has a glyph for becomes that glyph |
| Characters.TransliteratesExactly | firmware/src/teletekst.c:581-647 | for every code point, what is seen is the character itself if the display has it, else the one that looks like it, else the letter without its accent, else a question mark |
| Characters.QuestionMarkIsItself | firmware/src/teletekst.c:581-647 | of all characters the display has, only the question mark becomes a question mark |
| Characters.CellShows | firmware/src/teletekst.c:680-690 | a character of the display becomes a letter cell of its glyph and a private code point a mosaic cell, in the colours of the style |
| Characters.OnlyMosaicsAreGraphics | firmware/src/teletekst.c:683-690 | every other code point, private or not, becomes a letter cell |
| Characters.NumbersAreCodes | firmware/src/teletekst.c:518-547 | a hash and digits, or a hash, an x of either case and hexadecimal digits, are the code point they denote below the reserved value |
| Characters.AccentsAreNamed | firmware/src/teletekst.c:549-572 | an entity made of a letter and an accent the firmware knows is that letter of Latin-1, and is shown as the letter |
| Characters.SpecialsAreNamed | firmware/src/teletekst.c:549-572 | the seven other named entities are the characters they are named after |
| Characters.NothingElseIsNamed | firmware/src/teletekst.c:549-572 | no other name is an entity |
| Tags.Colours | firmware/src/teletekst.c:377-394 | the eight colours by their English names, numbered as sums of red, green and blue |
| Tags.ColourClass | firmware/src/teletekst.c:407-441 | the name of a colour sets the foreground and, behind bg-, the background |
| Tags.OtherClass | firmware/src/teletekst.c:407-441 | no other class changes the style |
| Tags.TagMeans | firmware/src/teletekst.c:455-509 | blanks, slash, name and rest: span and a open or close an element, with the classes that stand behind the name; every other tag is ignored |
| Tags.Levels | firmware/src/teletekst.c:455-509 | eight elements can be open at once, and closing one restores the style and the elements from before |
| Tags.FirstClassCounts | firmware/src/teletekst.c:493-507 | the first class attribute counts, wherever it stands, up to its closing quote; without that quote the tag is refused |
| Tags.NoClasses | firmware/src/teletekst.c:493-507 | without such an attribute an element has no classes |
| Tags.TagIsRead | firmware/src/teletekst.c:729-747 | a tag of up to 126 characters is read as a tag, and a longer one spoils the page |
| Tags.EntityIsRead | firmware/src/teletekst.c:748-780 | an ampersand up to the next semicolon is an entity if it is known, of up to 30 characters and ASCII; otherwise the ampersand stands for itself |
| Tags.PropertyNames | server/server.py:67-73 | the names of the properties that server and firmware agree on |
| Markup.AppendCell | firmware/src/teletekst.c:659-692 | carriage returns are ignored, a line feed needs a full row, any other code point fills the next cell of the page or is refused |
| Numbers.NumberPrefix | firmware/src/teletekst.c:530-547 | a prefix of a digit string never denotes more than the whole, so the early overflow check refuses nothing that fits |
| PageContent.ReadTag | firmware/src/teletekst.c:729-747 | reading up to the closing bracket yields the tag and the rest, or else no reading of the rest is acceptable |
| PageContent.ReadEntity | firmware/src/teletekst.c:748-780 | reading an entity yields its code point, or goes back to just behind the ampersand, which then stands for itself |
| PageContent.ParseContent | firmware/src/teletekst.c:702-786 | the single pass accepts exactly what reading, recognising and placing one after another accept, with the same cells; every turn of the loop consumes input, also after going back |
| PageMeaning.LayoutMirrors | firmware/src/teletekst.c:716-784 | after any part of the markup, the parser goes on exactly when that part can still belong to a page, and it remembers the styles of exactly the open elements |
| PageMeaning.ContentMeans | firmware/src/teletekst.c:702-786 | accepted if and only if the markup is balanced within eight levels around 25 lines of 40 characters; each of the 1000 cells then shows its character in reading order in the style of the elements around it, with a displayable glyph |
| PageMeaning.OpenCounts | firmware/src/teletekst.c:455-509 | the elements open at any point are the opening tags minus the closing tags |
| PageText.MarkupRoundTrip | firmware/src/teletekst.c:702-786 | every 25 by 40 page of coloured code points (no line ends), written with one element and one numeric entity per cell, is read back as its transliteration |
| PageText.SpotReads | firmware/src/teletekst.c:716-784 | one such cell adds exactly its character in its colours and leaves the style stack as it was |
| PageText.EscapeReads | firmware/src/teletekst.c:137-190 | a string escaped as in section 7 of RFC 8259 is read back |
| PageText.EntityReads | firmware/src/teletekst.c:518-547 | a decimal entity is read as its number and fits the entity buffer |
| PageText.EntityExactly | firmware/src/teletekst.c:518-547 | the decimal entity of a number is read as that number if and only if it is below the reserved value, and is no entity otherwise |
| PageText.OpeningTagReads | firmware/src/teletekst.c:455-509 | a span with a class attribute opens an element with these classes |
| PageText.ClassListReads | firmware/src/teletekst.c:407-441 | a foreground and a background class set both colours whatever they were |
| PageDecoder.DecodeDiagnostic | firmware/src/teletekst.c:970-1023 | which result is returned for which response, the first unrepresentable row, and what the screen holds on success |
| PageDecoder.DecodeJson | firmware/src/teletekst.c:1044-1076 | a response is accepted if and only if all its parts are acceptable; screen and metadata are then those of the response |
| PageDecoder.ServerIsAccepted | server/server.py:52-73 | every response of the server is accepted, with the server's screen and no other |
| PageRoundTrip.WrittenPageIsShown | firmware/src/teletekst.c:1044-1076 | a written page is accepted if and only if its first 24 rows have encodings without inverse spaces, and the screen is then one of best such encodings |
| PageRoundTrip.WrittenPageIsDisplayed | firmware/src/teletekst.c:1044-1076 | if all coloured blocks in reach of inverse spaces before the last column are bordered, a written page is accepted if and only if the display can show it |
| Server.PageResponse | server/server.py:52-57 | there is a response exactly for the pages and subpages of the catalogue |
| Server.Neighbours | server/server.py:59-62 | previous and next page are the nearest ones, with no page of the catalogue in between |
| Server.NextSubpageIsLeast | server/server.py:64-66 | the next subpage is the smallest numbered one above the current |
| Server.FindProperty | firmware/src/teletekst.c:99-129 | in a flat object the firmware finds the value of every property that no earlier string imitates |
| Server.ResponseRoundTrip | server/server.py:52-73 | whatever the catalogue, the firmware reads the same 960 bytes, previous page, next page and next subpage out of a response that went into it |
| ScreenFile.LoadScreen | server/server.py:30-49 | a binary file is taken if and only if it holds 960 bytes; a text file of at most 24 lines becomes 960 bytes, line by line with the replacements of the server, cut or filled to 40; more lines are refused |
| ScreenFile.TextHoldsAnyScreen | server/server.py:30-49 | every screen can be written as a text file, whose 24 lines stand for that screen and no other |
| Escapes.RowShows | server/server.py:40-48 | the cells of a row are the characters of its line from the left, 40 at most, with spaces behind them: a hash by the glyph that shows it, a byte escape by its byte, anything beyond ASCII by a question mark |
| Escapes.LineEnds | server/server.py:38 | every line end that Python knows takes one line off the text, and carriage return with line feed is one of them |
| Escapes.LastLine | server/server.py:38 | what stands behind the last line end is a line unless it is empty |
| Escapes.FileShows | server/server.py:30-49 | in the screen loaded from a text file each cell is the piece of text that stands there, or a space |
| Crc.ComputeCrc16 | firmware/src/p2wp.c:6-19 | the loop computes the CRC of the bytes |
| Crc.CrcUpdate | firmware/src/p2wp.c:48-56 | the byte step used for frame identities is the step of the batch computation |
| Crc.CrcByteKeepsRegister | firmware/src/p2wp.c:48-56 | taking in a byte is a bijection on checksums |
| Crc.CrcByteKeepsByte | firmware/src/p2wp.c:48-56 | different bytes lead to different checksums |
| Crc.CrcPairInjective | firmware/src/p2wp.c:48-56 | different pairs of bytes lead to different checksums |
| KnownAnswers.ChecksumAgrees | firmware/src/p2wp.c:6-19 | for every message the register holds the 16-bit word that the shifts and exclusive ors of the C code compute |
| KnownAnswers.ChecksumOnWire | firmware/src/p2wp.c:201-239 | the two bytes sent are the low and the high half of that word |
| KnownAnswers.CheckValue | docs/protocol.md:151-159 | the checksum of 123456789 is 29b1 |
| Framing.WireFits | firmware/src/p2wp.c:201-239 | a frame of up to 512 payload bytes takes at most 1042 bytes, with delimiters only at its ends |
| Framing.AppendEscaped | firmware/src/p2wp.c:178-198 | an escaped byte is appended if and only if it fits |
| Framing.Encode | firmware/src/p2wp.c:201-239 | encoding succeeds exactly when the escaped frame fits, and writes that frame |
| KnownAnswers.ExampleFrame | docs/protocol.md:159-166 | the HELLO of a host of version 2 goes over the wire as the protocol shows it |
| Framing.DecodesExactlyBodies | firmware/src/p2wp.c:92-124 | a body is accepted as a frame if and only if it is that frame's body |
| Framing.Parser.Feed | firmware/src/p2wp.c:127-167 | what one byte does to the parser and what it reports |
| Framing.StreamDelivered | firmware/src/p2wp.c:127-167 | frames with any number of idle delimiters between them are delivered in order, none more, from any reachable state |
| Framing.WiresDelivered | firmware/src/p2wp.c:127-239 | concatenated encodings deliver exactly their frames in order, from any reachable state |
| Framing.FirstDelimiter | firmware/src/p2wp.c:127-167 | behind the first delimiter the parser's past no longer matters |
| Detection.ErrorsDetected | firmware/src/p2wp.c:92-124 | an accepted body with one changed byte, or two adjacent changed covered bytes, is rejected |
| Detection.OneByteDetermined | firmware/src/p2wp.c:92-124 | two accepted bodies never differ in one byte only |
| Detection.AdjacentBytesDetermined | firmware/src/p2wp.c:92-124 | nor in two adjacent covered bytes only |
| Detection.TwinEscapesDetection | firmware/src/p2wp.c:92-124 | every frame with a payload has an accepted twin that differs in its last payload byte and the byte behind it, and decodes to another frame |
| Detection.QuietAlone | firmware/src/p2wp.c:48-56 | one change of a byte, and no other, leaves the high byte of the checksum alone |
| Detection.UndetectedPairs | firmware/src/p2wp.c:92-124 | a change of any two adjacent bytes of an accepted body, checksum included, goes unnoticed if and only if it is the one to the twin |
| Detection.FrameIdentity | firmware/src/p2wp.c:59-77 | the identity is the CRC of header and payload, as it stands at the end of the frame's body |
| HostLink.HostAcceptsBodies | src/p2wp.c:144-191 | the cartridge accepts exactly the bodies of frames with at most 240 payload bytes |
| HostLink.Cartridge.SendFrame | src/p2wp.c:121-137 | the escaped frame between delimiters goes out, cut off where the deadline strikes |
| HostLink.Cartridge.ReceiveFrame | src/p2wp.c:144-191 | the loop receives what the specification of the receiver says, or rejects |
| HostLink.SendRequest | src/p2wp.c:201-214 | a request goes out as the same bytes the Pico's encoder makes of the frame with flags zero |
| HostLink.FrameReceived | src/p2wp.c:144-191 | after noise without delimiters and any number of idle delimiters, a frame of the Pico is received if it has at most 240 payload bytes and rejected otherwise |
| LinkLoss.CutFramesDelivered | firmware/src/p2wp.c:127-167 | frames of the cartridge, each cut off anywhere, reach the Pico from any parser state as exactly those frames, in order, whose whole body went out and was closed by its own or the next delimiter |
| LinkLoss.CutBody | firmware/src/p2wp.c:92-167 | a body that is cut off anywhere reports nothing, and the next delimiter makes a frame of it only if it was whole |
| FirmwareCore.SelectVersion | firmware/src/p2wp.c:22-39 | zero or a version both sides support |
| FirmwareCore.SelectsNewest | firmware/src/p2wp.c:22-39 | no shared version is newer than the selected one |
| FirmwareCore.Processor.HandleRequest | firmware/src/firmware_core.c:247-389 | reply, new state and effect of one request; passwords in the request are wiped |
| FirmwareCore.Processor.Dispatch | firmware/src/firmware_core.c:247-385 | the order of checks: cache, flags, session, conflict, type, payload, platform; which payloads are valid is stated by Requests.ValidExactly and Requests.AcceptsOnlyRequests |
| FirmwareCore.Processor.Reset | firmware/src/firmware_core.c:231-235 | no session and no cached reply |
| FirmwareCore.Processor.ClearSensitive | firmware/src/firmware_core.c:185-214 | exactly the secret part of the payload becomes zero |
| FirmwareCore.ScrubbedPasswords | firmware/src/firmware_core.c:185-214 | after a valid request nothing of network name and password, or of the password, is left |
| Requests.ValidExactly | firmware/src/firmware_core.c:103-183 | a request as the cartridge writes it is valid if and only if it makes sense in its revision: pages 100 to 899 and subpages to 99, the four sources, four chunks, lengths of URLs and passwords, and the settings |
| Requests.ReadsWhatWasWritten | src/teletekst.c:580-605 | from a valid request the Pico takes the page, subpage, source, URL, chunk, password or choice that the cartridge has put in |
| Requests.AcceptsOnlyRequests | firmware/src/firmware_core.c:103-183 | whatever the Pico accepts is the payload of such a request, and of the one it reads in it |
| Requests.SettingsCanBeKept | firmware/src/custom_url_store.c:186-244 | exactly the choices that the store can keep may be asked for, and every URL it can keep |
| Requests.CarriedOutWhenSensible | firmware/src/firmware_core.c:247-385 | in a session, a request with a new sequence number is carried out if and only if it makes sense and the platform succeeds; the reply, byte by byte, says so or gives the error |
| Requests.RefusedOutsideSession | firmware/src/firmware_core.c:266-275 | without a session of its version a request is refused and changes nothing |
| Requests.RefusedWithoutCommand | firmware/src/firmware_core.c:352-360 | a request the platform has no command for is refused and changes nothing |
| Requests.EchoAndInfo | firmware/src/firmware_core.c:327-350 | an echo comes back as it was sent, and the device information is model and version |
| Requests.PasswordsAreWiped | firmware/src/firmware_core.c:185-214 | of a password only its length is left in the request, and every other request stays as it was |
| Requests.SessionOpens | firmware/src/firmware_core.c:285-325 | a session opens in the newest version both sides speak, with the smaller of both limits |
| Requests.SessionRefused | firmware/src/firmware_core.c:285-301 | without a shared version HELLO is refused and nothing changes |
| Requests.NothingToAgreeOn | firmware/src/firmware_core.c:302-312 | a host that takes no payload at all is refused |
| Requests.HelloIsWritten | firmware/src/firmware_core.c:47-52 | every valid HELLO is one of a host with a range of versions and a limit |
| Requests.CartridgeOpens | src/p2wp.c:294-339 | the HELLO of the cartridge opens a session, and the cartridge accepts the answer if and only if the Pico offers Wi-Fi, the Internet and stored profiles |
| Protocol.RunKeepsInv | src/p2wp.c:266-286 | in every run only requests and replies of the current and the previous transaction travel, in order, and the cache holds the last request carried out |
| Protocol.AcceptedIsCurrent | src/p2wp.c:224-247 | a reply that passes validation belongs to the outstanding transaction |
| Protocol.NoStaleReply | src/p2wp.c:224-286 | in every run, what the host accepts was sent for the transaction it is waiting in |
| Protocol.AtMostOnce | firmware/src/firmware_core.c:247-389 | in every run no platform command succeeds twice for one transaction |
| Protocol.ExactlyOnce | src/p2wp.c:266-286 | in every run with fewer than 255 errors in a row, a transaction seen to succeed was carried out once and its reply is the one given then |
| Protocol.NoSequenceConflict | firmware/src/firmware_core.c:276-281 | under that condition a request with the cached sequence number is always a retry |
| Protocol.RetryIsSame | firmware/src/firmware_core.c:253-260 | under that condition the cache recognises only the very transaction it holds |
| CacheGuard.RetryExactly | firmware/src/firmware_core.c:253-260 | the cache matches a request if and only if the two transactions are a multiple of 256 apart and agree in type and checksum |
| CacheGuard.CarriedOutExactly | firmware/src/firmware_core.c:253-385 | in every run, whatever its errors, a transaction seen to succeed was carried out once and has its own reply if and only if the cache never took it for another; otherwise it was not carried out at all |
| CacheGuard.ShortRunsAreSafe | firmware/src/firmware_core.c:253-385 | with fewer than 255 errors in a row the cache takes no transaction for another |
| ProtocolLimits.ExactlyOnceNeedsShortErrorRuns | firmware/src/firmware_core.c:370-385 | a run with 255 errors in a row ends in a success for which nothing was carried out |
| ProtocolLimits.BoundIsSharp | firmware/src/firmware_core.c:253-385 | error runs of at most n are harmless in every run if and only if n is below 255 |
| Transactions.Session.TryOnce | src/p2wp.c:266-286 | one attempt either ends the transaction as the state says or leaves it waiting with one attempt less |
| Transactions.Session.Transact | src/p2wp.c:266-286 | the loop of three attempts is a run of the state machine, and an answer it returns is the Pico's answer to this request, carried out once |
| Transactions.Concluded | src/p2wp.c:341-356 | what any run says about the transaction it concluded |
| Conflicts.ConflictExactly | firmware/src/firmware_core.c:253-281 | after any list of requests, a reused sequence number is refused if and only if type or checksum differ, and nothing changes either way |
| Conflicts.CacheHoldsSuccess | firmware/src/firmware_core.c:370-385 | whatever was served, only replies of success are cached |
| Conflicts.ConflictMissed | firmware/src/firmware_core.c:253-260 | two different echo requests of which the second is answered with the first one's payload |
| Conflicts.PatternIsInvisible | firmware/src/p2wp.c:48-56 | three bytes that spell the polynomial leave every checksum as three zeros do |
| Lz4.Decompress | src/lz4_z80.asm:22-114 | a block decodes to exactly its expansion, at its destination and nowhere else, for every list of sequences whose offsets lie in the output, up to the last byte of memory on either side |
| Lz4.DecodeLiterals | src/lz4_z80.asm:40-75 | the literals of a sequence are copied, and the end of the block is noticed exactly there |
| Lz4.DecodeMatch | src/lz4_z80.asm:76-111 | offset and length are read and the match is copied |
| Lz4.ReadExtension | src/lz4_z80.asm:55-64 | runs of 255 add up with an 8-bit carry to a 16-bit count |
| Lz4.Ldir | src/lz4_z80.asm:108-109 | byte by byte forward on 16-bit addresses that wrap around, 65536 times for a count of zero, with both registers behind the last byte |
| Lz4.CopyOverlapping | src/lz4_z80.asm:79-111 | copied byte by byte, an overlapping match repeats its beginning |
| Lz4.RepeatPeriod | src/lz4_z80.asm:79-111 | every byte of a match equals the byte one offset earlier |
| Clock.LocalComponents | firmware/src/main.c:280-351 | the seven fields are a valid date, weekday and time that recompute to Unix time plus the offset in use; that calendar is the Gregorian one by Clock.ShowsGregorian |
| Clock.FindYear | firmware/src/main.c:285-297 | the year loop ends in the year of the day |
| Clock.FindMonth | firmware/src/main.c:326-343 | the month loop ends in the month of the day, for months that begin where Clock.MonthsAreGregorian says |
| Clock.MonthsAreGregorian | firmware/src/main.c:326-343 | for every month of common and leap years, the days before it are those of the arithmetic calendar with its five months of 153 days |
| Clock.YearsAreGregorian | firmware/src/main.c:285-297 | for every year, the days before it are 365 each and the leap days by quarters, centuries and four centuries |
| Clock.ShowsGregorian | firmware/src/main.c:280-351 | what is shown is the date, weekday and time of that calendar for the seconds since 1970 |
| Clock.SummerTimeExactly | firmware/src/main.c:298-311 | the clock agrees with the directive at exactly all times outside one week in years where November 1 is a Sunday and there is no February 29 |
| Clock.SummerTooLong | firmware/src/main.c:302-304 | on October 28, 2026, at noon the clock still shows summer time |
| Clock.LastSundayIsLast | firmware/src/main.c:303-304 | the formula gives the last Sunday of a month and no other day |
| WifiScan.ScanTable.Callback | firmware/src/main.c:1105-1157 | one sighting updates, adds, replaces the weakest entry or is dropped |
| WifiScan.ScanTable.SortResults | firmware/src/main.c:1162-1172 | the table is reordered as stable insertion sort does |
| WifiScan.TableSummary | firmware/src/main.c:1105-1157 | after any stream the entries are distinct networks, each at its strongest, and no omitted network was ever stronger than a listed one |
| WifiScan.TableSize | firmware/src/main.c:1105-1157 | the table holds all distinct networks or nine of them |
| WifiScan.RankSorts | firmware/src/main.c:1162-1172 | sorting keeps the entries and puts the strongest first |
| WifiScan.RankedSummary | firmware/src/main.c:1105-1172 | both together, for the list that is shown |
| NetworkList.FlagsMean | firmware/src/main.c:1067-1093 | open, with a password, or unsupported, and the kind of connection, from the three flags of the radio |
| NetworkList.ScanResult | firmware/src/main.c:1758-1790 | an entry of a finished scan as it is sent, or none |
| NetworkList.ShowNetwork | src/wifi.c:170-193 | the line of forty cells for an answer that can be right, or none |
| NetworkList.NineLines | src/wifi.c:154-170 | the list holds every network heard, or nine of them |
| NetworkList.EntryIsShown | src/wifi.c:170-193 | a sighted network appears with its number, four bars or dots, its mark and the first 27 characters of its name |
| NetworkList.BarsExactly | src/wifi.c:183-188 | the bars tell the strength if and only if it is below 0 dBm |
| NetworkList.ChoiceIsAccepted | firmware/src/main.c:1792-1816 | a request to connect is accepted if and only if it is one the cartridge sends after a choice from the list |
| FetchCycle.RunKeepsInv | firmware/src/main.c:554-699 | in every interleaving without a deadline during name lookup, an accepted fetch is in exactly one place (queued, being started, live, or being concluded), and body and screen are what has arrived for it |
| FetchCycle.OneRequestAtATime | firmware/src/main.c:724-862 | in every such run at most one HTTP request is live, and it is for the fetch accepted last |
| FetchCycle.EveryFetchEndsOnce | firmware/src/main.c:630-699 | in every such run each accepted fetch has been given exactly one outcome, or none if it is the last one and pending |
| FetchCycle.ParametersFixed | firmware/src/main.c:1944-2003 | from its acceptance until its outcome, over any such run, a fetch keeps page, subpage and source, and any live request is for it |
| FetchCycle.RowsComeFromOneScreen | firmware/src/main.c:2062-2082 | rows served at any two moments of such a run with no fetch accepted in between are slices of the same screen, and that screen is what the bytes that arrived for the fetch accepted last stand for |
| FetchCycle.RunWhileComplete | firmware/src/main.c:2062-2082 | from completion until the next fetch is accepted nothing of the state changes but the radio link |
| FetchCycle.ChunksMakeTheScreen | firmware/src/main.c:2062-2082 | four chunks asked for one after the other, whatever happens meanwhile but another fetch, put together one decoded screen |
| FetchOutcome.EndsAsAnswered | firmware/src/main.c:630-699 | whenever lwIP ends a request, in every interleaving, the fetch ends as the answer demands: error 12 behind a deadline, the error of the link, 8 for 404, 5 for any other status but 200, and for 200 what the body deserves |
| FetchOutcome.EndsAsDecided | firmware/src/main.c:630-760 | once nothing but the page can change the outcome, every calm run ends the fetch with it and leaves it so until the next |
| FetchOutcome.TooLargeIsReported | firmware/src/main.c:588-678 | a fetch for which more than 16384 bytes have arrived ends with error 6 |
| FetchOutcome.FittingDataIsKept | firmware/src/main.c:588-617 | data makes a response too large if and only if more than 16384 bytes have arrived, and otherwise the body is all of them |
| FetchOutcome.AcceptedWhenDone | firmware/src/main.c:1944-1975 | a fetch is accepted if and only if the radio is up and every fetch before it has been given its outcome |
| FetchLimits.AcceptedBodyIsServed | firmware/src/main.c:724-862 | every response of at most 16384 bytes that the decoder accepts can be fetched from reset on, and each screen it stands for is then served in four chunks |
| FetchLimits.ServerPageIsServed | server/server.py:52-73 | in particular every page of every catalogue of the example server, with the server's screen |
| FetchLimits.DnsDeadlineBreaksIt | firmware/src/main.c:868-883 | from every state of the invariant, a deadline during name lookup can be continued to two live requests |
| FetchLimits.LookupIsReached | firmware/src/main.c:868-883 | the first fetch after reset leads to a state in which that deadline can strike |
| FetchLimits.TwoRequestsFromReset | firmware/src/main.c:868-883 | a run from reset to two live requests |
| FetchLimits.ScreenIsTorn | firmware/src/main.c:868-883 | after such a deadline the screen can change while the rows of a complete fetch are being served |
| FetchLimits.SafeExactly | firmware/src/main.c:868-883 | after any run without a deadline during name lookup, a step keeps the invariant, and in all that can follow one live request, one outcome for each fetch, work on the last fetch only and a steady screen, each if and only if it is not that deadline |
| Endpoint.ParseUrl | firmware/src/custom_endpoint.c:17-123 | the scanning loops compute the endpoint given by the specification of the parser |
| Endpoint.ParsesGrammar | firmware/src/custom_endpoint.c:17-123 | a URL is accepted if and only if it is put together from scheme, host, port, path and trailing slashes as the grammar says, and the endpoint is what these parts name |
| Endpoint.PrintRoundTrip | emulator/src/page_backend.c:39-44 | printed again, an accepted URL is not longer and is accepted again; it names the same endpoint if and only if the base path holds no NUL |
| Endpoint.PagePathFits | firmware/src/custom_endpoint.c:126-148 | the path of every page of an accepted endpoint fits its buffer of 96 bytes |
| Addresses.PathSpells | firmware/src/custom_endpoint.c:126-148 | behind the base path stand the directory, three digits of the page and, for a subpage, a dash and its digits |
| Addresses.PathDeterminesPage | firmware/src/custom_endpoint.c:126-148 | two paths of one server are equal if and only if page and subpage are |
| Addresses.StartsInAnyCase | firmware/src/custom_endpoint.c:7-16 | a URL starts with a scheme if and only if it has its letters, each as a capital or a small one |
| Addresses.HostsAreMadeOf | firmware/src/custom_endpoint.c:91-97 | hosts are made of letters, digits, dots, dashes and underscores |
| Addresses.PathsAreMadeOf | firmware/src/custom_endpoint.c:107-112 | base paths hold anything but white space, question marks and hashes |
| Addresses.PartsFit | firmware/src/custom_endpoint.c:17-123 | what is accepted fits the buffers it is copied to |
| Numbers.DecimalReads | firmware/src/custom_endpoint.c:72-85 | decimal digits of a number denote it |
| Numbers.DecimalShortest | firmware/src/custom_endpoint.c:72-85 | no digit string of the same number is shorter |
| UrlStore.Store.Save | firmware/src/custom_url_store.c:186-206 | an invalid URL changes nothing; otherwise the record becomes that of the old settings with the new URL, or stays when the operation fails or nothing is to be changed |
| UrlStore.Store.SaveSettings | firmware/src/custom_url_store.c:229-244 | the same for the auto-start choice |
| UrlStore.Store.Load | firmware/src/custom_url_store.c:102-123 | the URL of the settings, or why there is none |
| UrlStore.Store.LoadSettings | firmware/src/custom_url_store.c:208-227 | the auto-start choice of the settings, disabled when there is none |
| UrlStore.Store.ReadRecord | firmware/src/custom_url_store.c:68-100 | the record found and its status |
| UrlStore.Store.NewRecord | firmware/src/custom_url_store.c:168-184 | a new record starts from the settings of the old one |
| UrlStore.Store.WriteRecord | firmware/src/custom_url_store.c:141-166 | no erase if and only if the valid record is already the wanted one |
| UrlStore.RecordReads | firmware/src/custom_url_store.c:68-100 | the record written for valid settings is read back as these settings |
| UrlStore.RecordExists | firmware/src/custom_url_store.c:168-206 | all valid settings have a record |
| KnownAnswers.RecordLayout | firmware/src/custom_url_store.c:19-27 | a record byte by byte: its name, version, length, choice, the checksum of what stands around it, and the URL |
| KnownAnswers.FnvCheckValues | firmware/src/custom_url_store.c:54-66 | the checksum has the published values of 32-bit FNV-1a |
| UrlStore.SuccessMeans | firmware/src/custom_url_store.c:141-244 | after a success the changed setting is new and the other as before; after a failure the settings are the old or the new ones |
| UrlStore.RepeatIsUnchanged | firmware/src/custom_url_store.c:141-149 | repeating a successful save reports "unchanged" and erases nothing |
| UrlStore.LoadsReturnLastSaves | firmware/src/custom_url_store.c:102-244 | after any run of successful saves each setting is the last value saved for it |
| UrlStore.LegacyMigrates | firmware/src/custom_url_store.c:79-91 | a record of version 1 keeps its URL and becomes one of version 2 with the first successful save |
| UrlStore.DamageIsNoticed | firmware/src/custom_url_store.c:54-83 | a change of any one byte of a valid record, except its length and the unused tail, is noticed |
| Viewer.Viewer.FetchPage | src/teletekst.c:580-681 | outcome, metadata and screen of a fetch from the answers to its requests; which bytes of a status the metadata are is stated by PageStatus.LinksArrive |
| Viewer.FetchShowsWhatArrives | src/teletekst.c:580-681 | a page is shown if and only if it arrives within 1875 polls, with the four chunks that arrived and the links of the status that announced it, which are those the Pico wrote by PageStatus.LinksArrive |
| PageStatus.FetchStatus | firmware/src/main.c:2005-2060 | the payload of a status in every revision: state, error, bytes received, next subpage, clock, links and details, with errors of name lookup and later reported as network errors before version 7 |
| PageStatus.LinksArrive | src/teletekst.c:633-660 | in every version from 2 the viewer reads the next subpage and, from 4 on, the previous and the next page that the Pico has written |
| PageStatus.StatusDecides | src/teletekst.c:609-631 | a status goes on polling, ends the polling, or fails the fetch with the error reported, as its state says |
| PageStatus.StartDecides | src/teletekst.c:604-607 | how a fetch ends that is refused or gets no reply at its start |
| PageStatus.CompleteFetch | src/teletekst.c:580-681 | a fetch the Pico completes in time shows the rows sent and goes by the links of that status |
| PageStatus.ClockArrives | src/teletekst.c:617-647 | from version 3 on the clock, and from 7 on the details of a failure, are read as they were written |
| PageStatus.FollowsTheLink | src/teletekst.c:934-950 | after such a page the automatic mode asks for the next page that the Pico has named, or for page 100 if it has named none |
| PageStatus.KeepsTheLink | src/teletekst.c:655-660 | a later subpage without links leaves those known in place |
| PageStatus.FailureGoesTo | src/teletekst.c:759-771 | errors 5 to 8 move on by one page, from 899 to 100, any other repeats the page, and page 100 ends the automatic mode |
| PageStatus.TurnsToSubpage | src/teletekst.c:899-950 | the next higher subpage comes before the next page |
| Viewer.Viewer.TimerTick | src/teletekst.c:934-950 | which branch is taken when the timer has run out |
| Viewer.Viewer.HandleAutoFailure | src/teletekst.c:759-771 | what a failure does to automatic navigation |
| Viewer.RunStaysInRange | src/teletekst.c:759-784 | whatever the fetches bring, with links that are zero or pages, the page stays between 100 and 899 |
| Viewer.LinksExactly | src/teletekst.c:649-660 | a link keeps the viewer on pages from 100 to 899, whatever else happens, if and only if it is zero or such a page |
| Viewer.FailureMovesOn | src/teletekst.c:899-950 | after a failure of the page, whatever the links of its status, the next fetch is for the page behind the one asked for, whatever subpage is left over |
| Viewer.FailingRunEnds | src/teletekst.c:759-950 | a run of such failures ends after a number of fetches known beforehand, at most 800 (which `LongestRun` reaches), on page 100 with the automatic mode off |
| Viewer.QuietAfterEnd | src/teletekst.c:899-950 | behind the end at most one more fetch happens |
| Viewer.OtherErrorsRetryForever | src/teletekst.c:759-771 | with any other error the same page is asked for again, however long the run |

## Left out

- Clock.LocalComponents: covers 2000 to 2105, the years in which the two-digit year and the 32-bit time are meaningful.
- Protocol.ExactlyOnce: covers one session from HELLO on a reset Pico; sessions that begin while frames of an earlier one are still in flight are not modelled.
- FetchCycle.RunKeepsInv: excludes deadlines during name lookup, for which it does not hold; FetchLimits.SafeExactly gives the exact condition.
- ScreenFile.LoadScreen: starts from the bytes of a .bin file or the code points of a .txt file; reading the file and decoding UTF-8 belong to the Python library.
- Lz4.Decompress: says nothing about malformed blocks, which the decoder does not check for (the blocks are part of the program), nor about a block and an expansion that overlap or wrap around; a copy that wraps is covered by Lz4.Ldir.
- PageText.MarkupRoundTrip: writes every cell in an element of its own with a decimal entity; what any other markup means is stated by PageMeaning.ContentMeans.
- The text of a custom URL is not part of the fetch life cycle, and neither is the choice of the server for a source.
- GPIO mailbox, radio, TLS, name lookup, HTTP and NTP are replaced by arbitrary steps; time-outs are steps that may happen at any moment.
- The viewer's clock, rendering, error screens and keys; page numbers typed by the user.
- Formatting beyond its length: what a truncated `snprintf` leaves in the buffer.
- Power loss between erasing and programming flash; a failed flash operation either ran completely or not at all.
- The server's directory listing (`page_catalog`); a catalogue is a map of screens.
- Wi-Fi profile encryption, password entry, logo and help screens, ROM padding, signing, the emulator's front end.
