/** The fields of a page response other than its markup: the exact screen image and the navigation links. */
module PageFields {
  import opened Bytes
  import opened Sequences
  import opened Json
  import opened Numbers

  const SCREEN_SIZE: nat := 960

  const NEXT_SUBPAGE: seq<byte> := [0x6e, 0x65, 0x78, 0x74, 0x53, 0x75, 0x62, 0x50, 0x61, 0x67, 0x65]
  const PREV_PAGE: seq<byte> := [0x70, 0x72, 0x65, 0x76, 0x50, 0x61, 0x67, 0x65]
  const NEXT_PAGE: seq<byte> := [0x6e, 0x65, 0x78, 0x74, 0x50, 0x61, 0x67, 0x65]
  const BINARY_DISPLAY: seq<byte> :=
    [0x62, 0x69, 0x6e, 0x61, 0x72, 0x79, 0x44, 0x69, 0x73, 0x70, 0x6c, 0x61, 0x79]

  // ---------------------------------------------------------------------------------------
  // Base64 (section 4 of RFC 4648)

  function Sextet(code: nat): (r: Option<nat>)
    ensures r.Some? ==> r.value < 64
  {
    if 0x41 <= code <= 0x5a then Some(code - 0x41)
    else if 0x61 <= code <= 0x7a then Some(code - 0x61 + 26)
    else if 0x30 <= code <= 0x39 then Some(code - 0x30 + 52)
    else if code == 0x2b then Some(62)
    else if code == 0x2f then Some(63)
    else None
  }

  function Letter(sextet: nat): (r: byte)
    requires sextet < 64
    ensures Sextet(r) == Some(sextet) && r != QUOTE && r != BACKSLASH
  {
    if sextet < 26 then 0x41 + sextet
    else if sextet < 52 then 0x61 + sextet - 26
    else if sextet < 62 then 0x30 + sextet - 52
    else if sextet == 62 then 0x2b
    else 0x2f
  }

  /** Three bytes from four sextets. */
  function Group(a: nat, b: nat, c: nat, d: nat): seq<byte>
    requires a < 64 && b < 64 && c < 64 && d < 64
  {
    var group := ((a * 64 + b) * 64 + c) * 64 + d;
    [group / 0x1_0000, group / 0x100 % 0x100, group % 0x100]
  }

  function Decode64(codes: seq<nat>): Option<seq<byte>> {
    if codes == [] then Some([])
    else if |codes| < 4 then None
    else match (Sextet(codes[0]), Sextet(codes[1]), Sextet(codes[2]), Sextet(codes[3]))
      case (Some(a), Some(b), Some(c), Some(d)) =>
        (match Decode64(codes[4..])
         case None => None
         case Some(rest) => Some(Group(a, b, c, d) + rest))
      case _ => None
  }

  function Encode64(data: seq<byte>): (letters: seq<byte>)
    requires |data| % 3 == 0
    ensures |letters| == |data| / 3 * 4 && Plain(letters)
  {
    if data == [] then []
    else
      [Letter(data[0] / 4), Letter(data[0] % 4 * 16 + data[1] / 16),
       Letter(data[1] % 16 * 4 + data[2] / 64), Letter(data[2] % 64)] + Encode64(data[3..])
  }

  lemma GroupRestores(x: byte, y: byte, z: byte)
    ensures Group(x / 4, x % 4 * 16 + y / 16, y % 16 * 4 + z / 64, z % 64) == [x, y, z]
  {
    Horner(x / 4, x % 4, y / 16, y % 16, z / 64, z % 64);
    ThreeBytes(x, y, z);
  }

  lemma Horner(x1: nat, x2: nat, y1: nat, y2: nat, z1: nat, z2: nat)
    ensures ((x1 * 64 + (x2 * 16 + y1)) * 64 + (y2 * 4 + z1)) * 64 + z2 ==
            (x1 * 4 + x2) * 0x1_0000 + (y1 * 16 + y2) * 0x100 + (z1 * 64 + z2)
  {
  }

  lemma ThreeBytes(x: byte, y: byte, z: byte)
    ensures var group := x as nat * 0x1_0000 + y as nat * 0x100 + z;
            group / 0x1_0000 == x && group / 0x100 % 0x100 == y && group % 0x100 == z
  {
    var group := x as nat * 0x1_0000 + y as nat * 0x100 + z;
    assert group / 0x100 == x as nat * 0x100 + y;
  }

  predicate Sextets(codes: seq<nat>) {
    forall i :: 0 <= i < |codes| ==> Sextet(codes[i]).Some?
  }

  function GroupOf(codes: seq<nat>): seq<byte>
    requires Sextets(codes) && |codes| == 4
  {
    Group(Sextet(codes[0]).value, Sextet(codes[1]).value, Sextet(codes[2]).value, Sextet(codes[3]).value)
  }

  lemma DecodeGroup(gathered: seq<nat>, more: seq<nat>)
    requires Sextets(gathered) && |gathered| == 4
    ensures Decode64(gathered + more) ==
            match Decode64(more) case None => None case Some(bytes) => Some(GroupOf(gathered) + bytes)
  {
    assert (gathered + more)[4..] == more;
  }

  lemma CodesOfGroup(a: byte, b: byte, c: byte, d: byte, rest: seq<byte>)
    ensures Codes([a, b, c, d] + rest) == [a as nat, b as nat, c as nat, d as nat] + Codes(rest)
  {
  }

  /** Decoding inverts encoding. */
  lemma {:induction false} Base64RoundTrip(data: seq<byte>)
    requires |data| % 3 == 0
    ensures Decode64(Codes(Encode64(data))) == Some(data)
  {
    hide Group, Sextet, Letter, Codes;
    if data == [] {
      NoCodes();
    } else {
      var x, y, z, rest := data[0], data[1], data[2], Encode64(data[3..]);
      var a, b, c, d := Letter(x / 4), Letter(x % 4 * 16 + y / 16), Letter(y % 16 * 4 + z / 64), Letter(z % 64);
      Base64RoundTrip(data[3..]);
      CodesOfGroup(a, b, c, d, rest);
      DecodeGroup([a, b, c, d], Codes(rest));
      GroupRestores(x, y, z);
      assert [x, y, z] + data[3..] == data;
    }
  }

  lemma NoCodes()
    ensures Codes([]) == []
  {
  }

  datatype BinaryDisplay = Absent | Exact(screen: seq<byte>) | Invalid

  function BinaryDisplayOf(text: seq<byte>): BinaryDisplay {
    match Find(text, BINARY_DISPLAY, 0)
    case None => Absent
    case Some(position) =>
      match StringAt(text, position)
      case None => Invalid
      case Some(codes) =>
        match Decode64(codes)
        case Some(screen) => if |screen| == SCREEN_SIZE then Exact(screen) else Invalid
        case None => Invalid
  }

  /** The value of the sextets gathered so far. */
  function GroupValue(codes: seq<nat>): nat
    requires Sextets(codes)
  {
    if codes == [] then 0 else GroupValue(codes[..|codes| - 1]) * 64 + Sextet(codes[|codes| - 1]).value
  }

  lemma GroupValueIs(codes: seq<nat>)
    requires Sextets(codes) && |codes| == 4
    ensures GroupValue(codes) ==
            ((Sextet(codes[0]).value * 64 + Sextet(codes[1]).value) * 64 + Sextet(codes[2]).value) * 64 + Sextet(codes[3]).value
  {
    hide Sextet;
    var c3, c2, c1 := codes[..3], codes[..2], codes[..1];
    assert c3[..2] == c2 && c2[..1] == c1 && c1[..0] == [];
    assert GroupValue(c1) == Sextet(codes[0]).value;
    assert GroupValue(c2) == GroupValue(c1) * 64 + Sextet(codes[1]).value;
    assert GroupValue(c3) == GroupValue(c2) * 64 + Sextet(codes[2]).value;
  }

  lemma GroupValueBytes(codes: seq<nat>)
    requires Sextets(codes) && |codes| == 4
    ensures var group := GroupValue(codes);
            [group / 0x1_0000 % 0x100, group / 0x100 % 0x100, group % 0x100] == GroupOf(codes)
  {
    hide Sextet, GroupValue;
    GroupValueIs(codes);
    var group := GroupValue(codes);
    assert group < 0x100_0000;
    assert group / 0x1_0000 < 0x100;
  }

  /** Decoding as the input goes by: up to three sextets are pending, the rest is on the screen. */
  function DecodeStream(text: seq<byte>, position: nat, pending: seq<nat>, screen: seq<byte>): Option<seq<byte>>
    requires Sextets(pending) && |pending| < 4
    decreases |text| - position
  {
    var (token, after) := Next(text, position);
    match token
    case Bad => None
    case End => if pending == [] && |screen| == SCREEN_SIZE then Some(screen) else None
    case Code(code) =>
      if Sextet(code).None? then None
      else
        var gathered := pending + [code];
        if |gathered| < 4 then DecodeStream(text, after, gathered, screen)
        else if |screen| > SCREEN_SIZE - 3 then None
        else DecodeStream(text, after, [], screen + GroupOf(gathered))
  }

  /** What a screen and codes still to be decoded amount to. */
  function Completed(screen: seq<byte>, rest: Option<seq<byte>>): Option<seq<byte>> {
    match rest
    case None => None
    case Some(bytes) => if |screen| + |bytes| == SCREEN_SIZE then Some(screen + bytes) else None
  }

  function DecodeRest(pending: seq<nat>, codes: Option<seq<nat>>): Option<seq<byte>> {
    match codes
    case None => None
    case Some(more) => Decode64(pending + more)
  }

  lemma DecodeBadLetter(pending: seq<nat>, code: nat, more: seq<nat>)
    requires |pending| < 4 && Sextet(code).None?
    ensures Decode64(pending + [code] + more).None?
  {
    var codes := pending + [code] + more;
    assert codes[|pending|] == code;
  }

  /** The streaming decoder computes what decoding the whole string at once would. */
  lemma {:induction false} StreamDecodesString(text: seq<byte>, position: nat, pending: seq<nat>, screen: seq<byte>)
    requires Sextets(pending) && |pending| < 4
    ensures DecodeStream(text, position, pending, screen) ==
            Completed(screen, DecodeRest(pending, StringAt(text, position)))
    decreases |text| - position
  {
    var (token, after) := Next(text, position);
    match token {
      case Bad =>
      case End =>
        All(pending);
        All(screen);
      case Code(code) =>
        var rest, gathered := StringAt(text, after), pending + [code];
        if rest.Some? {
          Associative(pending, [code], rest.value);
        }
        if Sextet(code).None? {
          if rest.Some? {
            DecodeBadLetter(pending, code, rest.value);
          }
        } else if |gathered| < 4 {
          StreamDecodesString(text, after, gathered, screen);
        } else {
          StreamDecodesString(text, after, [], screen + GroupOf(gathered));
          if rest.Some? {
            All(rest.value);
            DecodeGroup(gathered, rest.value);
            if Decode64(rest.value).Some? {
              Associative(screen, GroupOf(gathered), Decode64(rest.value).value);
            }
          }
        }
    }
  }

  /** Base64 straight out of the JSON string into the screen. An invalid image leaves a part of it behind. */
  method ParseBinaryDisplay(text: seq<byte>, screen: array<byte>) returns (result: BinaryDisplay)
    requires screen.Length == SCREEN_SIZE
    modifies screen
    ensures result == BinaryDisplayOf(text)
    ensures result.Absent? ==> screen[..] == old(screen[..])
    ensures result.Exact? ==> screen[..] == result.screen
  {
    var value := FindJsonString(text, BINARY_DISPLAY);
    if value.None? {
      return Absent;
    }
    StreamIsDisplay(text, value.value);
    result := DecodeInto(text, value.value, screen);
  }

  lemma StreamIsDisplay(text: seq<byte>, start: nat)
    requires Find(text, BINARY_DISPLAY, 0) == Some(start)
    ensures BinaryDisplayOf(text) ==
            match DecodeStream(text, start, [], []) case Some(screen) => Exact(screen) case None => Invalid
  {
    StreamDecodesString(text, start, [], []);
    var codes := StringAt(text, start);
    if codes.Some? {
      All(codes.value);
      if Decode64(codes.value).Some? {
        All(Decode64(codes.value).value);
      }
    }
  }

  method DecodeInto(text: seq<byte>, start: nat, screen: array<byte>) returns (result: BinaryDisplay)
    requires screen.Length == SCREEN_SIZE
    modifies screen
    ensures result == match DecodeStream(text, start, [], []) case Some(image) => Exact(image) case None => Invalid
    ensures result.Exact? ==> screen[..] == result.screen
  {
    hide DecodeStream, GroupValue, GroupOf, Sextet, Next;
    var position, group, sextets, output := start, 0, 0, 0;
    ghost var pending: seq<nat> := [];
    assert screen[..output] == [];
    NothingGathered();
    while true
      invariant output <= SCREEN_SIZE && sextets == |pending| < 4
      invariant Sextets(pending) && group == GroupValue(pending)
      invariant DecodeStream(text, position, pending, screen[..output]) == DecodeStream(text, start, [], [])
      decreases |text| - position
    {
      StreamStep(text, position, pending, screen[..output]);
      var (token, after) := Next(text, position);
      if token.End? {
        break;
      }
      if token.Bad? || Sextet(token.code).None? {
        return Invalid;
      }
      position := after;
      ghost var gathered := pending + [token.code];
      GroupValueStep(pending, token.code);
      group, sextets := group * 64 + Sextet(token.code).value, sextets + 1;
      if sextets == 4 {
        if output > SCREEN_SIZE - 3 {
          return Invalid;
        }
        GroupValueBytes(gathered);
        ghost var done := screen[..output];
        screen[output], screen[output + 1], screen[output + 2] :=
          group / 0x1_0000 % 0x100, group / 0x100 % 0x100, group % 0x100;
        output := output + 3;
        assert screen[..output] == done + GroupOf(gathered);
        group, sextets, pending := 0, 0, [];
      } else {
        pending := gathered;
      }
    }
    All(screen[..]);
    assert screen[..output] == screen[..][..output];
    return if sextets == 0 && output == SCREEN_SIZE then Exact(screen[..]) else Invalid;
  }

  lemma NothingGathered()
    ensures GroupValue([]) == 0
  {
  }

  lemma GroupValueStep(pending: seq<nat>, code: nat)
    requires Sextets(pending) && Sextet(code).Some?
    ensures Sextets(pending + [code])
    ensures GroupValue(pending + [code]) == GroupValue(pending) * 64 + Sextet(code).value
  {
    assert (pending + [code])[..|pending|] == pending;
  }

  /** One turn of the stream decoder. */
  lemma StreamStep(text: seq<byte>, position: nat, pending: seq<nat>, screen: seq<byte>)
    requires Sextets(pending) && |pending| < 4
    ensures DecodeStream(text, position, pending, screen) ==
            var (token, after) := Next(text, position);
            match token
            case Bad => None
            case End => if pending == [] && |screen| == SCREEN_SIZE then Some(screen) else None
            case Code(code) =>
              if Sextet(code).None? then None
              else
                var gathered := pending + [code];
                if |gathered| < 4 then DecodeStream(text, after, gathered, screen)
                else if |screen| > SCREEN_SIZE - 3 then None
                else DecodeStream(text, after, [], screen + GroupOf(gathered))
  {
  }

  // ---------------------------------------------------------------------------------------
  // Navigation

  /** Digits seen so far in a link. */
  datatype Link = Link(page: nat, subpage: nat, separator: bool, havePage: bool, haveSubpage: bool)

  const NO_LINK := Link(0, 0, false, false, false)

  function LinkStep(link: Link, code: nat): Option<Link> {
    if code == 0x2d then
      if link.separator || !link.havePage then None else Some(link.(separator := true))
    else if code < 0x30 || code > 0x39 then None
    else
      var next :=
        if !link.separator then link.(havePage := true, page := link.page * 10 + (code - 0x30))
        else link.(haveSubpage := true, subpage := link.subpage * 10 + (code - 0x30));
      if next.page > 999 || next.subpage > 255 then None else Some(next)
  }

  function LinkOf(link: Link, codes: seq<nat>): Option<Link>
    decreases |codes|
  {
    if codes == [] then Some(link)
    else match LinkStep(link, codes[0])
      case None => None
      case Some(next) => LinkOf(next, codes[1..])
  }

  /** Zero when there is no further subpage. */
  function SubpageOf(link: Link, requestedPage: nat): (r: Option<nat>)
    ensures r.Some? && link.subpage <= 255 ==> r.value <= 255
  {
    if !link.havePage then (if link.separator then None else Some(0))
    else if !link.separator then (if link.page == 0 || link.page == requestedPage then Some(0) else None)
    else if !link.haveSubpage || link.page != requestedPage || link.subpage == 0 then None
    else Some(link.subpage)
  }

  const DASH: nat := 0x2d

  /** What a string of this form leaves behind: the number of a page, or of a page and a subpage. */
  function LinkShape(codes: seq<nat>): Option<Link> {
    var dash := FirstAt(codes, DASH);
    var page := NumberOf(codes[..dash], 10);
    if page.None? || page.value > 999 then None
    else if dash == |codes| then Some(Link(page.value, 0, false, codes != [], false))
    else
      var subpage := NumberOf(codes[dash + 1..], 10);
      if dash == 0 || subpage.None? || subpage.value > 255 then None
      else Some(Link(page.value, subpage.value, true, true, dash + 1 < |codes|))
  }

  lemma LinkOfLast(link: Link, codes: seq<nat>, last: nat)
    ensures LinkOf(link, codes + [last]) ==
            match LinkOf(link, codes) case None => None case Some(next) => LinkStep(next, last)
    decreases |codes|
  {
    hide LinkStep;
    if codes == [] {
      assert ([] + [last])[1..] == [];
    } else {
      TailOfConcat(codes, [last]);
      if LinkStep(link, codes[0]).Some? {
        LinkOfLast(LinkStep(link, codes[0]).value, codes[1..], last);
      }
    }
  }

  lemma NumberOfLast(codes: seq<nat>, last: nat)
    ensures NumberOf(codes + [last], 10) ==
            match (NumberOf(codes, 10), Digit(last, 10))
            case (Some(high), Some(digit)) => Some(high * 10 + digit)
            case _ => None
  {
    assert (codes + [last])[..|codes|] == codes;
  }

  lemma ShapeOfLast(codes: seq<nat>, last: nat)
    ensures LinkShape(codes + [last]) ==
            match LinkShape(codes) case None => None case Some(link) => LinkStep(link, last)
  {
    hide LinkShape, LinkStep, FirstAt;
    if FirstAt(codes, DASH) < |codes| {
      SubpageGoesOn(codes, last);
    } else if last == DASH {
      SubpageBegins(codes);
    } else {
      PageGoesOn(codes, last);
    }
  }

  lemma StepOfSubpage(page: nat, subpage: nat, haveSubpage: bool, last: nat)
    requires page <= 999
    ensures LinkStep(Link(page, subpage, true, true, haveSubpage), last) ==
            match Digit(last, 10)
            case None => None
            case Some(digit) =>
              if subpage * 10 + digit > 255 then None else Some(Link(page, subpage * 10 + digit, true, true, true))
  {
  }

  lemma ShapeOfSubpage(page: seq<nat>, subpage: seq<nat>)
    requires DASH !in page
    ensures LinkShape(page + [DASH] + subpage) ==
            match (NumberOf(page, 10), NumberOf(subpage, 10))
            case (Some(p), Some(s)) =>
              if page == [] || p > 999 || s > 255 then None else Some(Link(p, s, true, true, subpage != []))
            case _ => None
  {
    hide NumberOf, FirstAt;
    var codes := page + [DASH] + subpage;
    FirstIs(codes, DASH, |page|);
    assert codes[..|page|] == page && codes[|page| + 1..] == subpage;
  }

  lemma SubpageGoesOn(codes: seq<nat>, last: nat)
    requires FirstAt(codes, DASH) < |codes|
    ensures LinkShape(codes + [last]) ==
            match LinkShape(codes) case None => None case Some(link) => LinkStep(link, last)
  {
    hide NumberOf, Digit, FirstAt, LinkShape, LinkStep;
    var dash := FirstAt(codes, DASH);
    var page, subpage := codes[..dash], codes[dash + 1..];
    assert codes == page + [DASH] + subpage;
    Associative(page + [DASH], subpage, [last]);
    ShapeOfSubpage(page, subpage);
    ShapeOfSubpage(page, subpage + [last]);
    NumberOfLast(subpage, last);
    if LinkShape(codes).Some? {
      StepOfSubpage(NumberOf(page, 10).value, NumberOf(subpage, 10).value, subpage != [], last);
    }
  }

  lemma SubpageBegins(codes: seq<nat>)
    requires FirstAt(codes, DASH) == |codes|
    ensures LinkShape(codes + [DASH]) ==
            match LinkShape(codes) case None => None case Some(link) => LinkStep(link, DASH)
  {
    hide NumberOf, FirstAt;
    var longer := codes + [DASH];
    FirstIs(longer, DASH, |codes|);
    assert longer[..|codes|] == codes && codes[..|codes|] == codes && longer[|codes| + 1..] == [];
    NothingIsZero();
  }

  lemma ShapeOfPage(codes: seq<nat>)
    requires FirstAt(codes, DASH) == |codes|
    ensures LinkShape(codes) ==
            match NumberOf(codes, 10)
            case None => None
            case Some(page) => if page > 999 then None else Some(Link(page, 0, false, codes != [], false))
  {
    hide NumberOf, FirstAt;
    All(codes);
  }

  lemma StepOfPage(page: nat, havePage: bool, last: nat)
    requires last != DASH
    ensures LinkStep(Link(page, 0, false, havePage, false), last) ==
            match Digit(last, 10)
            case None => None
            case Some(digit) =>
              if page * 10 + digit > 999 then None else Some(Link(page * 10 + digit, 0, false, true, false))
  {
  }

  lemma PageGoesOn(codes: seq<nat>, last: nat)
    requires FirstAt(codes, DASH) == |codes| && last != DASH
    ensures LinkShape(codes + [last]) ==
            match LinkShape(codes) case None => None case Some(link) => LinkStep(link, last)
  {
    hide LinkShape, LinkStep, NumberOf, Digit, FirstAt;
    var longer := codes + [last];
    FirstIs(longer, DASH, |longer|);
    ShapeOfPage(longer);
    ShapeOfPage(codes);
    NumberOfLast(codes, last);
    if NumberOf(codes, 10).Some? {
      StepOfPage(NumberOf(codes, 10).value, codes != [], last);
    }
  }

  lemma NothingIsZero()
    ensures NumberOf([], 10) == Some(0)
  {
  }

  lemma {:induction false} LinkHasShape(codes: seq<nat>)
    ensures LinkOf(NO_LINK, codes) == LinkShape(codes)
    decreases |codes|
  {
    hide LinkStep, LinkShape;
    if codes == [] {
      ShapeOfNothing();
    } else {
      var n := |codes| - 1;
      LinkHasShape(codes[..n]);
      assert codes[..n] + [codes[n]] == codes;
      LinkOfLast(NO_LINK, codes[..n], codes[n]);
      ShapeOfLast(codes[..n], codes[n]);
    }
  }

  lemma ShapeOfNothing()
    ensures LinkShape([]) == Some(NO_LINK)
  {
  }

  predicate IsNumber(codes: seq<nat>) {
    codes != [] && NumberOf(codes, 10).Some?
  }

  function Value(codes: seq<nat>): nat
    requires IsNumber(codes)
  {
    NumberOf(codes, 10).value
  }

  /** The requested page and a dash in front of a number from 1 to 255. */
  ghost predicate NamesPart(codes: seq<nat>, page: seq<nat>, part: seq<nat>, requestedPage: nat, subpage: nat) {
    && codes == page + [DASH] + part && IsNumber(page) && IsNumber(part)
    && Value(page) == requestedPage <= 999 && 1 <= subpage == Value(part) <= 255
  }

  /** Nothing; a number alone, zero or that of the requested page; or the requested page and a subpage. */
  ghost predicate NamesSubpage(codes: seq<nat>, requestedPage: nat, subpage: nat) {
    || (codes == [] && subpage == 0)
    || (IsNumber(codes) && Value(codes) <= 999 && (Value(codes) == 0 || Value(codes) == requestedPage) && subpage == 0)
    || exists page, part :: NamesPart(codes, page, part, requestedPage, subpage)
  }

  lemma PartHasShape(codes: seq<nat>, page: seq<nat>, part: seq<nat>, requestedPage: nat, subpage: nat)
    requires NamesPart(codes, page, part, requestedPage, subpage)
    ensures LinkShape(codes) == Some(Link(requestedPage, subpage, true, true, true))
  {
    hide NumberOf;
    var dash := |page|;
    NoDash(page);
    FirstIs(codes, DASH, dash);
    assert codes[..dash] == page && codes[dash + 1..] == part;
  }

  lemma NoDash(codes: seq<nat>)
    requires NumberOf(codes, 10).Some?
    ensures forall i :: 0 <= i < |codes| ==> codes[i] != DASH
  {
    hide NumberOf;
    forall i | 0 <= i < |codes|
      ensures codes[i] != DASH
    {
      if codes[i] == DASH {
        NotANumber(codes, i);
      }
    }
  }

  /** A subpage is read exactly from the strings that name it. */
  lemma SubpageIsNamed(codes: seq<nat>, requestedPage: nat, subpage: nat)
    ensures LinkOf(NO_LINK, codes).Some? && SubpageOf(LinkOf(NO_LINK, codes).value, requestedPage) == Some(subpage) <==>
            NamesSubpage(codes, requestedPage, subpage)
  {
    hide NumberOf;
    LinkHasShape(codes);
    var dash := FirstAt(codes, DASH);
    if LinkShape(codes).Some? && SubpageOf(LinkShape(codes).value, requestedPage) == Some(subpage) {
      if dash < |codes| {
        assert codes == codes[..dash] + [DASH] + codes[dash + 1..];
        assert NamesPart(codes, codes[..dash], codes[dash + 1..], requestedPage, subpage);
      } else {
        assert codes[..dash] == codes;
      }
    }
    if NamesSubpage(codes, requestedPage, subpage) {
      if page, part :| NamesPart(codes, page, part, requestedPage, subpage) {
        PartHasShape(codes, page, part, requestedPage, subpage);
      } else {
        NumberHasShape(codes);
      }
    }
  }

  lemma NumberHasShape(codes: seq<nat>)
    requires codes == [] || IsNumber(codes)
    ensures NumberOf(codes, 10).Some?
    ensures LinkShape(codes) ==
            if NumberOf(codes, 10).value > 999 then None
            else Some(Link(NumberOf(codes, 10).value, 0, false, codes != [], false))
  {
    NoDash(codes);
    FirstIs(codes, DASH, |codes|);
    assert codes[..|codes|] == codes;
  }

  function NextSubpageOf(text: seq<byte>, requestedPage: nat): Option<nat> {
    match Find(text, NEXT_SUBPAGE, 0)
    case None => None
    case Some(position) =>
      match StringAt(text, position)
      case None => None
      case Some(codes) =>
        match LinkOf(NO_LINK, codes)
        case None => None
        case Some(link) => SubpageOf(link, requestedPage)
  }

  /** The response has a readable string of that name, and the string names the subpage. */
  ghost predicate NextSubpageNamed(text: seq<byte>, requestedPage: nat, subpage: nat) {
    && Find(text, NEXT_SUBPAGE, 0).Some?
    && StringAt(text, Find(text, NEXT_SUBPAGE, 0).value).Some?
    && NamesSubpage(StringAt(text, Find(text, NEXT_SUBPAGE, 0).value).value, requestedPage, subpage)
  }

  lemma NextSubpageIsNamed(text: seq<byte>, requestedPage: nat)
    ensures forall n: nat :: NextSubpageOf(text, requestedPage) == Some(n) <==> NextSubpageNamed(text, requestedPage, n)
  {
    hide Find, StringAt, LinkOf, SubpageOf, NamesSubpage;
    var found := Find(text, NEXT_SUBPAGE, 0);
    if found.Some? && StringAt(text, found.value).Some? {
      forall n: nat
        ensures NextSubpageOf(text, requestedPage) == Some(n) <==> NextSubpageNamed(text, requestedPage, n)
      {
        SubpageIsNamed(StringAt(text, found.value).value, requestedPage, n);
      }
    }
  }

  method ParseNextSubpage(text: seq<byte>, requestedPage: nat) returns (subpage: Option<nat>)
    ensures subpage == NextSubpageOf(text, requestedPage)
    ensures forall n: nat :: subpage == Some(n) <==> NextSubpageNamed(text, requestedPage, n)
  {
    NextSubpageIsNamed(text, requestedPage);
    var value := FindJsonString(text, NEXT_SUBPAGE);
    if value.None? {
      return None;
    }
    var position, link := value.value, NO_LINK;
    while true
      invariant LinkFrom(link, StringAt(text, position)) == LinkFrom(NO_LINK, StringAt(text, value.value))
      decreases |text| - position
    {
      var (token, after) := Next(text, position);
      if token.End? {
        break;
      }
      if token.Bad? {
        return None;
      }
      LinkFromStep(link, token.code, StringAt(text, after));
      var next := LinkStep(link, token.code);
      if next.None? {
        return None;
      }
      link, position := next.value, after;
    }
    return SubpageOf(link, requestedPage);
  }

  ghost function LinkFrom(link: Link, codes: Option<seq<nat>>): Option<Link> {
    match codes
    case None => None
    case Some(rest) => LinkOf(link, rest)
  }

  lemma LinkFromStep(link: Link, code: nat, rest: Option<seq<nat>>)
    ensures LinkFrom(link, if rest.Some? then Some([code] + rest.value) else None) ==
            if LinkStep(link, code).Some? then LinkFrom(LinkStep(link, code).value, rest) else None
  {
    if rest.Some? {
      assert ([code] + rest.value)[1..] == rest.value;
    }
  }

  /** A neighbouring page: empty, or three digits from 100 to 899. */
  function PageLinkValue(codes: seq<nat>): Option<nat> {
    var number := NumberOf(codes, 10);
    if codes == [] then Some(0)
    else if |codes| != 3 || number.None? || number.value < 100 || number.value > 899 then None
    else number
  }

  function PageLinkOf(text: seq<byte>, key: seq<byte>): Option<nat> {
    match Find(text, key, 0)
    case None => Some(0)
    case Some(position) =>
      match StringAt(text, position)
      case None => None
      case Some(codes) => PageLinkValue(codes)
  }

  method ParsePageLink(text: seq<byte>, key: seq<byte>) returns (page: Option<nat>)
    ensures page == PageLinkOf(text, key)
  {
    hide StringAt, NumberOf, Digit, Next;
    var value := FindJsonString(text, key);
    if value.None? {
      return Some(0);
    }
    var position, parsed, digits := value.value, 0, 0;
    ghost var before: seq<nat> := [];
    PrefixedByNothing(StringAt(text, position));
    NothingIsZero();
    while true
      invariant digits == |before| <= 3
      invariant NumberOf(before, 10) == Some(parsed)
      invariant PrefixedBy(before, StringAt(text, position)) == PrefixedBy([], StringAt(text, value.value))
      decreases |text| - position
    {
      var (token, after) := Next(text, position);
      PrefixedByStep(before, text, position);
      if token.End? {
        break;
      }
      if token.Bad? || token.code < 0x30 || token.code > 0x39 || digits == 3 {
        ghost var rest := StringAt(text, after);
        if token.Code? && rest.Some? {
          LinkRejects(before, token.code, rest.value);
        }
        return None;
      }
      NumberOfLast(before, token.code);
      DecimalDigit(token.code);
      before := before + [token.code];
      parsed, digits, position := parsed * 10 + (token.code - 0x30), digits + 1, after;
    }
    if digits == 0 {
      return Some(0);
    }
    if digits != 3 || parsed < 100 || parsed > 899 {
      return None;
    }
    return Some(parsed);
  }

  lemma DecimalDigit(code: nat)
    requires 0x30 <= code <= 0x39
    ensures Digit(code, 10) == Some(code - 0x30)
  {
  }

  lemma LinkRejects(before: seq<nat>, code: nat, rest: seq<nat>)
    requires |before| == 3 || code < 0x30 || code > 0x39
    ensures PageLinkValue(before + [code] + rest).None?
  {
    var codes := before + [code] + rest;
    assert codes[|before|] == code;
    if |before| != 3 {
      NotANumber(codes, |before|);
    }
  }
}
