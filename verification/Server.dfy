/**
 The example page server, as the encoder that the firmware's decoder has to invert: a catalogue of
 screens, and the flat JSON object built for one of them.
 */
module Server {
  import opened Bytes
  import opened Sequences
  import opened Json
  import opened Numbers
  import opened PageFields

  // ---------------------------------------------------------------------------------------
  // The catalogue

  /** Screens by page and subpage; subpage 0 is the page itself. */
  type Catalog = map<(nat, nat), seq<byte>>

  /** What the page file names and the loader guarantee. */
  ghost predicate ValidCatalog(catalog: Catalog) {
    forall key :: key in catalog ==> 100 <= key.0 <= 899 && key.1 <= 99 && |catalog[key]| == SCREEN_SIZE
  }

  function Least(s: set<nat>): (m: nat)
    requires s != {}
    ensures m in s && forall x :: x in s ==> m <= x
  {
    LeastExists(s);
    var m :| m in s && forall x :: x in s ==> m <= x;
    m
  }

  lemma {:induction false} LeastExists(s: set<nat>)
    requires s != {}
    ensures exists m :: m in s && forall x :: x in s ==> m <= x
    decreases |s|
  {
    var y :| y in s;
    if s == {y} {
      assert forall x :: x in s ==> y <= x;
    } else {
      LeastExists(s - {y});
      var m :| m in s - {y} && forall x :: x in s - {y} ==> m <= x;
      LeastOfBoth(s, y, m);
    }
  }

  lemma LeastOfBoth(s: set<nat>, y: nat, m: nat)
    requires y in s && m in s - {y} && forall x :: x in s - {y} ==> m <= x
    ensures exists m :: m in s && forall x :: x in s ==> m <= x
  {
    var least := if m <= y then m else y;
    assert forall x :: x in s ==> x == y || x in s - {y};
    assert least in s && forall x :: x in s ==> least <= x;
  }

  ghost predicate Increasing(s: seq<nat>) {
    forall i, j :: 0 <= i < j < |s| ==> s[i] < s[j]
  }

  function Sorted(s: set<nat>): (r: seq<nat>)
    ensures forall x :: x in s <==> x in r
    ensures Increasing(r)
    decreases |s|
  {
    if s == {} then []
    else
      var m := Least(s);
      [m] + Sorted(s - {m})
  }

  function PageNumbers(catalog: Catalog): set<nat> {
    set key | key in catalog :: key.0
  }

  /** Numbered subpages of a page. */
  function Subpages(catalog: Catalog, page: nat): set<nat> {
    set key | key in catalog && key.0 == page && key.1 != 0 :: key.1
  }

  function Position(s: seq<nat>, x: nat): (i: nat)
    requires x in s
    ensures i < |s| && s[i] == x
  {
    if s[0] == x then 0 else Position(s[1..], x) + 1
  }

  /** The first element that is larger. */
  function FirstAbove(s: seq<nat>, x: nat): (r: Option<nat>)
    ensures r.Some? ==> r.value in s && r.value > x
  {
    if s == [] then None else if s[0] > x then Some(s[0]) else FirstAbove(s[1..], x)
  }

  lemma {:induction false} FirstAboveIsLeast(s: seq<nat>, x: nat, y: nat)
    requires Increasing(s) && y in s && y > x
    ensures FirstAbove(s, x).Some? && FirstAbove(s, x).value <= y
  {
    if s[0] > x {
      assert s[0] <= y;
    } else {
      FirstAboveIsLeast(s[1..], x, y);
    }
  }

  // ---------------------------------------------------------------------------------------
  // The response

  function LinkText(page: Option<nat>): (text: seq<byte>) {
    if page.Some? then Decimal(page.value) else []
  }

  function SubpageText(page: nat, part: Option<nat>): (text: seq<byte>) {
    if part.Some? then Decimal(page) + [0x2d] + Decimal(part.value) else []
  }

  datatype Response = Response(prevPage: seq<byte>, nextPage: seq<byte>, nextSubPage: seq<byte>, binaryDisplay: seq<byte>)

  function PreviousPage(catalog: Catalog, page: nat): (r: Option<nat>)
    requires page in PageNumbers(catalog)
    ensures r.Some? ==> r.value in PageNumbers(catalog)
  {
    var numbers := Sorted(PageNumbers(catalog));
    var position := Position(numbers, page);
    if position > 0 then Some(numbers[position - 1]) else None
  }

  function FollowingPage(catalog: Catalog, page: nat): (r: Option<nat>)
    requires page in PageNumbers(catalog)
    ensures r.Some? ==> r.value in PageNumbers(catalog)
  {
    var numbers := Sorted(PageNumbers(catalog));
    var position := Position(numbers, page);
    if position + 1 < |numbers| then Some(numbers[position + 1]) else None
  }

  function FollowingSubpage(catalog: Catalog, page: nat, subpage: nat): (r: Option<nat>)
    ensures r.Some? ==> r.value in Subpages(catalog, page)
  {
    FirstAbove(Sorted(Subpages(catalog, page)), subpage)
  }

  lemma InCatalog(catalog: Catalog)
    requires ValidCatalog(catalog)
    ensures forall p :: p in PageNumbers(catalog) ==> 100 <= p <= 899
    ensures forall page, s :: s in Subpages(catalog, page) ==> 1 <= s <= 99
    ensures forall key :: key in catalog ==> key.0 in PageNumbers(catalog)
  {
  }

  lemma WholeGroups(catalog: Catalog, page: nat, subpage: nat)
    requires ValidCatalog(catalog) && (page, subpage) in catalog
    ensures |catalog[(page, subpage)]| % 3 == 0
  {
    assert |catalog[(page, subpage)]| == SCREEN_SIZE;
  }

  ghost function PageResponse(catalog: Catalog, page: nat, subpage: nat): (r: Option<Response>)
    requires ValidCatalog(catalog)
    ensures r.Some? <==> (page, subpage) in catalog
  {
    if (page, subpage) !in catalog then None
    else
      InCatalog(catalog);
      WholeGroups(catalog, page, subpage);
      var previous := PreviousPage(catalog, page);
      var following := FollowingPage(catalog, page);
      var next := FollowingSubpage(catalog, page, subpage);
      Some(Response(
        LinkText(previous),
        LinkText(following),
        SubpageText(page, next),
        Encode64(catalog[(page, subpage)])))
  }

  /** The neighbours are what their names say: nothing of the catalogue lies between. */
  lemma Neighbours(catalog: Catalog, page: nat, other: nat)
    requires page in PageNumbers(catalog) && other in PageNumbers(catalog)
    ensures other < page ==> PreviousPage(catalog, page).Some? && other <= PreviousPage(catalog, page).value < page
    ensures other > page ==> FollowingPage(catalog, page).Some? && page < FollowingPage(catalog, page).value <= other
    ensures PreviousPage(catalog, page).Some? ==> PreviousPage(catalog, page).value < page
    ensures FollowingPage(catalog, page).Some? ==> FollowingPage(catalog, page).value > page
  {
    var numbers := Sorted(PageNumbers(catalog));
    var i :| 0 <= i < |numbers| && numbers[i] == other;
    NothingBetween(numbers, Position(numbers, page), i);
  }

  lemma NothingBetween(numbers: seq<nat>, position: nat, i: nat)
    requires Increasing(numbers) && position < |numbers| && i < |numbers|
    ensures numbers[i] < numbers[position] ==> position > 0 && numbers[i] <= numbers[position - 1] < numbers[position]
    ensures numbers[i] > numbers[position] ==>
      position + 1 < |numbers| && numbers[position] < numbers[position + 1] <= numbers[i]
    ensures position > 0 ==> numbers[position - 1] < numbers[position]
    ensures position + 1 < |numbers| ==> numbers[position] < numbers[position + 1]
  {
  }

  /** The next subpage is the smallest numbered one above the current. */
  lemma NextSubpageIsLeast(catalog: Catalog, page: nat, subpage: nat, other: nat)
    requires other in Subpages(catalog, page) && other > subpage
    ensures var next := FollowingSubpage(catalog, page, subpage);
            next.Some? && next.value in Subpages(catalog, page) && subpage < next.value <= other
  {
    FirstAboveIsLeast(Sorted(Subpages(catalog, page)), subpage, other);
  }

  // ---------------------------------------------------------------------------------------
  // A flat JSON object as a list of strings, each with the mark before it

  datatype Item = Item(mark: byte, content: seq<byte>)

  predicate ValidItem(item: Item) {
    Plain(item.content) && item.mark in {0x7b, 0x3a, 0x2c}
  }

  function ItemText(item: Item): seq<byte> {
    [item.mark, QUOTE] + item.content + [QUOTE]
  }

  /** The items one after another, and the closing brace. */
  function ObjectText(items: seq<Item>): (text: seq<byte>)
    ensures text != [] && (items != [] ==> text[0] == items[0].mark) && (items == [] ==> text[0] == 0x7d)
  {
    if items == [] then [0x7d] else ItemText(items[0]) + ObjectText(items[1..])
  }

  function Items(r: Response): seq<Item> {
    [Item(0x7b, PREV_PAGE), Item(0x3a, r.prevPage), Item(0x2c, NEXT_PAGE), Item(0x3a, r.nextPage),
     Item(0x2c, NEXT_SUBPAGE), Item(0x3a, r.nextSubPage), Item(0x2c, BINARY_DISPLAY), Item(0x3a, r.binaryDisplay)]
  }

  /** The body the server sends. */
  function ResponseText(r: Response): seq<byte> {
    ObjectText(Items(r))
  }

  lemma ObjectFrom(items: seq<Item>, k: nat)
    requires k < |items|
    ensures |ObjectText(items[k..])| == |items[k].content| + 3 + |ObjectText(items[k + 1..])|
  {
    assert items[k..][1..] == items[k + 1..];
  }

  lemma ResponseLength(r: Response)
    ensures |ResponseText(r)| == 65 + |r.prevPage| + |r.nextPage| + |r.nextSubPage| + |r.binaryDisplay|
  {
    hide ObjectText;
    var items := Items(r);
    All(items);
    ObjectFrom(items, 0);
    ObjectFrom(items, 1);
    ObjectFrom(items, 2);
    ObjectFrom(items, 3);
    ObjectFrom(items, 4);
    ObjectFrom(items, 5);
    ObjectFrom(items, 6);
    ObjectFrom(items, 7);
    ObjectEnds();
  }

  lemma ObjectEnds()
    ensures |ObjectText([])| == 1
  {
  }

  /** A response is far smaller than what the firmware takes. */
  lemma ResponseFits(catalog: Catalog, page: nat, subpage: nat)
    requires ValidCatalog(catalog) && (page, subpage) in catalog
    ensures |ResponseText(PageResponse(catalog, page, subpage).value)| <= 1357
  {
    hide ResponseText, Encode64, PreviousPage, FollowingPage, FollowingSubpage, Decimal;
    InCatalog(catalog);
    WholeGroups(catalog, page, subpage);
    var r := PageResponse(catalog, page, subpage).value;
    ResponseLength(r);
    LinkFits(PreviousPage(catalog, page));
    LinkFits(FollowingPage(catalog, page));
    SubpageFits(page, FollowingSubpage(catalog, page, subpage));
  }

  lemma LinkFits(page: Option<nat>)
    requires page.Some? ==> page.value <= 899
    ensures |LinkText(page)| <= 3
  {
    if page.Some? {
      Thousand();
      DecimalLength(page.value, 3, PowerOfTen(3));
    }
  }

  lemma SubpageFits(page: nat, part: Option<nat>)
    requires page <= 899 && (part.Some? ==> part.value <= 99)
    ensures |SubpageText(page, part)| <= 6
  {
    if part.Some? {
      Thousand();
      DecimalLength(page, 3, PowerOfTen(3));
      DecimalLength(part.value, 2, PowerOfTen(2));
    }
  }

  lemma Thousand()
    ensures PowerOfTen(2) == 100 && PowerOfTen(3) == 1000
  {
    assert PowerOfTen(1) == 10;
  }

  lemma TextIsNotEmpty(r: Response)
    ensures ResponseText(r) != []
  {
  }

  /** Names of properties do not begin like the punctuation between strings. */
  predicate ProperKey(key: seq<byte>) {
    key != [] && QUOTE !in key && key[0] !in {0x7b, 0x7d, 0x3a, 0x2c}
  }

  /** Where the parts of an item lie in a text. */
  lemma ItemLies(before: seq<byte>, item: Item, rest: seq<byte>)
    requires ValidItem(item) && rest != []
    ensures var text, mark, close := before + ItemText(item) + rest, |before|, |before| + 2 + |item.content|;
            && close + 1 < |text| && text[mark] == item.mark && text[mark + 1] == QUOTE && text[close] == QUOTE
            && text[mark + 2..close] == item.content && text[close + 1] == rest[0]
            && (forall i :: mark + 2 <= i < close ==> text[i] != QUOTE)
            && |before + ItemText(item)| == close + 1
  {
    var text, mark, close := before + ItemText(item) + rest, |before|, |before| + 2 + |item.content|;
    assert forall i :: mark + 2 <= i < close ==> text[i] == item.content[i - mark - 2];
  }

  /** An item that is not the key is passed over. */
  lemma FindPasses(before: seq<byte>, item: Item, rest: seq<byte>, key: seq<byte>)
    requires ValidItem(item) && ProperKey(key) && item.content != key
    requires rest != [] && rest[0] in {0x7d, 0x3a, 0x2c}
    ensures Find(before + ItemText(item) + rest, key, |before|) ==
            Find(before + ItemText(item) + rest, key, |before + ItemText(item)|)
  {
    ItemLies(before, item, rest);
    FindPassesString(before + ItemText(item) + rest, key, |before|, |before| + 2 + |item.content|);
  }

  /** Where the key stands, the value behind the colon is found. */
  lemma FindHitsItem(before: seq<byte>, item: Item, value: Item, rest: seq<byte>)
    requires ValidItem(item) && ValidItem(value) && value.mark == COLON && rest != []
    ensures var text := before + ItemText(item) + (ItemText(value) + rest);
            var found := Find(text, item.content, |before|);
            found.Some? && StringAt(text, found.value) == Some(Codes(value.content))
  {
    hide *;
    PairLies(before, item, value, rest);
    HitsWhere(before + ItemText(item) + (ItemText(value) + rest), |before|, item.content, value.content);
  }

  lemma HitsWhere(text: seq<byte>, mark: nat, key: seq<byte>, value: seq<byte>)
    requires PairAt(text, mark, key, value)
    ensures var found := Find(text, key, mark);
            found.Some? && StringAt(text, found.value) == Some(Codes(value))
  {
    hide Find, StringAt, Codes, Plain;
    var close := mark + 2 + |key|;
    FindHits(text, key, mark, close, close + 3 + |value|);
  }

  /** A property and its value stand at a mark. */
  ghost predicate PairAt(text: seq<byte>, mark: nat, key: seq<byte>, value: seq<byte>) {
    var close := mark + 2 + |key|;
    var end := close + 3 + |value|;
    && end < |text| && text[mark] != QUOTE && text[mark + 1] == QUOTE
    && text[mark + 2..close] == key && text[close] == QUOTE
    && text[close + 1] == COLON && text[close + 2] == QUOTE && text[end] == QUOTE
    && text[close + 3..end] == value && Plain(text[close + 3..end])
  }

  /** Where a property and its value lie in a text. */
  lemma PairLies(before: seq<byte>, item: Item, value: Item, rest: seq<byte>)
    requires ValidItem(item) && ValidItem(value) && value.mark == COLON && rest != []
    ensures PairAt(before + ItemText(item) + (ItemText(value) + rest), |before|, item.content, value.content)
  {
    hide ItemText;
    ItemLies(before, item, ItemText(value) + rest);
    ItemLies(before + ItemText(item), value, rest);
    Associative(before + ItemText(item), ItemText(value), rest);
    ItemStarts(value, rest);
  }

  lemma ItemStarts(item: Item, rest: seq<byte>)
    ensures ItemText(item) + rest != [] && (ItemText(item) + rest)[0] == item.mark
  {
  }

  /** In a flat object the firmware finds the value of every property that no earlier string imitates. */
  lemma {:induction false} FindProperty(before: seq<byte>, items: seq<Item>, k: nat)
    requires forall i :: 0 <= i < |items| ==> ValidItem(items[i])
    requires forall i :: 1 <= i < |items| ==> items[i].mark != 0x7b
    requires k + 1 < |items| && ProperKey(items[k].content) && items[k + 1].mark == COLON
    requires forall i :: 0 <= i < k ==> items[i].content != items[k].content
    ensures var text := before + ObjectText(items);
            var found := Find(text, items[k].content, |before|);
            found.Some? && StringAt(text, found.value) == Some(Codes(items[k + 1].content))
    decreases k
  {
    var rest := ObjectText(items[1..]);
    Associative(before, ItemText(items[0]), rest);
    if k == 0 {
      FindHitsItem(before, items[0], items[1], ObjectText(items[1..][1..]));
    } else {
      FindPasses(before, items[0], rest, items[k].content);
      FindProperty(before + ItemText(items[0]), items[1..], k - 1);
    }
  }

  // ---------------------------------------------------------------------------------------
  // Round trip

  lemma CodesOf(text: seq<byte>)
    ensures Codes(text) == text
  {
  }

  lemma ThreeDigits(page: nat)
    requires 100 <= page <= 999
    ensures |Decimal(page)| == 3
  {
    assert Decimal(page) == Decimal(page / 10) + [0x30 + page % 10];
    assert Decimal(page / 10) == Decimal(page / 100) + [0x30 + page / 10 % 10];
  }

  lemma PageReads(page: nat)
    requires 100 <= page <= 899
    ensures PageLinkValue(Codes(Decimal(page))) == Some(page)
  {
    hide Decimal, NumberOf;
    CodesOf(Decimal(page));
    ThreeDigits(page);
    DecimalReads(page);
  }

  lemma SubpageTextReads(page: nat, part: nat)
    requires 100 <= page <= 899 && 1 <= part <= 99
    ensures var text := Codes(Decimal(page) + [0x2d] + Decimal(part));
            LinkOf(NO_LINK, text).Some? && SubpageOf(LinkOf(NO_LINK, text).value, page) == Some(part)
  {
    hide Decimal, NumberOf, LinkOf, SubpageOf;
    var text := Decimal(page) + [0x2d] + Decimal(part);
    CodesOf(text);
    DecimalReads(page);
    DecimalReads(part);
    assert NamesPart(text, Decimal(page), Decimal(part), page, part);
    SubpageIsNamed(text, page, part);
  }

  /** The values of a response are plain, and none of them is the name of a property. */
  lemma ResponseIsPlain(catalog: Catalog, page: nat, subpage: nat)
    requires ValidCatalog(catalog) && (page, subpage) in catalog
    ensures var r := PageResponse(catalog, page, subpage).value;
            && Plain(r.prevPage) && Plain(r.nextPage) && Plain(r.nextSubPage) && Plain(r.binaryDisplay)
            && Numeric(r.prevPage) && Numeric(r.nextPage) && Numeric(r.nextSubPage)
  {
    hide Encode64, PreviousPage, FollowingPage, FollowingSubpage;
    InCatalog(catalog);
  }

  predicate Numeric(value: seq<byte>) {
    value == [] || value[0] < 0x40
  }

  lemma FlatItems(r: Response)
    requires Plain(r.prevPage) && Plain(r.nextPage) && Plain(r.nextSubPage) && Plain(r.binaryDisplay)
    ensures forall i :: 0 <= i < |Items(r)| ==> ValidItem(Items(r)[i])
    ensures forall i :: 1 <= i < |Items(r)| ==> Items(r)[i].mark != 0x7b
  {
  }

  lemma KeyBefore(r: Response, k: nat)
    requires Numeric(r.prevPage) && Numeric(r.nextPage) && Numeric(r.nextSubPage)
    requires k in {0, 2, 4, 6}
    ensures ProperKey(Items(r)[k].content) && Items(r)[k + 1].mark == COLON
    ensures forall i :: 0 <= i < k ==> Items(r)[i].content != Items(r)[k].content
  {
    assert PREV_PAGE[0] == 0x70 && NEXT_PAGE[0] == 0x6e && NEXT_SUBPAGE[0] == 0x6e && BINARY_DISPLAY[0] == 0x62;
    assert |NEXT_PAGE| != |NEXT_SUBPAGE|;
  }

  /** The strings of a response before its own key are never the key. */
  lemma ResponseFields(catalog: Catalog, page: nat, subpage: nat)
    requires ValidCatalog(catalog) && (page, subpage) in catalog
    ensures var r := PageResponse(catalog, page, subpage).value; var text := ResponseText(r);
            && Reads(text, PREV_PAGE, r.prevPage) && Reads(text, NEXT_PAGE, r.nextPage)
            && Reads(text, NEXT_SUBPAGE, r.nextSubPage) && Reads(text, BINARY_DISPLAY, r.binaryDisplay)
  {
    hide PageResponse, Find, StringAt, ObjectText, ValidItem, Plain, Numeric, ProperKey;
    ResponseIsPlain(catalog, page, subpage);
    var r := PageResponse(catalog, page, subpage).value;
    FieldReads(r, 0);
    FieldReads(r, 2);
    FieldReads(r, 4);
    FieldReads(r, 6);
  }

  lemma FieldReads(r: Response, k: nat)
    requires Plain(r.prevPage) && Plain(r.nextPage) && Plain(r.nextSubPage) && Plain(r.binaryDisplay)
    requires Numeric(r.prevPage) && Numeric(r.nextPage) && Numeric(r.nextSubPage)
    requires k in {0, 2, 4, 6}
    ensures Reads(ResponseText(r), Items(r)[k].content, Items(r)[k + 1].content)
  {
    hide Find, StringAt, ObjectText, ValidItem, Plain, Numeric, ProperKey, Items;
    FlatItems(r);
    KeyBefore(r, k);
    All(ObjectText(Items(r)));
    ItemCount(r);
    FindProperty([], Items(r), k);
  }

  lemma ItemCount(r: Response)
    ensures |Items(r)| == 8
  {
  }

  ghost predicate Reads(text: seq<byte>, key: seq<byte>, value: seq<byte>) {
    Find(text, key, 0).Some? && StringAt(text, Find(text, key, 0).value) == Some(Codes(value))
  }

  function OrZero(n: Option<nat>): nat {
    if n.Some? then n.value else 0
  }

  /**
   Whatever the catalogue, the firmware reads out of each response what the server put in: the same
   960 bytes, the neighbouring pages and the next subpage, with zero where there is none.
   */
  lemma ResponseRoundTrip(catalog: Catalog, page: nat, subpage: nat)
    requires ValidCatalog(catalog) && (page, subpage) in catalog
    ensures page in PageNumbers(catalog)
    ensures var text := ResponseText(PageResponse(catalog, page, subpage).value);
            && BinaryDisplayOf(text) == Exact(catalog[(page, subpage)])
            && PageLinkOf(text, PREV_PAGE) == Some(OrZero(PreviousPage(catalog, page)))
            && PageLinkOf(text, NEXT_PAGE) == Some(OrZero(FollowingPage(catalog, page)))
            && NextSubpageOf(text, page) == Some(OrZero(FollowingSubpage(catalog, page, subpage)))
  {
    hide Find, StringAt, Reads, ResponseText, PageLinkOf, BinaryDisplayOf, NextSubpageOf, Encode64, LinkText, SubpageText;
    hide PreviousPage, FollowingPage, FollowingSubpage;
    InCatalog(catalog);
    ResponseFields(catalog, page, subpage);
    var text := ResponseText(PageResponse(catalog, page, subpage).value);
    DisplayReads(text, catalog[(page, subpage)]);
    LinkReads(text, PREV_PAGE, PreviousPage(catalog, page));
    LinkReads(text, NEXT_PAGE, FollowingPage(catalog, page));
    SubpageReads(text, page, FollowingSubpage(catalog, page, subpage));
  }

  lemma DisplayReads(text: seq<byte>, screen: seq<byte>)
    requires |screen| == SCREEN_SIZE && Reads(text, BINARY_DISPLAY, Encode64(screen))
    ensures BinaryDisplayOf(text) == Exact(screen)
  {
    hide Find, StringAt, Encode64, Decode64;
    Base64RoundTrip(screen);
  }

  lemma LinkReads(text: seq<byte>, key: seq<byte>, page: Option<nat>)
    requires page.Some? ==> 100 <= page.value <= 899
    requires Reads(text, key, LinkText(page))
    ensures PageLinkOf(text, key) == Some(OrZero(page))
  {
    hide Find, StringAt, Decimal, PageLinkValue;
    match page
    case Some(number) => PageReads(number);
    case None => NoPageReads();
  }

  lemma NoPageReads()
    ensures PageLinkValue(Codes([])) == Some(0)
  {
  }

  lemma SubpageReads(text: seq<byte>, page: nat, next: Option<nat>)
    requires 100 <= page <= 899 && (next.Some? ==> 1 <= next.value <= 99)
    requires Reads(text, NEXT_SUBPAGE, SubpageText(page, next))
    ensures NextSubpageOf(text, page) == Some(OrZero(next))
  {
    hide Find, StringAt, Decimal, SubpageOf, LinkOf;
    match next
    case Some(part) => SubpageTextReads(page, part);
    case None => NoSubpageReads(page);
  }

  lemma NoSubpageReads(page: nat)
    ensures LinkOf(NO_LINK, Codes([])).Some? && SubpageOf(LinkOf(NO_LINK, Codes([])).value, page) == Some(0)
  {
  }
}
