/**
 The words of the page format and what a tag may look like: colour classes, the two elements, the class
 attribute wherever it stands, and how long a tag or an entity may be.
 */
module Tags {
  import opened Bytes
  import opened Sequences
  import opened Json
  import opened Markup
  import opened Saa5050
  import PageContent
  import PageFields

  // ---------------------------------------------------------------------------------------
  // Words

  /** Each colour by its name; the numbers add up as red, green and blue light does. */
  lemma Colours()
    ensures ColourName(0) == Text("black")
    ensures ColourName(1) == Text("red") && ColourName(2) == Text("green") && ColourName(4) == Text("blue")
    ensures ColourName(1 + 2) == Text("yellow") && ColourName(1 + 4) == Text("magenta") && ColourName(2 + 4) == Text("cyan")
    ensures ColourName(1 + 2 + 4) == Text("white")
  {
    PrimaryNames();
    MixedNames();
  }

  lemma PrimaryNames()
    ensures Text("black") == [0x62, 0x6c, 0x61, 0x63, 0x6b] && Text("red") == [0x72, 0x65, 0x64]
    ensures Text("green") == [0x67, 0x72, 0x65, 0x65, 0x6e] && Text("blue") == [0x62, 0x6c, 0x75, 0x65]
  {
  }

  lemma MixedNames()
    ensures Text("yellow") == [0x79, 0x65, 0x6c, 0x6c, 0x6f, 0x77] && Text("cyan") == [0x63, 0x79, 0x61, 0x6e]
    ensures Text("magenta") == [0x6d, 0x61, 0x67, 0x65, 0x6e, 0x74, 0x61] && Text("white") == [0x77, 0x68, 0x69, 0x74, 0x65]
  {
  }

  lemma TagWords()
    ensures SPAN == Text("span") && ANCHOR == Text("a") && BG == Text("bg-") && CLASS_ATTRIBUTE == Text("class=\"")
  {
  }

  lemma PropertyNames()
    ensures PageContent.CONTENT == Text("content") && PageFields.BINARY_DISPLAY == Text("binaryDisplay")
    ensures PageFields.PREV_PAGE == Text("prevPage") && PageFields.NEXT_PAGE == Text("nextPage")
    ensures PageFields.NEXT_SUBPAGE == Text("nextSubPage")
  {
    LongNames();
    ShortNames();
  }

  lemma LongNames()
    ensures Text("binaryDisplay") == [0x62, 0x69, 0x6e, 0x61, 0x72, 0x79, 0x44, 0x69, 0x73, 0x70, 0x6c, 0x61, 0x79]
    ensures Text("nextSubPage") == [0x6e, 0x65, 0x78, 0x74, 0x53, 0x75, 0x62, 0x50, 0x61, 0x67, 0x65]
  {
  }

  lemma ShortNames()
    ensures Text("content") == [0x63, 0x6f, 0x6e, 0x74, 0x65, 0x6e, 0x74]
    ensures Text("prevPage") == [0x70, 0x72, 0x65, 0x76, 0x50, 0x61, 0x67, 0x65]
    ensures Text("nextPage") == [0x6e, 0x65, 0x78, 0x74, 0x50, 0x61, 0x67, 0x65]
  {
  }

  // ---------------------------------------------------------------------------------------
  // Classes and tags

  /** A class that is a colour sets the foreground; behind "bg-" it sets the background. */
  lemma ColourClass(colour: Colour, style: Style)
    ensures ApplyClass(ColourName(colour), style) == style.(foreground := colour)
    ensures ApplyClass(BG + ColourName(colour), style) == style.(background := colour)
  {
    NoBackground(colour);
    FoundByName(colour);
    hide ColourFromClass, ColourName;
    assert (BG + ColourName(colour))[3..] == ColourName(colour);
  }

  lemma NoBackground(colour: Colour)
    ensures |ColourName(colour)| >= 3 && ColourName(colour)[..3] != BG
  {
    assert ColourName(colour)[..3][1] == ColourName(colour)[1];
  }

  lemma FoundByName(colour: Colour)
    ensures ColourFromClass(ColourName(colour)) == Some(colour)
  {
    hide ColourName;
    var found := ColourFromClass(ColourName(colour)).value;
    NamesDiffer(colour, found);
  }

  lemma NamesDiffer(a: Colour, b: Colour)
    requires ColourName(a) == ColourName(b)
    ensures a == b
  {
    assert |ColourName(a)| == |ColourName(b)| && ColourName(a)[0] == ColourName(b)[0] && ColourName(a)[2] == ColourName(b)[2];
  }

  /** No other class does anything. */
  lemma OtherClass(token: seq<byte>, style: Style)
    requires forall colour: Colour :: token != ColourName(colour) && token != BG + ColourName(colour)
    ensures ApplyClass(token, style) == style
  {
    hide ColourFromClass, ColourName;
    if |token| > 3 && token[..3] == BG {
      assert token == BG + token[3..];
    }
  }

  /** A tag as it may be written: blanks, a slash if it closes, a name, and the rest. */
  function SpelledTag(blanks: nat, closing: bool, name: seq<byte>, rest: seq<byte>): seq<byte> {
    seq(blanks, _ => 0x20) + ((if closing then [0x2f] else []) + (name + rest))
  }

  /** A blank, a slash or a closing bracket ends the name of a tag. */
  predicate IsName(name: seq<byte>) {
    name != [] && forall i :: 0 <= i < |name| ==> name[i] != 0x20 && name[i] != 0x2f && name[i] != 0x3e
  }

  predicate AfterName(rest: seq<byte>) {
    rest != [] ==> rest[0] == 0x20 || rest[0] == 0x2f || rest[0] == 0x3e
  }

  lemma {:induction false} BlanksSkipped(blanks: nat, tail: seq<byte>, offset: nat)
    requires offset <= blanks && (tail != [] ==> tail[0] != 0x20)
    ensures SkipBlanks(seq(blanks, _ => 0x20) + tail, offset) == blanks
    decreases blanks - offset
  {
    var tag := seq(blanks, _ => 0x20) + tail;
    if offset < blanks {
      BlanksSkipped(blanks, tail, offset + 1);
    } else {
      assert tail != [] ==> tag[blanks] == tail[0];
    }
  }

  lemma NameEndIs(tag: seq<byte>, offset: nat, end: nat)
    requires offset <= end <= |tag| && (end < |tag| ==> EndsName(tag[end]))
    requires forall i :: offset <= i < end ==> !EndsName(tag[i])
    ensures NameEnd(tag, offset) == end
  {
  }

  lemma {:induction false} ClassesShift(front: seq<byte>, rest: seq<byte>, cursor: nat)
    ensures ClassesFrom(front + rest, |front| + cursor) == ClassesFrom(rest, cursor)
    decreases |rest| - cursor
  {
    hide CLASS_ATTRIBUTE, QuoteFrom;
    if cursor + 7 < |rest| {
      SameWindow(front, rest, cursor, cursor + 7);
      if rest[cursor..cursor + 7] != CLASS_ATTRIBUTE {
        ClassesShift(front, rest, cursor + 1);
      } else {
        QuoteShift(front, rest, cursor + 7);
        SameWindow(front, rest, cursor + 7, QuoteFrom(rest, cursor + 7));
      }
    }
  }

  lemma SameWindow(front: seq<byte>, rest: seq<byte>, from: nat, until: nat)
    requires from <= until <= |rest|
    ensures (front + rest)[|front| + from..|front| + until] == rest[from..until]
  {
  }

  lemma {:induction false} QuoteShift(front: seq<byte>, rest: seq<byte>, cursor: nat)
    requires cursor <= |rest|
    ensures QuoteFrom(front + rest, |front| + cursor) == |front| + QuoteFrom(rest, cursor)
    decreases |rest| - cursor
  {
    if cursor < |rest| && rest[cursor] != QUOTE {
      QuoteShift(front, rest, cursor + 1);
    }
  }

  /** Only span and a are elements; what stands behind the name of an opening tag says which classes it has. */
  lemma TagMeans(blanks: nat, closing: bool, name: seq<byte>, rest: seq<byte>)
    requires IsName(name) && AfterName(rest)
    ensures TagEvent(SpelledTag(blanks, closing, name, rest)) ==
            if name != Text("span") && name != Text("a") then Ignored
            else if closing then Closes
            else ClassesFrom(rest, 0)
  {
    hide SkipBlanks, NameEnd, ClassesFrom, Text;
    TagWords();
    HeadIs(blanks, closing, name, rest);
    var front := seq(blanks, _ => 0x20) + ((if closing then [0x2f] else []) + name);
    assert SpelledTag(blanks, closing, name, rest) == front + rest;
    ClassesShift(front, rest, 0);
  }

  lemma HeadIs(blanks: nat, closing: bool, name: seq<byte>, rest: seq<byte>)
    requires IsName(name) && AfterName(rest)
    ensures var tag, start := SpelledTag(blanks, closing, name, rest), blanks + if closing then 1 else 0;
            TagHead(tag) == (closing, start, start + |name|) && tag[start..start + |name|] == name
  {
    hide SkipBlanks, NameEnd;
    var tag, start := SpelledTag(blanks, closing, name, rest), blanks + if closing then 1 else 0;
    var tail := (if closing then [0x2f] else []) + (name + rest);
    assert tail[0] == if closing then 0x2f else name[0];
    BlanksSkipped(blanks, tail, 0);
    assert tag[blanks] == tail[0];
    assert forall i :: 0 <= i < |name| ==> tag[start + i] == name[i];
    assert rest != [] ==> tag[start + |name|] == rest[0];
    NameEndIs(tag, start, start + |name|);
    assert tag[start..start + |name|] == name;
  }

  /** Eight elements can be open at once; one more spoils the page, and so does a closing tag without one. */
  lemma Levels(s: Styles, classes: seq<byte>)
    ensures ApplyEvent(s, Opens(classes)).Some? <==> |s.saved| < 8
    ensures ApplyEvent(s, Closes).Some? <==> |s.saved| > 0
    ensures |s.saved| < 8 ==> ApplyEvent(ApplyEvent(s, Opens(classes)).value, Closes) == Some(s)
  {
    hide Restyle;
    if |s.saved| < 8 {
      assert (s.saved + [s.current])[..|s.saved|] == s.saved;
    }
  }

  // ---------------------------------------------------------------------------------------
  // The class attribute

  predicate ClassAt(text: seq<byte>, i: nat) {
    i + 7 <= |text| && text[i..i + 7] == CLASS_ATTRIBUTE
  }

  lemma {:induction false} ClassesStepOver(text: seq<byte>, cursor: nat, n: nat)
    requires forall i :: cursor <= i < n ==> !ClassAt(text, i)
    requires cursor <= n && n + 7 < |text|
    ensures ClassesFrom(text, cursor) == ClassesFrom(text, n)
    decreases n - cursor
  {
    if cursor < n {
      assert !ClassAt(text, cursor);
      ClassesStepOver(text, cursor + 1, n);
    }
  }

  lemma {:induction false} NoClasses(text: seq<byte>, cursor: nat)
    requires forall i :: cursor <= i < |text| ==> !ClassAt(text, i)
    ensures ClassesFrom(text, cursor) == Opens([])
    decreases |text| - cursor
  {
    if cursor + 7 < |text| {
      assert !ClassAt(text, cursor);
      NoClasses(text, cursor + 1);
    }
  }

  lemma QuoteIs(text: seq<byte>, cursor: nat, end: nat)
    requires cursor <= end <= |text| && (end < |text| ==> text[end] == QUOTE)
    requires forall i :: cursor <= i < end ==> text[i] != QUOTE
    ensures QuoteFrom(text, cursor) == end
  {
  }

  /** The first class attribute counts, up to its closing quote; without that quote the tag is malformed. */
  lemma FirstClassCounts(text: seq<byte>, n: nat, end: nat)
    requires ClassAt(text, n) && forall i :: 0 <= i < n ==> !ClassAt(text, i)
    requires n + 7 <= end <= |text| && n + 7 < |text|
    requires (forall i :: n + 7 <= i < end ==> text[i] != 0x22) && (end < |text| ==> text[end] == 0x22)
    ensures ClassesFrom(text, 0) == if end < |text| then Opens(text[n + 7..end]) else Malformed
  {
    hide ClassesFrom;
    ClassesStepOver(text, 0, n);
    QuoteIs(text, n + 7, end);
    ClassesAt(text, n);
  }

  lemma ClassesAt(text: seq<byte>, n: nat)
    requires ClassAt(text, n) && n + 7 < |text|
    ensures ClassesFrom(text, n) ==
            var end := QuoteFrom(text, n + 7); if end >= |text| then Malformed else Opens(text[n + 7..end])
  {
  }

  // ---------------------------------------------------------------------------------------
  // How long a tag or an entity may be

  /** The first stop code is the n-th; for an entity there is nothing beyond ASCII before it. */
  predicate StopsAt(codes: seq<nat>, stop: nat, ascii: bool, n: nat) {
    && n < |codes| && codes[n] == stop
    && forall i :: 0 <= i < n ==> codes[i] != stop && (ascii ==> codes[i] <= 0x7f)
  }

  lemma {:induction false} StopIsFound(codes: seq<nat>, stop: nat, room: nat, ascii: bool, n: nat)
    requires StopsAt(codes, stop, ascii, n)
    ensures PageContent.Until(codes, stop, room, ascii) == if n < room then Some(n) else None
    decreases n
  {
    if n > 0 && room > 0 {
      assert codes[0] != stop && (ascii ==> codes[0] <= 0x7f);
      StopIsFound(codes[1..], stop, room - 1, ascii, n - 1);
    }
  }

  lemma {:induction false} StopIsNotFound(codes: seq<nat>, stop: nat, room: nat, k: nat)
    requires k < |codes| && codes[k] > 0x7f && stop <= 0x7f && forall i :: 0 <= i < k ==> codes[i] != stop
    ensures PageContent.Until(codes, stop, room, true) == None
    decreases k
  {
    if k > 0 && room > 0 {
      assert codes[0] != stop;
      StopIsNotFound(codes[1..], stop, room - 1, k - 1);
    }
  }

  /** Up to 126 characters of a tag are taken; a longer one spoils the page. */
  lemma TagIsRead(body: seq<nat>, rest: seq<nat>)
    requires 0x3e !in body
    ensures PageContent.ItemsOf([0x3c] + (body + ([0x3e] + rest))) ==
            if |body| <= 126 then PageContent.Prepend(PageContent.Tag(TagEvent(PageContent.TagText(body))), PageContent.ItemsOf(rest))
            else None
  {
    hide TagEvent, PageContent.Until;
    var codes := body + ([0x3e] + rest);
    var page := [0x3c] + codes;
    assert page[1..] == codes;
    assert codes[|body|] == 0x3e;
    StopIsFound(codes, 0x3e, TAG_MAX, false, |body|);
    assert codes[..|body|] == body && codes[|body| + 1..] == rest;
  }

  /** An entity of up to 30 ASCII characters is taken if it is known; if not, its ampersand stands for itself. */
  lemma EntityIsRead(name: seq<nat>, rest: seq<nat>)
    requires 0x3b !in name
    ensures var known := |name| <= 30 && (forall i :: 0 <= i < |name| ==> name[i] <= 0x7f) &&
                         EntityCode(PageContent.TagText(name)).Some?;
            PageContent.ItemsOf([0x26] + (name + ([0x3b] + rest))) ==
            if known then
              PageContent.Prepend(PageContent.Character(EntityCode(PageContent.TagText(name)).value), PageContent.ItemsOf(rest))
            else PageContent.Prepend(PageContent.Character('&' as int), PageContent.ItemsOf(name + ([0x3b] + rest)))
  {
    hide EntityCode, PageContent.Until;
    var codes := name + ([0x3b] + rest);
    var page := [0x26] + codes;
    assert page[1..] == codes;
    assert codes[|name|] == 0x3b;
    if forall i :: 0 <= i < |name| ==> name[i] <= 0x7f {
      StopIsFound(codes, 0x3b, ENTITY_MAX, true, |name|);
    } else {
      var k :| 0 <= k < |name| && name[k] > 0x7f;
      assert codes[k] == name[k];
      StopIsNotFound(codes, 0x3b, ENTITY_MAX, k);
    }
    assert codes[..|name|] == name && codes[|name| + 1..] == rest;
  }
}
