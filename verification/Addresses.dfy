/** What the addresses of custom servers and of their pages are made of, character by character. */
module Addresses {
  import opened Bytes
  import opened Sequences
  import opened Json
  import opened Numbers
  import opened Endpoint

  // ---------------------------------------------------------------------------------------
  // Schemes

  lemma Schemes()
    ensures HTTP == Text("http://") && HTTPS == Text("https://")
    ensures DefaultPort(false) == 80 && DefaultPort(true) == 443
  {
    assert Text("http://") == [0x68, 0x74, 0x74, 0x70, 0x3a, 0x2f, 0x2f];
    assert Text("https://") == [0x68, 0x74, 0x74, 0x70, 0x73, 0x3a, 0x2f, 0x2f];
  }

  /** The same letter as a capital or a small one, or the same other character. */
  predicate SameLetter(a: byte, b: byte) {
    || a == b
    || (0x41 <= a <= 0x5a && b == a + 0x20)
    || (0x41 <= b <= 0x5a && a == b + 0x20)
  }

  lemma LowerIsSame(a: byte, b: byte)
    ensures Lower(a) == Lower(b) <==> SameLetter(a, b)
  {
  }

  /** A URL starts with a scheme when it has its letters in any mixture of capitals and small letters. */
  lemma StartsInAnyCase(text: seq<byte>, scheme: seq<byte>)
    requires scheme == HTTP || scheme == HTTPS
    ensures Starts(text, scheme) <==> |text| >= |scheme| && forall i :: 0 <= i < |scheme| ==> SameLetter(text[i], scheme[i])
  {
    SchemesAreLower();
    if |text| >= |scheme| {
      var start := text[..|scheme|];
      assert forall i :: 0 <= i < |scheme| ==> start[i] == text[i];
      forall i | 0 <= i < |scheme|
        ensures LowerAll(start)[i] == LowerAll(scheme)[i] <==> SameLetter(text[i], scheme[i])
      {
        LowerIsSame(start[i], scheme[i]);
      }
    }
  }

  // ---------------------------------------------------------------------------------------
  // Characters

  predicate Letter(c: byte) {
    'a' as int <= c <= 'z' as int || 'A' as int <= c <= 'Z' as int
  }

  lemma HostsAreMadeOf(c: byte)
    ensures HostCharacter(c) <==>
            Letter(c) || Digit(c, 10).Some? || c == '.' as int || c == '-' as int || c == '_' as int
  {
  }

  /** White space as C counts it: blank, tab, line feed, vertical tab, form feed, carriage return. */
  lemma PathsAreMadeOf(c: byte)
    ensures PathCharacter(c) <==> c !in {0x20, 0x09, 0x0a, 0x0b, 0x0c, 0x0d, '?' as int, '#' as int}
  {
  }

  /** What is accepted fits the buffers it is copied to. */
  lemma PartsFit(url: seq<byte>, e: Endpoint)
    requires Parse(url) == Some(e)
    ensures 8 <= |url| <= 96 && 1 <= |e.host| <= 63 && |e.basePath| <= 63 && 1 <= e.port <= 65535
  {
    hide NumberOf, Parse;
    var p := OnlyGrammar(url, e);
    Scheme(p.scheme);
    LengthsAdd(p);
  }

  lemma Scheme(scheme: seq<byte>)
    requires LowerAll(scheme) == HTTP || LowerAll(scheme) == HTTPS
    ensures |scheme| == 7 || |scheme| == 8
  {
    assert |LowerAll(scheme)| == |scheme|;
  }

  lemma LengthsAdd(p: Parts)
    ensures |UrlText(p)| >= |p.scheme| + |p.host|
  {
  }

  // ---------------------------------------------------------------------------------------
  // Page paths

  /** Page numbers have three digits. */
  function ThreeDigits(n: nat): seq<byte>
    requires 100 <= n <= 899
  {
    [0x30 + n / 100, 0x30 + n / 10 % 10, 0x30 + n % 10]
  }

  function OneOrTwo(n: nat): seq<byte>
    requires n <= 99
  {
    if n < 10 then [0x30 + n] else [0x30 + n / 10, 0x30 + n % 10]
  }

  lemma DigitsOfPage(n: nat)
    requires 100 <= n <= 899
    ensures Decimal(n) == ThreeDigits(n)
  {
    assert Decimal(n / 10 / 10) == [0x30 + n / 10 / 10];
    assert n / 10 / 10 == n / 100;
    assert Decimal(n / 10) == [0x30 + n / 100] + [0x30 + n / 10 % 10];
  }

  lemma DigitsOfSubpage(n: nat)
    requires n <= 99
    ensures Decimal(n) == OneOrTwo(n)
  {
    if n >= 10 {
      assert Decimal(n / 10) == [0x30 + n / 10];
    }
  }

  /** Behind the base path: the directory, the page, and the subpage unless it is 0. */
  lemma PathSpells(e: Endpoint, page: nat, subpage: nat)
    requires 100 <= page <= 899 && subpage <= 99
    ensures PagePath(e, page, subpage) ==
            UpToNul(e.basePath) + [0x2f, 0x6a, 0x73, 0x6f, 0x6e, 0x2f] + ThreeDigits(page)
            + (if subpage == 0 then [] else [0x2d] + OneOrTwo(subpage))
    ensures Text("/json/") == [0x2f, 0x6a, 0x73, 0x6f, 0x6e, 0x2f]
  {
    hide Decimal, UpToNul;
    DigitsOfPage(page);
    DigitsOfSubpage(subpage);
  }

  lemma SameDigits(a: nat, b: nat)
    requires 100 <= a <= 899 && 100 <= b <= 899 && ThreeDigits(a) == ThreeDigits(b)
    ensures a == b
  {
    assert ThreeDigits(a)[0] == ThreeDigits(b)[0] && ThreeDigits(a)[1] == ThreeDigits(b)[1] && ThreeDigits(a)[2] == ThreeDigits(b)[2];
    Decomposed(a);
    Decomposed(b);
  }

  lemma Decomposed(n: nat)
    ensures n == n / 100 * 100 + n / 10 % 10 * 10 + n % 10
  {
    assert n / 100 == n / 10 / 10;
  }

  lemma SameSubpage(a: nat, b: nat)
    requires 1 <= a <= 99 && 1 <= b <= 99 && OneOrTwo(a) == OneOrTwo(b)
    ensures a == b
  {
    assert |OneOrTwo(a)| == |OneOrTwo(b)|;
    assert OneOrTwo(a)[0] == OneOrTwo(b)[0];
    assert a >= 10 ==> OneOrTwo(a)[1] == OneOrTwo(b)[1];
  }

  /** Different pages and subpages have different paths on one server. */
  lemma PathDeterminesPage(e: Endpoint, page: nat, subpage: nat, otherPage: nat, otherSubpage: nat)
    requires 100 <= page <= 899 && subpage <= 99 && 100 <= otherPage <= 899 && otherSubpage <= 99
    ensures PagePath(e, page, subpage) == PagePath(e, otherPage, otherSubpage) <==> page == otherPage && subpage == otherSubpage
  {
    hide UpToNul, PagePath, OneOrTwo;
    PathSpells(e, page, subpage);
    PathSpells(e, otherPage, otherSubpage);
    if PagePath(e, page, subpage) == PagePath(e, otherPage, otherSubpage) {
      var front := UpToNul(e.basePath) + [0x2f, 0x6a, 0x73, 0x6f, 0x6e, 0x2f];
      var a := if subpage == 0 then [] else [0x2d] + OneOrTwo(subpage);
      var b := if otherSubpage == 0 then [] else [0x2d] + OneOrTwo(otherSubpage);
      SameParts(front, ThreeDigits(page), ThreeDigits(otherPage), a, b);
      SameDigits(page, otherPage);
      if subpage != 0 {
        assert a[1..] == OneOrTwo(subpage) && b[1..] == OneOrTwo(otherSubpage);
        SameSubpage(subpage, otherSubpage);
      }
    }
  }

  lemma SameParts<T>(front: seq<T>, a: seq<T>, b: seq<T>, x: seq<T>, y: seq<T>)
    requires |a| == |b| && front + a + x == front + b + y
    ensures a == b && x == y
  {
    assert a == (front + a + x)[|front|..|front| + |a|];
    assert b == (front + b + y)[|front|..|front| + |b|];
    assert x == (front + a + x)[|front| + |a|..];
    assert y == (front + b + y)[|front| + |b|..];
  }
}
