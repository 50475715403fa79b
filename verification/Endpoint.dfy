/**
 URLs of custom page servers: the parser of the firmware against a grammar of the URLs it takes, and
 the text an endpoint is turned back into.
 */
module Endpoint {
  import opened Bytes
  import opened Sequences
  import opened Json
  import opened Numbers

  const URL_MAX: nat := 96
  const HOST_MAX: nat := 63
  const BASE_PATH_MAX: nat := 63
  const REQUEST_PATH_MAX: nat := 96

  const SLASH: byte := 0x2f
  const HTTP: seq<byte> := [0x68, 0x74, 0x74, 0x70, 0x3a, 0x2f, 0x2f]
  const HTTPS: seq<byte> := [0x68, 0x74, 0x74, 0x70, 0x73, 0x3a, 0x2f, 0x2f]

  datatype Endpoint = Endpoint(tls: bool, host: seq<byte>, port: nat, basePath: seq<byte>)

  // ---------------------------------------------------------------------------------------
  // Characters

  function Lower(character: byte): byte {
    if 0x41 <= character <= 0x5a then character + 0x20 else character
  }

  function LowerAll(text: seq<byte>): (r: seq<byte>)
    ensures |r| == |text|
  {
    seq(|text|, i requires 0 <= i < |text| => Lower(text[i]))
  }

  predicate IsBlank(character: byte) {
    character == 0x20 || 0x09 <= character <= 0x0d
  }

  predicate HostCharacter(character: byte) {
    || 0x30 <= character <= 0x39 || 0x41 <= character <= 0x5a || 0x61 <= character <= 0x7a
    || character == 0x2e || character == 0x2d || character == 0x5f
  }

  predicate PathCharacter(character: byte) {
    !IsBlank(character) && character != 0x3f && character != 0x23
  }

  // ---------------------------------------------------------------------------------------
  // The grammar

  /** The parts a URL is put together from; an absent port has no colon either. */
  datatype Parts = Parts(scheme: seq<byte>, host: seq<byte>, port: Option<seq<byte>>, path: seq<byte>, slashes: seq<byte>)

  predicate ValidHost(host: seq<byte>) {
    1 <= |host| <= HOST_MAX && forall i :: 0 <= i < |host| ==> HostCharacter(host[i])
  }

  predicate ValidPort(digits: seq<byte>) {
    digits != [] && NumberOf(digits, 10).Some? && 1 <= NumberOf(digits, 10).value <= 65535
  }

  /** Empty, or with a slash in front and none at the end, except that a slash alone is a path. */
  predicate ValidPath(path: seq<byte>) {
    && |path| <= BASE_PATH_MAX
    && (path != [] ==> path[0] == SLASH)
    && (|path| > 1 ==> path[|path| - 1] != SLASH)
    && forall i :: 0 <= i < |path| ==> PathCharacter(path[i])
  }

  predicate AllSlashes(slashes: seq<byte>) {
    forall i :: 0 <= i < |slashes| ==> slashes[i] == SLASH
  }

  predicate ValidParts(p: Parts) {
    && (LowerAll(p.scheme) == HTTP || LowerAll(p.scheme) == HTTPS)
    && ValidHost(p.host)
    && (p.port.Some? ==> ValidPort(p.port.value))
    && ValidPath(p.path) && AllSlashes(p.slashes) && (p.path == [] ==> p.slashes == [])
  }

  function AuthorityText(host: seq<byte>, port: Option<seq<byte>>): seq<byte> {
    if port.Some? then host + [COLON] + port.value else host
  }

  function UrlText(p: Parts): seq<byte> {
    p.scheme + (AuthorityText(p.host, p.port) + (p.path + p.slashes))
  }

  predicate IsTls(p: Parts) {
    LowerAll(p.scheme) == HTTPS
  }

  function DefaultPort(tls: bool): nat {
    if tls then 443 else 80
  }

  function EndpointOf(p: Parts): Endpoint
    requires ValidParts(p)
  {
    Endpoint(IsTls(p), p.host, if p.port.Some? then NumberOf(p.port.value, 10).value else DefaultPort(IsTls(p)), p.path)
  }

  // ---------------------------------------------------------------------------------------
  // The parser, as a function

  function Trim(path: seq<byte>): (r: seq<byte>)
    ensures r <= path && (|r| > 1 ==> r[|r| - 1] != SLASH) && (path != [] ==> r != [])
    ensures AllSlashes(path[|r|..])
    decreases |path|
  {
    if |path| > 1 && path[|path| - 1] == SLASH then Trim(path[..|path| - 1]) else path
  }

  function AuthorityOf(authority: seq<byte>, defaultPort: nat): Option<(seq<byte>, nat)> {
    var colon := FirstAt(authority, COLON);
    var host := authority[..colon];
    if !ValidHost(host) then None
    else if colon == |authority| then Some((host, defaultPort))
    else if ValidPort(authority[colon + 1..]) then Some((host, NumberOf(authority[colon + 1..], 10).value))
    else None
  }

  function EndpointAt(tls: bool, rest: seq<byte>): (r: Option<Endpoint>)
    ensures r.Some? ==> r.value.tls == tls
  {
    var end := FirstAt(rest, SLASH);
    match AuthorityOf(rest[..end], DefaultPort(tls))
    case None => None
    case Some((host, port)) =>
      var path := Trim(rest[end..]);
      if ValidPath(path) then Some(Endpoint(tls, host, port, path)) else None
  }

  predicate Starts(text: seq<byte>, prefix: seq<byte>) {
    |text| >= |prefix| && LowerAll(text[..|prefix|]) == prefix
  }

  function Parse(url: seq<byte>): Option<Endpoint> {
    if |url| > URL_MAX then None
    else if Starts(url, HTTP) then EndpointAt(false, url[7..])
    else if Starts(url, HTTPS) then EndpointAt(true, url[8..])
    else None
  }

  // ---------------------------------------------------------------------------------------
  // The parser, as the firmware does it

  method PrefixEqual(value: seq<byte>, prefix: seq<byte>) returns (equal: bool)
    requires |value| >= |prefix| && LowerAll(prefix) == prefix
    ensures equal <==> Starts(value, prefix)
  {
    assert forall i :: 0 <= i < |prefix| ==> LowerAll(prefix)[i] == Lower(prefix[i]);
    for i := 0 to |prefix|
      invariant forall k :: 0 <= k < i ==> Lower(value[k]) == prefix[k]
    {
      if Lower(value[i]) != Lower(prefix[i]) {
        assert LowerAll(value[..|prefix|])[i] != prefix[i];
        return false;
      }
    }
    assert LowerAll(value[..|prefix|]) == prefix;
    return true;
  }

  method ParsePort(digits: seq<byte>) returns (port: Option<nat>)
    requires digits != []
    ensures port == if ValidPort(digits) then NumberOf(digits, 10) else None
  {
    hide NumberOf;
    var value: nat := 0;
    NumberOfNothing(10);
    for i := 0 to |digits|
      invariant NumberOf(digits[..i], 10) == Some(value) && value <= 65535
    {
      NumberStep(digits, 10, i);
      NumberPrefix(digits, 10, i + 1);
      if digits[i] < 0x30 || digits[i] > 0x39 {
        return None;
      }
      value := value * 10 + (digits[i] - 0x30);
      if value > 65535 {
        return None;
      }
    }
    assert digits[..|digits|] == digits;
    return if value == 0 then None else Some(value);
  }

  method ParseUrl(url: seq<byte>) returns (endpoint: Option<Endpoint>)
    ensures endpoint == Parse(url)
  {
    hide EndpointAt;
    if url == [] || |url| > URL_MAX {
      return None;
    }
    var http, https := false, false;
    if |url| >= 7 {
      http := PrefixEqual(url, HTTP);
    }
    if |url| >= 8 && !http {
      https := PrefixEqual(url, HTTPS);
    }
    if http {
      endpoint := ParseRest(url, 7, false);
    } else if https {
      endpoint := ParseRest(url, 8, true);
    } else {
      return None;
    }
  }

  /** Behind the scheme: the authority up to the first slash, then the path. */
  method ParseRest(url: seq<byte>, authorityStart: nat, tls: bool) returns (endpoint: Option<Endpoint>)
    requires authorityStart <= |url|
    ensures endpoint == EndpointAt(tls, url[authorityStart..])
  {
    hide Trim, AllSlashes, AuthorityOf, ValidPath, HostCharacter, FirstAt;
    var position := authorityStart;
    while position < |url| && url[position] != SLASH
      invariant authorityStart <= position <= |url|
      invariant forall i :: authorityStart <= i < position ==> url[i] != SLASH
    {
      var character := url[position];
      if IsBlank(character) || character == 0x40 || character == 0x3f || character == 0x23 {
        Scanned(url, authorityStart, position);
        NeitherHostNorPort(character);
        BadAuthority(tls, url[authorityStart..], position - authorityStart);
        return None;
      }
      position := position + 1;
    }
    Scanned(url, authorityStart, position);
    FirstIs(url[authorityStart..], SLASH, position - authorityStart);
    var found := ParseAuthority(url[authorityStart..position], DefaultPort(tls));
    if found.None? {
      return None;
    }
    var base := ParsePath(url[position..]);
    if base.None? {
      return None;
    }
    return Some(Endpoint(tls, found.value.0, found.value.1, base.value));
  }

  /** The scanned part of the URL, seen from where the scan began. */
  lemma Scanned(url: seq<byte>, start: nat, position: nat)
    requires start <= position <= |url| && forall i :: start <= i < position ==> url[i] != SLASH
    ensures var rest, n := url[start..], position - start;
            && (forall k :: 0 <= k < n ==> rest[k] != SLASH)
            && (position < |url| ==> rest[n] == url[position])
            && rest[..n] == url[start..position] && rest[n..] == url[position..]
  {
    var rest := url[start..];
    assert forall k :: 0 <= k < |rest| ==> rest[k] == url[start + k];
  }

  lemma NeitherHostNorPort(character: byte)
    requires IsBlank(character) || character == 0x40 || character == 0x3f || character == 0x23
    ensures !HostCharacter(character) && character != COLON && character != SLASH
  {
  }

  /** A character that can belong neither to a host nor to a port. */
  lemma BadAuthority(tls: bool, rest: seq<byte>, n: nat)
    requires n < |rest| && (forall i :: 0 <= i <= n ==> rest[i] != SLASH)
    requires !HostCharacter(rest[n]) && rest[n] != COLON
    ensures EndpointAt(tls, rest) == None
  {
    hide NumberOf, Trim;
    var authority := rest[..FirstAt(rest, SLASH)];
    assert authority[n] == rest[n];
    AuthorityCharacters(authority, n);
  }

  lemma AuthorityCharacters(authority: seq<byte>, n: nat)
    requires n < |authority| && !HostCharacter(authority[n]) && authority[n] != COLON
    ensures forall port :: AuthorityOf(authority, port) == None
  {
    hide NumberOf;
    var colon := FirstAt(authority, COLON);
    if n > colon {
      assert authority[colon + 1..][n - colon - 1] == authority[n];
      NotANumber(authority[colon + 1..], n - colon - 1);
    } else {
      assert authority[..colon][n] == authority[n];
    }
  }

  method ParseAuthority(authority: seq<byte>, defaultPort: nat) returns (r: Option<(seq<byte>, nat)>)
    ensures r == AuthorityOf(authority, defaultPort)
  {
    hide NumberOf;
    if authority == [] {
      return None;
    }
    var colon: nat := |authority|;
    for i := 0 to |authority|
      invariant colon == |authority| || colon < i
      invariant forall k :: 0 <= k < i && k != colon ==> authority[k] != COLON
      invariant colon < |authority| ==> authority[colon] == COLON
    {
      if authority[i] == COLON {
        if colon < |authority| {
          FirstIs(authority, COLON, colon);
          assert authority[colon + 1..][i - colon - 1] == COLON;
          NotANumber(authority[colon + 1..], i - colon - 1);
          return None;
        }
        colon := i;
      }
    }
    FirstIs(authority, COLON, colon);
    var port := defaultPort;
    if colon < |authority| {
      if colon == 0 || colon + 1 == |authority| {
        return None;
      }
      var parsed := ParsePort(authority[colon + 1..]);
      if parsed.None? {
        return None;
      }
      port := parsed.value;
    }
    if colon > HOST_MAX {
      return None;
    }
    for i := 0 to colon
      invariant forall k :: 0 <= k < i ==> HostCharacter(authority[k])
    {
      if !HostCharacter(authority[i]) {
        assert authority[..colon][i] == authority[i];
        return None;
      }
    }
    return Some((authority[..colon], port));
  }

  /** Slashes at the end do not belong to the base path, but the first one does. */
  method TrimmedLength(path: seq<byte>) returns (end: nat)
    ensures end <= |path| && path[..end] == Trim(path)
  {
    hide Trim, AllSlashes;
    end := |path|;
    All(path);
    while end > 1 && path[end - 1] == SLASH
      invariant end <= |path| && Trim(path[..end]) == Trim(path)
    {
      TrimStep(path, end);
      end := end - 1;
    }
    TrimDone(path, end);
  }

  method ParsePath(path: seq<byte>) returns (r: Option<seq<byte>>)
    requires path != [] ==> path[0] == SLASH
    ensures r == if ValidPath(Trim(path)) then Some(Trim(path)) else None
  {
    hide Trim, AllSlashes, PathCharacter;
    var end := TrimmedLength(path);
    var base := path[..end];
    if end > BASE_PATH_MAX {
      return None;
    }
    var allowed := PathIsAllowed(base);
    return if allowed then Some(base) else None;
  }

  method PathIsAllowed(path: seq<byte>) returns (allowed: bool)
    ensures allowed <==> forall i :: 0 <= i < |path| ==> PathCharacter(path[i])
  {
    for i := 0 to |path|
      invariant forall k :: 0 <= k < i ==> PathCharacter(path[k])
    {
      if !PathCharacter(path[i]) {
        return false;
      }
    }
    return true;
  }

  lemma TrimStep(path: seq<byte>, end: nat)
    requires 1 < end <= |path| && path[end - 1] == SLASH
    ensures Trim(path[..end]) == Trim(path[..end - 1])
  {
    Shorter(path, end - 1, end);
  }

  lemma TrimDone(path: seq<byte>, end: nat)
    requires end <= |path| && (end > 1 ==> path[end - 1] != SLASH)
    ensures Trim(path[..end]) == path[..end]
  {
  }

  // ---------------------------------------------------------------------------------------
  // The parser accepts the grammar, and nothing else

  lemma {:induction false} TrimSlashes(path: seq<byte>, slashes: seq<byte>)
    requires ValidPath(path) && AllSlashes(slashes) && (path == [] ==> slashes == [])
    ensures Trim(path + slashes) == path
    decreases |slashes|
  {
    if slashes == [] {
      All(path);
    } else {
      InitOfConcat(path, slashes);
      TrimSlashes(path, slashes[..|slashes| - 1]);
    }
  }

  lemma AuthorityReads(host: seq<byte>, port: Option<seq<byte>>, defaultPort: nat)
    requires ValidHost(host) && (port.Some? ==> ValidPort(port.value))
    ensures AuthorityOf(AuthorityText(host, port), defaultPort) ==
            Some((host, if port.Some? then NumberOf(port.value, 10).value else defaultPort))
    ensures SLASH !in AuthorityText(host, port)
  {
    hide NumberOf;
    var authority := AuthorityText(host, port);
    FirstIs(authority, COLON, |host|);
    assert authority[..|host|] == host;
    if port.Some? {
      assert authority[|host| + 1..] == port.value;
      if SLASH in port.value {
        var i :| 0 <= i < |port.value| && port.value[i] == SLASH;
        NotANumber(port.value, i);
      }
    }
  }

  lemma AcceptsRest(tls: bool, p: Parts)
    requires ValidParts(p)
    ensures EndpointAt(tls, AuthorityText(p.host, p.port) + (p.path + p.slashes)) ==
            Some(Endpoint(tls, p.host, if p.port.Some? then NumberOf(p.port.value, 10).value else DefaultPort(tls), p.path))
  {
    hide NumberOf, AuthorityOf, Trim, ValidHost, ValidPort, AuthorityText;
    var authority, tail := AuthorityText(p.host, p.port), p.path + p.slashes;
    AuthorityReads(p.host, p.port, DefaultPort(tls));
    TrimSlashes(p.path, p.slashes);
    TailStarts(p);
    FirstIs(authority + tail, SLASH, |authority|);
    CutAt(authority, tail);
  }

  lemma TailStarts(p: Parts)
    requires ValidParts(p)
    ensures p.path + p.slashes != [] ==> (p.path + p.slashes)[0] == SLASH
  {
    hide NumberOf;
  }

  lemma CutAt(a: seq<byte>, b: seq<byte>)
    ensures (a + b)[..|a|] == a && (a + b)[|a|..] == b
  {
  }

  lemma AcceptsGrammar(p: Parts)
    requires ValidParts(p) && |UrlText(p)| <= URL_MAX
    ensures Parse(UrlText(p)) == Some(EndpointOf(p))
  {
    hide NumberOf, EndpointAt, AuthorityText, ValidHost, ValidPort, ValidPath;
    AcceptsRest(IsTls(p), p);
    CutAt(p.scheme, AuthorityText(p.host, p.port) + (p.path + p.slashes));
    if IsTls(p) {
      var url := UrlText(p);
      assert LowerAll(url[..7])[4] == LowerAll(p.scheme)[4];
    }
  }

  lemma OnlyGrammar(url: seq<byte>, e: Endpoint) returns (p: Parts)
    requires Parse(url) == Some(e)
    ensures ValidParts(p) && UrlText(p) == url && EndpointOf(p) == e && |url| <= URL_MAX
  {
    hide NumberOf, Trim, ValidHost, ValidPort, ValidPath, EndpointAt, AuthorityText, AllSlashes;
    var start := if Starts(url, HTTP) then 7 else 8;
    var scheme, rest := url[..start], url[start..];
    p := RestGrammar(e.tls, scheme, rest, e);
    SplitAt(url, start);
  }

  lemma RestGrammar(tls: bool, scheme: seq<byte>, rest: seq<byte>, e: Endpoint) returns (p: Parts)
    requires EndpointAt(tls, rest) == Some(e) && LowerAll(scheme) == if tls then HTTPS else HTTP
    ensures ValidParts(p) && UrlText(p) == scheme + rest && EndpointOf(p) == e
  {
    hide NumberOf, Trim, ValidHost, ValidPort, ValidPath, AuthorityText, AllSlashes, AuthorityOf;
    var end := FirstAt(rest, SLASH);
    var authority, tail := rest[..end], rest[end..];
    var path := Trim(tail);
    var port := AuthorityGrammar(authority, DefaultPort(tls));
    p := Parts(scheme, e.host, port, path, tail[|path|..]);
    SplitTail(tail);
    SplitAt(rest, end);
    NoSlashWithoutPath(tail);
  }

  lemma SplitTail(tail: seq<byte>)
    ensures Trim(tail) + tail[|Trim(tail)|..] == tail
  {
    assert Trim(tail) == tail[..|Trim(tail)|];
  }

  lemma NoSlashWithoutPath(tail: seq<byte>)
    ensures AllSlashes(tail[|Trim(tail)|..]) && (Trim(tail) == [] ==> tail[|Trim(tail)|..] == [])
    ensures HTTP != HTTPS
  {
    assert |HTTP| != |HTTPS|;
  }

  lemma AuthorityGrammar(authority: seq<byte>, defaultPort: nat) returns (port: Option<seq<byte>>)
    requires AuthorityOf(authority, defaultPort).Some?
    ensures port.Some? ==> ValidPort(port.value)
    ensures ValidHost(AuthorityOf(authority, defaultPort).value.0)
    ensures AuthorityText(AuthorityOf(authority, defaultPort).value.0, port) == authority
    ensures AuthorityOf(authority, defaultPort).value.1 ==
            if port.Some? then NumberOf(port.value, 10).value else defaultPort
  {
    hide NumberOf;
    var colon := FirstAt(authority, COLON);
    port := if colon == |authority| then None else Some(authority[colon + 1..]);
    assert AuthorityText(authority[..colon], port) == authority;
  }

  /** A URL is accepted exactly when it is put together as the grammar says, and the parts are what it names. */
  lemma ParsesGrammar(url: seq<byte>, e: Endpoint)
    ensures Parse(url) == Some(e) <==>
            |url| <= URL_MAX && exists p :: ValidParts(p) && UrlText(p) == url && EndpointOf(p) == e
  {
    if Parse(url) == Some(e) {
      var p := OnlyGrammar(url, e);
    }
    forall p | ValidParts(p) && UrlText(p) == url && EndpointOf(p) == e && |url| <= URL_MAX
      ensures Parse(url) == Some(e)
    {
      AcceptsGrammar(p);
    }
  }

  // ---------------------------------------------------------------------------------------
  // Printing

  /** What a C string shows of an array. */
  function UpToNul(text: seq<byte>): seq<byte> {
    text[..FirstAt(text, 0)]
  }

  function Print(e: Endpoint): seq<byte> {
    var port := if e.port == DefaultPort(e.tls) then None else Some(Decimal(e.port));
    (if e.tls then HTTPS else HTTP) + (AuthorityText(e.host, port) + UpToNul(e.basePath))
  }

  lemma TrimPrefix(path: seq<byte>, n: nat)
    requires ValidPath(path) && n <= |path|
    ensures ValidPath(Trim(path[..n])) && |Trim(path[..n])| <= n
  {
    var short := path[..n];
    assert Trim(short) <= short;
  }

  lemma PathUpToNul(path: seq<byte>)
    requires ValidPath(path)
    ensures UpToNul(path) <= path && (UpToNul(path) != [] ==> UpToNul(path)[0] == SLASH)
  {
  }

  /** The parts of a printed endpoint. */
  function PrintedParts(e: Endpoint): Parts {
    var path := UpToNul(e.basePath);
    Parts(if e.tls then HTTPS else HTTP, e.host, if e.port == DefaultPort(e.tls) then None else Some(Decimal(e.port)),
          Trim(path), path[|Trim(path)|..])
  }

  lemma PrintedIsValid(e: Endpoint)
    requires ValidHost(e.host) && 1 <= e.port <= 65535 && ValidPath(e.basePath)
    ensures var p := PrintedParts(e);
            ValidParts(p) && UrlText(p) == Print(e) && EndpointOf(p) == e.(basePath := Trim(UpToNul(e.basePath)))
  {
    hide NumberOf, Decimal, Trim, AllSlashes, ValidHost, ValidPath, UpToNul, LowerAll, UrlText, Print;
    var path := UpToNul(e.basePath);
    PathUpToNul(e.basePath);
    assert path == e.basePath[..|path|];
    DecimalReads(e.port);
    TrimPrefix(e.basePath, |path|);
    SchemesAreLower();
    PartsPrint(e);
  }

  lemma PartsPrint(e: Endpoint)
    ensures UrlText(PrintedParts(e)) == Print(e)
  {
    hide Decimal, Trim, AllSlashes, UpToNul, AuthorityText;
    SplitAt(UpToNul(e.basePath), |Trim(UpToNul(e.basePath))|);
  }

  lemma SchemesAreLower()
    ensures LowerAll(HTTP) == HTTP && LowerAll(HTTPS) == HTTPS && HTTP != HTTPS
  {
  }

  lemma PrintedIsNotLonger(p: Parts)
    requires ValidParts(p)
    ensures |Print(EndpointOf(p))| <= |UrlText(p)|
  {
    hide NumberOf, Decimal;
    if p.port.Some? {
      DecimalShortest(p.port.value);
    }
    assert |LowerAll(p.scheme)| == |p.scheme|;
  }

  /**
   What an accepted URL names, printed again, is accepted again; it names the same endpoint exactly when
   the base path holds no NUL character.
   */
  lemma PrintRoundTrip(url: seq<byte>, e: Endpoint)
    requires Parse(url) == Some(e)
    ensures |Print(e)| <= |url|
    ensures Parse(Print(e)) == Some(e.(basePath := Trim(UpToNul(e.basePath))))
    ensures Parse(Print(e)) == Some(e) <==> 0 !in e.basePath
    ensures 0 !in url ==> Parse(Print(e)) == Some(e)
  {
    hide NumberOf, Decimal, Parse, Print, PrintedParts;
    var p := OnlyGrammar(url, e);
    PrintedIsNotLonger(p);
    PrintedIsValid(e);
    AcceptsGrammar(PrintedParts(e));
    NulInPath(e.basePath);
    if 0 in p.path {
      assert 0 in url;
    }
  }

  lemma NulInPath(path: seq<byte>)
    requires ValidPath(path)
    ensures Trim(UpToNul(path)) == path <==> 0 !in path
  {
    if 0 !in path {
      assert UpToNul(path) == path;
    } else {
      assert |Trim(UpToNul(path))| <= FirstAt(path, 0) < |path|;
    }
  }

  // ---------------------------------------------------------------------------------------
  // The path of a page

  const JSON_PATH: seq<byte> := [SLASH, 0x6a, 0x73, 0x6f, 0x6e, SLASH]

  function PagePath(e: Endpoint, page: nat, subpage: nat): seq<byte> {
    UpToNul(e.basePath) + JSON_PATH + Decimal(page) + if subpage == 0 then [] else [0x2d] + Decimal(subpage)
  }

  /** Formatting into a buffer of limited size; a text that does not fit with its NUL is refused. */
  function FormatPagePath(e: Endpoint, page: nat, subpage: nat, capacity: nat): Option<seq<byte>> {
    if capacity == 0 || page < 100 || page > 899 || subpage > 99 then None
    else if |PagePath(e, page, subpage)| < capacity then Some(PagePath(e, page, subpage))
    else None
  }

  /** No page of an accepted endpoint is refused for lack of space, and the page can be read off its path. */
  lemma PagePathFits(url: seq<byte>, e: Endpoint, page: nat, subpage: nat)
    requires Parse(url) == Some(e) && 100 <= page <= 899 && subpage <= 99
    ensures FormatPagePath(e, page, subpage, REQUEST_PATH_MAX) == Some(PagePath(e, page, subpage))
    ensures |PagePath(e, page, subpage)| <= BASE_PATH_MAX + 12
  {
    hide NumberOf, Decimal, Parse, UrlText;
    var p := OnlyGrammar(url, e);
    assert PowerOfTen(3) == 1000 && PowerOfTen(2) == 100;
    DecimalLength(page, 3, PowerOfTen(3));
    DecimalLength(subpage, 2, PowerOfTen(2));
  }
}
