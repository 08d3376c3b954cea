/** extractUri: an http or https address taken apart into scheme, secure flag, host, port and path. */
module Uri {
  import opened Strings

  const INT_MIN := -0x8000_0000
  const INT_MAX := 0x7fff_ffff

  datatype Extracted = Extracted(scheme: string, secure: bool, host: string, port: int, path: string)

  datatype Outcome = Found(uri: Extracted) | SchemeNotFound | BadPort(why: Parsed)

  /** The pieces of an address as they stand in its text. */
  datatype Parts = Parts(scheme: string, slashes: bool, host: string, port: PortText, path: string)
  datatype PortText = NoPort | PortIs(text: string)

  function Authority(p: Parts): string {
    p.host + match p.port case NoPort => "" case PortIs(text) => ":" + text
  }

  function AfterScheme(p: Parts): string {
    (if p.slashes then "//" else "") + Authority(p) + p.path
  }

  function TextOf(p: Parts): string { p.scheme + ":" + AfterScheme(p) }

  ghost predicate WellShaped(p: Parts) {
    && ':' !in p.scheme
    && (!p.slashes ==> !("//" <= AfterScheme(p)))
    && ':' !in p.host && '/' !in Authority(p)
    && (p.path == "" || p.path[0] == '/')
  }

  /** What well-shaped pieces mean. */
  function Meaning(p: Parts, lowercaseHost: bool): Outcome {
    var scheme := LowerAll(p.scheme);
    if scheme != "http" && scheme != "https" then SchemeNotFound
    else
      var secure := scheme == "https";
      var host := if lowercaseHost then LowerAll(p.host) else p.host;
      var default := if secure then 443 else 80;
      match p.port
      case NoPort => Found(Extracted(scheme, secure, host, default, p.path))
      case PortIs(text) =>
        if text == "" then Found(Extracted(scheme, secure, host, default, p.path))
        else match ParseInteger(text, INT_MIN, INT_MAX)
          case Value(n) => Found(Extracted(scheme, secure, host, n, p.path))
          case why => BadPort(why)
  }

  // ----- every text with a colon has exactly one shape

  lemma FirstOccurrence(a: string, b: string, x: string, y: string, c: char)
    requires c !in a && c !in b && a + [c] + x == b + [c] + y
    ensures a == b && x == y
  {
    var s := a + [c] + x;
    assert s[|a|] == c && s[|b|] == c;
    assert forall i :: 0 <= i < |a| ==> s[i] == a[i] && s[i] in a;
    assert forall i :: 0 <= i < |b| ==> s[i] == b[i] && s[i] in b;
    assert a == s[..|a|] && b == s[..|b|] && x == s[|a| + 1..] && y == s[|b| + 1..];
  }

  /** A text splits in one way only into a part without c and a rest that is empty or starts with c. */
  lemma UpToFirst(a: string, b: string, x: string, y: string, c: char)
    requires c !in a && c !in b && a + x == b + y
    requires (x == "" || x[0] == c) && (y == "" || y[0] == c)
    ensures a == b && x == y
  {
    var s := a + x;
    assert (|a| < |s| ==> s[|a|] == c) && (|b| < |s| ==> s[|b|] == c);
    assert forall i :: 0 <= i < |a| ==> s[i] == a[i] && s[i] in a;
    assert forall i :: 0 <= i < |b| ==> s[i] == b[i] && s[i] in b;
    assert a == s[..|a|] && b == s[..|b|] && x == s[|a|..] && y == s[|b|..];
  }

  lemma OneShape(p: Parts, q: Parts)
    requires WellShaped(p) && WellShaped(q) && TextOf(p) == TextOf(q)
    ensures p == q
  {
    hide Authority;
    FirstOccurrence(p.scheme, q.scheme, AfterScheme(p), AfterScheme(q), ':');
    SameSlashes(p, q);
    UpToFirst(Authority(p), Authority(q), p.path, q.path, '/');
    SameAuthority(p, q);
  }

  lemma AfterSchemeSplits(p: Parts)
    ensures p.slashes ==> "//" <= AfterScheme(p)
    ensures AfterScheme(p)[if p.slashes then 2 else 0..] == Authority(p) + p.path
  {
    hide Authority;
    assert "" + Authority(p) == Authority(p);
    assert "//" + Authority(p) + p.path == "//" + (Authority(p) + p.path);
  }

  lemma SameSlashes(p: Parts, q: Parts)
    requires WellShaped(p) && WellShaped(q) && AfterScheme(p) == AfterScheme(q)
    ensures p.slashes == q.slashes && Authority(p) + p.path == Authority(q) + q.path
  {
    hide Authority, AfterScheme;
    AfterSchemeSplits(p);
    AfterSchemeSplits(q);
  }

  lemma SameAuthority(p: Parts, q: Parts)
    requires WellShaped(p) && WellShaped(q) && Authority(p) == Authority(q)
    ensures p.host == q.host && p.port == q.port
  {
    var x := match p.port case NoPort => "" case PortIs(text) => ":" + text;
    var y := match q.port case NoPort => "" case PortIs(text) => ":" + text;
    UpToFirst(p.host, q.host, x, y, ':');
    if p.port.PortIs? && q.port.PortIs? {
      assert x[1..] == p.port.text && y[1..] == q.port.text;
    }
  }

  /** What the address means: that of its one shape. Without a colon there is no scheme. */
  ghost function Extract(text: string, lowercaseHost: bool): Outcome {
    if exists p :: WellShaped(p) && TextOf(p) == text then
      var p :| WellShaped(p) && TextOf(p) == text;
      Meaning(p, lowercaseHost)
    else SchemeNotFound
  }

  lemma ExtractOf(p: Parts, lowercaseHost: bool)
    requires WellShaped(p)
    ensures Extract(TextOf(p), lowercaseHost) == Meaning(p, lowercaseHost)
  {
    var q :| WellShaped(q) && TextOf(q) == TextOf(p) && Extract(TextOf(p), lowercaseHost) == Meaning(q, lowercaseHost);
    OneShape(p, q);
  }

  // ----- the algorithm

  /** The pieces found by searching for ':' and '/' are the one shape of the text. */
  lemma PiecesMakeText(p: Parts, text: string, colon: nat, hostPort: string)
    requires colon < |text| && text[colon] == ':' && p.scheme == text[0..colon] && ':' !in p.scheme
    requires p.slashes <==> colon + 3 <= |text| && text[colon + 1] == '/' && text[colon + 2] == '/'
    requires text[colon + (if p.slashes then 3 else 1)..] == hostPort + p.path
    requires hostPort == p.host + match p.port case NoPort => "" case PortIs(t) => ":" + t
    requires ':' !in p.host && '/' !in hostPort && (p.path == "" || p.path[0] == '/')
    ensures WellShaped(p) && TextOf(p) == text
  {
    assert Authority(p) == hostPort;
    hide Authority;
    var rest := text[colon + 1..];
    assert AfterScheme(p) == rest by { RestOfText(p, text, colon, hostPort); }
    assert text == text[0..colon] + ":" + rest;
    assert "//" <= rest ==> rest[0] == '/' && rest[1] == '/';
  }

  lemma RestOfText(p: Parts, text: string, colon: nat, hostPort: string)
    requires colon < |text| && Authority(p) == hostPort
    requires p.slashes ==> colon + 3 <= |text| && text[colon + 1] == '/' && text[colon + 2] == '/'
    requires text[colon + (if p.slashes then 3 else 1)..] == hostPort + p.path
    ensures AfterScheme(p) == text[colon + 1..]
  {
    hide Authority;
    if p.slashes {
      assert text[colon + 1..] == "//" + text[colon + 3..];
      assert "//" + (hostPort + p.path) == "//" + hostPort + p.path;
    } else {
      assert "" + hostPort == hostPort;
    }
  }

  /** find and two substr: the text before the first c, and the text from it on if there is one. */
  method UpTo(s: string, c: char) returns (before: string, rest: string)
    ensures s == before + rest && c !in before && (rest == "" || rest[0] == c)
  {
    var end := Find(s, c, 0);
    match end {
      case NotFound => before, rest := s, ""; assert s[0..] == s;
      case At(i) => before, rest := s[0..i], s[i..];
    }
  }

  /** The searches of extractUri, once the first colon has been found. */
  method Pieces(text: string, colon: nat) returns (p: Parts)
    requires colon < |text| && text[colon] == ':' && ':' !in text[0..colon]
    ensures WellShaped(p) && TextOf(p) == text
  {
    hide WellShaped, TextOf, Find;
    var scheme := text[0..colon];
    var pos := colon + 1;
    var slashes := pos + 2 <= |text| && text[pos] == '/' && text[pos + 1] == '/';
    if slashes { pos := pos + 2; }
    var hostPort, path := UpTo(text[pos..], '/');
    var host, rest := UpTo(hostPort, ':');
    var portText := if rest == "" then NoPort else PortIs(rest[1..]);
    assert hostPort == host + match portText case NoPort => "" case PortIs(t) => ":" + t;
    p := Parts(scheme, slashes, host, portText, path);
    PiecesMakeText(p, text, colon, hostPort);
  }

  method ExtractUri(text: string, lowercaseHost: bool) returns (result: Outcome)
    ensures result == Extract(text, lowercaseHost)
  {
    hide WellShaped, TextOf, Extract, LowerAll, ParseInteger;
    var schemeEnd := Find(text, ':', 0);
    if schemeEnd.NotFound? {
      assert text[0..] == text;
      NoColonNoShape(text, lowercaseHost);
      return SchemeNotFound;
    }
    var p := Pieces(text, schemeEnd.i);
    ExtractOf(p, lowercaseHost);
    var scheme := LowerAll(p.scheme);
    if scheme != "http" && scheme != "https" {
      return SchemeNotFound;
    }
    var secure := scheme == "https";
    var host := p.host;
    var port := if secure then 443 else 80;
    if p.port.PortIs? && p.port.text != "" {
      var parsed := ParseInteger(p.port.text, INT_MIN, INT_MAX);
      if !parsed.Value? { return BadPort(parsed); }
      port := parsed.n;
    }
    if lowercaseHost {
      host := LowerAll(host);
    }
    result := Found(Extracted(scheme, secure, host, port, p.path));
  }

  lemma NoColonNoShape(text: string, lowercaseHost: bool)
    requires ':' !in text
    ensures Extract(text, lowercaseHost) == SchemeNotFound
  {
    forall p | WellShaped(p) ensures TextOf(p) != text {
      assert TextOf(p)[|p.scheme|] == ':';
    }
  }

  /** The host comes out as it stands in the text exactly when it is not to be lowered, or is in lower case already. */
  lemma HostCase(p: Parts, lowercaseHost: bool)
    requires WellShaped(p) && Extract(TextOf(p), lowercaseHost).Found?
    ensures Extract(TextOf(p), lowercaseHost).uri.host == p.host <==> !lowercaseHost || LowerAll(p.host) == p.host
  {
    hide Extract, LowerAll, ParseInteger, TextOf;
    ExtractOf(p, lowercaseHost);
  }

  /** An address in capitals keeps them unless asked. */
  lemma CapitalsKept()
    ensures Extract("http://EXAMPLE.COM/path", false) == Found(Extracted("http", false, "EXAMPLE.COM", 80, "/path"))
  {
    hide Extract;
    assert LowerAll("http") == "http";
    DefaultPort("http", "EXAMPLE.COM", "/path", false, false);
    assert "http" + "://" + "EXAMPLE.COM" + "" + "/path" == "http://EXAMPLE.COM/path";
  }

  // ----- what an address means, piece by piece

  /** An address in its pieces, put together: `//` may be left out where what follows does not start with it. */
  lemma AddressMeans(p: Parts, lowercaseHost: bool)
    requires WellShaped(p) && LowerAll(p.scheme) in {"http", "https"}
    ensures var secure := LowerAll(p.scheme) == "https";
            var host := if lowercaseHost then LowerAll(p.host) else p.host;
            var r := Extract(TextOf(p), lowercaseHost);
            if p.port == NoPort || p.port == PortIs("") then
              r == Found(Extracted(LowerAll(p.scheme), secure, host, if secure then 443 else 80, p.path))
            else
              match ParseInteger(p.port.text, -2_147_483_648, 2_147_483_647)
              case Value(n) => r == Found(Extracted(LowerAll(p.scheme), secure, host, n, p.path))
              case why => r == BadPort(why)
  {
    hide Extract, ParseInteger, LowerAll, TextOf, WellShaped;
    ExtractOf(p, lowercaseHost);
  }

  /** Without a port, and with a colon but nothing behind it, the port is that of the scheme. */
  lemma DefaultPort(scheme: string, host: string, path: string, colon: bool, lowercaseHost: bool)
    requires LowerAll(scheme) in {"http", "https"}
    requires ':' !in host && '/' !in host && (path == "" || path[0] == '/')
    ensures Extract(scheme + "://" + host + (if colon then ":" else "") + path, lowercaseHost) ==
            Found(Extracted(LowerAll(scheme), LowerAll(scheme) == "https",
                            if lowercaseHost then LowerAll(host) else host,
                            if LowerAll(scheme) == "https" then 443 else 80, path))
  {
    hide Extract, ParseInteger, LowerAll;
    var p := Parts(scheme, true, host, if colon then PortIs("") else NoPort, path);
    SchemeHasNoColon(scheme);
    var port := if colon then ":" else "";
    assert Authority(p) == host + port by { PortOfParts(p, port); }
    PutTogether(scheme, host, port, path);
    hide Authority;
    AddressMeans(p, lowercaseHost);
  }

  lemma PortOfParts(p: Parts, port: string)
    requires (p.port == NoPort && port == "") || (p.port == PortIs("") && port == ":")
    ensures Authority(p) == p.host + port
  {
  }

  lemma PutTogether(scheme: string, host: string, port: string, path: string)
    ensures scheme + ":" + ("//" + (host + port) + path) == scheme + "://" + host + port + path
  {
    assert ":" + "//" == "://";
    assert scheme + ":" + ("//" + (host + port) + path) == scheme + (":" + "//") + host + port + path;
  }

  lemma SchemeHasNoColon(scheme: string)
    requires LowerAll(scheme) in {"http", "https"}
    ensures ':' !in scheme
  {
    LowerKeepsColon(scheme);
  }

  lemma LowerKeepsColon(s: string)
    ensures ':' in s ==> ':' in LowerAll(s)
  {
    if ':' in s {
      var i :| 0 <= i < |s| && s[i] == ':';
      assert LowerAll(s)[i] == ':';
    }
  }

  /** Whatever comes after its first colon, a text has a shape. */
  lemma ShapeOf(scheme: string, rest: string) returns (p: Parts)
    requires ':' !in scheme
    ensures WellShaped(p) && TextOf(p) == scheme + ":" + rest && p.scheme == scheme
  {
    hide Authority, AfterScheme;
    var slashes := "//" <= rest;
    var body := if slashes then rest[2..] else rest;
    var authority, path := Halves(body, '/');
    var host, port := Halves(authority, ':');
    p := Parts(scheme, slashes, host, if port == "" then NoPort else PortIs(port[1..]), path);
    GivenPort(p, port);
    AuthorityFollows(p, authority, rest);
  }

  lemma GivenPort(p: Parts, port: string)
    requires port == "" || port[0] == ':'
    requires p.port == if port == "" then NoPort else PortIs(port[1..])
    ensures Authority(p) == p.host + port
  {
    if port != "" { assert port == ":" + port[1..]; }
  }

  lemma AuthorityFollows(p: Parts, authority: string, rest: string)
    requires Authority(p) == authority && (p.slashes <==> "//" <= rest)
    requires authority + p.path == if p.slashes then rest[2..] else rest
    ensures AfterScheme(p) == rest
  {
    hide Authority;
    if p.slashes {
      assert rest == "//" + rest[2..] && "//" + authority + p.path == "//" + (authority + p.path);
    } else {
      assert "" + authority == authority;
    }
  }

  lemma Halves(s: string, c: char) returns (before: string, rest: string)
    ensures s == before + rest && c !in before && (rest == "" || rest[0] == c)
  {
    hide Find;
    var end := Find(s, c, 0);
    match end {
      case NotFound => before, rest := s, ""; assert s[0..] == s;
      case At(i) => before, rest := s[0..i], s[i..];
    }
  }

  /** The scheme is rejected exactly when there is no colon, or what stands in front of the first one is, in lower
      case, neither http nor https. */
  lemma SchemeIsRejected(scheme: string, rest: string, lowercaseHost: bool)
    requires ':' !in scheme
    ensures Extract(scheme, lowercaseHost) == SchemeNotFound
    ensures Extract(scheme + ":" + rest, lowercaseHost) == SchemeNotFound <==> LowerAll(scheme) !in {"http", "https"}
  {
    hide Extract, ParseInteger, LowerAll, TextOf, WellShaped;
    NoColonNoShape(scheme, lowercaseHost);
    var p := ShapeOf(scheme, rest);
    ExtractOf(p, lowercaseHost);
  }

  // ----- printing and extracting again

  /** scheme://host:port followed by the path. */
  function Print(u: Extracted): string {
    u.scheme + "://" + u.host + ":" + Printed(u.port) + u.path
  }

  /** The component tuples that can come out, host case aside. */
  ghost predicate WellFormed(u: Extracted) {
    && (u.scheme == "http" || u.scheme == "https") && u.secure == (u.scheme == "https")
    && ':' !in u.host && '/' !in u.host
    && INT_MIN <= u.port <= INT_MAX
    && (u.path == "" || u.path[0] == '/')
  }

  function PartsOf(u: Extracted): Parts {
    Parts(u.scheme, true, u.host, PortIs(Printed(u.port)), u.path)
  }

  lemma PrintedIsPlain(n: int)
    ensures ':' !in Printed(n) && '/' !in Printed(n) && Printed(n) != ""
  {
  }

  lemma PrintIsTextOfParts(u: Extracted)
    requires WellFormed(u)
    ensures WellShaped(PartsOf(u)) && TextOf(PartsOf(u)) == Print(u)
  {
    hide Printed;
    PrintedIsPlain(u.port);
    var p := PartsOf(u);
    assert Authority(p) == u.host + (":" + Printed(u.port));
    assert TextOf(p) == u.scheme + ":" + ("//" + (u.host + (":" + Printed(u.port))) + u.path);
    assert TextOf(p) == Print(u);
  }

  /** Every well-formed tuple survives being printed and extracted. */
  lemma PrintThenExtract(u: Extracted, lowercaseHost: bool)
    requires WellFormed(u) && (lowercaseHost ==> LowerAll(u.host) == u.host)
    ensures Extract(Print(u), lowercaseHost) == Found(u)
  {
    hide Printed, ParseInteger, Extract;
    PrintIsTextOfParts(u);
    PrintedIsPlain(u.port);
    ExtractOf(PartsOf(u), lowercaseHost);
    ParseOfPrinted(u.port, INT_MIN, INT_MAX);
    assert LowerAll("http") == "http" && LowerAll("https") == "https";
  }

  /** Extraction only yields well-formed tuples. */
  lemma ExtractedIsWellFormed(text: string, lowercaseHost: bool)
    requires Extract(text, lowercaseHost).Found?
    ensures WellFormed(Extract(text, lowercaseHost).uri)
    ensures lowercaseHost ==> LowerAll(Extract(text, lowercaseHost).uri.host) == Extract(text, lowercaseHost).uri.host
  {
    hide LowerAll, ParseInteger, TextOf;
    var p :| WellShaped(p) && TextOf(p) == text && Extract(text, lowercaseHost) == Meaning(p, lowercaseHost);
    LowerTwice(p.host);
    HostInAuthority(p);
    LowerKeepsOut(p.host, ':');
    LowerKeepsOut(p.host, '/');
  }

  lemma HostInAuthority(p: Parts)
    ensures forall c :: c in p.host ==> c in Authority(p)
  {
  }

  lemma LowerKeepsOut(s: string, c: char)
    requires c !in s && !('a' <= c <= 'z')
    ensures c !in LowerAll(s)
  {
  }

  /** Printing what was extracted from any accepted address and extracting again gives the same five components. */
  lemma ExtractPrintExtract(text: string, lowercaseHost: bool)
    requires Extract(text, lowercaseHost).Found?
    ensures Extract(Print(Extract(text, lowercaseHost).uri), lowercaseHost) == Extract(text, lowercaseHost)
  {
    ExtractedIsWellFormed(text, lowercaseHost);
    PrintThenExtract(Extract(text, lowercaseHost).uri, lowercaseHost);
  }

  /** The extractable tuples are exactly the well-formed ones. */
  lemma ExtractableIffWellFormed(u: Extracted)
    ensures WellFormed(u) <==> exists text :: Extract(text, false) == Found(u)
  {
    if WellFormed(u) {
      PrintThenExtract(u, false);
    }
    if exists text :: Extract(text, false) == Found(u) {
      var text :| Extract(text, false) == Found(u);
      ExtractedIsWellFormed(text, false);
    }
  }
}
