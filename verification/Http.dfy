/** HTTP/1.1 text framing: the request printer and the response parser that reads lines, headers and a body. */
module Http {
  import opened Bytes
  import opened Strings
  import opened Codec

  /** headers lists the header map in its iteration order. */
  datatype Request = Request(host: string, verb: string, path: string, headers: seq<(string, string)>, body: string)

  datatype Response = Response(
    protocol: string, version: string, statusCode: string, statusText: string,
    headers: map<string, string>, body: string)

  // ----- printing

  const VERSION := "HTTP/1.1"

  function PrintHeaders(headers: seq<(string, string)>): string {
    if headers == [] then ""
    else headers[0].0 + ": " + headers[0].1 + "\r\n" + PrintHeaders(headers[1..])
  }

  /** All headers of the message in the order they are printed. */
  function HeaderLines(r: Request): seq<(string, string)> {
    [("Host", r.host)] + r.headers + [("Content-Length", Decimal(|r.body|))]
  }

  function StartLine(r: Request): string { r.verb + " " + r.path + " " + VERSION }

  function Print(r: Request): string {
    StartLine(r) + "\r\n" + PrintHeaders(HeaderLines(r)) + "\r\n" + r.body
  }

  // ----- parsing

  /** read_line: up to and past the first line feed, carriage returns dropped. */
  function Line(s: string): (res: (string, string))
    requires '\n' in s
    ensures |res.1| < |s|
  {
    if s[0] == '\n' then ("", s[1..])
    else
      var (line, rest) := Line(s[1..]);
      (if s[0] == '\r' then line else [s[0]] + line, rest)
  }

  /** Lines up to and with an empty one. */
  predicate HeadersComplete(s: string)
    decreases |s|
  {
    '\n' in s && (Line(s).0 == "" || HeadersComplete(Line(s).1))
  }

  /** The input holds the status line and, unless that line stops the parser, all header lines. */
  predicate HeadComplete(s: string) {
    '\n' in s && (Spaces(Line(s).0).NotFound? || HeadersComplete(Line(s).1))
  }

  /** Where the second space of a status line is. */
  function Spaces(line: string): Index {
    match Find(line, ' ', 0)
    case NotFound => NotFound
    case At(i) => Find(line, ' ', i + 1)
  }

  function ParseHeaders(s: string, headers: map<string, string>): (map<string, string>, string)
    requires HeadersComplete(s)
    decreases |s|
  {
    var (line, rest) := Line(s);
    if line == "" then (headers, rest) else ParseHeaders(rest, AddHeader(line, headers))
  }

  /** A line without a colon is ignored; one blank after the colon is dropped. */
  function AddHeader(line: string, headers: map<string, string>): map<string, string> {
    match Find(line, ':', 0)
    case NotFound => headers
    case At(i) =>
      var value := line[i + 1..];
      headers[line[..i] := if value != "" && value[0] == ' ' then value[1..] else value]
  }

  /** "HTTP/1.1" is split after its slash. */
  function SplitProtocol(s: string): (string, string) {
    match Find(s, '/', 0)
    case NotFound => (s, "")
    case At(i) => (s[..i + 1], s[i + 1..])
  }

  datatype Outcome =
    | Parsed(response: Response, rest: string)
    | BadLength                   // stoll throws on the Content-Length text
    | NegativeLength(size: nat)   // a negative Content-Length taken as a size: for -1 the allocation of one byte more
                                  // wraps to none and a body of that size is reported, for others it cannot be met

  function ParseBody(r: Response, s: string): Outcome {
    if "Content-Length" !in r.headers || r.headers["Content-Length"] == "" then Parsed(r, s)
    else match ParseInteger(r.headers["Content-Length"], LONG_LONG_MIN, LONG_LONG_MAX)
      case Value(n) =>
        if n < 0 then NegativeLength(n + SIZE_LIMIT)
        else
          var got := Min(n, |s|);
          Parsed(r.(body := s[..got] + seq(n - got, _ => '\0')), s[got..])
      case _ => BadLength
  }

  function Parse(initial: Response, s: string): Outcome
    requires HeadComplete(s)
  {
    var (line, rest) := Line(s);
    match Find(line, ' ', 0)
    case NotFound => Parsed(initial, rest)
    case At(i) =>
      var (protocol, version) := SplitProtocol(line[..i]);
      var named := initial.(protocol := protocol, version := version);
      match Find(line, ' ', i + 1)
      case NotFound => Parsed(named, rest)
      case At(j) =>
        var (headers, after) := ParseHeaders(rest, initial.headers);
        ParseBody(named.(statusCode := line[i + 1..j], statusText := line[j + 1..], headers := headers), after)
  }

  // ----- what the parser makes of a printed request

  predicate OneLine(s: string) { '\r' !in s && '\n' !in s }

  /** No delimiter inside a field, and a body whose length stoll can read back. */
  ghost predicate Printable(r: Request) {
    && OneLine(r.verb) && ' ' !in r.verb
    && OneLine(r.path) && ' ' !in r.path
    && OneLine(r.host)
    && (forall h :: h in r.headers ==> OneLine(h.0) && ':' !in h.0 && OneLine(h.1))
    && |r.body| <= 0x7fff_ffff_ffff_ffff
  }

  lemma {:induction false} LineOf(line: string, rest: string)
    requires OneLine(line)
    ensures '\n' in line + "\r\n" + rest
    ensures Line(line + "\r\n" + rest) == (line, rest)
  {
    var s := line + "\r\n" + rest;
    assert s[|line| + 1] == '\n';
    if line == "" {
      assert s[1..][0] == '\n' && s[1..][1..] == rest;
      assert Line(s[1..]) == ("", rest);
    } else {
      assert s[1..] == line[1..] + "\r\n" + rest;
      assert forall c :: c in line[1..] ==> c in line;
      assert s[0] in line;
      LineOf(line[1..], rest);
      assert [line[0]] + line[1..] == line;
    }
  }

  lemma FindIs(s: string, c: char, from: nat, i: nat)
    requires from <= i < |s| && s[i] == c && c !in s[from..i]
    ensures Find(s, c, from) == At(i)
  {
    var r := Find(s, c, from);
    assert s[from..][i - from] == c;
    assert forall k :: from <= k < i ==> s[k] == s[from..i][k - from] && s[k] != c;
    assert forall k :: from <= k < r.i ==> s[k] == s[from..r.i][k - from] && s[k] != c;
  }

  lemma HeaderLine(key: string, value: string, headers: map<string, string>)
    requires ':' !in key
    ensures AddHeader(key + ": " + value, headers) == headers[key := value]
  {
    hide Find;
    var line := key + ": " + value;
    assert line[0..|key|] == key && line[|key|] == ':' && line[|key| + 1] == ' ';
    FindIs(line, ':', 0, |key|);
    assert line[..|key|] == key && line[|key| + 1..][1..] == value;
  }

  lemma {:induction false} HeadersParse(lines: seq<(string, string)>, headers: map<string, string>, rest: string)
    requires forall h :: h in lines ==> OneLine(h.0) && ':' !in h.0 && OneLine(h.1)
    ensures HeadersComplete(PrintHeaders(lines) + "\r\n" + rest)
    ensures ParseHeaders(PrintHeaders(lines) + "\r\n" + rest, headers) == (headers + Assigned(lines), rest)
    decreases |lines|
  {
    hide Line, AddHeader, Assigned;
    var s := PrintHeaders(lines) + "\r\n" + rest;
    if lines == [] {
      assert s == "" + "\r\n" + rest;
      LineOf("", rest);
      AssignedNothing(headers);
    } else {
      var (key, value) := lines[0];
      assert lines[0] in lines;
      var line := key + ": " + value;
      var tail := PrintHeaders(lines[1..]) + "\r\n" + rest;
      assert s == line + "\r\n" + tail;
      LineOf(line, tail);
      HeaderLine(key, value, headers);
      HeadersParse(lines[1..], headers[key := value], rest);
      AssignedFirst(headers, lines);
    }
  }

  lemma AssignedFirst<K, V>(m: map<K, V>, kvs: seq<(K, V)>)
    requires kvs != []
    ensures m[kvs[0].0 := kvs[0].1] + Assigned(kvs[1..]) == m + Assigned(kvs)
  {
  }

  lemma StatusLine(verb: string, path: string, tail: string)
    requires ' ' !in verb && ' ' !in path
    ensures var line := verb + " " + path + " " + tail;
            && Find(line, ' ', 0) == At(|verb|) && Find(line, ' ', |verb| + 1) == At(|verb| + 1 + |path|)
            && line[..|verb|] == verb && line[|verb| + 1..|verb| + 1 + |path|] == path
            && line[|verb| + 1 + |path| + 1..] == tail
  {
    hide Find;
    LineCut(verb, path, tail);
    TwoSpaces(verb + " " + path + " " + tail, verb, path);
  }

  lemma TwoSpaces(line: string, verb: string, path: string)
    requires ' ' !in verb && ' ' !in path && |verb| + 1 + |path| < |line|
    requires line[0..|verb|] == verb && line[|verb| + 1..|verb| + 1 + |path|] == path
    requires line[|verb|] == ' ' && line[|verb| + 1 + |path|] == ' '
    ensures Find(line, ' ', 0) == At(|verb|) && Find(line, ' ', |verb| + 1) == At(|verb| + 1 + |path|)
  {
    hide Find;
    FindIs(line, ' ', 0, |verb|);
    FindIs(line, ' ', |verb| + 1, |verb| + 1 + |path|);
  }

  lemma LineCut(verb: string, path: string, tail: string)
    ensures var line := verb + " " + path + " " + tail;
            var i, j := |verb|, |verb| + 1 + |path|;
            && j < |line| && line[..i] == verb && line[0..i] == verb && line[i] == ' '
            && line[i + 1..j] == path && line[j] == ' ' && line[j + 1..] == tail
  {
    var head := verb + " " + path;
    var line := head + " " + tail;
    HeadCut(verb, path);
    assert line[..|head|] == head;
    assert line[..|verb|] == line[..|head|][..|verb|];
    assert line[|verb| + 1..|head|] == line[..|head|][|verb| + 1..];
  }

  lemma HeadCut(verb: string, path: string)
    ensures var head := verb + " " + path;
            |head| == |verb| + 1 + |path| && head[..|verb|] == verb && head[|verb|] == ' ' && head[|verb| + 1..] == path
  {
  }

  /** What the parser, started from any response, makes of a printed request. */
  function Received(initial: Response, r: Request): Response {
    var (protocol, version) := SplitProtocol(r.verb);
    Response(protocol, version, r.path, VERSION, initial.headers + Assigned(HeaderLines(r)), r.body)
  }

  /** A printed request followed by anything parses to its fields, its headers and its exact body, and the parser
      stops exactly at its end. */
  lemma ParseOfPrint(initial: Response, r: Request, rest: string)
    requires Printable(r)
    ensures HeadComplete(Print(r) + rest)
    ensures Parse(initial, Print(r) + rest) == Parsed(Received(initial, r), rest)
  {
    hide PrintHeaders, HeadersComplete, ParseHeaders, Line, Decimal, ParseInteger, Find;
    hide VERSION, Print, HeaderLines, OneLine, Assigned;
    var line := StartLine(r);
    var block := PrintHeaders(HeaderLines(r)) + "\r\n" + (r.body + rest);
    assert Print(r) + rest == line + "\r\n" + block by { PrintSplits(r, rest); }
    StartIsOneLine(r);
    LineOf(line, block);
    StatusLine(r.verb, r.path, VERSION);
    LinesClean(r);
    HeadersParse(HeaderLines(r), initial.headers, r.body + rest);
    LengthHeader(r, initial.headers);
    ParseOfDigits(Decimal(|r.body|), LONG_LONG_MIN, LONG_LONG_MAX);
    assert (r.body + rest)[..|r.body|] == r.body && (r.body + rest)[|r.body|..] == rest;
    assert r.body + seq(0, _ => '\0') == r.body;
  }

  lemma StartIsOneLine(r: Request)
    requires OneLine(r.verb) && OneLine(r.path)
    ensures OneLine(StartLine(r))
  {
  }

  lemma PrintSplits(r: Request, rest: string)
    ensures Print(r) + rest ==
            StartLine(r) + "\r\n" + (PrintHeaders(HeaderLines(r)) + "\r\n" + (r.body + rest))
  {
    hide PrintHeaders;
    var lines := PrintHeaders(HeaderLines(r));
  }

  lemma LinesClean(r: Request)
    requires Printable(r)
    ensures forall h :: h in HeaderLines(r) ==> OneLine(h.0) && ':' !in h.0 && OneLine(h.1)
  {
    assert forall h :: h in HeaderLines(r) ==>
             h == ("Host", r.host) || h in r.headers || h == ("Content-Length", Decimal(|r.body|));
  }

  lemma LengthHeader(r: Request, headers: map<string, string>)
    ensures var all := headers + Assigned(HeaderLines(r));
            "Content-Length" in all && all["Content-Length"] == Decimal(|r.body|)
  {
    hide Decimal;
    AssignedLast([("Host", r.host)] + r.headers, ("Content-Length", Decimal(|r.body|)));
  }

  /** The fields received: path and HTTP/1.1 as status, the exact body, and the headers Host, overridden by the
      request's own headers, overridden by Content-Length; the verb up to its first slash is the protocol, and what
      comes after it the version. */
  lemma ReceivedFields(initial: Response, r: Request)
    ensures var got := Received(initial, r);
            && got.statusCode == r.path && got.statusText == "HTTP/1.1" && got.body == r.body
            && got.headers ==
               ((initial.headers["Host" := r.host]) + Assigned(r.headers))["Content-Length" := Decimal(|r.body|)]
    ensures '/' !in r.verb ==> Received(initial, r).protocol == r.verb && Received(initial, r).version == ""
    ensures forall a: string, b: string :: '/' !in a && r.verb == a + "/" + b ==>
              Received(initial, r).protocol == a + "/" && Received(initial, r).version == b
  {
    hide Decimal, Assigned, SplitProtocol;
    var front := [("Host", r.host)] + r.headers;
    AssignedLast(front, ("Content-Length", Decimal(|r.body|)));
    assert front[1..] == r.headers;
    AssignedFirst(initial.headers, front);
    if '/' !in r.verb { NoSlash(r.verb); }
    forall a: string, b: string | '/' !in a && r.verb == a + "/" + b ensures SplitProtocol(r.verb) == (a + "/", b) {
      FirstSlash(a, b);
    }
  }

  lemma FirstSlash(a: string, b: string)
    requires '/' !in a
    ensures SplitProtocol(a + "/" + b) == (a + "/", b)
  {
    hide Find;
    var s := a + "/" + b;
    assert s[0..|a|] == a && s[|a|] == '/';
    FindIs(s, '/', 0, |a|);
    assert s[..|a| + 1] == a + "/" && s[|a| + 1..] == b;
  }

  lemma NoSlash(s: string)
    requires '/' !in s
    ensures SplitProtocol(s) == (s, "")
  {
    hide Find;
    var r := Find(s, '/', 0);
  }

  // ----- the printed text

  /** A request in full, each header as its key, a colon, a blank and its value on a line of its own. */
  lemma PrintIs(r: Request)
    ensures Print(r) == r.verb + " " + r.path + " HTTP/1.1\r\n" + "Host: " + r.host + "\r\n" + PrintHeaders(r.headers) +
                        "Content-Length: " + Decimal(|r.body|) + "\r\n\r\n" + r.body
  {
    hide PrintHeaders, Decimal;
    var length := [("Content-Length", Decimal(|r.body|))];
    PrintHeadersAppend([("Host", r.host)] + r.headers, length);
    PrintHeadersAppend([("Host", r.host)], r.headers);
    PrintOneHeader(("Host", r.host));
    PrintOneHeader(length[0]);
    StartIs(r);
    JoinPrinted(StartLine(r), "Host: " + r.host + "\r\n", PrintHeaders(r.headers), Decimal(|r.body|), r.body);
    assert "Content-Length" + ": " + Decimal(|r.body|) + "\r\n" == "Content-Length: " + Decimal(|r.body|) + "\r\n";
    assert "Host" + ": " + r.host + "\r\n" == "Host: " + r.host + "\r\n";
  }

  lemma StartIs(r: Request)
    ensures StartLine(r) + "\r\n" == r.verb + " " + r.path + " HTTP/1.1\r\n"
  {
    assert " " + VERSION + "\r\n" == " HTTP/1.1\r\n";
  }

  lemma JoinPrinted(start: string, host: string, headers: string, size: string, body: string)
    ensures start + "\r\n" + ((host + headers) + ("Content-Length: " + size + "\r\n")) + "\r\n" + body ==
            (start + "\r\n") + host + headers + "Content-Length: " + size + "\r\n\r\n" + body
  {
    assert "\r\n" + "\r\n" == "\r\n\r\n";
    assert size + "\r\n" + "\r\n" == size + ("\r\n" + "\r\n");
  }

  lemma {:induction false} PrintHeadersAppend(a: seq<(string, string)>, b: seq<(string, string)>)
    ensures PrintHeaders(a + b) == PrintHeaders(a) + PrintHeaders(b)
  {
    if a == [] {
      assert a + b == b;
    } else {
      assert (a + b)[1..] == a[1..] + b;
      PrintHeadersAppend(a[1..], b);
      var line := a[0].0 + ": " + a[0].1 + "\r\n";
      assert line + (PrintHeaders(a[1..]) + PrintHeaders(b)) == (line + PrintHeaders(a[1..])) + PrintHeaders(b);
    }
  }

  lemma PrintOneHeader(h: (string, string))
    ensures PrintHeaders([h]) == h.0 + ": " + h.1 + "\r\n" && PrintHeaders([]) == ""
  {
  }

  // ----- lines and header lines of any kind

  /** A line without its carriage returns. */
  function NoReturns(s: string): string {
    if s == "" then "" else (if s[0] == '\r' then "" else [s[0]]) + NoReturns(s[1..])
  }

  /** A line is what stands in front of the first line feed, all carriage returns dropped, wherever they stand. */
  lemma {:induction false} LineIs(text: string, rest: string)
    requires '\n' !in text
    ensures '\n' in text + "\n" + rest && Line(text + "\n" + rest) == (NoReturns(text), rest)
  {
    var s := text + "\n" + rest;
    assert s[|text|] == '\n';
    if text == "" {
      assert s[1..] == rest;
    } else {
      assert s[1..] == text[1..] + "\n" + rest && s[0] == text[0];
      assert text[0] in text && forall c :: c in text[1..] ==> c in text;
      LineIs(text[1..], rest);
      assert "" + NoReturns(text[1..]) == NoReturns(text[1..]);
    }
  }

  /** A header line goes in by its first colon, one blank behind it dropped if there is one; without a colon it changes
      nothing. */
  lemma HeaderLineIs(key: string, value: string, headers: map<string, string>)
    requires ':' !in key
    ensures AddHeader(key, headers) == headers
    ensures AddHeader(key + ": " + value, headers) == headers[key := value]
    ensures value == "" || value[0] != ' ' ==> AddHeader(key + ":" + value, headers) == headers[key := value]
  {
    hide Find;
    HeaderLine(key, value, headers);
    var none := Find(key, ':', 0);
    var line := key + ":" + value;
    assert line[0..|key|] == key && line[|key|] == ':';
    FindIs(line, ':', 0, |key|);
    assert line[..|key|] == key && line[|key| + 1..] == value;
  }

  // ----- responses

  /** What the parser makes of the Content-Length text: no body when there is none, an error when it is no number or too
      big a one, and otherwise as many bytes as it says, zeros for those that are missing. */
  lemma BodyByLength(r: Response, s: string, digits: string)
    requires AllDigits(digits)
    ensures "Content-Length" !in r.headers ==> ParseBody(r, s) == Parsed(r, s)
    ensures "Content-Length" in r.headers && r.headers["Content-Length"] == digits ==>
              if digits == "" then ParseBody(r, s) == Parsed(r, s)
              else if Number(digits) > 0x7fff_ffff_ffff_ffff then ParseBody(r, s) == BadLength
              else if Number(digits) <= |s| then
                ParseBody(r, s) == Parsed(r.(body := s[..Number(digits)]), s[Number(digits)..])
              else ParseBody(r, s) == Parsed(r.(body := s + seq(Number(digits) - |s|, _ => '\0')), "")
    ensures "Content-Length" in r.headers && digits != "" && r.headers["Content-Length"] == "-" + digits ==>
              ParseBody(r, s) ==
              if Number(digits) > 0x8000_0000_0000_0000 then BadLength
              else if Number(digits) > 0 then NegativeLength(0x1_0000_0000_0000_0000 - Number(digits))
              else Parsed(r.(body := ""), s)
    ensures "Content-Length" in r.headers && r.headers["Content-Length"] != "" &&
            ParseInteger(r.headers["Content-Length"], LONG_LONG_MIN, LONG_LONG_MAX) == NoNumber ==>
              ParseBody(r, s) == BadLength
  {
    hide ParseInteger, Number;
    if digits != "" {
      ParseIs("", "", digits, "", LONG_LONG_MIN, LONG_LONG_MAX);
      ParseIs("", "-", digits, "", LONG_LONG_MIN, LONG_LONG_MAX);
      assert "" + "" + digits + "" == digits && "" + "-" + digits + "" == "-" + digits;
    }
    NothingMissing(s, digits);
  }

  lemma NothingMissing(s: string, digits: string)
    requires AllDigits(digits)
    ensures var n := Number(digits);
            && (n <= |s| ==> s[..n] + seq(n - Min(n, |s|), _ => '\0') == s[..n])
            && (|s| <= n ==> s[..|s|] == s && s[|s|..] == "")
            && s[..0] + seq(0, _ => '\0') == "" && s[0..] == s
  {
  }

  /** A response in full: protocol up to its first slash, version, status code and status text, the header lines, and
      exactly as many bytes of body as the Content-Length among them says; nothing after that is touched. */
  lemma ParseOfResponse(initial: Response, a: string, b: string, code: string, text: string,
                        lines: seq<(string, string)>, body: string, rest: string)
    requires OneLine(a) && OneLine(b) && OneLine(code) && OneLine(text)
    requires '/' !in a && ' ' !in a && ' ' !in b && ' ' !in code
    requires forall h :: h in lines ==> OneLine(h.0) && ':' !in h.0 && OneLine(h.1)
    requires |body| <= 0x7fff_ffff_ffff_ffff
    requires "Content-Length" in initial.headers + Assigned(lines)
    requires var size := (initial.headers + Assigned(lines))["Content-Length"];
             size != "" && AllDigits(size) && Number(size) == |body|
    ensures var s := a + "/" + b + " " + code + " " + text + "\r\n" + (PrintHeaders(lines) + "\r\n" + (body + rest));
            && HeadComplete(s)
            && Parse(initial, s) ==
               Parsed(Response(a + "/", b, code, text, initial.headers + Assigned(lines), body), rest)
  {
    hide PrintHeaders, HeadersComplete, ParseHeaders, Line, Find, OneLine, Assigned, Number, ParseBody, SplitProtocol;
    var proto := a + "/" + b;
    var line := proto + " " + code + " " + text;
    var block := PrintHeaders(lines) + "\r\n" + (body + rest);
    StatusIsOneLine(a, b, code, text);
    LineOf(line, block);
    StatusLine(proto, code, text);
    FirstSlash(a, b);
    HeadersParse(lines, initial.headers, body + rest);
    var r := Response(a + "/", b, code, text, initial.headers + Assigned(lines), initial.body);
    BodyByLength(r, body + rest, r.headers["Content-Length"]);
    assert (body + rest)[..|body|] == body && (body + rest)[|body|..] == rest;
  }

  lemma StatusIsOneLine(a: string, b: string, code: string, text: string)
    requires OneLine(a) && OneLine(b) && OneLine(code) && OneLine(text) && ' ' !in a && ' ' !in b
    ensures OneLine(a + "/" + b + " " + code + " " + text) && ' ' !in a + "/" + b
  {
  }

  /** A status line with no space or only one ends the parsing right after it: nothing, or only protocol and version,
      is taken from it. */
  lemma ParseOfShortLine(initial: Response, a: string, b: string, rest: string)
    requires OneLine(a) && OneLine(b) && ' ' !in a && ' ' !in b && '/' !in a
    ensures HeadComplete(a + "\r\n" + rest) && HeadComplete(a + " " + b + "\r\n" + rest)
    ensures HeadComplete(a + "/" + " " + b + "\r\n" + rest)
    ensures Parse(initial, a + "\r\n" + rest) == Parsed(initial, rest)
    ensures Parse(initial, a + " " + b + "\r\n" + rest) == Parsed(initial.(protocol := a, version := ""), rest)
    ensures Parse(initial, a + "/" + " " + b + "\r\n" + rest) ==
            Parsed(initial.(protocol := a + "/", version := ""), rest)
  {
    hide Line, Find, SplitProtocol, HeadersComplete, ParseHeaders, ParseBody;
    LineOf(a, rest);
    NoSpace(a);
    LineOf(a + " " + b, rest);
    OneSpace(a, b);
    NoSlash(a);
    LineOf(a + "/" + " " + b, rest);
    OneSpace(a + "/", b);
    FirstSlash(a, "");
    assert a + "/" + "" == a + "/";
  }

  lemma NoSpace(a: string)
    requires ' ' !in a
    ensures Find(a, ' ', 0) == NotFound
  {
    hide Find;
    assert a[0..] == a;
    FindNone(a, ' ', 0);
  }

  lemma FindNone(s: string, c: char, from: nat)
    requires from <= |s| && c !in s[from..]
    ensures Find(s, c, from) == NotFound
  {
    hide Find;
    var r := Find(s, c, from);
    forall k | from <= k < |s| ensures s[k] != c {
      assert s[from..][k - from] in s[from..];
    }
  }

  lemma OneSpace(a: string, b: string)
    requires ' ' !in a && ' ' !in b
    ensures var line := a + " " + b;
            Find(line, ' ', 0) == At(|a|) && Find(line, ' ', |a| + 1) == NotFound && line[..|a|] == a
  {
    hide Find;
    var line := a + " " + b;
    assert line[0..|a|] == a && line[|a|] == ' ' && line[|a| + 1..] == b;
    FindIs(line, ' ', 0, |a|);
    FindNone(line, ' ', |a| + 1);
  }

  // ----- messages one after the other

  function PrintAll(rs: seq<Request>): string {
    if rs == [] then "" else Print(rs[0]) + PrintAll(rs[1..])
  }

  /** Parsing one response after another gives these responses and stops in front of rest. */
  ghost predicate ParsesTo(s: string, responses: seq<Response>, rest: string)
    decreases |responses|
  {
    if responses == [] then s == rest
    else
      && HeadComplete(s) && Parse(EMPTY_RESPONSE, s).Parsed? && Parse(EMPTY_RESPONSE, s).response == responses[0]
      && ParsesTo(Parse(EMPTY_RESPONSE, s).rest, responses[1..], rest)
  }

  const EMPTY_RESPONSE := Response("", "", "", "", map[], "")

  function ReceivedAll(rs: seq<Request>): seq<Response> {
    if rs == [] then [] else [Received(EMPTY_RESPONSE, rs[0])] + ReceivedAll(rs[1..])
  }

  /** Pipelined messages are framed correctly: each is parsed on its own, and nothing after the last is touched. */
  lemma {:induction false} PipelinedMessages(rs: seq<Request>, rest: string)
    requires forall r :: r in rs ==> Printable(r)
    ensures ParsesTo(PrintAll(rs) + rest, ReceivedAll(rs), rest)
    decreases |rs|
  {
    hide Print, Parse, HeadComplete, Received;
    if rs == [] {
      assert "" + rest == rest;
    } else {
      assert rs[0] in rs;
      var after := PrintAll(rs[1..]) + rest;
      assert PrintAll(rs) + rest == Print(rs[0]) + after;
      ParseOfPrint(EMPTY_RESPONSE, rs[0], after);
      PipelinedMessages(rs[1..], rest);
      assert ReceivedAll(rs)[1..] == ReceivedAll(rs[1..]);
    }
  }
}
