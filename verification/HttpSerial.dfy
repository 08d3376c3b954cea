/** The printer and the parser as they run on a Serial over a text stream. */
module HttpSerial {
  import opened Bytes
  import opened Strings
  import opened Codec
  import opened Http

  lemma AppendTwice(a: string, b: string, c: string)
    ensures (a + b) + c == a + (b + c)
  {
  }

  lemma PrintIsHeaderThenBody(r: Request)
    ensures Print(r) ==
            (((r.verb + " " + r.path + " " + VERSION + "\r\n") + PrintHeaders(HeaderLines(r))) + "\r\n") + r.body
  {
    hide PrintHeaders, HeaderLines;
  }

  /** One step of Line: a carriage return is dropped, any other character but a line feed is kept. */
  lemma LineStep(line: string, c: char, s: string)
    requires '\n' in [c] + s
    ensures c == '\n' ==> (line + Line([c] + s).0, Line([c] + s).1) == (line, s)
    ensures c == '\r' ==> '\n' in s && Line([c] + s) == Line(s)
    ensures c != '\n' && c != '\r' ==>
              '\n' in s && (line + Line([c] + s).0, Line([c] + s).1) == ((line + [c]) + Line(s).0, Line(s).1)
  {
    assert ([c] + s)[1..] == s;
    assert line + "" == line;
    if '\n' in s {
      assert line + ([c] + Line(s).0) == (line + [c]) + Line(s).0;
    }
  }

  class Serial {
    const input: string
    var position: nat
    var out: string

    ghost predicate Valid()
      reads this
    {
      position <= |input|
    }

    ghost function Rest(): string
      requires Valid()
      reads this
    {
      input[position..]
    }

    constructor (input: string)
      ensures Valid() && this.input == input && Rest() == input && out == ""
    {
      this.input := input;
      position, out := 0, "";
    }

    // ----- printing

    method SerializeRequest(r: Request)
      modifies this`out
      ensures out == old(out) + Print(r)
    {
      hide PrintHeaders, Decimal;
      var header := r.verb + " " + r.path + " " + VERSION + "\r\n";
      ghost var start := header;
      PrintOneHeader(("Host", r.host));
      header := header + ("Host" + ": " + r.host + "\r\n");
      assert r.headers[..0] == [] && [("Host", r.host)] + [] == [("Host", r.host)];
      for i := 0 to |r.headers|
        invariant header == start + PrintHeaders([("Host", r.host)] + r.headers[..i]) && out == old(out)
      {
        ghost var before := [("Host", r.host)] + r.headers[..i];
        PrintHeadersAppend(before, [r.headers[i]]);
        PrintOneHeader(r.headers[i]);
        assert before + [r.headers[i]] == [("Host", r.host)] + r.headers[..i + 1];
        header := header + (r.headers[i].0 + ": " + r.headers[i].1 + "\r\n");
      }
      assert r.headers[..|r.headers|] == r.headers;
      PrintHeadersAppend([("Host", r.host)] + r.headers, [("Content-Length", Decimal(|r.body|))]);
      PrintOneHeader(("Content-Length", Decimal(|r.body|)));
      header := header + ("Content-Length" + ": " + Decimal(|r.body|) + "\r\n");
      assert header == start + PrintHeaders(HeaderLines(r));
      out := out + (header + "\r\n");
      out := out + r.body;
      PrintIsHeaderThenBody(r);
      AppendTwice(old(out), header + "\r\n", r.body);
    }

    // ----- parsing

    /** At the end of the input the character is zero, again and again. */
    method ReadChar() returns (c: char)
      requires Valid()
      modifies this`position
      ensures Valid()
      ensures if old(position) < |input| then c == input[old(position)] && position == old(position) + 1
              else c == '\0' && position == old(position)
    {
      c := '\0';
      if position < |input| {
        c := input[position];
        position := position + 1;
      }
    }

    /** Needs a line feed ahead: without one the loop would go on for ever. */
    method ReadLine() returns (line: string)
      requires Valid() && '\n' in Rest()
      modifies this`position
      ensures Valid() && (line, Rest()) == Line(old(Rest()))
    {
      hide Line;
      line := "";
      assert "" + Line(Rest()).0 == Line(Rest()).0;
      while true
        invariant Valid() && '\n' in Rest()
        invariant (line + Line(Rest()).0, Line(Rest()).1) == Line(old(Rest()))
        decreases |input| - position
      {
        ghost var here := Rest();
        var c := ReadChar();
        assert here == [c] + Rest();
        LineStep(line, c, Rest());
        if c == '\r' { continue; }
        if c == '\n' { break; }
        line := line + [c];
      }
    }

    method ReadHeaders(initial: map<string, string>) returns (headers: map<string, string>)
      requires Valid() && HeadersComplete(Rest())
      modifies this`position
      ensures Valid() && (headers, Rest()) == ParseHeaders(old(Rest()), initial)
    {
      hide Line, Find;
      headers := initial;
      while true
        invariant Valid() && HeadersComplete(Rest())
        invariant ParseHeaders(Rest(), headers) == ParseHeaders(old(Rest()), initial)
        decreases |Rest()|
      {
        var line := ReadLine();
        if line == "" { break; }
        var colon := Find(line, ':', 0);
        if colon.At? {
          var key, value := line[0..colon.i], line[colon.i + 1..];
          if value != "" && value[0] == ' ' {
            value := value[1..];
          }
          headers := headers[key := value];
        }
      }
    }

    /** readBytes into a zeroed block: what the input lacks stays zero. */
    method ReadBody(length: nat) returns (body: string)
      requires Valid()
      modifies this`position
      ensures Valid()
      ensures var got := Min(length, |old(Rest())|);
              body == old(Rest())[..got] + seq(length - got, _ => '\0') && Rest() == old(Rest())[got..]
    {
      var got := Min(length, |input| - position);
      body := input[position..position + got] + seq(length - got, _ => '\0');
      position := position + got;
    }

    /** The Content-Length part, once all headers are in. */
    method DeserializeBody(response: Response) returns (outcome: Outcome)
      requires Valid()
      modifies this`position
      ensures Valid() && outcome == ParseBody(response, old(Rest()))
      ensures outcome.Parsed? ==> Rest() == outcome.rest
    {
      hide ParseInteger;
      if "Content-Length" in response.headers && response.headers["Content-Length"] != "" {
        var length := ParseInteger(response.headers["Content-Length"], LONG_LONG_MIN, LONG_LONG_MAX);
        if !length.Value? { return BadLength; }
        if length.n < 0 { return NegativeLength(length.n + SIZE_LIMIT); }
        var body := ReadBody(length.n);
        return Parsed(response.(body := body), input[position..]);
      }
      return Parsed(response, input[position..]);
    }

    method DeserializeResponse(initial: Response) returns (outcome: Outcome)
      requires Valid() && HeadComplete(Rest())
      modifies this`position
      ensures Valid() && outcome == Parse(initial, old(Rest()))
      ensures outcome.Parsed? ==> Rest() == outcome.rest
    {
      hide Line, Find, HeadersComplete, ParseHeaders, ParseBody;
      var response := initial;
      var line := ReadLine();
      var space1 := Find(line, ' ', 0);
      if space1.NotFound? { return Parsed(response, input[position..]); }
      var protocolVersion := line[..space1.i];
      var slash := Find(protocolVersion, '/', 0);
      if slash.At? {
        response := response.(protocol := protocolVersion[..slash.i + 1], version := protocolVersion[slash.i + 1..]);
      } else {
        response := response.(protocol := protocolVersion, version := "");
      }
      assert (response.protocol, response.version) == SplitProtocol(protocolVersion);
      var space2 := Find(line, ' ', space1.i + 1);
      if space2.NotFound? { return Parsed(response, input[position..]); }
      response := response.(statusCode := line[space1.i + 1..space2.i], statusText := line[space2.i + 1..]);
      var headers := ReadHeaders(response.headers);
      response := response.(headers := headers);
      outcome := DeserializeBody(response);
    }
  }
}
