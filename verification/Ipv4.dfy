/** string_is_ipv4: a scanning loop over the characters, then a range check of the four segments. */
module Ipv4 {
  import opened Bytes
  import opened Strings

  /** One to three decimal digits of value at most 255; leading zeros are allowed. */
  predicate Octet(s: string) {
    1 <= |s| <= 3 && AllDigits(s) && Number(s) <= 255
  }

  /** Exactly four octets with single dots between them. */
  ghost predicate IsDottedQuad(s: string) {
    exists a, b, c, d :: Octet(a) && Octet(b) && Octet(c) && Octet(d) && s == a + "." + b + "." + c + "." + d
  }

  predicate FourOctets(parts: seq<string>) {
    |parts| == 4 && forall i :: 0 <= i < 4 ==> Octet(parts[i])
  }

  lemma OctetHasNoDot(s: string)
    requires AllDigits(s)
    ensures '.' !in s
  {
  }

  lemma JoinOfFour(a: string, b: string, c: string, d: string)
    ensures Join([a, b, c, d], '.') == a + "." + b + "." + c + "." + d
  {
    assert [a, b, c, d][1..] == [b, c, d] && [b, c, d][1..] == [c, d] && [c, d][1..] == [d];
    assert Join([d], '.') == d;
    assert Join([c, d], '.') == c + "." + d;
    assert Join([b, c, d], '.') == b + "." + (c + "." + d);
    assert Join([a, b, c, d], '.') == a + "." + (b + "." + (c + "." + d));
  }

  /** A dotted quad is a text whose pieces between dots are four octets. */
  lemma QuadBySplitting(s: string)
    ensures IsDottedQuad(s) <==> FourOctets(Split(s, '.'))
  {
    if IsDottedQuad(s) {
      var a, b, c, d :| Octet(a) && Octet(b) && Octet(c) && Octet(d) && s == a + "." + b + "." + c + "." + d;
      JoinOfFour(a, b, c, d);
      forall p | p in [a, b, c, d] ensures '.' !in p { OctetHasNoDot(p); }
      SplitOfJoin([a, b, c, d], '.');
    }
    if FourOctets(Split(s, '.')) {
      var parts := Split(s, '.');
      SplitHasNoSeparators(s, '.');
      JoinOfFour(parts[0], parts[1], parts[2], parts[3]);
      assert parts == [parts[0], parts[1], parts[2], parts[3]];
    }
  }

  lemma SegmentParses(s: string)
    requires |s| <= 3 && AllDigits(s) && s != ""
    ensures ParseInteger(s, LONG_LONG_MIN, LONG_LONG_MAX) == Value(Number(s))
  {
    hide ParseInteger, Number, LeadingDigits;
    NumberBelow(s);
    assert PowerOf(10, 1) == 10 && PowerOf(10, 2) == 100 && PowerOf(10, 3) == 1000;
    ParseOfDigits(s, LONG_LONG_MIN, LONG_LONG_MAX);
  }

  /** The text at some point of the scan: finished segments, the segment being collected, and the rest. */
  lemma AddDigit(s: string, done: seq<string>, piece: string, rest: string)
    requires rest != [] && rest[0] != '.' && Split(s, '.') == done + Continued(piece, rest)
    ensures Split(s, '.') == done + Continued(piece + [rest[0]], rest[1..])
  {
    assert piece + ([rest[0]] + Split(rest[1..], '.')[0]) == (piece + [rest[0]]) + Split(rest[1..], '.')[0];
  }

  function Continued(piece: string, rest: string): (parts: seq<string>)
    ensures parts != [] && piece <= parts[0]
  {
    [piece + Split(rest, '.')[0]] + Split(rest, '.')[1..]
  }

  lemma AddDot(s: string, done: seq<string>, piece: string, rest: string)
    requires rest != [] && rest[0] == '.' && Split(s, '.') == done + Continued(piece, rest)
    ensures Split(s, '.') == (done + [piece]) + Continued("", rest[1..])
  {
    var tail := Split(rest[1..], '.');
    assert Split(rest, '.')[1..] == tail && piece + [] == piece;
    assert Continued("", rest[1..]) == tail by { assert [] + tail[0] == tail[0]; }
    assert done + ([piece] + tail) == (done + [piece]) + tail;
  }

  lemma ScanStarts(s: string)
    ensures Split(s, '.') == [] + Continued("", s)
  {
    assert [] + Split(s, '.')[0] == Split(s, '.')[0];
  }

  lemma ScanEnds(s: string, done: seq<string>, piece: string)
    requires Split(s, '.') == done + Continued(piece, "")
    ensures Split(s, '.') == done + [piece]
  {
    assert piece + [] == piece;
  }

  /** One piece that is no octet, or a wrong number of pieces, settles the answer. */
  lemma NoQuad(s: string, done: seq<string>, piece: string, rest: string)
    requires Split(s, '.') == done + Continued(piece, rest)
    requires |piece| > 3 || !AllDigits(piece) || |done| > 3
    ensures !IsDottedQuad(s)
  {
    QuadBySplitting(s);
    var bad := Split(s, '.')[|done|];
    assert bad == Continued(piece, rest)[0];
    if !AllDigits(piece) {
      var c :| c in piece && !IsDigit(c);
      assert c in bad;
    }
  }

  /** Sound and complete: the answer is true exactly for dotted quads, and the segment index stays in bounds. */
  method StringIsIpv4(str: string) returns (ok: bool)
    ensures ok <==> IsDottedQuad(str)
  {
    hide Split, Continued, IsDottedQuad, ParseInteger;
    QuadBySplitting(str);
    if str == [] { EmptyIsNoQuad(); return false; }
    var segments := new string[4](_ => "");
    var segmentIndex := 0;
    ghost var done: seq<string> := [];
    assert str[0..] == str;
    ScanStarts(str);
    for index := 0 to |str|
      invariant 0 <= segmentIndex <= 3 && done == segments[..segmentIndex]
      invariant forall k :: 0 <= k < 4 ==> AllDigits(segments[k]) && |segments[k]| <= 3
      invariant forall k :: segmentIndex < k < 4 ==> segments[k] == ""
      invariant Split(str, '.') == done + Continued(segments[segmentIndex], str[index..])
    {
      var ch := str[index];
      ghost var piece, rest := segments[segmentIndex], str[index..];
      assert rest[1..] == str[index + 1..];
      if IsDigit(ch) {
        AddDigit(str, done, piece, rest);
        segments[segmentIndex] := segments[segmentIndex] + [ch];
        if |segments[segmentIndex]| > 3 {
          NoQuad(str, done, piece + [ch], rest[1..]);
          return false;
        }
        assert done == segments[..segmentIndex];
        continue;
      } else if ch == '.' {
        AddDot(str, done, piece, rest);
        if segmentIndex >= 3 {
          NoQuad(str, done + [piece], "", rest[1..]);
          return false;
        }
        done := done + [piece];
        segmentIndex := segmentIndex + 1;
        continue;
      }
      AddDigit(str, done, piece, rest);
      assert ch in piece + [ch];
      NoQuad(str, done, piece + [ch], rest[1..]);
      return false;
    }
    ScanEnds(str, done, segments[segmentIndex]);
    if segmentIndex != 3 {
      return false;
    }
    ghost var pieces := segments[..];
    assert Split(str, '.') == pieces;
    for segment := 0 to 4
      invariant segments[..] == pieces
      invariant forall k :: 0 <= k < segment ==> Octet(segments[k])
    {
      if segments[segment] == "" {
        return false;
      }
      assert segments[segment] == pieces[segment];
      SegmentParses(segments[segment]);
      var value := ParseInteger(segments[segment], LONG_LONG_MIN, LONG_LONG_MAX);
      if value.n > 255 || value.n < 0 {
        return false;
      }
    }
    return true;
  }

  lemma EmptyIsNoQuad()
    ensures !IsDottedQuad("")
  {
    QuadBySplitting("");
  }
}
