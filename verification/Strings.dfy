/** Searching, splitting and number texts, as the standard library does them for plain 8-bit text. */
module Strings {
  import opened Bytes

  datatype Index = NotFound | At(i: nat)

  /** find(c, from) */
  function Find(s: string, c: char, from: nat): (r: Index)
    requires from <= |s|
    ensures r.At? ==> from <= r.i < |s| && s[r.i] == c && c !in s[from..r.i]
    ensures r.NotFound? ==> c !in s[from..]
    decreases |s| - from
  {
    if from == |s| then NotFound
    else if s[from] == c then At(from)
    else
      assert forall j :: from < j <= |s| ==> s[from..j] == [s[from]] + s[from + 1..j];
      assert s[from..] == [s[from]] + s[from + 1..];
      Find(s, c, from + 1)
  }

  /** tolower in the C locale. */
  function Lower(c: char): char {
    if 'A' <= c <= 'Z' then (c as int + 32) as char else c
  }

  function LowerAll(s: string): (r: string)
    ensures |r| == |s| && forall i :: 0 <= i < |s| ==> r[i] == Lower(s[i])
  {
    seq(|s|, i requires 0 <= i < |s| => Lower(s[i]))
  }

  lemma LowerTwice(s: string)
    ensures LowerAll(LowerAll(s)) == LowerAll(s)
  {
  }

  /** Each capital becomes the small letter at its place of the alphabet, and nothing else changes. */
  lemma LowerIs(c: char)
    ensures var capitals, small := "ABCDEFGHIJKLMNOPQRSTUVWXYZ", "abcdefghijklmnopqrstuvwxyz";
            && (forall i :: 0 <= i < 26 && c == capitals[i] ==> Lower(c) == small[i])
            && (c !in capitals ==> Lower(c) == c)
  {
    var capitals, small := "ABCDEFGHIJKLMNOPQRSTUVWXYZ", "abcdefghijklmnopqrstuvwxyz";
    if 'A' <= c <= 'Z' { assert capitals[c as int - 65] == c; }
  }

  // ----- decimal numbers

  predicate IsDigit(c: char) { '0' <= c <= '9' }

  predicate AllDigits(s: string) { forall c :: c in s ==> IsDigit(c) }

  function Digit(c: char): (d: nat)
    requires IsDigit(c)
    ensures d < 10
  {
    c as int - '0' as int
  }

  function DigitChar(d: nat): (c: char)
    requires d < 10
    ensures IsDigit(c) && Digit(c) == d
  {
    ('0' as int + d) as char
  }

  /** The number that a run of digits stands for. */
  function Number(s: string): nat
    requires AllDigits(s)
  {
    if s == [] then 0 else 10 * Number(s[..|s| - 1]) + Digit(s[|s| - 1])
  }

  lemma {:induction false} NumberBelow(s: string)
    requires AllDigits(s)
    ensures Number(s) < PowerOf(10, |s|)
  {
    if s != [] {
      var t := s[..|s| - 1];
      assert AllDigits(t) && s[|s| - 1] in s;
      NumberBelow(t);
      assert PowerOf(10, |s|) == 10 * PowerOf(10, |t|);
    }
  }

  function Decimal(n: nat): (s: string)
    ensures s != [] && AllDigits(s) && Number(s) == n
  {
    if n < 10 then
      [DigitChar(n)]
    else
      var s := Decimal(n / 10) + [DigitChar(n % 10)];
      assert s[..|s| - 1] == Decimal(n / 10);
      s
  }

  /** The first digit of a number has the weight of all the digits behind it. */
  lemma {:induction false} NumberFirst(c: char, t: string)
    requires AllDigits([c] + t)
    ensures AllDigits(t) && '0' <= c <= '9'
    ensures Number([c] + t) == (c as int - 48) * PowerOf(10, |t|) + Number(t)
    decreases |t|
  {
    hide PowerOf;
    assert c in [c] + t;
    assert forall d :: d in t ==> d in [c] + t;
    if t == [] {
      assert ([c] + t)[..0] == [];
      assert PowerOf(10, 0) == 1 by { PowersOfTen(0); }
    } else {
      var front, last := t[..|t| - 1], t[|t| - 1];
      assert ([c] + t)[..|t|] == [c] + front;
      NumberFirst(c, front);
      assert ([c] + t)[|t|] == last && t[..|t| - 1] == front;
      PowersOfTen(|t|);
      TenTimes(c as int - 48, PowerOf(10, |front|));
    }
  }

  lemma PowersOfTen(k: nat)
    ensures PowerOf(10, k) == if k == 0 then 1 else 10 * PowerOf(10, k - 1)
  {
  }

  lemma TenTimes(d: int, p: nat)
    ensures d * (10 * p) == 10 * (d * p)
  {
  }

  /** No leading zeros. */
  lemma {:induction false} DecimalIsShort(n: nat)
    ensures Decimal(n)[0] == '0' <==> n == 0
    ensures n < 10 ==> |Decimal(n)| == 1
  {
    if n >= 10 { DecimalIsShort(n / 10); }
  }

  /** to_string */
  function Printed(n: int): string {
    if n < 0 then "-" + Decimal(-n) else Decimal(n)
  }

  /** Digits alone, with a minus sign in front of them for a negative number. */
  lemma PrintedIs(n: int)
    ensures 0 <= n ==> AllDigits(Printed(n)) && Number(Printed(n)) == n
    ensures n < 0 ==> Printed(n)[0] == '-' && AllDigits(Printed(n)[1..]) && Number(Printed(n)[1..]) == -n
  {
    if n < 0 { assert Printed(n)[1..] == Decimal(-n); }
  }

  /** How many characters at the front of s are digits. */
  function LeadingDigits(s: string): (n: nat)
    ensures n <= |s| && AllDigits(s[..n])
    ensures n < |s| ==> !IsDigit(s[n])
  {
    if s == [] || !IsDigit(s[0]) then 0
    else
      var n := 1 + LeadingDigits(s[1..]);
      assert s[..n] == [s[0]] + s[1..][..n - 1];
      n
  }

  predicate IsSpace(c: char) { c == ' ' || '\t' <= c <= '\r' }

  function SkipSpaces(s: string): string {
    if s != [] && IsSpace(s[0]) then SkipSpaces(s[1..]) else s
  }

  const LONG_LONG_MIN := -0x8000_0000_0000_0000
  const LONG_LONG_MAX := 0x7fff_ffff_ffff_ffff

  datatype Parsed = Value(n: int) | NoNumber | OutOfRange

  /** stoi and stoll: leading blanks, a sign, then digits; whatever follows the digits is ignored. */
  function ParseInteger(s: string, low: int, high: int): (r: Parsed)
    ensures r.Value? ==> low <= r.n <= high
  {
    var t := SkipSpaces(s);
    if t != [] && t[0] == '-' then ParseDigits(t[1..], -1, low, high)
    else if t != [] && t[0] == '+' then ParseDigits(t[1..], 1, low, high)
    else ParseDigits(t, 1, low, high)
  }

  function ParseDigits(s: string, sign: int, low: int, high: int): Parsed {
    var n := LeadingDigits(s);
    if n == 0 then NoNumber
    else
      var value := sign * Number(s[..n]);
      if low <= value <= high then Value(value) else OutOfRange
  }

  lemma {:induction false} LeadingDigitsOfAll(s: string)
    requires AllDigits(s)
    ensures LeadingDigits(s) == |s|
  {
    if s != [] {
      assert s[0] in s;
      assert AllDigits(s[1..]);
      LeadingDigitsOfAll(s[1..]);
    }
  }

  lemma ParseOfDigits(s: string, low: int, high: int)
    requires AllDigits(s) && s != []
    ensures ParseInteger(s, low, high) == if low <= Number(s) <= high then Value(Number(s)) else OutOfRange
  {
    assert s[0] in s;
    LeadingDigitsOfAll(s);
    assert s[..|s|] == s;
  }

  predicate Blanks(s: string) { forall c :: c in s ==> c as int == 32 || 9 <= c as int <= 13 }

  lemma {:induction false} SkipBlanks(blanks: string, t: string)
    requires Blanks(blanks) && (t == "" || !IsSpace(t[0]))
    ensures SkipSpaces(blanks + t) == t
  {
    if blanks == "" {
      assert "" + t == t;
    } else {
      assert blanks[0] in blanks && (blanks + t)[1..] == blanks[1..] + t;
      assert forall c :: c in blanks[1..] ==> c in blanks;
      SkipBlanks(blanks[1..], t);
    }
  }

  lemma {:induction false} DigitsEnd(digits: string, tail: string)
    requires AllDigits(digits) && (tail == "" || !('0' <= tail[0] <= '9'))
    ensures LeadingDigits(digits + tail) == |digits|
  {
    if digits == "" {
      assert "" + tail == tail;
    } else {
      assert digits[0] in digits && (digits + tail)[1..] == digits[1..] + tail;
      assert forall c :: c in digits[1..] ==> c in digits;
      DigitsEnd(digits[1..], tail);
    }
  }

  /** What stoi and stoll read: blanks, at most one sign, digits, and whatever comes after them. */
  lemma ParseIs(blanks: string, sign: string, digits: string, tail: string, low: int, high: int)
    requires Blanks(blanks) && sign in {"", "+", "-"} && AllDigits(digits)
    requires tail == "" || !('0' <= tail[0] <= '9')
    requires digits == "" && sign == "" ==> tail == "" || (tail[0] !in "+-" && !Blanks(tail[..1]))
    ensures ParseInteger(blanks + sign + digits + tail, low, high) ==
            if digits == "" then NoNumber
            else
              var n: int := if sign == "-" then 0 - Number(digits) else Number(digits);
              if low <= n <= high then Value(n) else OutOfRange
  {
    hide LeadingDigits, Number;
    var t := sign + (digits + tail);
    assert blanks + sign + digits + tail == blanks + t;
    FirstOfNumber(sign, digits, tail);
    SkipBlanks(blanks, t);
    DigitsEnd(digits, tail);
    assert (digits + tail)[..|digits|] == digits;
  }

  lemma FirstOfNumber(sign: string, digits: string, tail: string)
    requires sign in {"", "+", "-"} && AllDigits(digits)
    requires tail == "" || !('0' <= tail[0] <= '9')
    requires digits == "" && sign == "" ==> tail == "" || (tail[0] !in "+-" && !Blanks(tail[..1]))
    ensures var t := sign + (digits + tail);
            && (t == "" || !IsSpace(t[0])) && (sign != "" ==> t[0] == sign[0] && t[1..] == digits + tail)
            && (sign == "" ==> t == digits + tail && (t == "" || t[0] !in "+-"))
  {
    var t := sign + (digits + tail);
    if sign == "" {
      assert t == digits + tail;
      if digits != "" { assert t[0] == digits[0] && digits[0] in digits; }
      else if tail != "" { assert t[0] == tail[0] && tail[..1] == [tail[0]]; }
    }
  }

  /** A printed number parses back to itself. */
  lemma ParseOfPrinted(n: int, low: int, high: int)
    requires low <= n <= high
    ensures ParseInteger(Printed(n), low, high) == Value(n)
  {
    if n < 0 {
      var digits := Decimal(-n);
      assert Printed(n)[1..] == digits && Printed(n)[0] == '-';
      LeadingDigitsOfAll(digits);
      assert digits[..|digits|] == digits;
    } else {
      ParseOfDigits(Decimal(n), low, high);
    }
  }

  // ----- splitting at a separator

  /** All pieces between separators, empty ones included. */
  function Split(s: string, sep: char): (parts: seq<string>)
    ensures parts != []
  {
    if s == [] then [[]]
    else if s[0] == sep then [[]] + Split(s[1..], sep)
    else
      var parts := Split(s[1..], sep);
      [[s[0]] + parts[0]] + parts[1..]
  }

  function Join(parts: seq<string>, sep: char): string
    requires parts != []
  {
    if |parts| == 1 then parts[0] else parts[0] + [sep] + Join(parts[1..], sep)
  }

  lemma {:induction false} SplitPiece(piece: string, rest: string, sep: char)
    requires sep !in piece
    ensures Split(piece + rest, sep) == [piece + Split(rest, sep)[0]] + Split(rest, sep)[1..]
  {
    if piece == [] {
      assert piece + rest == rest;
      assert [] + Split(rest, sep)[0] == Split(rest, sep)[0];
    } else {
      assert (piece + rest)[1..] == piece[1..] + rest;
      assert forall c :: c in piece[1..] ==> c in piece;
      SplitPiece(piece[1..], rest, sep);
      assert [piece[0]] + (piece[1..] + Split(rest, sep)[0]) == piece + Split(rest, sep)[0];
    }
  }

  /** Splitting what was joined from pieces without separators gives the pieces back. */
  lemma {:induction false} SplitOfJoin(parts: seq<string>, sep: char)
    requires parts != [] && forall p :: p in parts ==> sep !in p
    ensures Split(Join(parts, sep), sep) == parts
  {
    assert parts[0] in parts;
    if |parts| == 1 {
      SplitPiece(parts[0], [], sep);
      assert parts[0] + [] == parts[0];
    } else {
      SplitOfJoin(parts[1..], sep);
      var rest := [sep] + Join(parts[1..], sep);
      assert parts[0] + [sep] + Join(parts[1..], sep) == parts[0] + rest;
      assert rest[1..] == Join(parts[1..], sep);
      SplitPiece(parts[0], rest, sep);
      assert Split(rest, sep) == [[]] + parts[1..];
      assert Split(rest, sep)[1..] == parts[1..] && parts[0] + [] == parts[0];
    }
  }

  lemma {:induction false} SplitHasNoSeparators(s: string, sep: char)
    ensures forall p :: p in Split(s, sep) ==> sep !in p
    ensures Join(Split(s, sep), sep) == s
  {
    if s != [] {
      SplitHasNoSeparators(s[1..], sep);
      var parts := Split(s[1..], sep);
      if s[0] == sep {
        assert Split(s, sep)[1..] == parts;
        assert [] + [sep] + Join(parts, sep) == s;
      } else {
        assert parts[0] in parts;
        assert Split(s, sep)[1..] == parts[1..];
        if |parts| > 1 {
          assert [s[0]] + (parts[0] + [sep] + Join(parts[1..], sep)) ==
                 [s[0]] + parts[0] + [sep] + Join(parts[1..], sep);
        }
      }
    }
  }
}
