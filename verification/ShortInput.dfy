/** What `>>` leaves behind when the input ends too early. */
module ShortInput {
  import opened Bytes
  import opened Bits
  import opened Codec
  import opened Deserializing

  // ----- more input never changes what was decoded

  lemma {:induction false} DecodeExtends(t: Type, bytes: seq<byte>, more: seq<byte>)
    requires Decode(t, bytes).Some?
    ensures Decode(t, bytes + more) ==
            Some(Decoded(Decode(t, bytes).value.value, Decode(t, bytes).value.rest + more))
    decreases t, 1, 0
  {
    hide DecodeSize, DecodeEach, DecodePairs, SizeValue;
    match t {
      case Scalar(width) => FrontExtends(bytes, more, width);
      case Flag => FrontExtends(bytes, more, 1);
      case Text =>
        SizeExtends(bytes, more);
        FrontExtends(DecodeSize(bytes).value.rest, more, DecodeSize(bytes).value.value);
      case Vector(e) =>
        SizeExtends(bytes, more);
        DecodeEachExtends(e, DecodeSize(bytes).value.value, DecodeSize(bytes).value.rest, more);
      case Map(k, v) =>
        SizeExtends(bytes, more);
        DecodePairsExtends(k, v, DecodeSize(bytes).value.value, DecodeSize(bytes).value.rest, more);
      case Set(e) =>
        SizeExtends(bytes, more);
        DecodeEachExtends(e, DecodeSize(bytes).value.value, DecodeSize(bytes).value.rest, more);
    }
  }

  lemma FrontExtends(bytes: seq<byte>, more: seq<byte>, n: nat)
    requires n <= |bytes|
    ensures (bytes + more)[..n] == bytes[..n] && (bytes + more)[n..] == bytes[n..] + more
  {
  }

  lemma SizeExtends(bytes: seq<byte>, more: seq<byte>)
    requires DecodeSize(bytes).Some?
    ensures DecodeSize(bytes + more) ==
            Some(Decoded(DecodeSize(bytes).value.value, DecodeSize(bytes).value.rest + more))
  {
    hide SizeValue;
    FrontExtends(bytes, more, SIZE_WIDTH);
  }

  lemma {:induction false} DecodeEachExtends(e: Type, n: nat, bytes: seq<byte>, more: seq<byte>)
    requires DecodeEach(e, n, bytes).Some?
    ensures DecodeEach(e, n, bytes + more) ==
            Some(Decoded(DecodeEach(e, n, bytes).value.value, DecodeEach(e, n, bytes).value.rest + more))
    decreases e, 2, n
  {
    hide Decode;
    if n > 0 {
      DecodeExtends(e, bytes, more);
      DecodeEachExtends(e, n - 1, Decode(e, bytes).value.rest, more);
    }
  }

  lemma {:induction false} DecodePairExtends(k: Type, v: Type, bytes: seq<byte>, more: seq<byte>)
    requires DecodePair(k, v, bytes).Some?
    ensures DecodePair(k, v, bytes + more) ==
            Some(Decoded(DecodePair(k, v, bytes).value.value, DecodePair(k, v, bytes).value.rest + more))
    decreases Map(k, v), 0, 0
  {
    hide Decode;
    DecodeExtends(k, bytes, more);
    DecodeExtends(v, Decode(k, bytes).value.rest, more);
  }

  lemma {:induction false} DecodePairsExtends(k: Type, v: Type, n: nat, bytes: seq<byte>, more: seq<byte>)
    requires DecodePairs(k, v, n, bytes).Some?
    ensures DecodePairs(k, v, n, bytes + more) ==
            Some(Decoded(DecodePairs(k, v, n, bytes).value.value, DecodePairs(k, v, n, bytes).value.rest + more))
    decreases Map(k, v), 0, n + 1
  {
    hide DecodePair;
    if n > 0 {
      DecodePairExtends(k, v, bytes, more);
      DecodePairsExtends(k, v, n - 1, DecodePair(k, v, bytes).value.rest, more);
    }
  }

  // ----- what a stream lacks is filled in

  function Zeros(k: nat): seq<byte> { seq(k, _ => 0) }

  lemma {:induction false} ZeroCount(width: nat)
    ensures SizeBytes(0, width) == Zeros(width)
    decreases width
  {
    hide NumberByte;
    if width > 0 {
      ZeroByte();
      ZeroCount(width - 1);
    }
  }

  lemma ZeroByte()
    ensures NumberByte(0) == 0
  {
    hide BitAt, BitsOf, Mask;
    ZeroHasNoBits(8);
    NoBitsAssemble(NumberBits(0, 8));
  }

  lemma {:induction false} ZeroHasNoBits(width: nat)
    ensures forall i :: 0 <= i < width ==> !NumberBits(0, width)[i]
    decreases width
  {
    if width > 0 { ZeroHasNoBits(width - 1); }
  }

  lemma {:induction false} NoBitsAssemble(bits: seq<bool>)
    requires |bits| <= 8 && forall i :: 0 <= i < |bits| ==> !bits[i]
    ensures Assemble(bits) == 0
  {
    if bits != [] {
      NoBitsAssemble(bits[..|bits| - 1]);
    }
  }

  /** A stream, replayed or not, with the flag clear. */
  predicate Streamed(s: Source) { !s.from.Counted? && !s.from.Buffer? && !s.flagged }

  /** Only zeros, and bytes of scalars just declared. */
  ghost predicate Filler(pad: seq<byte>, junk: nat -> byte) {
    forall b :: b in pad ==> b == 0 || exists i :: b == junk(i)
  }

  /** Decoding with pad added gives what the attempt left behind; something is only added to what ended early. */
  ghost predicate Padded<T(!new)>(d: Option<Decoded<T>>, pad: seq<byte>, v: T, s: Source, u: Source) {
    && d == Some(Decoded(v, View(u))) && (pad != [] || View(s) == [] ==> View(u) == [])
    && Streamed(u) && u.junk == s.junk && Filler(pad, s.junk)
  }

  lemma FillPads(s: Source, dest: seq<byte>) returns (pad: seq<byte>)
    requires Streamed(s) && Filler(dest, s.junk)
    ensures var (bytes, u) := Fill(s, dest);
            && |dest| <= |View(s) + pad| && (pad != [] || View(s) == [] ==> View(u) == [])
            && Streamed(u) && u.junk == s.junk && Filler(pad, s.junk)
            && bytes == (View(s) + pad)[..|dest|] && View(u) == (View(s) + pad)[|dest|..]
  {
    hide View, Fill;
    FillDelivers(s, dest);
    FillKeepsSettings(s, dest);
    pad := if |dest| <= |View(s)| then [] else dest[|View(s)|..];
    assert View(s) + [] == View(s);
    assert forall b :: b in pad ==> b in dest;
  }

  lemma CountPads(s: Source) returns (pad: seq<byte>)
    requires Streamed(s)
    ensures var (n, u) := TakeCount(s, 0);
            Padded(DecodeSize(View(s) + pad), pad, n, s, u)
  {
    hide SizeValue, View, Fill;
    ZeroCount(SIZE_WIDTH);
    pad := FillPads(s, SizeBytes(0, SIZE_WIDTH));
  }

  /** Two reads in a row, each padded on its own, are padded by both paddings together. */
  lemma PadsJoin(view: seq<byte>, a: seq<byte>, b: seq<byte>, junk: nat -> byte)
    requires Filler(a, junk) && Filler(b, junk)
    ensures (view + a) + b == view + (a + b) && Filler(a + b, junk)
  {
  }

  /** A value without a bool inside, taken off a stream that ends too early, is the one decoded from the same bytes
      with others after them: zeros, and what scalars just declared happen to hold. */
  lemma {:induction false} MissingBytesFilledIn(t: Type, s: Source) returns (pad: seq<byte>)
    requires NoFlags(t) && Streamed(s)
    ensures var (v, u) := Take(t, Fresh(t, s.junk), s);
            Padded(Decode(t, View(s) + pad), pad, v, s, u)
    decreases t, 2, 0
  {
    hide View, Fill, TakeCount, TakeText, DecodeSize, TakeEach, TakePairs, DecodeEach, DecodePairs, Padded, Streamed;
    match t {
      case Scalar(width) => pad := ScalarPads(s, width);
      case Text => pad := TextPads(s);
      case Vector(e) => pad := SequencePads(e, s);
      case Set(e) => pad := SequencePads(e, s);
      case Map(key, value) => pad := MapPads(key, value, s);
    }
  }

  lemma ScalarPads(s: Source, width: nat) returns (pad: seq<byte>)
    requires Streamed(s)
    ensures var (v, u) := Take(Scalar(width), Fresh(Scalar(width), s.junk), s);
            Padded(Decode(Scalar(width), View(s) + pad), pad, v, s, u)
  {
    hide View, Fill;
    pad := FillPads(s, Fresh(Scalar(width), s.junk).bytes);
  }

  lemma TextPads(s: Source) returns (pad: seq<byte>)
    requires Streamed(s)
    ensures var (v, u) := Take(Text, Fresh(Text, s.junk), s);
            Padded(Decode(Text, View(s) + pad), pad, v, s, u)
  {
    hide View, Fill, TakeCount, DecodeSize, Filler;
    var a := CountPads(s);
    var (n, u) := TakeCount(s, 0);
    assert Filler(Resized([], n), s.junk) by { FreshTextIsZeros(n, s.junk); }
    var b := FillPads(u, Resized([], n));
    SizeExtends(View(s) + a, b);
    PadsJoin(View(s), a, b, s.junk);
    pad := a + b;
  }

  lemma FreshTextIsZeros(n: nat, junk: nat -> byte)
    ensures Resized([], n) == Zeros(n) && Filler(Resized([], n), junk)
  {
  }

  lemma {:induction false} SequencePads(e: Type, s: Source) returns (pad: seq<byte>)
    requires NoFlags(e) && Streamed(s)
    ensures var (v, u) := Take(Vector(e), Fresh(Vector(e), s.junk), s);
            Padded(Decode(Vector(e), View(s) + pad), pad, v, s, u)
    ensures var (v, u) := Take(Set(e), Fresh(Set(e), s.junk), s);
            Padded(Decode(Set(e), View(s) + pad), pad, v, s, u)
    decreases e, 4, 0
  {
    hide View, Fill, TakeCount, DecodeSize, DecodeEach, TakeEach, Members, Filler;
    var a := CountPads(s);
    var (n, u) := TakeCount(s, 0);
    var b := EachPads(e, n, [], u);
    SizeExtends(View(s) + a, b);
    PadsJoin(View(s), a, b, s.junk);
    pad := a + b;
    NoneBefore(TakeEach(e, n, [], u).0);
    NoneBefore(DecodeEach(e, n, View(u) + b).value.value);
    EmptySetPlus(Members(TakeEach(e, n, [], u).0));
  }

  lemma {:induction false} MapPads(key: Type, value: Type, s: Source) returns (pad: seq<byte>)
    requires NoFlags(key) && NoFlags(value) && Streamed(s)
    ensures var (v, u) := Take(Map(key, value), Fresh(Map(key, value), s.junk), s);
            Padded(Decode(Map(key, value), View(s) + pad), pad, v, s, u)
    decreases Map(key, value), 1, 0
  {
    hide View, Fill, TakeCount, DecodeSize, DecodePairs, TakePairs, Assigned, Filler;
    var a := CountPads(s);
    var (n, u) := TakeCount(s, 0);
    var b := PairsPad(key, value, n, [], u);
    SizeExtends(View(s) + a, b);
    PadsJoin(View(s), a, b, s.junk);
    pad := a + b;
    NoneBefore(DecodePairs(key, value, n, View(u) + b).value.value);
    EmptyMapPlus(Assigned(TakePairs(key, value, n, [], u).0));
  }

  lemma EmptySetPlus<T>(xs: set<T>)
    ensures {} + xs == xs
  {
  }

  lemma EmptyMapPlus<K, V>(m: map<K, V>)
    ensures map[] + m == m
  {
  }

  lemma {:induction false} EachPads(e: Type, n: nat, done: seq<Value>, s: Source) returns (pad: seq<byte>)
    requires NoFlags(e) && Streamed(s)
    ensures var (vs, u) := TakeEach(e, n, done, s);
            var d := DecodeEach(e, n, View(s) + pad);
            d.Some? && vs == done + d.value.value && Padded(d, pad, d.value.value, s, u)
    decreases e, 3, n
  {
    hide Take, Decode, View, Fresh, Filler;
    if n == 0 {
      pad := NoPad(View(s), s.junk);
      assert done + [] == done;
    } else {
      var a := MissingBytesFilledIn(e, s);
      var (v, u) := Take(e, Fresh(e, s.junk), s);
      var b := EachPads(e, n - 1, done + [v], u);
      DecodeExtends(e, View(s) + a, b);
      PadsJoin(View(s), a, b, s.junk);
      pad := a + b;
      Regroup(done, v, DecodeEach(e, n - 1, View(u) + b).value.value);
    }
  }

  lemma NoPad(view: seq<byte>, junk: nat -> byte) returns (pad: seq<byte>)
    ensures pad == [] && view + pad == view && Filler(pad, junk)
  {
    pad := [];
  }

  lemma {:induction false} PairPads(key: Type, value: Type, s: Source) returns (pad: seq<byte>)
    requires NoFlags(key) && NoFlags(value) && Streamed(s)
    ensures var (kv, u) := TakePair(key, value, s);
            Padded(DecodePair(key, value, View(s) + pad), pad, kv, s, u)
    decreases Map(key, value), 0, 0
  {
    hide Take, Decode, View, Fresh, Filler;
    var a := MissingBytesFilledIn(key, s);
    var (_, u) := Take(key, Fresh(key, s.junk), s);
    var b := MissingBytesFilledIn(value, u);
    DecodeExtends(key, View(s) + a, b);
    PadsJoin(View(s), a, b, s.junk);
    pad := a + b;
  }

  lemma {:induction false} PairsPad(key: Type, value: Type, n: nat, done: seq<(Value, Value)>, s: Source)
      returns (pad: seq<byte>)
    requires NoFlags(key) && NoFlags(value) && Streamed(s)
    ensures var (kvs, u) := TakePairs(key, value, n, done, s);
            var d := DecodePairs(key, value, n, View(s) + pad);
            d.Some? && kvs == done + d.value.value && Padded(d, pad, d.value.value, s, u)
    decreases Map(key, value), 0, n + 1
  {
    hide TakePair, DecodePair, View, Filler;
    if n == 0 {
      pad := NoPad(View(s), s.junk);
      assert done + [] == done;
    } else {
      var a := PairPads(key, value, s);
      var (kv, u) := TakePair(key, value, s);
      var b := PairsPad(key, value, n - 1, done + [kv], u);
      DecodePairExtends(key, value, View(s) + a, b);
      PadsJoin(View(s), a, b, s.junk);
      pad := a + b;
      Regroup(done, kv, DecodePairs(key, value, n - 1, View(u) + b).value.value);
    }
  }

  /** Where scalars just declared hold zeros, zeros are all that is filled in. */
  lemma MissingBytesReadAsZeros(t: Type, s: Source) returns (k: nat)
    requires NoFlags(t) && Streamed(s) && forall i :: s.junk(i) == 0
    ensures var (v, u) := Take(t, Fresh(t, s.junk), s);
            Decode(t, View(s) + Zeros(k)) == Some(Decoded(v, View(u))) && (k > 0 ==> View(u) == [])
  {
    hide Take, Decode, View, Fresh;
    var pad := MissingBytesFilledIn(t, s);
    k := |pad|;
    forall i | 0 <= i < k ensures pad[i] == 0 {
      assert pad[i] in pad;
    }
    assert pad == Zeros(k);
  }

  /** A bool is different: with nothing left it repeats the last byte that was read as one. */
  lemma MissingBoolRepeats(s: Source, target: bool)
    requires View(s) == []
    ensures Take(Flag, VFlag(target), s).0 == VFlag(s.current != 0)
  {
    hide Fill;
    FillDelivers(s, [s.current]);
    if s.from.Replayed? && !s.from.streams.mainFailed {
      assert |s.from.streams.All()| == s.from.streams.at;
    }
  }

  // ----- strings

  /** A string is read whole from a complete encoding exactly when the flag is clear, or both the string in the input
      and the target are empty: a set flag ends the call after the count. */
  lemma TextNeedsClearFlag(s: Source, chars: seq<byte>, target: seq<byte>, rest: seq<byte>)
    requires |chars| < SIZE_LIMIT && View(s) == Encode(IText(chars)) + rest
    ensures var (v, u) := Take(Text, VText(target), s);
            v == VText(chars) && View(u) == rest <==> !s.flagged || (chars == [] && target == [])
  {
    hide TakeCount, View, SizeBytes, Fill, DecodeSize, Decode, Encode;
    if s.flagged {
      assert View(s) == SizeBytes(|chars|, SIZE_WIDTH) + (chars + rest) by { TextEncoded(chars, rest); }
      DecodeSizeOf(|chars|, chars + rest);
      CountDelivers(s, |target|);
      CarriedKeepsFlag(s, TakeCount(s, |target|).1);
      if chars + rest == rest { assert |chars| == 0; }
    } else {
      TakeOfEncoded(Text, IText(chars), VText(target), s, rest);
    }
  }

  lemma TextEncoded(chars: seq<byte>, rest: seq<byte>)
    ensures Encode(IText(chars)) + rest == SizeBytes(|chars|, SIZE_WIDTH) + (chars + rest)
  {
    hide SizeBytes;
  }

  // ----- text cut short

  /** A string whose count is there but whose text is not: the string has the new size; a stream puts what it has in
      front, a buffer nothing, and behind that come the old characters, as far as there are any, and then zeros. */
  lemma CutTextKeepsOld(s: Source, target: seq<byte>, n: nat)
    requires !s.flagged && n < 0x1_0000_0000_0000_0000 && SizeBytes(n, SIZE_WIDTH) <= View(s) && |View(s)| < 8 + n
    ensures var text, left := Take(Text, VText(target), s).0, View(s)[8..];
            && text.VText? && |text.chars| == n
            && forall i :: 0 <= i < n ==>
                 text.chars[i] == if !s.from.Buffer? && i < |left| then left[i]
                                  else if i < |target| then target[i] else 0
  {
    hide SizeBytes, SizeValue, View, Fill, TakeCount, Decode, DecodeSize;
    var count, left := SizeBytes(n, SIZE_WIDTH), View(s)[8..];
    assert View(s) == count + left;
    DecodeSizeOf(n, left);
    CountDelivers(s, |target|);
    CountKeepsSettings(s, |target|);
    var (_, u) := TakeCount(s, |target|);
    FillDelivers(u, Resized(target, n));
    if s.from.Counted? { CountingGivesNothing(s, []); }
  }

  // ----- a count cut short

  /** A count of eight bytes or fewer is the number of just one byte string of its length. */
  lemma {:induction false} SizeBytesOfValue(bytes: seq<byte>)
    ensures SizeBytes(SizeValue(bytes), |bytes|) == bytes
  {
    hide NumberByte, ByteNumber;
    if bytes != [] {
      var high := SizeValue(bytes[1..]);
      ByteOfNumber(bytes[0]);
      assert (ByteNumber(bytes[0]) + 256 * high) % 256 == ByteNumber(bytes[0]);
      assert (ByteNumber(bytes[0]) + 256 * high) / 256 == high;
      SizeBytesOfValue(bytes[1..]);
      assert [bytes[0]] + bytes[1..] == bytes;
    }
  }

  lemma ByteOfNumber(b: byte)
    ensures ByteNumber(b) < 256 && NumberByte(ByteNumber(b)) == b
  {
    hide BitsOf, BitAt, Assemble, Below;
    BitsOfNumber(BitsOf(b));
    assert PowerOf(2, 4) == 16 && PowerOf(2, 8) == 256;
    AssembleBits(BitsOf(b));
    assert BitsOf(NumberByte(ByteNumber(b))) == BitsOf(NumberByte(ByteNumber(b)))[..8];
    SameBitsSameByte(NumberByte(ByteNumber(b)), b);
  }

  lemma {:induction false} BitsOfNumber(bits: seq<bool>)
    ensures BitsNumber(bits) < PowerOf(2, |bits|) && NumberBits(BitsNumber(bits), |bits|) == bits
  {
    if bits != [] {
      BitsOfNumber(bits[1..]);
      assert [bits[0]] + bits[1..] == bits;
    }
  }

  /** What a count that starts as `start` becomes when the input has fewer than eight bytes left: a buffer leaves it,
      a stream overwrites its low bytes. */
  function CutCount(s: Source, start: nat): nat
    requires |View(s)| < SIZE_WIDTH
  {
    if s.from.Counted? || s.from.Buffer? then SizeValue(SizeBytes(start, SIZE_WIDTH))
    else SizeValue(View(s) + SizeBytes(start, SIZE_WIDTH)[|View(s)|..])
  }

  /** A string whose count is cut short is left as it was exactly when the flag is set, when counting, when a buffer
      has fewer bytes left than the string or the very same ones, or when a stream ends with the first bytes of the
      string's own count. */
  lemma CutCountLeavesString(s: Source, target: seq<byte>)
    requires |View(s)| < SIZE_WIDTH && |target| < SIZE_LIMIT
    ensures Take(Text, VText(target), s).0 == VText(target) <==>
            || s.flagged || s.from.Counted?
            || (s.from.Buffer? && (|View(s)| < |target| || View(s)[..|target|] == target))
            || (!s.from.Buffer? && View(s) == SizeBytes(|target|, SIZE_WIDTH)[..|View(s)|])
  {
    hide TakeText, View, SizeBytes;
    if s.flagged {
      FlaggedLeavesString(s, target);
    } else if s.from.Counted? || s.from.Buffer? {
      UncutLeavesString(s, target);
    } else {
      StreamLeavesString(s, target);
    }
  }

  lemma FlaggedLeavesString(s: Source, target: seq<byte>)
    requires s.flagged
    ensures TakeText(target, s).0 == target
  {
    hide TakeCount;
    CountKeepsSettings(s, |target|);
  }

  lemma UncutLeavesString(s: Source, target: seq<byte>)
    requires |View(s)| < SIZE_WIDTH && |target| < SIZE_LIMIT && !s.flagged && (s.from.Counted? || s.from.Buffer?)
    ensures TakeText(target, s).0 == target <==>
            s.from.Counted? || |View(s)| < |target| || View(s)[..|target|] == target
  {
    hide SizeBytes, SizeValue, View, Fill, TakeCount;
    CountRoundTrip(|target|);
    CutCountTaken(s, |target|);
    var (n, u) := TakeCount(s, |target|);
    assert Resized(target, |target|) == target;
    FillDelivers(u, target);
    if s.from.Counted? { CountingGivesNothing(u, target); }
  }

  lemma CountingGivesNothing(s: Source, dest: seq<byte>)
    requires s.from.Counted?
    ensures Fill(s, dest).0 == dest && View(s) == []
  {
  }

  lemma StreamLeavesString(s: Source, target: seq<byte>)
    requires |View(s)| < SIZE_WIDTH && |target| < SIZE_LIMIT && !s.flagged && !s.from.Counted? && !s.from.Buffer?
    ensures TakeText(target, s).0 == target <==> View(s) == SizeBytes(|target|, SIZE_WIDTH)[..|View(s)|]
  {
    hide SizeBytes, SizeValue, View, Fill, TakeCount, Resized;
    CutCountTaken(s, |target|);
    OwnCountAgain(View(s), |target|);
    var (n, u) := TakeCount(s, |target|);
    FillDelivers(u, Resized(target, n));
    SameSize(target, n);
  }

  /** Nothing read over a resized string. */
  lemma SameSize(target: seq<byte>, n: nat)
    ensures [] + Resized(target, n)[0..] == Resized(target, n)
    ensures Resized(target, n) == target <==> n == |target|
  {
  }

  /** A container whose count is cut short in a buffer is left as it was, and so is the buffer. */
  lemma CutCountLeavesContainer(t: Type, target: Value, s: Source)
    requires (t.Vector? || t.Map? || t.Set?) && Fits(t, target) && s.from.Buffer? && |View(s)| < 8
    ensures Take(t, target, s) == (target, s)
  {
    hide SizeBytes, SizeValue;
    CountRoundTrip(0);
    assert TakeCount(s, 0) == (0, s);
    match t {
      case Vector(e) => assert target.elems + [] == target.elems;
      case Map(k, v) => AssignedNothing(target.entries);
      case Set(e) => assert target.members + Members([]) == target.members;
    }
  }

  /** A vector grows by exactly as many elements as the count read says, stale ones included, from every source. */
  lemma VectorGrowsByCount(e: Type, target: seq<Value>, s: Source)
    ensures var grown := Take(Vector(e), VVector(target), s).0;
            grown.VVector? && target <= grown.elems && |grown.elems| == |target| + TakeCount(s, 0).0
  {
    hide TakeCount;
    EachCounts(e, TakeCount(s, 0).0, [], TakeCount(s, 0).1);
  }

  lemma {:induction false} EachCounts(e: Type, n: nat, done: seq<Value>, s: Source)
    ensures |TakeEach(e, n, done, s).0| == |done| + n
    decreases n
  {
    hide Take, Fresh;
    if n > 0 {
      var (v, u) := Take(e, Fresh(e, s.junk), s);
      EachCounts(e, n - 1, done + [v], u);
    }
  }

  lemma CutCountTaken(s: Source, start: nat)
    requires |View(s)| < SIZE_WIDTH
    ensures var (n, u) := TakeCount(s, start);
            && n == CutCount(s, start) && SameSettings(s, u)
            && View(u) == if s.from.Counted? || s.from.Buffer? then View(s) else []
  {
    hide SizeBytes, SizeValue, View, Fill;
    FillDelivers(s, SizeBytes(start, SIZE_WIDTH));
    FillKeepsSettings(s, SizeBytes(start, SIZE_WIDTH));
  }

  lemma OwnCountAgain(low: seq<byte>, n: nat)
    requires |low| < SIZE_WIDTH && n < SIZE_LIMIT
    ensures SizeValue(low + SizeBytes(n, SIZE_WIDTH)[|low|..]) == n <==> low == SizeBytes(n, SIZE_WIDTH)[..|low|]
  {
    hide SizeBytes, SizeValue;
    CountRoundTrip(n);
    var own, cut := SizeBytes(n, SIZE_WIDTH), low + SizeBytes(n, SIZE_WIDTH)[|low|..];
    SizeBytesOfValue(cut);
    assert cut[..|low|] == low && own[..|low|] + own[|low|..] == own;
  }

  /** From a buffer, as many of the bytes left as the string has become its text, or none. */
  lemma CutCountReadsText(s: Source, target: seq<byte>)
    requires s.from.Buffer? && |View(s)| < SIZE_WIDTH && !s.flagged && |target| < SIZE_LIMIT
    ensures Take(Text, VText(target), s) ==
            if |target| <= |View(s)| then
              (VText(View(s)[..|target|]), s.(from := Buffer(View(s)[|target|..])))
            else (VText(target), s)
  {
    hide SizeBytes, SizeValue;
    CountRoundTrip(|target|);
    assert Fill(s, SizeBytes(|target|, SIZE_WIDTH)) == (SizeBytes(|target|, SIZE_WIDTH), s);
    assert target[..|target|] == target;
  }

  /** On a stream a cut count is taken as a small one: the one byte five, read into an empty string, makes a string of
      five zero bytes. */
  lemma CutCountMakesZeros(s: Source)
    requires s.from == Stream([5]) && !s.flagged
    ensures Take(Text, VText([]), s).0 == VText(Zeros(5))
  {
    hide SizeBytes, SizeValue, Fill;
    ZeroCount(SIZE_WIDTH);
    CutCountTaken(s, 0);
    FiveAndZeros();
    var (n, u) := TakeCount(s, 0);
    assert [5] + Zeros(SIZE_WIDTH)[1..] == [5] + Zeros(7);
    FillDelivers(u, Resized([], n));
    assert [] + Resized([], 5)[0..] == Zeros(5);
  }

  lemma FiveAndZeros()
    ensures SizeValue([5] + Zeros(7)) == 5
  {
    hide SizeValue, ByteNumber;
    ByteNumberIs(5);
    SmallCount(5, 5);
  }

  lemma ThreeAndZeros()
    ensures SizeValue([3] + Zeros(7)) == 3
  {
    hide SizeValue, ByteNumber;
    ByteNumberIs(3);
    SmallCount(3, 3);
  }

  lemma NoCountIsZero()
    ensures SizeValue([] + Zeros(SIZE_WIDTH)) == 0
  {
    hide SizeValue;
    ZeroCount(SIZE_WIDTH);
    CountRoundTrip(0);
    NoneBefore(Zeros(SIZE_WIDTH));
  }

  /** One byte, then zeros, is a count of what the byte says. */
  lemma SmallCount(b: byte, n: nat)
    requires ByteNumber(b) == n
    ensures SizeValue([b] + Zeros(7)) == n
  {
    hide ByteNumber;
    ZeroCount(7);
    assert PowerOf(256, 7) > 0;
    SizeRoundTrip(0, 7);
    assert ([b] + Zeros(7))[1..] == Zeros(7);
  }

  // ----- the flag

  /** How the flag comes to be set when a string is read: a short read of a stream, a call that asks about it, the
      stream cleared by its owner and more bytes there. The string is complete, and only its count is taken. */
  lemma StaleFlagSkipsString(s: Source, dest: seq<byte>, chars: seq<byte>, rest: seq<byte>)
    requires s.from == Stream([]) && dest != [] && |chars| < SIZE_LIMIT
    ensures var (short, asked) := DidNotRead(Fill(s, dest).1);
            var more := asked.(from := Stream(Encode(IText(chars)) + rest));
            && short && more == s.(from := more.from, flagged := true, mismatch := false)
            && TakeText([], more).0 == [] && View(TakeText([], more).1) == chars + rest
  {
    hide Encode, TakeText;
    FlaggedTakesCount(DidNotRead(Fill(s, dest).1).1.(from := Stream(Encode(IText(chars)) + rest)), chars, rest);
  }

  lemma FlaggedTakesCount(s: Source, chars: seq<byte>, rest: seq<byte>)
    requires s.flagged && |chars| < SIZE_LIMIT && View(s) == Encode(IText(chars)) + rest
    ensures TakeText([], s).0 == [] && View(TakeText([], s).1) == chars + rest
  {
    hide SizeBytes, SizeValue, Encode, DecodeSize, TakeCount, View;
    TextEncoded(chars, rest);
    DecodeSizeOf(|chars|, chars + rest);
    CountDelivers(s, 0);
    CountKeepsSettings(s, 0);
  }
}
