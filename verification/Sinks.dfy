/** The back ends of non-bit writes: counting, a bounded buffer, and a growing stream. */
module Sinks {
  import opened Bytes
  import opened Codec

  datatype Sink =
    | Counter(total: nat, index: nat)
    | Buffer(memory: seq<byte>, at: nat)
    | Stream(out: seq<byte>)
  {
    predicate Valid() { Buffer? ==> at <= |memory| }
  }

  /** One writeBytes call: a buffer takes all of it or, when it does not fit, silently nothing. */
  function Put(s: Sink, chunk: seq<byte>): (r: Sink)
    requires s.Valid()
    ensures r.Valid() && r.Counter? == s.Counter? && r.Buffer? == s.Buffer?
  {
    match s
    case Counter(total, index) => Counter(total + |chunk|, index + |chunk|)
    case Buffer(memory, at) =>
      if at + |chunk| <= |memory| then Buffer(Splice(memory, at, chunk), at + |chunk|) else s
    case Stream(out) => Stream(out + chunk)
  }

  function PutAll(s: Sink, chunks: seq<seq<byte>>): (r: Sink)
    requires s.Valid()
    ensures r.Valid() && r.Counter? == s.Counter? && r.Buffer? == s.Buffer?
    decreases |chunks|
  {
    if chunks == [] then s else PutAll(Put(s, chunks[0]), chunks[1..])
  }

  function Concat(chunks: seq<seq<byte>>): seq<byte> {
    if chunks == [] then [] else chunks[0] + Concat(chunks[1..])
  }

  /** The writes that fit, each judged by the room left when it is made. */
  function Fitting(room: nat, chunks: seq<seq<byte>>): seq<seq<byte>> {
    if chunks == [] then []
    else if |chunks[0]| <= room then [chunks[0]] + Fitting(room - |chunks[0]|, chunks[1..])
    else Fitting(room, chunks[1..])
  }

  // ----- the writes a value makes

  function Writes(x: Item): seq<seq<byte>>
    decreases x
  {
    match x
    case IScalar(bytes) => [bytes]
    case IFlag(flag) => [[if flag then 1 else 0]]
    case IText(chars) => [SizeBytes(|chars|, SIZE_WIDTH), chars]
    case IVector(xs) => [SizeBytes(|xs|, SIZE_WIDTH)] + WritesOfEach(xs)
    case IMap(es) => [SizeBytes(|es|, SIZE_WIDTH)] + WritesOfPairs(es)
    case ISet(xs) => [SizeBytes(|xs|, SIZE_WIDTH)] + WritesOfEach(xs)
  }

  function WritesOfEach(xs: seq<Item>): seq<seq<byte>>
    decreases xs
  {
    if xs == [] then [] else Writes(xs[0]) + WritesOfEach(xs[1..])
  }

  function WritesOfPairs(es: seq<Entry>): seq<seq<byte>>
    decreases es
  {
    if es == [] then [] else WritesOfPair(es[0]) + WritesOfPairs(es[1..])
  }

  function WritesOfPair(e: Entry): seq<seq<byte>>
    decreases e
  {
    Writes(e.key) + Writes(e.value)
  }

  lemma {:induction false} ConcatAppend(a: seq<seq<byte>>, b: seq<seq<byte>>)
    ensures Concat(a + b) == Concat(a) + Concat(b)
  {
    if a == [] {
      assert a + b == b;
    } else {
      assert (a + b)[1..] == a[1..] + b;
      ConcatAppend(a[1..], b);
    }
  }

  lemma ConcatOne(a: seq<byte>)
    ensures Concat([a]) == a
  {
  }

  /** The writes of a value, put together, are its encoding. */
  lemma {:induction false} WritesMakeEncoding(x: Item)
    ensures Concat(Writes(x)) == Encode(x)
    decreases x
  {
    hide SizeBytes;
    match x {
      case IScalar(bytes) =>
      case IFlag(flag) =>
      case IText(chars) =>
        assert Concat([chars]) == chars;
        assert [SizeBytes(|chars|, SIZE_WIDTH), chars][1..] == [chars];
      case IVector(xs) =>
        ConcatAppend([SizeBytes(|xs|, SIZE_WIDTH)], WritesOfEach(xs));
        ConcatOne(SizeBytes(|xs|, SIZE_WIDTH));
        WritesOfEachMakeEncoding(xs);
      case IMap(es) =>
        ConcatAppend([SizeBytes(|es|, SIZE_WIDTH)], WritesOfPairs(es));
        ConcatOne(SizeBytes(|es|, SIZE_WIDTH));
        WritesOfPairsMakeEncoding(es);
      case ISet(xs) =>
        ConcatAppend([SizeBytes(|xs|, SIZE_WIDTH)], WritesOfEach(xs));
        ConcatOne(SizeBytes(|xs|, SIZE_WIDTH));
        WritesOfEachMakeEncoding(xs);
    }
  }

  lemma {:induction false} WritesOfEachMakeEncoding(xs: seq<Item>)
    ensures Concat(WritesOfEach(xs)) == EncodeEach(xs)
    decreases xs
  {
    hide Writes, Encode;
    if xs != [] {
      ConcatAppend(Writes(xs[0]), WritesOfEach(xs[1..]));
      WritesMakeEncoding(xs[0]);
      WritesOfEachMakeEncoding(xs[1..]);
    }
  }

  lemma {:induction false} WritesOfPairsMakeEncoding(es: seq<Entry>)
    ensures Concat(WritesOfPairs(es)) == EncodePairs(es)
    decreases es
  {
    hide WritesOfPair, EncodePair;
    if es != [] {
      ConcatAppend(WritesOfPair(es[0]), WritesOfPairs(es[1..]));
      WritesOfPairMakeEncoding(es[0]);
      WritesOfPairsMakeEncoding(es[1..]);
    }
  }

  lemma {:induction false} WritesOfPairMakeEncoding(e: Entry)
    ensures Concat(WritesOfPair(e)) == EncodePair(e)
    decreases e
  {
    hide Writes, Encode;
    ConcatAppend(Writes(e.key), Writes(e.value));
    WritesMakeEncoding(e.key);
    WritesMakeEncoding(e.value);
  }

  // ----- what each back end holds after any writes

  lemma {:induction false} PutAllAppend(s: Sink, a: seq<seq<byte>>, b: seq<seq<byte>>)
    requires s.Valid()
    ensures PutAll(s, a + b) == PutAll(PutAll(s, a), b)
    decreases |a|
  {
    hide Put;
    if a == [] {
      assert a + b == b;
    } else {
      assert (a + b)[1..] == a[1..] + b;
      PutAllAppend(Put(s, a[0]), a[1..], b);
    }
  }

  /** Counting ends at the total encoded size. */
  lemma {:induction false} CounterCounts(total: nat, index: nat, chunks: seq<seq<byte>>)
    ensures PutAll(Counter(total, index), chunks) == Counter(total + |Concat(chunks)|, index + |Concat(chunks)|)
    decreases |chunks|
  {
    if chunks != [] {
      CounterCounts(total + |chunks[0]|, index + |chunks[0]|, chunks[1..]);
    }
  }

  lemma {:induction false} StreamAppends(out: seq<byte>, chunks: seq<seq<byte>>)
    ensures PutAll(Stream(out), chunks) == Stream(out + Concat(chunks))
    decreases |chunks|
  {
    if chunks == [] {
      assert out + [] == out;
    } else {
      StreamAppends(out + chunks[0], chunks[1..]);
      assert (out + chunks[0]) + Concat(chunks[1..]) == out + (chunks[0] + Concat(chunks[1..]));
    }
  }

  lemma {:induction false} FittingFits(room: nat, chunks: seq<seq<byte>>)
    ensures |Concat(Fitting(room, chunks))| <= room
    ensures |Concat(Fitting(room, chunks))| <= |Concat(chunks)|
    ensures |Concat(chunks)| <= room ==> Fitting(room, chunks) == chunks
    decreases |chunks|
  {
    if chunks != [] {
      if |chunks[0]| <= room {
        FittingFits(room - |chunks[0]|, chunks[1..]);
        assert ([chunks[0]] + Fitting(room - |chunks[0]|, chunks[1..]))[1..] ==
               Fitting(room - |chunks[0]|, chunks[1..]);
      } else {
        FittingFits(room, chunks[1..]);
      }
    }
  }

  /** A buffer ends with exactly the writes that fitted, one after the other, and nothing else changed; its index
      never passes its size. */
  lemma {:induction false} BufferKeepsFitting(memory: seq<byte>, at: nat, chunks: seq<seq<byte>>)
    requires at <= |memory|
    ensures var kept := Concat(Fitting(|memory| - at, chunks));
            && at + |kept| <= |memory|
            && PutAll(Buffer(memory, at), chunks) == Buffer(Splice(memory, at, kept), at + |kept|)
    decreases |chunks|
  {
    hide Splice;
    FittingFits(|memory| - at, chunks);
    if chunks == [] {
      SpliceEmpty(memory, at);
    } else if |chunks[0]| <= |memory| - at {
      var next := Splice(memory, at, chunks[0]);
      SpliceLength(memory, at, chunks[0]);
      var later := Concat(Fitting(|memory| - at - |chunks[0]|, chunks[1..]));
      BufferKeepsFitting(next, at + |chunks[0]|, chunks[1..]);
      assert ([chunks[0]] + Fitting(|memory| - at - |chunks[0]|, chunks[1..]))[1..] ==
             Fitting(|memory| - at - |chunks[0]|, chunks[1..]);
      SpliceTwice(memory, at, chunks[0], later);
    } else {
      BufferKeepsFitting(memory, at, chunks[1..]);
    }
  }

  /** Nothing is dropped exactly when the buffer has room for everything. */
  lemma NothingDroppedIffRoom(memory: seq<byte>, at: nat, chunks: seq<seq<byte>>)
    requires at <= |memory|
    ensures PutAll(Buffer(memory, at), chunks).at == at + |Concat(chunks)| <==> at + |Concat(chunks)| <= |memory|
    ensures at + |Concat(chunks)| <= |memory| ==>
              PutAll(Buffer(memory, at), chunks) == Buffer(Splice(memory, at, Concat(chunks)), at + |Concat(chunks)|)
  {
    hide Splice;
    BufferKeepsFitting(memory, at, chunks);
    FittingFits(|memory| - at, chunks);
  }

  /** A string is two writes, its count and its text, so a tight buffer may take either without the other. */
  lemma TextInTightBuffer(memory: seq<byte>, at: nat, chars: seq<byte>) returns (count: seq<byte>)
    requires at <= |memory|
    ensures IsCount(count, |chars|)
    ensures PutAll(Buffer(memory, at), Writes(IText(chars))) ==
            if at + 8 + |chars| <= |memory| then
              Buffer(memory[..at] + (count + chars) + memory[at + 8 + |chars|..], at + 8 + |chars|)
            else if at + 8 <= |memory| then Buffer(memory[..at] + count + memory[at + 8..], at + 8)
            else if at + |chars| <= |memory| then Buffer(memory[..at] + chars + memory[at + |chars|..], at + |chars|)
            else Buffer(memory, at)
  {
    hide SizeBytes, IsCount, Splice, Put;
    count := SizeBytes(|chars|, SIZE_WIDTH);
    CountIs(|chars|);
    var writes := Writes(IText(chars));
    assert writes == [count, chars] && writes[1..] == [chars] && writes[1..][1..] == [];
    var s := Put(Buffer(memory, at), count);
    assert PutAll(Buffer(memory, at), writes) == PutAll(s, [chars]) == PutAll(Put(s, chars), []) == Put(s, chars);
    PutInBuffer(memory, at, count);
    PutInBuffer(s.memory, s.at, chars);
    if at + 8 + |chars| <= |memory| { SpliceTwice(memory, at, count, chars); }
    SpliceSpelled(memory, at, count);
    SpliceSpelled(memory, at, chars);
    SpliceSpelled(memory, at, count + chars);
  }

  lemma PutInBuffer(memory: seq<byte>, at: nat, chunk: seq<byte>)
    requires at <= |memory|
    ensures Put(Buffer(memory, at), chunk) ==
            if at + |chunk| <= |memory| then Buffer(Splice(memory, at, chunk), at + |chunk|) else Buffer(memory, at)
    ensures at + |chunk| <= |memory| ==> |Splice(memory, at, chunk)| == |memory|
  {
  }

  lemma SpliceSpelled(memory: seq<byte>, at: nat, data: seq<byte>)
    ensures at + |data| <= |memory| ==> Splice(memory, at, data) == memory[..at] + data + memory[at + |data|..]
  {
  }

  /** Two passes: a counting pass gives the size, and a buffer of just that size then holds the whole encoding,
      which decodes to the value. */
  lemma TwoPassSizing(t: Type, x: Item, memory: seq<byte>)
    requires Typed(t, x)
    requires |memory| == PutAll(Counter(0, 0), Writes(x)).total
    ensures PutAll(Buffer(memory, 0), Writes(x)) == Buffer(Encode(x), |memory|)
    ensures Decode(t, PutAll(Buffer(memory, 0), Writes(x)).memory) == Some(Decoded(ValueOf(x), []))
  {
    hide Writes, Encode, Decode;
    CounterCounts(0, 0, Writes(x));
    WritesMakeEncoding(x);
    NothingDroppedIffRoom(memory, 0, Writes(x));
    assert Splice(memory, 0, Encode(x)) == Encode(x);
    RoundTrip(t, x, []);
    assert Encode(x) + [] == Encode(x);
  }
}
