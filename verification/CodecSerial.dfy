/** Serial's value layer: `<<` and `>>` over the three back ends, each method against the codec's functions. */
module CodecSerial {
  import opened Bytes
  import opened Codec
  import opened Sinks
  import opened Deserializing
  import opened ShortInput

  datatype Mode = Counting | Buffered | Streaming

  lemma PutNext(s: Sink, chunk: seq<byte>, rest: seq<seq<byte>>)
    requires s.Valid()
    ensures PutAll(s, [chunk] + rest) == PutAll(Put(s, chunk), rest)
    ensures PutAll(s, []) == s
  {
    assert ([chunk] + rest)[1..] == rest;
  }

  class Serial {
    const mode: Mode
    const buffer: array<byte>
    var input: seq<byte>
    var countWrite: nat
    var countWriteIndex: nat
    var bufferWriteIndex: nat
    var out: seq<byte>
    var readIndex: nat
    var countReadIndex: nat
    var currentReadByte: byte
    var sizeMismatch: bool
    var lastMismatch: bool         // what last_did_not_read_whole_size reports
    const junk: nat -> byte        // byte i of a scalar just declared

    ghost predicate Valid()
      reads this
    {
      bufferWriteIndex <= buffer.Length && readIndex <= if mode.Buffered? then buffer.Length else |input|
    }

    ghost function Back(): (s: Sink)
      requires Valid()
      reads this, buffer
      ensures s.Valid()
    {
      match mode
      case Counting => Counter(countWrite, countWriteIndex)
      case Buffered => Sink.Buffer(buffer[..], bufferWriteIndex)
      case Streaming => Sink.Stream(out)
    }

    ghost function In(): Source
      requires Valid()
      reads this, buffer
    {
      Source(match mode
             case Counting => Counted(countReadIndex)
             case Buffered => From.Buffer(buffer[readIndex..])
             case Streaming => From.Stream(input[readIndex..]),
             currentReadByte, lastMismatch, sizeMismatch, junk)
    }

    constructor (mode: Mode, buffer: array<byte>, input: seq<byte>, junk: nat -> byte)
      ensures Valid() && this.mode == mode && this.buffer == buffer && this.input == input
      ensures Back() == match mode
                        case Counting => Counter(0, 0)
                        case Buffered => Sink.Buffer(buffer[..], 0)
                        case Streaming => Sink.Stream([])
      ensures In() == Source(match mode
                             case Counting => Counted(0)
                             case Buffered => From.Buffer(buffer[..])
                             case Streaming => From.Stream(input), 0, false, false, junk)
    {
      this.mode, this.buffer, this.input, this.junk := mode, buffer, input, junk;
      countWrite, countWriteIndex, bufferWriteIndex, out := 0, 0, 0, [];
      readIndex, countReadIndex, currentReadByte := 0, 0, 0;
      sizeMismatch, lastMismatch := false, false;
      new;
      assert buffer[0..] == buffer[..] && input[0..] == input;
    }

    // ----- writing

    method WriteBytes(src: seq<byte>)
      requires Valid()
      modifies this`countWrite, this`countWriteIndex, this`bufferWriteIndex, this`out, buffer
      ensures Valid() && Back() == Put(old(Back()), src)
    {
      hide Splice;
      match mode {
        case Counting =>
          countWrite := countWrite + |src|;
          countWriteIndex := countWriteIndex + |src|;
        case Buffered =>
          if bufferWriteIndex + |src| <= buffer.Length {
            CopyIn(src);
            bufferWriteIndex := bufferWriteIndex + |src|;
          }
        case Streaming =>
          out := out + src;
      }
    }

    method CopyIn(src: seq<byte>)
      requires bufferWriteIndex + |src| <= buffer.Length
      modifies buffer
      ensures buffer[..] == Splice(old(buffer[..]), bufferWriteIndex, src)
    {
      hide Splice;
      SpliceEmpty(buffer[..], bufferWriteIndex);
      assert src[..0] == [] && src[..|src|] == src;
      for i := 0 to |src|
        invariant buffer[..] == Splice(old(buffer[..]), bufferWriteIndex, src[..i])
      {
        SpliceOne(old(buffer[..]), bufferWriteIndex, src[..i], src[i]);
        assert src[..i] + [src[i]] == src[..i + 1];
        buffer[bufferWriteIndex + i] := src[i];
      }
    }

    method Serialize(x: Item)
      requires Valid()
      modifies this`countWrite, this`countWriteIndex, this`bufferWriteIndex, this`out, buffer
      ensures Valid() && Back() == PutAll(old(Back()), Writes(x))
      decreases x, 1
    {
      hide Put, SizeBytes;
      ghost var before := Back();
      match x {
        case IScalar(bytes) =>
          PutNext(before, bytes, []);
          PutNext(Put(before, bytes), bytes, []);
          WriteBytes(bytes);
        case IFlag(flag) =>
          PutNext(before, [if flag then 1 else 0], []);
          PutNext(Put(before, [if flag then 1 else 0]), [], []);
          WriteBytes([if flag then 1 else 0]);
        case IText(chars) =>
          var size := SizeBytes(|chars|, SIZE_WIDTH);
          assert Writes(x) == [size] + ([chars] + []);
          PutNext(before, size, [chars] + []);
          WriteBytes(size);
          PutNext(Back(), chars, []);
          PutNext(Put(Back(), chars), [], []);
          WriteBytes(chars);
        case IVector(xs) => SerializeSequence(xs);
        case IMap(es) => SerializeMap(es);
        case ISet(xs) => SerializeSequence(xs);
      }
    }

    /** serialize_vector and serialize_set: the count, then each element in iteration order. */
    method SerializeSequence(xs: seq<Item>)
      requires Valid()
      modifies this`countWrite, this`countWriteIndex, this`bufferWriteIndex, this`out, buffer
      ensures Valid() && Back() == PutAll(old(Back()), [SizeBytes(|xs|, SIZE_WIDTH)] + WritesOfEach(xs))
      decreases xs, 0
    {
      hide Put, SizeBytes, Writes;
      PutNext(Back(), SizeBytes(|xs|, SIZE_WIDTH), WritesOfEach(xs));
      WriteBytes(SizeBytes(|xs|, SIZE_WIDTH));
      ghost var goal := PutAll(Back(), WritesOfEach(xs));
      for i := 0 to |xs|
        invariant Valid() && PutAll(Back(), WritesOfEach(xs[i..])) == goal
      {
        PutAllAppend(Back(), Writes(xs[i]), WritesOfEach(xs[i + 1..]));
        assert xs[i..][1..] == xs[i + 1..];
        Serialize(xs[i]);
      }
    }

    /** serialize_map and serialize_unordered_map: the count, then each key and value in iteration order. */
    method SerializeMap(es: seq<Entry>)
      requires Valid()
      modifies this`countWrite, this`countWriteIndex, this`bufferWriteIndex, this`out, buffer
      ensures Valid() && Back() == PutAll(old(Back()), [SizeBytes(|es|, SIZE_WIDTH)] + WritesOfPairs(es))
      decreases es, 0
    {
      hide Put, SizeBytes, Writes;
      PutNext(Back(), SizeBytes(|es|, SIZE_WIDTH), WritesOfPairs(es));
      WriteBytes(SizeBytes(|es|, SIZE_WIDTH));
      ghost var goal := PutAll(Back(), WritesOfPairs(es));
      for i := 0 to |es|
        invariant Valid() && PutAll(Back(), WritesOfPairs(es[i..])) == goal
      {
        PutAllAppend(Back(), WritesOfPair(es[i]), WritesOfPairs(es[i + 1..]));
        assert es[i..][1..] == es[i + 1..];
        SerializePair(es[i]);
      }
    }

    method SerializePair(e: Entry)
      requires Valid()
      modifies this`countWrite, this`countWriteIndex, this`bufferWriteIndex, this`out, buffer
      ensures Valid() && Back() == PutAll(old(Back()), WritesOfPair(e))
      decreases e, 0
    {
      hide Put, Writes;
      PutAllAppend(Back(), Writes(e.key), Writes(e.value));
      Serialize(e.key);
      Serialize(e.value);
    }

    // ----- reading into what is already there

    /** What the read does not get stays as it is in dest; `count` is what the call returns. */
    method ReadBytes(dest: seq<byte>) returns (filled: seq<byte>, count: nat)
      requires Valid()
      modifies this`readIndex, this`countReadIndex, this`sizeMismatch
      ensures Valid() && (filled, In()) == Fill(old(In()), dest)
      ensures count == if mode.Counting? then |dest|
                       else if mode.Buffered? && |View(old(In()))| < |dest| then 0
                       else Min(|dest|, |View(old(In()))|)
      ensures sizeMismatch == (old(sizeMismatch) || (mode.Streaming? && count < |dest|))
    {
      match mode {
        case Counting =>
          countReadIndex := countReadIndex + |dest|;
          filled, count := dest, |dest|;
        case Buffered =>
          filled, count := dest, 0;
          if readIndex + |dest| <= buffer.Length {
            FrontOf(buffer[..], readIndex, |dest|);
            filled, count := buffer[readIndex..readIndex + |dest|], |dest|;
            readIndex := readIndex + |dest|;
          }
        case Streaming =>
          count := Min(|dest|, |input| - readIndex);
          FrontOf(input, readIndex, count);
          filled := input[readIndex..readIndex + count] + dest[count..];
          readIndex := readIndex + count;
          if count != |dest| { sizeMismatch := true; }
      }
    }

    /** Hands out the mismatch flag and clears it; the copy stays for the deserializers to ask. */
    method DidNotReadWholeSize() returns (short: bool)
      requires Valid()
      modifies this`sizeMismatch, this`lastMismatch
      ensures Valid() && (short, In()) == DidNotRead(old(In()))
    {
      lastMismatch := sizeMismatch;
      sizeMismatch := false;
      short := lastMismatch;
    }

    /** clearRead, which clears both flags with the stream; more bytes may have arrived on it. */
    method ClearRead(arrived: seq<byte>)
      requires Valid() && mode.Streaming?
      modifies this`input, this`sizeMismatch, this`lastMismatch
      ensures Valid()
      ensures In() == old(In()).(from := From.Stream(View(old(In())) + arrived), flagged := false, mismatch := false)
    {
      FrontThen(input, readIndex, arrived);
      input := input + arrived;
      sizeMismatch, lastMismatch := false, false;
    }

    /** The stream cleared by its owner, not through the Serial: the flags stay as they are. */
    method StreamCleared(arrived: seq<byte>)
      requires Valid() && mode.Streaming?
      modifies this`input
      ensures Valid() && In() == old(In()).(from := From.Stream(View(old(In())) + arrived))
    {
      FrontThen(input, readIndex, arrived);
      input := input + arrived;
    }

    method ReadByte()
      requires Valid()
      modifies this`readIndex, this`countReadIndex, this`sizeMismatch, this`currentReadByte
      ensures Valid() && In() == FillCurrent(old(In()))
    {
      hide Fill;
      var filled, _ := ReadBytes([currentReadByte]);
      currentReadByte := filled[0];
    }

    /** A count that starts as `start`. */
    method ReadSize(start: nat) returns (size: nat)
      requires Valid()
      modifies this`readIndex, this`countReadIndex, this`sizeMismatch
      ensures Valid() && (size, In()) == TakeCount(old(In()), start)
    {
      hide SizeBytes, SizeValue, Fill;
      var bytes, _ := ReadBytes(SizeBytes(start, SIZE_WIDTH));
      size := SizeValue(bytes);
    }

    method DeserializeString(str: seq<byte>) returns (result: seq<byte>)
      requires Valid()
      modifies this`readIndex, this`countReadIndex, this`sizeMismatch
      ensures Valid() && (result, In()) == TakeText(str, old(In()))
    {
      hide TakeCount, Fill;
      CountKeepsSettings(In(), |str|);
      var size := ReadSize(|str|);
      if lastMismatch { return str; }
      var chars, _ := ReadBytes(Resized(str, size));
      result := chars;
    }

    /** `>>` into a target, also when the input ends on the way. */
    method DeserializeInto(t: Type, target: Value) returns (result: Value)
      requires Valid() && Fits(t, target)
      modifies this`readIndex, this`countReadIndex, this`sizeMismatch, this`currentReadByte
      ensures Valid() && (result, In()) == Take(t, target, old(In()))
      decreases t, 1
    {
      hide TakeCount, TakeText, TakeEach, TakePairs, Fill, FillCurrent;
      match t {
        case Scalar(_) =>
          var bytes, _ := ReadBytes(target.bytes);
          result := VScalar(bytes);
        case Flag =>
          ReadByte();
          result := VFlag(currentReadByte != 0);
        case Text =>
          var chars := DeserializeString(target.chars);
          result := VText(chars);
        case Vector(e) =>
          var elems := DeserializeVector(e, target.elems);
          result := VVector(elems);
        case Map(k, v) =>
          var entries := DeserializeMap(k, v, target.entries);
          result := VMap(entries);
        case Set(e) =>
          var members := DeserializeSet(e, target.members);
          result := VSet(members);
      }
    }

    /** deserialize_vector: push_back of as many elements as the count says. */
    method DeserializeVector(e: Type, target: seq<Value>) returns (elems: seq<Value>)
      requires Valid()
      modifies this`readIndex, this`countReadIndex, this`sizeMismatch, this`currentReadByte
      ensures Valid()
      ensures var (n, u) := TakeCount(old(In()), 0);
              var (vs, w) := TakeEach(e, n, [], u);
              elems == target + vs && In() == w
      decreases e, 2
    {
      hide TakeCount, Take, TakeEach, Fresh;
      var n := ReadSize(0);
      elems := target;
      ghost var whole, done := TakeEach(e, n, [], In()), [];
      for i := 0 to n
        invariant Valid() && elems == target + done && whole == TakeEach(e, n - i, done, In())
      {
        OneMoreTaken(e, n - i, done, In());
        var v := DeserializeInto(e, Fresh(e, junk));
        elems, done := elems + [v], done + [v];
      }
      AllTaken(e, done, In());
    }

    /** deserialize_map: kv[k] = v for as many pairs as the count says. */
    method DeserializeMap(k: Type, v: Type, target: map<Value, Value>) returns (entries: map<Value, Value>)
      requires Valid()
      modifies this`readIndex, this`countReadIndex, this`sizeMismatch, this`currentReadByte
      ensures Valid()
      ensures var (n, u) := TakeCount(old(In()), 0);
              var (kvs, w) := TakePairs(k, v, n, [], u);
              entries == target + Assigned(kvs) && In() == w
      decreases Map(k, v), 0
    {
      hide TakeCount, Take, TakePair, TakePairs, Fresh, Assigned;
      assert target + Assigned<Value, Value>([]) == target by { AssignedNothing(target); }
      var n := ReadSize(0);
      entries := target;
      ghost var whole, done := TakePairs(k, v, n, [], In()), [];
      for i := 0 to n
        invariant Valid() && entries == target + Assigned(done) && whole == TakePairs(k, v, n - i, done, In())
      {
        OneMorePair(k, v, n - i, done, In());
        PairTaken(k, v, In());
        var key := DeserializeInto(k, Fresh(k, junk));
        var value := DeserializeInto(v, Fresh(v, junk));
        InsertOneMore(target, done, (key, value));
        entries, done := entries[key := value], done + [(key, value)];
      }
      AllPairsTaken(k, v, done, In());
    }

    /** deserialize_set: insert of as many elements as the count says. */
    method DeserializeSet(e: Type, target: set<Value>) returns (members: set<Value>)
      requires Valid()
      modifies this`readIndex, this`countReadIndex, this`sizeMismatch, this`currentReadByte
      ensures Valid()
      ensures var (n, u) := TakeCount(old(In()), 0);
              var (vs, w) := TakeEach(e, n, [], u);
              members == target + Members(vs) && In() == w
      decreases e, 2
    {
      hide TakeCount, Take, TakeEach, Fresh, Members;
      assert target + Members([]) == target by { NothingAdded(target); }
      var n := ReadSize(0);
      members := target;
      ghost var whole, done := TakeEach(e, n, [], In()), [];
      for i := 0 to n
        invariant Valid() && members == target + Members(done) && whole == TakeEach(e, n - i, done, In())
      {
        OneMoreTaken(e, n - i, done, In());
        var v := DeserializeInto(e, Fresh(e, junk));
        AddOneMore(target, done, v);
        members, done := members + {v}, done + [v];
      }
      AllTaken(e, done, In());
    }
  }

  lemma FrontOf(whole: seq<byte>, from: nat, n: nat)
    requires from + n <= |whole|
    ensures whole[from..][..n] == whole[from..from + n] && whole[from..][n..] == whole[from + n..]
  {
  }

  lemma FrontThen(input: seq<byte>, from: nat, arrived: seq<byte>)
    requires from <= |input|
    ensures (input + arrived)[from..] == input[from..] + arrived
  {
  }

  lemma OneMoreTaken(e: Type, n: nat, done: seq<Value>, s: Source)
    requires 0 < n
    ensures var (v, u) := Take(e, Fresh(e, s.junk), s);
            TakeEach(e, n, done, s) == TakeEach(e, n - 1, done + [v], u)
  {
    hide Take, Fresh;
  }

  lemma AllTaken(e: Type, done: seq<Value>, s: Source)
    ensures TakeEach(e, 0, done, s) == (done, s)
  {
  }

  lemma OneMorePair(k: Type, v: Type, n: nat, done: seq<(Value, Value)>, s: Source)
    requires 0 < n
    ensures var (kv, u) := TakePair(k, v, s);
            TakePairs(k, v, n, done, s) == TakePairs(k, v, n - 1, done + [kv], u)
  {
    hide TakePair;
  }

  lemma PairTaken(k: Type, v: Type, s: Source)
    ensures var (key, u) := Take(k, Fresh(k, s.junk), s);
            var (value, w) := Take(v, Fresh(v, s.junk), u);
            TakePair(k, v, s) == ((key, value), w)
  {
    hide Take, Fresh;
  }

  lemma AllPairsTaken(k: Type, v: Type, done: seq<(Value, Value)>, s: Source)
    ensures TakePairs(k, v, 0, done, s) == (done, s)
  {
  }

  lemma NothingAdded(target: set<Value>)
    ensures target + Members([]) == target
  {
  }

  lemma InsertOneMore(target: map<Value, Value>, done: seq<(Value, Value)>, kv: (Value, Value))
    ensures (target + Assigned(done))[kv.0 := kv.1] == target + Assigned(done + [kv])
  {
    AssignedLast(done, kv);
  }

  lemma AddOneMore(target: set<Value>, done: seq<Value>, v: Value)
    ensures (target + Members(done)) + {v} == target + Members(done + [v])
  {
    assert forall x :: x in done + [v] <==> x in done || x == v;
  }

  /** A string that is all there and is not read: the flag is still set from an earlier short read. */
  method StringSkipped(junk: nat -> byte, chars: seq<byte>) returns (str: seq<byte>, left: seq<byte>)
    requires chars != [] && |chars| < SIZE_LIMIT
    ensures str == [] && left == chars
  {
    hide Encode, TakeText, Fill;
    var nowhere := new byte[0];
    var serial := new Serial(Streaming, nowhere, [], junk);
    StaleFlagSkipsString(serial.In(), [0], chars, []);
    FillKeepsSettings(serial.In(), [0]);
    ShortOfOne(serial.In());
    var _, _ := serial.ReadBytes([0]);
    var short := serial.DidNotReadWholeSize();
    assert [] + Encode(IText(chars)) == Encode(IText(chars)) + [] && chars + [] == chars;
    serial.StreamCleared(Encode(IText(chars)));
    str := serial.DeserializeString([]);
    left := serial.input[serial.readIndex..];
    assert left == View(serial.In());
  }

  lemma ShortOfOne(s: Source)
    requires s.from == From.Stream([])
    ensures Fill(s, [0]).1 == s.(mismatch := true)
  {
  }
}
