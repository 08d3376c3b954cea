/**
 Whole values read with a replay buffer set, attempt after attempt. Scalars and strings go through
 readBytesWithBuffer; a bool does not, it is read from the main stream alone.
 */
module ResumableValues {
  import opened Bytes
  import opened Codec
  import opened ResumableRead
  import opened Deserializing

  // ----- an attempt, complete or short, is a round of readBytesWithBuffer calls

  lemma {:induction false} StepsAppend(p: Pair, a: seq<nat>, b: seq<nat>)
    requires p.Valid()
    ensures Steps(p, a + b).1 == Steps(Steps(p, a).1, b).1
    decreases |a|
  {
    hide Step;
    if a == [] {
      assert a + b == b;
    } else {
      assert (a + b)[1..] == a[1..] + b;
      StepsAppend(Step(p, a[0]).1, a[1..], b);
    }
  }

  /** u is s after reads of these sizes; but for the mismatch flag nothing else about it has changed. */
  ghost predicate Moved(s: Source, u: Source, sizes: seq<nat>) {
    s.from.Replayed? && u == s.(from := Replayed(Steps(s.from.streams, sizes).1), mismatch := u.mismatch)
  }

  lemma MovedOn(s: Source, u: Source, w: Source, a: seq<nat>, b: seq<nat>)
    requires Moved(s, u, a) && Moved(u, w, b)
    ensures Moved(s, w, a + b)
  {
    StepsAppend(s.from.streams, a, b);
  }

  lemma FillMoves(s: Source, dest: seq<byte>)
    requires s.from.Replayed?
    ensures Moved(s, Fill(s, dest).1, [|dest|])
  {
    hide Step, Mismatch;
    assert [|dest|][1..] == [];
    var (_, q) := Step(s.from.streams, |dest|);
    assert Steps(q, []).1 == q;
  }

  lemma Stays(s: Source)
    requires s.from.Replayed?
    ensures Moved(s, s, [])
  {
  }

  /** What `>>` does to the streams, also when it goes on after a short read, is a round of reads of some sizes. */
  lemma {:induction false} TakeMoves(t: Type, target: Value, s: Source) returns (sizes: seq<nat>)
    requires Fits(t, target) && NoFlags(t) && s.from.Replayed?
    ensures Moved(s, Take(t, target, s).1, sizes)
    decreases t, 1, 0
  {
    hide Fill, TakeEach, TakePairs, Resized, Moved;
    match t {
      case Scalar(_) =>
        sizes := [|target.bytes|];
        FillMoves(s, target.bytes);
      case Text =>
        var (n, u) := TakeCount(s, |target.chars|);
        var chars := Resized(target.chars, n);
        sizes := CountMoves(s, |target.chars|);
        if !u.flagged {
          MovedReplays(s, u, sizes);
          FillMoves(u, chars);
          MovedOn(s, u, Fill(u, chars).1, sizes, [|chars|]);
          sizes := sizes + [|chars|];
        }
      case Vector(e) => sizes := SequenceMoves(e, s);
      case Set(e) => sizes := SequenceMoves(e, s);
      case Map(k, v) =>
        var (n, u) := TakeCount(s, 0);
        var a := CountMoves(s, 0);
        MovedReplays(s, u, a);
        var b := PairsMove(k, v, n, [], u);
        MovedOn(s, u, TakePairs(k, v, n, [], u).1, a, b);
        sizes := a + b;
    }
  }

  lemma MovedReplays(s: Source, u: Source, sizes: seq<nat>)
    requires Moved(s, u, sizes)
    ensures s.from.Replayed? && u.from.Replayed?
  {
  }

  lemma CountMoves(s: Source, start: nat) returns (sizes: seq<nat>)
    requires s.from.Replayed?
    ensures Moved(s, TakeCount(s, start).1, sizes)
  {
    hide Fill, Moved, SizeBytes, SizeValue;
    sizes := [SIZE_WIDTH];
    FillMoves(s, SizeBytes(start, SIZE_WIDTH));
  }

  lemma {:induction false} SequenceMoves(e: Type, s: Source) returns (sizes: seq<nat>)
    requires NoFlags(e) && s.from.Replayed?
    ensures var (n, u) := TakeCount(s, 0);
            Moved(s, TakeEach(e, n, [], u).1, sizes)
    decreases e, 3, 0
  {
    hide TakeCount, TakeEach, Moved;
    var (n, u) := TakeCount(s, 0);
    var a := CountMoves(s, 0);
    MovedReplays(s, u, a);
    var b := EachMoves(e, n, [], u);
    MovedOn(s, u, TakeEach(e, n, [], u).1, a, b);
    sizes := a + b;
  }

  lemma {:induction false} EachMoves(e: Type, n: nat, done: seq<Value>, s: Source) returns (sizes: seq<nat>)
    requires NoFlags(e) && s.from.Replayed?
    ensures Moved(s, TakeEach(e, n, done, s).1, sizes)
    decreases e, 2, n
  {
    hide Take, Moved, Fresh;
    if n == 0 {
      Stays(s);
      sizes := [];
    } else {
      var (v, u) := Take(e, Fresh(e, s.junk), s);
      var a := TakeMoves(e, Fresh(e, s.junk), s);
      MovedReplays(s, u, a);
      var b := EachMoves(e, n - 1, done + [v], u);
      MovedOn(s, u, TakeEach(e, n - 1, done + [v], u).1, a, b);
      sizes := a + b;
    }
  }

  lemma {:induction false} PairMoves(k: Type, v: Type, s: Source) returns (sizes: seq<nat>)
    requires NoFlags(k) && NoFlags(v) && s.from.Replayed?
    ensures Moved(s, TakePair(k, v, s).1, sizes)
    decreases Map(k, v), 0, 0
  {
    hide Take, Moved, Fresh;
    var (_, u) := Take(k, Fresh(k, s.junk), s);
    var a := TakeMoves(k, Fresh(k, s.junk), s);
    MovedReplays(s, u, a);
    var b := TakeMoves(v, Fresh(v, s.junk), u);
    MovedOn(s, u, Take(v, Fresh(v, s.junk), u).1, a, b);
    sizes := a + b;
  }

  lemma {:induction false} PairsMove(k: Type, v: Type, n: nat, done: seq<(Value, Value)>, s: Source)
      returns (sizes: seq<nat>)
    requires NoFlags(k) && NoFlags(v) && s.from.Replayed?
    ensures Moved(s, TakePairs(k, v, n, done, s).1, sizes)
    decreases Map(k, v), 0, n + 1
  {
    hide TakePair, Moved;
    if n == 0 {
      Stays(s);
      sizes := [];
    } else {
      var (kv, u) := TakePair(k, v, s);
      var a := PairMoves(k, v, s);
      MovedReplays(s, u, a);
      var b := PairsMove(k, v, n - 1, done + [kv], u);
      MovedOn(s, u, TakePairs(k, v, n - 1, done + [kv], u).1, a, b);
      sizes := a + b;
    }
  }

  /** So no attempt loses a byte, complete or short. */
  lemma AttemptKeepsAll(t: Type, target: Value, s: Source)
    requires Fits(t, target) && NoFlags(t) && s.from.Replayed? && !s.from.streams.mainFailed
    ensures var u := Take(t, target, s).1;
            u.from.Replayed? && u.from.streams.All() == s.from.streams.All()
  {
    hide Take, Steps;
    var sizes := TakeMoves(t, target, s);
    RoundIsInOneGo(s.from.streams, sizes);
  }

  // ----- attempt after attempt

  /** One attempt at a value, and what arrives on the main stream after it. */
  datatype Try = Try(t: Type, target: Value, arrived: seq<byte>) {
    predicate Valid() { Fits(t, target) }
  }

  /** The replay buffer set back to its start, both streams cleared, and more bytes arrived. */
  function Rewound(s: Source, arrived: seq<byte>): Source
    requires s.from.Replayed?
  {
    s.(from := Replayed(Rewind(s.from.streams, arrived)), flagged := false, mismatch := false)
  }

  lemma TakeReplays(t: Type, target: Value, s: Source)
    requires Fits(t, target) && s.from.Replayed?
    ensures Take(t, target, s).1.from.Replayed?
  {
    hide Take;
    TakeKeepsSettings(t, target, s);
  }

  function Tried(s: Source, tries: seq<Try>): (u: Source)
    requires s.from.Replayed? && forall i :: 0 <= i < |tries| ==> tries[i].Valid()
    ensures u.from.Replayed?
    decreases |tries|
  {
    hide Take;
    if tries == [] then s
    else
      assert tries[0].Valid();
      TakeReplays(tries[0].t, tries[0].target, s);
      Tried(Rewound(Take(tries[0].t, tries[0].target, s).1, tries[0].arrived), tries[1..])
  }

  function ArrivedIn(tries: seq<Try>): seq<byte> {
    if tries == [] then [] else tries[0].arrived + ArrivedIn(tries[1..])
  }

  /** Attempts at values without a bool inside. */
  predicate Plain(tries: seq<Try>) {
    forall i :: 0 <= i < |tries| ==> tries[i].Valid() && NoFlags(tries[i].t)
  }

  /** A history of such attempts leaves the streams where some rounds of reads leave them. */
  lemma {:induction false} TriesAreRounds(s: Source, tries: seq<Try>) returns (rounds: seq<Round>)
    requires s.from.Replayed? && !s.flagged && Plain(tries)
    ensures Tried(s, tries) ==
            s.(from := Replayed(Rounds(s.from.streams, rounds)), mismatch := Tried(s, tries).mismatch)
    ensures Arrived(rounds) == ArrivedIn(tries)
    decreases |tries|
  {
    hide Take, Steps, Step;
    if tries == [] {
      rounds := [];
    } else {
      var u := Take(tries[0].t, tries[0].target, s).1;
      var sizes := TakeMoves(tries[0].t, tries[0].target, s);
      var later := TriesAreRounds(Rewound(u, tries[0].arrived), tries[1..]);
      rounds := [Round(sizes, tries[0].arrived)] + later;
      assert rounds[1..] == later;
    }
  }

  /** Nothing replayed yet, and nothing failed. */
  ghost predicate Start(s: Source) {
    s.from.Replayed? && s.from.streams.at == 0 && !s.from.streams.mainFailed && !s.flagged
  }

  /** After attempts at values without a bool inside, the encoding of x and then rest have come. */
  ghost predicate HasArrived(t: Type, x: Item, target: Value, s: Source, tries: seq<Try>, rest: seq<byte>) {
    && Fits(t, target) && Typed(t, x) && Start(s) && Plain(tries)
    && s.from.streams.All() + ArrivedIn(tries) == Encode(x) + rest
  }

  /** Retrying: after any attempts at values without a bool inside, complete or short, a value whose encoding has
      arrived by now is read whole, and the bytes after it stay for the next one. */
  lemma RetriedValueIsRead(t: Type, x: Item, target: Value, s: Source, tries: seq<Try>, rest: seq<byte>)
    requires NoFlags(t) && HasArrived(t, x, target, s, tries, rest)
    ensures var (v, u) := Take(t, target, Tried(s, tries));
            v == Merge(target, ValueOf(x)) && View(u) == rest
  {
    hide Take, Decode, Encode, Typed, NoFlags, Rounds, Tried;
    var p := s.from.streams;
    var rounds := TriesAreRounds(s, tries);
    RoundsKeepAll(p, rounds);
    var now := Tried(s, tries);
    assert View(now) == now.from.streams.All();
    TakeOfEncoded(t, x, target, now, rest);
  }

  // ----- values with a bool inside

  /** A value of the type with a true bool wherever the type allows one. */
  function Sample(t: Type): Item {
    match t
    case Scalar(width) => IScalar(seq(width, _ => 0))
    case Flag => IFlag(true)
    case Text => IText([])
    case Vector(e) => IVector([Sample(e)])
    case Map(k, v) => IMap([Entry(Sample(k), Sample(v))])
    case Set(e) => ISet([Sample(e)])
  }

  lemma {:induction t} SampleTyped(t: Type)
    ensures Typed(t, Sample(t))
  {
  }

  lemma OneEncoded(x: Item, a: Item, b: Item)
    ensures EncodeEach([x]) == Encode(x) && EncodePairs([Entry(a, b)]) == Encode(a) + Encode(b)
  {
    hide Encode;
    assert EncodeEach([x][1..]) == [] && EncodePairs([Entry(a, b)][1..]) == [];
  }

  /** All that is left stands in the replay buffer, and the last byte read as a bool was zero. */
  ghost predicate AllReplayed(s: Source) {
    s.from.Replayed? && !s.from.streams.mainFailed && s.from.streams.main == [] && !s.flagged && s.current == 0
  }

  lemma StillAllReplayed(s: Source, u: Source)
    requires AllReplayed(s) && Carried(s, u)
    ensures AllReplayed(u)
  {
    var p, q := s.from.streams, u.from.streams;
    assert |q.replay| + |q.main| == |q.All()| == |p.replay|;
  }

  lemma CountOfOne(s: Source, after: seq<byte>)
    requires AllReplayed(s) && View(s) == SizeBytes(1, SIZE_WIDTH) + after
    ensures var (n, u) := TakeCount(s, 0);
            n == 1 && View(u) == after && AllReplayed(u)
  {
    hide SizeBytes, SizeValue, View, TakeCount, DecodeSize, AllReplayed;
    DecodeSizeOf(1, after);
    CountDelivers(s, 0);
    StillAllReplayed(s, TakeCount(s, 0).1);
  }

  /** A sample with a bool is not read from a replay buffer that holds its whole encoding: the bool is looked for on
      the main stream, and with nothing there it repeats the last one. */
  lemma {:induction false} FlagNotReplayed(t: Type, s: Source, rest: seq<byte>)
    requires AllReplayed(s) && !NoFlags(t) && View(s) == Encode(Sample(t)) + rest
    ensures Take(t, Fresh(t, s.junk), s).0 != ValueOf(Sample(t))
    decreases t, 2
  {
    hide SizeBytes, SizeValue, TakeCount, View, TakeEach, TakePairs, Encode, Fresh, ValueOf, Merge;
    var target := Fresh(t, s.junk);
    match t {
      case Flag => SampleOf(t);
      case Vector(e) =>
        SampleOf(t);
        ElementNotReplayed(e, s, rest);
        var (n, u) := TakeCount(s, 0);
        var v :| v != ValueOf(Sample(e)) && TakeEach(e, n, [], u).0 == [v];
        OneMember(target.elems, {}, v, ValueOf(Sample(e)));
      case Set(e) =>
        SampleOf(t);
        ElementNotReplayed(e, s, rest);
        var (n, u) := TakeCount(s, 0);
        var v :| v != ValueOf(Sample(e)) && TakeEach(e, n, [], u).0 == [v];
        OneMember([], target.members, v, ValueOf(Sample(e)));
      case Map(k, v) =>
        SampleOf(t);
        EntryNotReplayed(k, v, s, rest);
        var (n, u) := TakeCount(s, 0);
        var kv :| kv != (ValueOf(Sample(k)), ValueOf(Sample(v))) && TakePairs(k, v, n, [], u).0 == [kv];
        OneEntry(target.entries, kv, (ValueOf(Sample(k)), ValueOf(Sample(v))));
    }
  }

  lemma {:induction false} ElementNotReplayed(e: Type, s: Source, rest: seq<byte>)
    requires AllReplayed(s) && !NoFlags(e)
    requires View(s) == SizeBytes(1, SIZE_WIDTH) + EncodeEach([Sample(e)]) + rest
    ensures var (n, u) := TakeCount(s, 0);
            n == 1 && exists v :: v != ValueOf(Sample(e)) && TakeEach(e, n, [], u).0 == [v]
    decreases e, 3
  {
    hide SizeBytes, SizeValue, View, TakeCount, Encode, Take, AllReplayed;
    OneEncoded(Sample(e), Sample(e), Sample(e));
    assert View(s) == SizeBytes(1, SIZE_WIDTH) + (Encode(Sample(e)) + rest);
    CountOfOne(s, Encode(Sample(e)) + rest);
    var (_, u) := TakeCount(s, 0);
    FlagNotReplayed(e, u, rest);
    var (v, w) := Take(e, Fresh(e, u.junk), u);
    assert TakeEach(e, 0, [] + [v], w).0 == [v];
    assert TakeEach(e, 1, [], u).0 == [v];
  }

  /** The samples' encodings, values and fresh targets, spelled out. */
  lemma SampleOf(t: Type)
    ensures match t
            case Flag => ValueOf(Sample(t)) == VFlag(true)
            case Vector(e) =>
              && Encode(Sample(t)) == SizeBytes(1, SIZE_WIDTH) + EncodeEach([Sample(e)])
              && ValueOf(Sample(t)) == VVector([ValueOf(Sample(e))])
            case Set(e) =>
              && Encode(Sample(t)) == SizeBytes(1, SIZE_WIDTH) + EncodeEach([Sample(e)])
              && ValueOf(Sample(t)) == VSet(Members([ValueOf(Sample(e))]))
            case Map(k, v) =>
              && Encode(Sample(t)) == SizeBytes(1, SIZE_WIDTH) + EncodePairs([Entry(Sample(k), Sample(v))])
              && ValueOf(Sample(t)) == VMap(Assigned([(ValueOf(Sample(k)), ValueOf(Sample(v)))]))
            case _ => true
  {
    hide SizeBytes;
    match t {
      case Vector(e) => assert ValuesOf([Sample(e)]) == [ValueOf(Sample(e))];
      case Set(e) => assert ValuesOf([Sample(e)]) == [ValueOf(Sample(e))];
      case Map(k, v) =>
        assert EntriesOf([Entry(Sample(k), Sample(v))]) == [(ValueOf(Sample(k)), ValueOf(Sample(v)))];
      case _ =>
    }
  }

  /** A container that v was put into is not the one that holds w alone. */
  lemma OneMember(elems: seq<Value>, members: set<Value>, v: Value, w: Value)
    requires v != w
    ensures members + Members([v]) != Members([w]) && elems + [v] != [w]
  {
    assert v in members + Members([v]) && v !in Members([w]);
    assert (elems + [v])[|elems|] == v;
  }

  lemma OneEntry(entries: map<Value, Value>, a: (Value, Value), b: (Value, Value))
    requires a != b
    ensures entries + Assigned([a]) != Assigned([b])
  {
    assert [a][1..] == [] && [b][1..] == [];
    assert a.0 in entries + Assigned([a]) && (entries + Assigned([a]))[a.0] == a.1;
  }

  lemma {:induction false} EntryNotReplayed(k: Type, v: Type, s: Source, rest: seq<byte>)
    requires AllReplayed(s) && !(NoFlags(k) && NoFlags(v))
    requires View(s) == SizeBytes(1, SIZE_WIDTH) + EncodePairs([Entry(Sample(k), Sample(v))]) + rest
    ensures var (n, u) := TakeCount(s, 0);
            n == 1 && exists kv :: kv != (ValueOf(Sample(k)), ValueOf(Sample(v))) && TakePairs(k, v, n, [], u).0 == [kv]
    decreases Map(k, v), 1
  {
    hide SizeBytes, SizeValue, View, TakeCount, Encode, Take, AllReplayed, Carried, Fresh, NoFlags;
    var after := Encode(Sample(k)) + (Encode(Sample(v)) + rest);
    OneEncoded(Sample(k), Sample(k), Sample(v));
    assert View(s) == SizeBytes(1, SIZE_WIDTH) + after;
    CountOfOne(s, after);
    var (_, u) := TakeCount(s, 0);
    var (kv, w) := TakePair(k, v, u);
    if NoFlags(k) {
      var (_, m) := Take(k, Fresh(k, u.junk), u);
      KeyReplayed(k, u, Encode(Sample(v)) + rest);
      FlagNotReplayed(v, m, rest);
    } else {
      FlagNotReplayed(k, u, Encode(Sample(v)) + rest);
    }
    assert TakePairs(k, v, 0, [] + [kv], w).0 == [kv];
    assert TakePairs(k, v, 1, [], u).0 == [kv];
  }

  lemma KeyReplayed(k: Type, s: Source, rest: seq<byte>)
    requires AllReplayed(s) && NoFlags(k) && View(s) == Encode(Sample(k)) + rest
    ensures var m := Take(k, Fresh(k, s.junk), s).1;
            AllReplayed(m) && View(m) == rest && m.junk == s.junk
  {
    hide Take, View, Encode, Fresh;
    SampleTyped(k);
    TakeOfEncoded(k, Sample(k), Fresh(k, s.junk), s, rest);
    StillAllReplayed(s, Take(k, Fresh(k, s.junk), s).1);
  }

  /** The value is read whole after these attempts. */
  ghost predicate ReadsBack(t: Type, x: Item, target: Value, s: Source, tries: seq<Try>, rest: seq<byte>) {
    HasArrived(t, x, target, s, tries, rest) ==>
      var (v, u) := Take(t, target, Tried(s, tries));
      v == Merge(target, ValueOf(x)) && View(u) == rest
  }

  /** Exactly the types without a bool anywhere inside are read back after any attempts that the code can make at
      values without one. */
  lemma ResumableIffNoFlags(t: Type)
    ensures NoFlags(t) <==> forall x, target, s, tries, rest :: ReadsBack(t, x, target, s, tries, rest)
  {
    hide Take, Decode, Encode, Typed, NoFlags, View, Tried, Fits, Fresh, ValueOf, Merge;
    if NoFlags(t) {
      forall x, target, s, tries, rest ensures ReadsBack(t, x, target, s, tries, rest) {
        if HasArrived(t, x, target, s, tries, rest) {
          RetriedValueIsRead(t, x, target, s, tries, rest);
        }
      }
    } else {
      var bytes := Encode(Sample(t));
      var s := Source(Replayed(Pair([], 0, bytes, false)), 0, false, false, _ => 0);
      var tries := ReadAllFirst(s, bytes);
      SampleTyped(t);
      FlagNotReplayed(t, Tried(s, tries), []);
      FreshMerges(t, Sample(t), Tried(s, tries).junk);
      assert !ReadsBack(t, Sample(t), Fresh(t, s.junk), s, tries, []);
    }
  }

  lemma FreshMerges(t: Type, x: Item, junk: nat -> byte)
    requires Typed(t, x)
    ensures Merge(Fresh(t, junk), ValueOf(x)) == ValueOf(x)
  {
    hide Typed, Decode, Encode;
    RoundTrip(t, x, []);
    MergeIntoFresh(t, Encode(x) + [], junk);
  }

  /** One attempt, at a scalar as long as the whole stream, leaves everything in the replay buffer. */
  lemma ReadAllFirst(s: Source, bytes: seq<byte>) returns (tries: seq<Try>)
    requires s.from == Replayed(Pair([], 0, bytes, false)) && s.current == 0 && !s.flagged
    ensures |tries| == 1 && Plain(tries) && s.from.streams.All() + ArrivedIn(tries) == bytes + []
    ensures AllReplayed(Tried(s, tries)) && View(Tried(s, tries)) == bytes + [] && Tried(s, tries).junk == s.junk
  {
    hide Step;
    var zeros := seq(|bytes|, _ => 0);
    tries := [Try(Scalar(|bytes|), VScalar(zeros), [])];
    assert tries[0].Valid() && tries[1..] == [];
    assert ArrivedIn(tries) == [] + ArrivedIn([]) == [];
    WholeStreamRead(bytes);
    var u := Take(Scalar(|bytes|), VScalar(zeros), s).1;
    assert u.from.streams == Pair(bytes, |bytes|, [], false);
    assert Tried(s, tries) == Tried(Rewound(u, []), []) == Rewound(u, []);
    assert [] + bytes == bytes && bytes + [] == bytes && bytes[0..] == bytes;
  }

  lemma WholeStreamRead(bytes: seq<byte>)
    ensures Step(Pair([], 0, bytes, false), |bytes|).1 == Pair(bytes, |bytes|, [], false)
  {
    hide Step;
    var p := Pair([], 0, bytes, false);
    assert [] + bytes == bytes;
    if bytes == [] {
      StepWithinReplay(p, 0);
    } else {
      StepPastReplay(p, |bytes|);
      assert bytes[..|bytes|] == bytes && bytes[|bytes|..] == [];
    }
  }

  // ----- a retry that goes wrong

  /** A replay buffer that holds the count, read up to `at`, and what the main stream holds. */
  function Midway(count: seq<byte>, at: nat, main: seq<byte>, failed: bool, current: byte, junk: nat -> byte): Source
    requires at <= |count|
  {
    Source(Replayed(Pair(count, at, main, failed)), current, false, failed, junk)
  }

  /** A set of the two bools, of which the first has arrived. It is taken off the main stream but not kept, so the
      second attempt takes the second for the first, and both attempts give a set of one. */
  lemma RetriedBoolIsLost(count: seq<byte>, junk: nat -> byte)
    requires |count| == SIZE_WIDTH && SizeValue(count) == 2
    ensures Decode(Set(Flag), count + [0, 1]) == Some(Decoded(VSet({VFlag(false), VFlag(true)}), []))
    ensures var short := Midway(count, SIZE_WIDTH, [], true, 0, junk);
            && Take(Set(Flag), VSet({}), Midway([], 0, count + [0], false, 0, junk)) == (VSet({VFlag(false)}), short)
            && Take(Set(Flag), VSet({}), Rewound(short, [1])).0 == VSet({VFlag(true)})
  {
    hide SizeValue, Decode, Take;
    TwoBoolsInOneGo(count);
    FirstAttempt(count, junk);
    SecondAttempt(count, junk);
    NoneBefore([1 as byte]);
  }

  lemma TwoBoolsInOneGo(count: seq<byte>)
    requires |count| == SIZE_WIDTH && SizeValue(count) == 2
    ensures Decode(Set(Flag), count + [0, 1]) == Some(Decoded(VSet({VFlag(false), VFlag(true)}), []))
  {
    hide SizeValue;
    var bytes := count + [0, 1];
    assert bytes[..SIZE_WIDTH] == count && bytes[SIZE_WIDTH..] == [0, 1];
    var f, t := VFlag(false), VFlag(true);
    assert [0 as byte, 1][1..] == [1] && [1 as byte][1..] == [] && [t] + [] == [t] && [f] + [t] == [f, t];
    assert DecodeEach(Flag, 0, []) == Some(Decoded([], []));
    assert DecodeEach(Flag, 1, [1]) == Some(Decoded([t], []));
    assert DecodeEach(Flag, 2, [0, 1]) == Some(Decoded([f, t], []));
    assert Members([f, t]) == {f, t};
  }

  lemma FirstAttempt(count: seq<byte>, junk: nat -> byte)
    requires |count| == SIZE_WIDTH && SizeValue(count) == 2
    ensures Take(Set(Flag), VSet({}), Midway([], 0, count + [0], false, 0, junk)) ==
            (VSet({VFlag(false)}), Midway(count, SIZE_WIDTH, [], true, 0, junk))
  {
    hide SizeBytes, SizeValue, Step, TakeCount, TakeEach, FillCurrent;
    var start, u := Midway([], 0, count + [0], false, 0, junk), Midway(count, SIZE_WIDTH, [0], false, 0, junk);
    var v, w := Midway(count, SIZE_WIDTH, [], false, 0, junk), Midway(count, SIZE_WIDTH, [], true, 0, junk);
    CountTaken(start, count, u) by {
      StepPastReplay(Pair([], 0, count + [0], false), SIZE_WIDTH);
      assert (count + [0])[..SIZE_WIDTH] == count && (count + [0])[SIZE_WIDTH..] == [0] && [] + count == count;
    }
    BoolTaken(count, 0, 0, junk);
    TwoTaken(u, v, w);
    assert {VFlag(false), VFlag(false)} == {VFlag(false)};
  }

  lemma SecondAttempt(count: seq<byte>, junk: nat -> byte)
    requires |count| == SIZE_WIDTH && SizeValue(count) == 2
    ensures Take(Set(Flag), VSet({}), Midway(count, 0, [1], false, 0, junk)).0 == VSet({VFlag(true)})
  {
    hide SizeBytes, SizeValue, Step, TakeCount, TakeEach, FillCurrent;
    var start, u := Midway(count, 0, [1], false, 0, junk), Midway(count, SIZE_WIDTH, [1], false, 0, junk);
    var v, w := Midway(count, SIZE_WIDTH, [], false, 1, junk), Midway(count, SIZE_WIDTH, [], true, 1, junk);
    CountTaken(start, count, u) by {
      StepWithinReplay(Pair(count, 0, [1], false), SIZE_WIDTH);
      assert count[0..0 + SIZE_WIDTH] == count;
    }
    BoolTaken(count, 1, 0, junk);
    TwoTaken(u, v, w);
    assert {VFlag(true), VFlag(true)} == {VFlag(true)};
  }

  lemma CountTaken(s: Source, count: seq<byte>, u: Source)
    requires s.from.Replayed? && !s.mismatch && |count| == SIZE_WIDTH
    requires Step(s.from.streams, SIZE_WIDTH).0 == count
    requires u == s.(from := Replayed(Step(s.from.streams, SIZE_WIDTH).1))
    ensures TakeCount(s, 0) == (SizeValue(count), u)
  {
    hide SizeBytes, SizeValue, Step;
    assert count + SizeBytes(0, SIZE_WIDTH)[SIZE_WIDTH..] == count;
  }

  /** The first bool takes the main stream's one byte, the second finds nothing and repeats it. */
  lemma BoolTaken(count: seq<byte>, b: byte, current: byte, junk: nat -> byte)
    requires |count| == SIZE_WIDTH
    ensures var u := FillCurrent(Midway(count, SIZE_WIDTH, [b], false, current, junk));
            && u == Midway(count, SIZE_WIDTH, [], false, b, junk)
            && FillCurrent(u) == Midway(count, SIZE_WIDTH, [], true, b, junk)
  {
    assert [b][1..] == [];
  }

  /** Two bools read one after the other. */
  lemma TwoTaken(u: Source, v: Source, w: Source)
    requires FillCurrent(u) == v && FillCurrent(v) == w
    ensures TakeEach(Flag, 2, [], u) == ([VFlag(v.current != 0), VFlag(w.current != 0)], w)
    ensures {} + Members([VFlag(v.current != 0), VFlag(w.current != 0)]) ==
            {VFlag(v.current != 0), VFlag(w.current != 0)}
  {
    hide FillCurrent;
    var a, b := VFlag(v.current != 0), VFlag(w.current != 0);
    assert [] + [a] == [a] && [a] + [b] == [a, b];
    assert TakeEach(Flag, 0, [a, b], w) == ([a, b], w);
    assert TakeEach(Flag, 1, [a], v) == ([a, b], w);
    assert Members([a, b]) == {a, b};
  }
}
