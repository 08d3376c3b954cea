/**
 Which values survive being retried: the same `>>` attempted again and again through a replay buffer, each attempt
 short but for the last.
 */
module OwnRetries {
  import opened Bytes
  import opened Codec
  import opened ResumableRead
  import opened Deserializing
  import opened ShortInput
  import opened ResumableValues

  // ----- histories of short attempts at one type

  /** Every attempt comes up short on the main stream. */
  ghost predicate AllShort(s: Source, tries: seq<Try>)
    requires s.from.Replayed? && forall i :: 0 <= i < |tries| ==> tries[i].Valid()
    decreases |tries|
  {
    tries == [] ||
    (assert tries[0].Valid();
     var u := Take(tries[0].t, tries[0].target, s).1;
     u.from.Replayed? && u.from.streams.mainFailed && AllShort(Rewound(u, tries[0].arrived), tries[1..]))
  }

  /** The history of one value: nothing read yet at the start, and only short attempts at its own type. */
  ghost predicate OwnHistory(t: Type, s: Source, tries: seq<Try>) {
    && Start(s) && s.from.streams.replay == []
    && (forall i :: 0 <= i < |tries| ==> tries[i].Valid() && tries[i].t == t)
    && AllShort(s, tries)
  }

  /** A value of a real container: keys and members differ. */
  ghost predicate Real(x: Item)
    decreases x
  {
    match x
    case IVector(xs) => forall i :: 0 <= i < |xs| ==> Real(xs[i])
    case IMap(es) =>
      && (forall i :: 0 <= i < |es| ==> Real(es[i].key) && Real(es[i].value))
      && (forall i, j :: 0 <= i < j < |es| ==> ValueOf(es[i].key) != ValueOf(es[j].key))
    case ISet(xs) =>
      && (forall i :: 0 <= i < |xs| ==> Real(xs[i]))
      && (forall i, j :: 0 <= i < j < |xs| ==> ValueOf(xs[i]) != ValueOf(xs[j]))
    case _ => true
  }

  /** No scalar takes no bytes. */
  predicate Sized(t: Type) {
    match t
    case Scalar(width) => 0 < width
    case Vector(e) => Sized(e)
    case Map(k, v) => Sized(k) && Sized(v)
    case Set(e) => Sized(e)
    case _ => true
  }

  /** Once all bytes have come, the next attempt reads the value whole. */
  ghost predicate Survives(t: Type, x: Item, target: Value, s: Source, tries: seq<Try>, rest: seq<byte>) {
    Fits(t, target) && Typed(t, x) && Real(x) && OwnHistory(t, s, tries) &&
    s.from.streams.All() + ArrivedIn(tries) == Encode(x) + rest ==>
      var (v, u) := Take(t, target, Tried(s, tries));
      v == Merge(target, ValueOf(x)) && View(u) == rest
  }

  // ----- a lone bool survives

  lemma {:induction false} ShortBoolsWait(s: Source, tries: seq<Try>)
    requires OwnHistory(Flag, s, tries)
    ensures Tried(s, tries).from.streams == Pair([], 0, s.from.streams.All() + ArrivedIn(tries), false)
    ensures !Tried(s, tries).flagged
    decreases |tries|
  {
    var p := s.from.streams;
    assert [] + p.main == p.main && p.main + [] == p.main;
    if tries != [] {
      assert tries[0].Valid() && tries[0].t == Flag;
      var next := Rewound(FillCurrent(s), tries[0].arrived);
      assert Take(Flag, tries[0].target, s).1 == FillCurrent(s);
      assert p.main == [];
      assert [] + tries[0].arrived == tries[0].arrived;
      ShortBoolsWait(next, tries[1..]);
      assert [] + (tries[0].arrived + ArrivedIn(tries[1..])) == tries[0].arrived + ArrivedIn(tries[1..]);
    }
  }

  lemma LoneBoolSurvives(x: Item, target: Value, s: Source, tries: seq<Try>, rest: seq<byte>)
    ensures Survives(Flag, x, target, s, tries, rest)
  {
    if Typed(Flag, x) && OwnHistory(Flag, s, tries) && s.from.streams.All() + ArrivedIn(tries) == Encode(x) + rest {
      ShortBoolsWait(s, tries);
      var now := Tried(s, tries);
      var b: byte := if x.flag then 1 else 0;
      assert now.from.streams.main == [b] + rest;
      assert ([b] + rest)[1..] == rest && [] + rest == rest;
    }
  }

  // ----- what dry streams give

  /** The main stream is empty and the replay buffer read to its end. */
  ghost predicate Dry(s: Source) {
    s.from.Replayed? && s.from.streams.main == [] && s.from.streams.at == |s.from.streams.replay|
  }

  /** Nothing has moved; a stream that has failed stays failed. */
  ghost predicate StayedDry(s: Source, u: Source) {
    && Dry(s) && u.from.Replayed? && u.from.streams == s.from.streams.(mainFailed := u.from.streams.mainFailed)
    && (s.from.streams.mainFailed ==> u.from.streams.mainFailed)
  }

  lemma StayedDryOn(s: Source, u: Source, w: Source)
    requires StayedDry(s, u) && StayedDry(u, w)
    ensures StayedDry(s, w) && (u.from.streams.mainFailed ==> w.from.streams.mainFailed)
  {
  }

  lemma FillDry(s: Source, dest: seq<byte>)
    requires Dry(s)
    ensures StayedDry(s, Fill(s, dest).1) && (dest != [] ==> Fill(s, dest).1.from.streams.mainFailed)
  {
    hide Step, Mismatch;
    var p := s.from.streams;
    if dest == [] {
      StepWithinReplay(p, 0);
    } else {
      StepPastReplay(p, |dest|);
      assert p.replay + p.main[..0] == p.replay;
    }
  }

  lemma CountDry(s: Source)
    requires Dry(s)
    ensures StayedDry(s, TakeCount(s, 0).1) && TakeCount(s, 0).1.from.streams.mainFailed
  {
    hide Fill, SizeBytes, SizeValue, Dry, StayedDry;
    FillDry(s, SizeBytes(0, SIZE_WIDTH));
  }

  lemma {:induction false} TakeDry(t: Type, target: Value, s: Source)
    requires Fits(t, target) && Dry(s)
    ensures StayedDry(s, Take(t, target, s).1) && (!NoFlags(t) ==> Take(t, target, s).1.from.streams.mainFailed)
    decreases t, 1, 0
  {
    hide Fill, TakeEach, TakePairs, TakeText, TakeCount, StayedDry, Resized;
    match t {
      case Scalar(_) => FillDry(s, target.bytes);
      case Flag => BoolDry(s);
      case Text => TextDry(target.chars, s);
      case Vector(e) =>
        CountDry(s);
        var (n, u) := TakeCount(s, 0);
        DryNow(s, u);
        EachDry(e, n, [], u);
        StayedDryOn(s, u, TakeEach(e, n, [], u).1);
      case Set(e) =>
        CountDry(s);
        var (n, u) := TakeCount(s, 0);
        DryNow(s, u);
        EachDry(e, n, [], u);
        StayedDryOn(s, u, TakeEach(e, n, [], u).1);
      case Map(k, v) =>
        CountDry(s);
        var (n, u) := TakeCount(s, 0);
        DryNow(s, u);
        PairsDry(k, v, n, [], u);
        StayedDryOn(s, u, TakePairs(k, v, n, [], u).1);
    }
  }

  lemma DryNow(s: Source, u: Source)
    requires StayedDry(s, u)
    ensures Dry(u)
  {
  }

  lemma BoolDry(s: Source)
    requires Dry(s)
    ensures StayedDry(s, FillCurrent(s)) && FillCurrent(s).from.streams.mainFailed
  {
  }

  lemma TextDry(chars: seq<byte>, s: Source)
    requires Dry(s)
    ensures StayedDry(s, TakeText(chars, s).1)
  {
    hide Fill, SizeBytes, SizeValue, StayedDry, Resized, Dry;
    FillDry(s, SizeBytes(|chars|, SIZE_WIDTH));
    var (n, u) := TakeCount(s, |chars|);
    DryNow(s, u);
    FillDry(u, Resized(chars, n));
    StayedDryOn(s, u, Fill(u, Resized(chars, n)).1);
  }

  lemma DryStays(s: Source)
    requires Dry(s)
    ensures StayedDry(s, s)
  {
  }

  lemma {:induction false} EachDry(e: Type, n: nat, done: seq<Value>, s: Source)
    requires Dry(s)
    ensures StayedDry(s, TakeEach(e, n, done, s).1)
    ensures n > 0 && !NoFlags(e) ==> TakeEach(e, n, done, s).1.from.streams.mainFailed
    decreases e, 2, n
  {
    hide Take, Fresh, StayedDry;
    if n == 0 {
      DryStays(s);
    } else {
      TakeDry(e, Fresh(e, s.junk), s);
      var (v, u) := Take(e, Fresh(e, s.junk), s);
      DryNow(s, u);
      EachDry(e, n - 1, done + [v], u);
      StayedDryOn(s, u, TakeEach(e, n - 1, done + [v], u).1);
    }
  }

  lemma {:induction false} PairDry(k: Type, v: Type, s: Source)
    requires Dry(s)
    ensures StayedDry(s, TakePair(k, v, s).1)
    ensures !NoFlags(k) || !NoFlags(v) ==> TakePair(k, v, s).1.from.streams.mainFailed
    decreases Map(k, v), 0, 0
  {
    hide Take, Fresh, StayedDry;
    TakeDry(k, Fresh(k, s.junk), s);
    var (_, u) := Take(k, Fresh(k, s.junk), s);
    DryNow(s, u);
    TakeDry(v, Fresh(v, s.junk), u);
    StayedDryOn(s, u, Take(v, Fresh(v, s.junk), u).1);
  }

  lemma {:induction false} PairsDry(k: Type, v: Type, n: nat, done: seq<(Value, Value)>, s: Source)
    requires Dry(s)
    ensures StayedDry(s, TakePairs(k, v, n, done, s).1)
    ensures n > 0 && (!NoFlags(k) || !NoFlags(v)) ==> TakePairs(k, v, n, done, s).1.from.streams.mainFailed
    decreases Map(k, v), 0, n + 1
  {
    hide TakePair, StayedDry;
    if n == 0 {
      DryStays(s);
    } else {
      PairDry(k, v, s);
      var (kv, u) := TakePair(k, v, s);
      DryNow(s, u);
      PairsDry(k, v, n - 1, done + [kv], u);
      StayedDryOn(s, u, TakePairs(k, v, n - 1, done + [kv], u).1);
    }
  }

  // ----- with nothing but zeros to come, no bool is read as true

  ghost predicate NoTrue(v: Value) {
    match v
    case VFlag(flag) => !flag
    case VVector(xs) => forall i :: 0 <= i < |xs| ==> NoTrue(xs[i])
    case VMap(m) => forall k :: k in m ==> NoTrue(k) && NoTrue(m[k])
    case VSet(xs) => forall x :: x in xs ==> NoTrue(x)
    case _ => true
  }

  ghost predicate ZerosAhead(s: Source) {
    s.from.Replayed? && forall i :: 0 <= i < |s.from.streams.main| ==> s.from.streams.main[i] == 0
  }

  /** Zeros are all that is still to come, and a last bool that was false stays the last one. */
  ghost predicate StillDull(s: Source, u: Source) {
    ZerosAhead(s) && ZerosAhead(u) && (s.current == 0 ==> u.current == 0)
  }

  lemma StillDullOn(s: Source, u: Source, w: Source)
    requires StillDull(s, u) && StillDull(u, w)
    ensures StillDull(s, w)
  {
  }

  lemma DullNow(s: Source, u: Source)
    requires StillDull(s, u)
    ensures ZerosAhead(u) && (s.current == 0 ==> u.current == 0)
  {
  }

  lemma FillDull(s: Source, dest: seq<byte>)
    requires ZerosAhead(s)
    ensures StillDull(s, Fill(s, dest).1)
  {
    hide Step, Mismatch;
    FillKeepsSettings(s, dest);
    StepDropsMain(s.from.streams, |dest|);
  }

  lemma StepDropsMain(p: Streams, size: nat)
    ensures var q := Step(p, size).1;
            |q.main| <= |p.main| && q.main == p.main[|p.main| - |q.main|..]
  {
  }

  lemma CountDull(s: Source, start: nat)
    requires ZerosAhead(s)
    ensures StillDull(s, TakeCount(s, start).1)
  {
    hide Fill, SizeBytes, SizeValue, StillDull, ZerosAhead;
    FillDull(s, SizeBytes(start, SIZE_WIDTH));
  }

  lemma TextDull(chars: seq<byte>, s: Source)
    requires ZerosAhead(s)
    ensures StillDull(s, TakeText(chars, s).1)
  {
    hide Fill, TakeCount, StillDull, Resized, ZerosAhead;
    CountDull(s, |chars|);
    var (n, u) := TakeCount(s, |chars|);
    DullNow(s, u);
    if !u.flagged {
      FillDull(u, Resized(chars, n));
      StillDullOn(s, u, Fill(u, Resized(chars, n)).1);
    }
  }

  lemma BoolDull(s: Source)
    requires ZerosAhead(s) && s.current == 0
    ensures StillDull(s, FillCurrent(s)) && FillCurrent(s).current == 0
  {
  }

  lemma {:induction false} TakeDull(t: Type, s: Source)
    requires ZerosAhead(s) && (NoFlags(t) || s.current == 0)
    ensures var (v, u) := Take(t, Fresh(t, s.junk), s);
            NoTrue(v) && StillDull(s, u)
    decreases t, 1, 0
  {
    hide Fill, FillCurrent, TakeEach, TakePairs, TakeText, TakeCount, StillDull, ZerosAhead, Assigned, Members;
    match t {
      case Scalar(_) => FillDull(s, Fresh(t, s.junk).bytes);
      case Flag => BoolDull(s);
      case Text => TextDull([], s);
      case Vector(e) =>
        SequenceDull(e, s);
        NoneBefore(TakeEach(e, TakeCount(s, 0).0, [], TakeCount(s, 0).1).0);
      case Set(e) =>
        SequenceDull(e, s);
        MembersNoTrue(TakeEach(e, TakeCount(s, 0).0, [], TakeCount(s, 0).1).0);
      case Map(k, v) =>
        CountDull(s, 0);
        var (n, u) := TakeCount(s, 0);
        DullNow(s, u);
        PairsDull(k, v, n, [], u);
        StillDullOn(s, u, TakePairs(k, v, n, [], u).1);
        AssignedNoTrue(TakePairs(k, v, n, [], u).0);
    }
  }

  ghost predicate NoneTrue(vs: seq<Value>) { forall i :: 0 <= i < |vs| ==> NoTrue(vs[i]) }

  ghost predicate NonePairTrue(kvs: seq<(Value, Value)>) {
    forall i :: 0 <= i < |kvs| ==> NoTrue(kvs[i].0) && NoTrue(kvs[i].1)
  }

  lemma MembersNoTrue(vs: seq<Value>)
    requires NoneTrue(vs)
    ensures NoTrue(VSet({} + Members(vs)))
  {
  }

  lemma AssignedNoTrue(kvs: seq<(Value, Value)>)
    requires NonePairTrue(kvs)
    ensures NoTrue(VMap(map[] + Assigned(kvs)))
  {
    AssignedFrom(kvs);
  }

  lemma {:induction false} AssignedFrom<K, V>(kvs: seq<(K, V)>)
    ensures forall k :: k in Assigned(kvs) ==> (k, Assigned(kvs)[k]) in kvs
  {
    if kvs != [] {
      AssignedFrom(kvs[1..]);
      assert forall kv :: kv in kvs[1..] ==> kv in kvs;
      assert (kvs[0].0, kvs[0].1) == kvs[0];
    }
  }

  lemma {:induction false} SequenceDull(e: Type, s: Source)
    requires ZerosAhead(s) && (NoFlags(e) || s.current == 0)
    ensures var (n, u) := TakeCount(s, 0);
            var (vs, w) := TakeEach(e, n, [], u);
            NoneTrue(vs) && StillDull(s, w)
    decreases e, 3, 0
  {
    hide TakeCount, TakeEach, StillDull, ZerosAhead, NoTrue;
    CountDull(s, 0);
    var (n, u) := TakeCount(s, 0);
    DullNow(s, u);
    EachDull(e, n, [], u);
    StillDullOn(s, u, TakeEach(e, n, [], u).1);
  }

  lemma DullSelf(s: Source)
    requires ZerosAhead(s)
    ensures StillDull(s, s)
  {
  }

  lemma {:induction false} EachDull(e: Type, n: nat, done: seq<Value>, s: Source)
    requires ZerosAhead(s) && (NoFlags(e) || s.current == 0) && NoneTrue(done)
    ensures var (vs, w) := TakeEach(e, n, done, s);
            NoneTrue(vs) && StillDull(s, w)
    decreases e, 2, n
  {
    hide Take, Fresh, StillDull, ZerosAhead, NoTrue;
    if n == 0 {
      DullSelf(s);
    } else {
      TakeDull(e, s);
      var (v, u) := Take(e, Fresh(e, s.junk), s);
      DullNow(s, u);
      EachDull(e, n - 1, done + [v], u);
      StillDullOn(s, u, TakeEach(e, n - 1, done + [v], u).1);
    }
  }

  lemma {:induction false} PairDull(k: Type, v: Type, s: Source)
    requires ZerosAhead(s) && ((NoFlags(k) && NoFlags(v)) || s.current == 0)
    ensures var (kv, w) := TakePair(k, v, s);
            NoTrue(kv.0) && NoTrue(kv.1) && StillDull(s, w)
    decreases Map(k, v), 0, 0
  {
    hide Take, Fresh, StillDull, ZerosAhead, NoTrue;
    TakeDull(k, s);
    var (_, u) := Take(k, Fresh(k, s.junk), s);
    DullNow(s, u);
    TakeKeepsSettings(k, Fresh(k, s.junk), s);
    TakeDull(v, u);
    StillDullOn(s, u, Take(v, Fresh(v, s.junk), u).1);
  }

  lemma {:induction false} PairsDull(k: Type, v: Type, n: nat, done: seq<(Value, Value)>, s: Source)
    requires ZerosAhead(s) && ((NoFlags(k) && NoFlags(v)) || s.current == 0) && NonePairTrue(done)
    ensures var (kvs, w) := TakePairs(k, v, n, done, s);
            NonePairTrue(kvs) && StillDull(s, w)
    decreases Map(k, v), 0, n + 1
  {
    hide TakePair, StillDull, ZerosAhead, NoTrue;
    if n == 0 {
      DullSelf(s);
    } else {
      PairDull(k, v, s);
      var (kv, u) := TakePair(k, v, s);
      DullNow(s, u);
      PairsDull(k, v, n - 1, done + [kv], u);
      StillDullOn(s, u, TakePairs(k, v, n - 1, done + [kv], u).1);
    }
  }

  // ----- a value that is lost: one true bool, zeros after it

  /** The value of the type with no true bool and the fewest bytes. */
  function Zero(t: Type): Item {
    match t
    case Scalar(width) => IScalar(Zeros(width))
    case Flag => IFlag(false)
    case Text => IText([])
    case Vector(_) => IVector([])
    case Map(_, _) => IMap([])
    case Set(_) => ISet([])
  }

  /** Another value of the type. */
  function Other(t: Type): Item {
    match t
    case Scalar(width) => IScalar(if width == 0 then [] else [1] + Zeros(width - 1))
    case Flag => IFlag(true)
    case Text => IText([0])
    case Vector(e) => IVector([Zero(e)])
    case Map(k, v) => IMap([Entry(Zero(k), Zero(v))])
    case Set(e) => ISet([Zero(e)])
  }

  /** A value whose first bool is true. */
  function First(t: Type): Item {
    match t
    case Flag => IFlag(true)
    case Vector(e) => IVector([First(e), Zero(e)])
    case Set(e) => ISet([First(e), Zero(e)])
    case Map(k, v) =>
      if NoFlags(k) then IMap([Entry(Other(k), First(v)), Entry(Zero(k), Zero(v))])
      else IMap([Entry(First(k), Zero(v)), Entry(Zero(k), Zero(v))])
    case _ => Zero(t)
  }

  /** The bytes in front of that bool. */
  function Front(t: Type): seq<byte>
    decreases t, 1
  {
    match t
    case Vector(e) => SizeBytes(2, SIZE_WIDTH) + Front(e)
    case Set(e) => SizeBytes(2, SIZE_WIDTH) + Front(e)
    case Map(k, v) => SizeBytes(2, SIZE_WIDTH) + EntryFront(k, v)
    case _ => []
  }

  /** The bytes of a map's first entry in front of its first bool. */
  function EntryFront(k: Type, v: Type): seq<byte>
    decreases Map(k, v), 0
  {
    if NoFlags(k) then Encode(Other(k)) + Front(v) else Front(k)
  }

  /** How many zeros come after it. */
  function Behind(t: Type): nat {
    match t
    case Vector(e) => Behind(e) + |Encode(Zero(e))|
    case Set(e) => Behind(e) + |Encode(Zero(e))|
    case Map(k, v) =>
      if NoFlags(k) then Behind(v) + |Encode(Zero(k))| + |Encode(Zero(v))|
      else Behind(k) + |Encode(Zero(v))| + |Encode(Zero(k))| + |Encode(Zero(v))|
    case _ => 0
  }

  lemma ZeroIsZeros(t: Type)
    ensures Encode(Zero(t)) == Zeros(|Encode(Zero(t))|) && (!NoFlags(t) ==> Encode(Zero(t)) != [])
  {
    hide SizeBytes, Zeros;
    ZeroCount(SIZE_WIDTH);
    EmptyEncoded();
    ManyZeros();
  }

  lemma ManyZeros()
    ensures Zeros(SIZE_WIDTH) + [] == Zeros(SIZE_WIDTH) && [0] == Zeros(1) && forall n :: |Zeros(n)| == n
  {
  }

  lemma ZeroIsReal(t: Type)
    ensures Typed(t, Zero(t)) && Real(Zero(t))
  {
  }

  lemma ZeroHasNoTrue(t: Type)
    ensures NoTrue(ValueOf(Zero(t)))
  {
    assert Assigned<Value, Value>([]) == map[] && Members([]) == {};
  }

  lemma EmptyEncoded()
    ensures EncodeEach([]) == [] && EncodePairs([]) == []
  {
  }

  lemma TwoEncoded(a: Item, b: Item)
    ensures EncodeEach([a, b]) == Encode(a) + Encode(b)
  {
    hide Encode;
    assert [a, b][1..] == [b] && [b][1..] == [];
    assert EncodeEach([b]) == Encode(b) + [];
  }

  lemma TwoPairsEncoded(a: Entry, b: Entry)
    ensures EncodePairs([a, b]) == EncodePair(a) + EncodePair(b)
  {
    hide EncodePair;
    assert [a, b][1..] == [b] && [b][1..] == [];
    assert EncodePairs([b]) == EncodePair(b) + [];
  }

  lemma {:induction false} FirstEncoded(t: Type)
    requires !NoFlags(t)
    ensures Encode(First(t)) == Front(t) + [1] + Zeros(Behind(t)) && (t != Flag ==> Behind(t) > 0)
    decreases t, 2
  {
    hide SizeBytes, Zero, Zeros;
    match t {
      case Flag => NoZeros();
      case Vector(e) => FirstThenZero(e);
      case Set(e) => FirstThenZero(e);
      case Map(k, v) => FirstEntryEncoded(k, v);
    }
  }

  lemma NoZeros()
    ensures Zeros(0) == [] && [] + [1 as byte] + Zeros(0) == [1]
  {
  }

  lemma {:induction false} FirstThenZero(e: Type)
    requires !NoFlags(e)
    ensures SizeBytes(2, SIZE_WIDTH) + EncodeEach([First(e), Zero(e)]) ==
            (SizeBytes(2, SIZE_WIDTH) + Front(e)) + [1] + Zeros(Behind(e) + |Encode(Zero(e))|)
    ensures |Encode(Zero(e))| > 0
    decreases e, 3
  {
    hide SizeBytes, Encode, First, Zero, Zeros, Front, Behind;
    FirstEncoded(e);
    ZeroIsZeros(e);
    TwoEncoded(First(e), Zero(e));
    OneThenZeros(SizeBytes(2, SIZE_WIDTH), Front(e), Behind(e), |Encode(Zero(e))|);
  }

  lemma OneThenZeros(count: seq<byte>, front: seq<byte>, j: nat, k: nat)
    ensures count + ((front + [1] + Zeros(j)) + Zeros(k)) == (count + front) + [1] + Zeros(j + k)
  {
  }

  lemma {:induction false} FirstEntryEncoded(k: Type, v: Type)
    requires !NoFlags(k) || !NoFlags(v)
    ensures Encode(First(Map(k, v))) == Front(Map(k, v)) + [1] + Zeros(Behind(Map(k, v))) && Behind(Map(k, v)) > 0
    decreases Map(k, v), 1
  {
    hide SizeBytes, Encode, First, Zero, Zeros, Other, NoFlags;
    ZeroIsZeros(k);
    ZeroIsZeros(v);
    MapEncoded(k, v);
    var zk, zv := |Encode(Zero(k))|, |Encode(Zero(v))|;
    var count := SizeBytes(2, SIZE_WIDTH);
    if NoFlags(k) {
      FirstEncoded(v);
      ValueThenZeros(Encode(Other(k)), Front(v), Behind(v), zk, zv);
      CountInFront(count, Encode(Other(k)) + Front(v), Behind(v) + zk + zv);
    } else {
      FirstEncoded(k);
      KeyThenZeros(Front(k), Behind(k), zv, zk, zv);
      CountInFront(count, Front(k), Behind(k) + zv + zk + zv);
    }
  }

  lemma MapEncoded(k: Type, v: Type)
    ensures Encode(First(Map(k, v))) == SizeBytes(2, SIZE_WIDTH) +
            if NoFlags(k) then (Encode(Other(k)) + Encode(First(v))) + (Encode(Zero(k)) + Encode(Zero(v)))
            else (Encode(First(k)) + Encode(Zero(v))) + (Encode(Zero(k)) + Encode(Zero(v)))
  {
    hide SizeBytes, Zero, Other, NoFlags;
    TwoPairsEncoded(Entry(Other(k), First(v)), Entry(Zero(k), Zero(v)));
    TwoPairsEncoded(Entry(First(k), Zero(v)), Entry(Zero(k), Zero(v)));
  }

  lemma ValueThenZeros(key: seq<byte>, front: seq<byte>, i: nat, j: nat, k: nat)
    ensures (key + (front + [1] + Zeros(i))) + (Zeros(j) + Zeros(k)) == (key + front) + [1] + Zeros(i + j + k)
  {
  }

  lemma KeyThenZeros(front: seq<byte>, i: nat, j: nat, k: nat, m: nat)
    ensures ((front + [1] + Zeros(i)) + Zeros(j)) + (Zeros(k) + Zeros(m)) == front + [1] + Zeros(i + j + k + m)
  {
  }

  lemma CountInFront(count: seq<byte>, front: seq<byte>, k: nat)
    ensures count + (front + [1] + Zeros(k)) == (count + front) + [1] + Zeros(k)
  {
  }

  // ----- that value is of its type, real, and has a true bool

  lemma {:induction false} FirstIsReal(t: Type)
    requires !NoFlags(t) && Sized(t)
    ensures Typed(t, First(t)) && Real(First(t)) && !NoTrue(ValueOf(First(t)))
    decreases t, 1
  {
    hide Zero, Other, NoTrue, ValueOf, Real, Typed;
    match t {
      case Flag => LoneTrue();
      case Vector(e) =>
        FirstIsReal(e);
        ZeroIsReal(e);
        TwoElements(e, First(e), Zero(e));
      case Set(e) =>
        FirstIsReal(e);
        ZeroIsReal(e);
        ZeroHasNoTrue(e);
        TwoElements(e, First(e), Zero(e));
      case Map(k, v) => FirstMapIsReal(k, v);
    }
  }

  lemma LoneTrue()
    ensures Typed(Flag, IFlag(true)) && Real(IFlag(true)) && !NoTrue(ValueOf(IFlag(true)))
  {
  }

  lemma TwoElements(e: Type, a: Item, b: Item)
    requires Typed(e, a) && Typed(e, b) && Real(a) && Real(b) && !NoTrue(ValueOf(a))
    ensures Typed(Vector(e), IVector([a, b])) && Real(IVector([a, b])) && !NoTrue(ValueOf(IVector([a, b])))
    ensures Typed(Set(e), ISet([a, b])) && !NoTrue(ValueOf(ISet([a, b])))
    ensures ValueOf(a) != ValueOf(b) ==> Real(ISet([a, b]))
  {
    hide ValueOf, NoTrue, Real, Typed;
    TrueAmong(a, b);
    TypedTwo(e, a, b);
    RealTwo(a, b);
  }

  lemma TypedTwo(e: Type, a: Item, b: Item)
    requires Typed(e, a) && Typed(e, b)
    ensures Typed(Vector(e), IVector([a, b])) && Typed(Set(e), ISet([a, b]))
  {
  }

  lemma RealTwo(a: Item, b: Item)
    requires Real(a) && Real(b)
    ensures Real(IVector([a, b])) && (ValueOf(a) != ValueOf(b) ==> Real(ISet([a, b])))
  {
    hide ValueOf;
  }

  lemma TrueAmong(a: Item, b: Item)
    requires !NoTrue(ValueOf(a))
    ensures !NoTrue(ValueOf(IVector([a, b]))) && !NoTrue(ValueOf(ISet([a, b])))
  {
    var vs := ValuesOf([a, b]);
    assert vs[0] == ValueOf(a);
    assert ValueOf(IVector([a, b])) == VVector(vs) && ValueOf(ISet([a, b])) == VSet(Members(vs));
    assert vs[0] in Members(vs);
  }

  /** Zero and Other are two values. */
  lemma OtherDiffers(t: Type)
    requires Sized(t)
    ensures ValueOf(Other(t)) != ValueOf(Zero(t))
  {
    hide Zero, Zeros;
    match t {
      case Scalar(width) => OneIsNotZero(width); ZeroOfLeaf(t);
      case Flag => ZeroOfLeaf(t);
      case Text => ZeroOfLeaf(t);
      case Vector(e) => ZeroOfLeaf(t); assert |ValuesOf([Zero(e)])| == 1;
      case Set(e) => ZeroOfLeaf(t); assert ValuesOf([Zero(e)])[0] in Members(ValuesOf([Zero(e)]));
      case Map(k, v) =>
        ZeroOfLeaf(t);
        var kvs := EntriesOf([Entry(Zero(k), Zero(v))]);
        assert kvs[0].0 in Assigned(kvs);
    }
  }

  lemma ZeroOfLeaf(t: Type)
    ensures ValueOf(Zero(t)) ==
            match t
            case Scalar(width) => VScalar(Zeros(width))
            case Flag => VFlag(false)
            case Text => VText([])
            case Vector(_) => VVector([])
            case Map(_, _) => VMap(map[])
            case Set(_) => VSet({})
  {
    assert Assigned<Value, Value>([]) == map[] && Members([]) == {};
  }

  lemma OneIsNotZero(width: nat)
    requires 0 < width
    ensures [1] + Zeros(width - 1) != Zeros(width)
  {
    assert ([1] + Zeros(width - 1))[0] != Zeros(width)[0];
  }

  lemma OtherIsReal(t: Type)
    requires Sized(t)
    ensures Typed(t, Other(t)) && Real(Other(t))
  {
    hide Zero;
    match t {
      case Vector(e) => ZeroIsReal(e);
      case Map(k, v) => ZeroIsReal(k); ZeroIsReal(v);
      case Set(e) => ZeroIsReal(e);
      case _ =>
    }
  }

  lemma {:induction false} FirstMapIsReal(k: Type, v: Type)
    requires (!NoFlags(k) || !NoFlags(v)) && Sized(k) && Sized(v)
    ensures Typed(Map(k, v), First(Map(k, v))) && Real(First(Map(k, v))) && !NoTrue(ValueOf(First(Map(k, v))))
    decreases Map(k, v), 0
  {
    hide Zero, Other, NoTrue, ValueOf, Real, Typed, NoFlags;
    ZeroIsReal(k);
    ZeroIsReal(v);
    if NoFlags(k) {
      OtherIsReal(k);
      OtherDiffers(k);
      FirstIsReal(v);
      TwoEntries(k, v, Entry(Other(k), First(v)), Entry(Zero(k), Zero(v)));
    } else {
      FirstIsReal(k);
      ZeroHasNoTrue(k);
      TwoEntries(k, v, Entry(First(k), Zero(v)), Entry(Zero(k), Zero(v)));
    }
  }

  lemma TwoEntries(k: Type, v: Type, a: Entry, b: Entry)
    requires Typed(k, a.key) && Typed(v, a.value) && Typed(k, b.key) && Typed(v, b.value)
    requires Real(a.key) && Real(a.value) && Real(b.key) && Real(b.value) && ValueOf(a.key) != ValueOf(b.key)
    requires !NoTrue(ValueOf(a.key)) || !NoTrue(ValueOf(a.value))
    ensures Typed(Map(k, v), IMap([a, b])) && Real(IMap([a, b])) && !NoTrue(ValueOf(IMap([a, b])))
  {
    hide Assigned;
    var kvs := EntriesOf([a, b]);
    assert kvs == [EntryOf(a), EntryOf(b)];
    TwoAssigned(kvs);
    assert ValueOf(IMap([a, b])) == VMap(Assigned(kvs));
  }

  lemma TwoAssigned(kvs: seq<(Value, Value)>)
    requires |kvs| == 2 && kvs[0].0 != kvs[1].0
    ensures kvs[0].0 in Assigned(kvs) && Assigned(kvs)[kvs[0].0] == kvs[0].1
  {
    assert kvs[1..] == [kvs[1]] && kvs[1..][1..] == [];
    var none: map<Value, Value> := map[];
    assert Assigned(kvs[1..]) == map[kvs[1].0 := kvs[1].1] + none;
    assert kvs[0].0 !in Assigned(kvs[1..]);
  }

  // ----- the first attempt: the bool is taken and not kept

  /** Everything the replay buffer holds has been read, and the main stream is good. */
  ghost predicate AtEnd(s: Source) {
    s.from.Replayed? && s.from.streams.at == |s.from.streams.replay| && !s.from.streams.mainFailed && !s.flagged
  }

  /** These bytes have gone from the main stream to the end of the replay buffer, and `main` is left. */
  ghost predicate Kept(s: Source, u: Source, bytes: seq<byte>, main: seq<byte>) {
    && s.from.Replayed? && u.from.Replayed? && u.flagged == s.flagged && u.junk == s.junk
    && var p, q := s.from.streams, u.from.streams;
       q.replay == p.replay + bytes && q.at == |q.replay| && q.main == main
  }

  lemma {:induction false} StepsStayAtEnd(p: Pair, sizes: seq<nat>)
    requires p.Valid() && p.at == |p.replay|
    ensures Steps(p, sizes).1.at == |Steps(p, sizes).1.replay|
    decreases |sizes|
  {
    hide Step;
    if sizes != [] {
      if sizes[0] == 0 { StepWithinReplay(p, 0); } else { StepPastReplay(p, sizes[0]); }
      StepsStayAtEnd(Step(p, sizes[0]).1, sizes[1..]);
    }
  }

  /** A value without a bool is kept whole. */
  lemma PlainKept(t: Type, x: Item, s: Source, main: seq<byte>)
    requires NoFlags(t) && Typed(t, x) && AtEnd(s) && s.from.streams.main == Encode(x) + main
    ensures var u := Take(t, Fresh(t, s.junk), s).1;
            Kept(s, u, Encode(x), main) && AtEnd(u)
  {
    hide Take, Encode, Typed, NoFlags, Steps, Fresh;
    var p := s.from.streams;
    assert View(s) == Encode(x) + main;
    TakeOfEncoded(t, x, Fresh(t, s.junk), s, main);
    var sizes := TakeMoves(t, Fresh(t, s.junk), s);
    StepsStayAtEnd(p, sizes);
    var q := Take(t, Fresh(t, s.junk), s).1.from.streams;
    SplitAt(q.replay, q.main, p.replay, Encode(x), main);
  }

  lemma SplitAt(replay: seq<byte>, left: seq<byte>, before: seq<byte>, bytes: seq<byte>, main: seq<byte>)
    requires replay + left == before + (bytes + main) && (replay + left)[|replay|..] == main
    ensures replay == before + bytes && left == main
  {
    assert (replay + left)[|replay|..] == left;
    assert before + (bytes + main) == (before + bytes) + main;
    assert replay == (replay + left)[..|replay|] && before + bytes == ((before + bytes) + main)[..|before + bytes|];
  }

  lemma CountKept(s: Source, n: nat, main: seq<byte>)
    requires AtEnd(s) && n < SIZE_LIMIT && s.from.streams.main == SizeBytes(n, SIZE_WIDTH) + main
    ensures var (m, u) := TakeCount(s, 0);
            m == n && Kept(s, u, SizeBytes(n, SIZE_WIDTH), main) && AtEnd(u)
  {
    hide SizeBytes, SizeValue, Step, Mismatch;
    var p, count := s.from.streams, SizeBytes(n, SIZE_WIDTH);
    CountRoundTrip(n);
    StepPastReplay(p, SIZE_WIDTH);
    assert p.main[..SIZE_WIDTH] == count && p.main[SIZE_WIDTH..] == main && p.replay[p.at..] == [];
    assert [] + count == count && count + SizeBytes(0, SIZE_WIDTH)[SIZE_WIDTH..] == count;
  }

  lemma KeptOn(s: Source, u: Source, w: Source, a: seq<byte>, b: seq<byte>, mid: seq<byte>, main: seq<byte>)
    requires Kept(s, u, a, mid) && Kept(u, w, b, main)
    ensures Kept(s, w, a + b, main)
  {
    assert s.from.streams.replay + a + b == s.from.streams.replay + (a + b);
  }

  lemma DryKept(s: Source, u: Source, w: Source, bytes: seq<byte>)
    requires Kept(s, u, bytes, []) && StayedDry(u, w) && SameSettings(u, w)
    ensures Kept(s, w, bytes, [])
  {
  }

  lemma KeptIsDry(s: Source, u: Source, bytes: seq<byte>)
    requires Kept(s, u, bytes, [])
    ensures Dry(u)
  {
  }

  /** From the bytes up to and with the first bool, all but that bool are kept, and then the attempt comes up short. */
  lemma {:induction false} FirstCut(t: Type, s: Source)
    requires !NoFlags(t) && Sized(t) && AtEnd(s) && s.from.streams.main == Front(t) + [1]
    ensures var u := Take(t, Fresh(t, s.junk), s).1;
            Kept(s, u, Front(t), []) && (t != Flag ==> u.from.streams.mainFailed)
    decreases t, 2
  {
    hide SizeBytes, TakeCount, TakeEach, TakePairs, AtEnd, Kept, Encode;
    match t {
      case Flag => BoolNotKept(s);
      case Vector(e) => SequenceCut(e, s);
      case Set(e) => SequenceCut(e, s);
      case Map(k, v) => MapCut(k, v, s);
    }
  }

  lemma BoolNotKept(s: Source)
    requires AtEnd(s) && s.from.streams.main == [] + [1]
    ensures Kept(s, FillCurrent(s), [], [])
  {
    assert s.from.streams.main[1..] == [] && s.from.streams.replay + [] == s.from.streams.replay;
  }

  lemma {:induction false} SequenceCut(e: Type, s: Source)
    requires !NoFlags(e) && Sized(e) && AtEnd(s)
    requires s.from.streams.main == (SizeBytes(2, SIZE_WIDTH) + Front(e)) + [1]
    ensures var (n, u) := TakeCount(s, 0);
            var w := TakeEach(e, n, [], u).1;
            Kept(s, w, SizeBytes(2, SIZE_WIDTH) + Front(e), []) && w.from.streams.mainFailed
    decreases e, 3
  {
    hide SizeBytes, TakeCount, Take, Fresh, AtEnd, Kept, NoFlags, StayedDry, Dry, Front, SameSettings;
    var count := SizeBytes(2, SIZE_WIDTH);
    assert (count + Front(e)) + [1] == count + (Front(e) + [1]);
    CountKept(s, 2, Front(e) + [1]);
    var (n, u) := TakeCount(s, 0);
    KeptMain(s, u, count, Front(e) + [1]);
    FirstCut(e, u);
    var (v, m) := Take(e, Fresh(e, u.junk), u);
    KeptOn(s, u, m, count, Front(e), Front(e) + [1], []);
    KeptIsDry(s, m, count + Front(e));
    EachDry(e, 1, [v], m);
    EachKeepsSettings(e, 1, [v], m);
    assert [] + [v] == [v];
    assert TakeEach(e, 2, [], u) == TakeEach(e, 1, [v], m);
    DryKept(s, m, TakeEach(e, 1, [v], m).1, count + Front(e));
  }

  lemma KeptMain(s: Source, u: Source, bytes: seq<byte>, main: seq<byte>)
    requires Kept(s, u, bytes, main)
    ensures u.from.Replayed? && u.from.streams.main == main && u.junk == s.junk
  {
  }

  lemma {:induction false} MapCut(k: Type, v: Type, s: Source)
    requires (!NoFlags(k) || !NoFlags(v)) && Sized(k) && Sized(v) && AtEnd(s)
    requires s.from.streams.main == Front(Map(k, v)) + [1]
    ensures var (n, u) := TakeCount(s, 0);
            var w := TakePairs(k, v, n, [], u).1;
            Kept(s, w, Front(Map(k, v)), []) && w.from.streams.mainFailed
    decreases Map(k, v), 1
  {
    hide SizeBytes, TakeCount, TakePair, AtEnd, Kept, NoFlags, StayedDry, Dry, SameSettings, Encode, Other;
    var count, entry := SizeBytes(2, SIZE_WIDTH), EntryFront(k, v);
    assert (count + entry) + [1] == count + (entry + [1]);
    CountKept(s, 2, entry + [1]);
    var (n, u) := TakeCount(s, 0);
    KeptMain(s, u, count, entry + [1]);
    EntryCut(k, v, u);
    var (kv, m) := TakePair(k, v, u);
    KeptOn(s, u, m, count, entry, entry + [1], []);
    KeptIsDry(s, m, count + entry);
    PairsDry(k, v, 1, [kv], m);
    PairsKeepSettings(k, v, 1, [kv], m);
    assert [] + [kv] == [kv];
    assert TakePairs(k, v, 2, [], u) == TakePairs(k, v, 1, [kv], m);
    DryKept(s, m, TakePairs(k, v, 1, [kv], m).1, count + entry);
  }

  lemma {:induction false} EntryCut(k: Type, v: Type, s: Source)
    requires (!NoFlags(k) || !NoFlags(v)) && Sized(k) && Sized(v) && AtEnd(s)
    requires s.from.streams.main == EntryFront(k, v) + [1]
    ensures Kept(s, TakePair(k, v, s).1, EntryFront(k, v), [])
    decreases Map(k, v), 0
  {
    hide Take, Fresh, AtEnd, Kept, NoFlags, StayedDry, Dry, SameSettings, Encode, Other, Front;
    var (key, u) := Take(k, Fresh(k, s.junk), s);
    var w := Take(v, Fresh(v, s.junk), u).1;
    if NoFlags(k) {
      OtherIsReal(k);
      assert (Encode(Other(k)) + Front(v)) + [1] == Encode(Other(k)) + (Front(v) + [1]);
      PlainKept(k, Other(k), s, Front(v) + [1]);
      KeptMain(s, u, Encode(Other(k)), Front(v) + [1]);
      FirstCut(v, u);
      KeptOn(s, u, w, Encode(Other(k)), Front(v), Front(v) + [1], []);
    } else {
      FirstCut(k, s);
      KeptMain(s, u, Front(k), []);
      KeptIsDry(s, u, Front(k));
      TakeDry(v, Fresh(v, s.junk), u);
      TakeKeepsSettings(v, Fresh(v, s.junk), u);
      DryKept(s, u, w, Front(k));
    }
  }

  // ----- the last attempt: the bool is missed

  /** What the replay buffer still has is `front`; zeros, at least one, are on the main stream. */
  ghost predicate Replaying(s: Source, front: seq<byte>) {
    && ZerosAhead(s) && !s.from.streams.mainFailed && !s.flagged && s.from.streams.main != []
    && s.from.streams.replay[s.from.streams.at..] == front
  }

  lemma {:induction false} StepsWithin(p: Pair, sizes: seq<nat>)
    requires p.Valid() && !p.mainFailed && p.main != [] && Steps(p, sizes).1.at <= |p.replay|
    ensures var q := Steps(p, sizes).1;
            q.replay == p.replay && q.main == p.main && !q.mainFailed
    decreases |sizes|
  {
    hide Step;
    if sizes != [] {
      if sizes[0] <= |p.replay| - p.at {
        StepWithinReplay(p, sizes[0]);
        StepsWithin(Step(p, sizes[0]).1, sizes[1..]);
      } else {
        StepPastReplay(p, sizes[0]);
        StepsAdvance(Step(p, sizes[0]).1, sizes[1..]);
      }
    }
  }

  lemma {:induction false} StepsAdvance(p: Pair, sizes: seq<nat>)
    requires p.Valid()
    ensures p.at <= Steps(p, sizes).1.at
    decreases |sizes|
  {
    hide Step;
    if sizes != [] {
      StepConserves(p, sizes[0]);
      StepsAdvance(Step(p, sizes[0]).1, sizes[1..]);
    }
  }

  lemma PlainReplayed(t: Type, x: Item, s: Source, front: seq<byte>)
    requires NoFlags(t) && Typed(t, x) && Replaying(s, Encode(x) + front)
    ensures var u := Take(t, Fresh(t, s.junk), s).1;
            Replaying(u, front) && u.junk == s.junk
  {
    hide Take, Encode, Typed, NoFlags, Steps, Fresh;
    var p := s.from.streams;
    ViewSplits(s);
    assert View(s) == Encode(x) + (front + p.main);
    TakeOfEncoded(t, x, Fresh(t, s.junk), s, front + p.main);
    var u := Take(t, Fresh(t, s.junk), s).1;
    var sizes := TakeMoves(t, Fresh(t, s.junk), s);
    assert |View(u)| == |front| + |p.main|;
    StepsWithin(p, sizes);
    ViewSplits(u);
    assert u.from.streams.replay[u.from.streams.at..] == View(u)[..|front|] == front;
  }

  lemma ViewSplits(s: Source)
    requires s.from.Replayed? && !s.from.streams.mainFailed
    ensures View(s) == s.from.streams.replay[s.from.streams.at..] + s.from.streams.main
    ensures |View(s)| == |s.from.streams.All()| - s.from.streams.at
  {
  }

  lemma CountReplayed(s: Source, n: nat, front: seq<byte>)
    requires n < SIZE_LIMIT && Replaying(s, SizeBytes(n, SIZE_WIDTH) + front)
    ensures var (m, u) := TakeCount(s, 0);
            m == n && Replaying(u, front) && u.junk == s.junk
  {
    hide SizeBytes, SizeValue, Step, Mismatch;
    var p, count := s.from.streams, SizeBytes(n, SIZE_WIDTH);
    CountRoundTrip(n);
    StepWithinReplay(p, SIZE_WIDTH);
    CutFront(p.replay, p.at, count, front);
    assert count + SizeBytes(0, SIZE_WIDTH)[SIZE_WIDTH..] == count;
  }

  lemma CutFront(replay: seq<byte>, at: nat, count: seq<byte>, front: seq<byte>)
    requires at <= |replay| && replay[at..] == count + front
    ensures at + |count| <= |replay| && replay[at..at + |count|] == count && replay[at + |count|..] == front
  {
    assert replay[at..][..|count|] == count && replay[at..][|count|..] == front;
  }

  /** The value that comes out has no true bool anywhere. */
  lemma {:induction false} FirstMissed(t: Type, s: Source)
    requires !NoFlags(t) && Sized(t) && Replaying(s, Front(t))
    ensures var (v, u) := Take(t, Fresh(t, s.junk), s);
            NoTrue(v) && ZerosAhead(u) && u.current == 0
    decreases t, 2
  {
    hide SizeBytes, TakeCount, TakeEach, TakePairs, Replaying, ZerosAhead, Assigned, Members, Encode;
    match t {
      case Flag => BoolMissed(s);
      case Vector(e) =>
        SequenceMissed(e, s);
        NoneBefore(TakeEach(e, TakeCount(s, 0).0, [], TakeCount(s, 0).1).0);
      case Set(e) =>
        SequenceMissed(e, s);
        MembersNoTrue(TakeEach(e, TakeCount(s, 0).0, [], TakeCount(s, 0).1).0);
      case Map(k, v) =>
        MapMissed(k, v, s);
        AssignedNoTrue(TakePairs(k, v, TakeCount(s, 0).0, [], TakeCount(s, 0).1).0);
    }
  }

  lemma BoolMissed(s: Source)
    requires Replaying(s, [])
    ensures FillCurrent(s).current == 0 && ZerosAhead(FillCurrent(s))
  {
  }

  lemma {:induction false} SequenceMissed(e: Type, s: Source)
    requires !NoFlags(e) && Sized(e) && Replaying(s, SizeBytes(2, SIZE_WIDTH) + Front(e))
    ensures var (n, u) := TakeCount(s, 0);
            var (vs, w) := TakeEach(e, n, [], u);
            NoneTrue(vs) && ZerosAhead(w) && w.current == 0
    decreases e, 3
  {
    hide SizeBytes, TakeCount, Take, Fresh, Replaying, ZerosAhead, NoFlags, Front, NoTrue;
    CountReplayed(s, 2, Front(e));
    var (n, u) := TakeCount(s, 0);
    FirstMissed(e, u);
    var (v, m) := Take(e, Fresh(e, u.junk), u);
    assert [] + [v] == [v];
    assert TakeEach(e, 2, [], u) == TakeEach(e, 1, [v], m);
    EachDull(e, 1, [v], m);
    DullNow(m, TakeEach(e, 1, [v], m).1);
  }

  lemma {:induction false} MapMissed(k: Type, v: Type, s: Source)
    requires (!NoFlags(k) || !NoFlags(v)) && Sized(k) && Sized(v) && Replaying(s, Front(Map(k, v)))
    ensures var (n, u) := TakeCount(s, 0);
            var (kvs, w) := TakePairs(k, v, n, [], u);
            NonePairTrue(kvs) && ZerosAhead(w) && w.current == 0
    decreases Map(k, v), 1
  {
    hide SizeBytes, TakeCount, TakePair, Replaying, ZerosAhead, NoFlags, NoTrue, Encode, EntryFront;
    CountReplayed(s, 2, EntryFront(k, v));
    var (n, u) := TakeCount(s, 0);
    EntryMissed(k, v, u);
    var (kv, m) := TakePair(k, v, u);
    assert [] + [kv] == [kv];
    assert TakePairs(k, v, 2, [], u) == TakePairs(k, v, 1, [kv], m);
    PairsDull(k, v, 1, [kv], m);
    DullNow(m, TakePairs(k, v, 1, [kv], m).1);
  }

  lemma {:induction false} EntryMissed(k: Type, v: Type, s: Source)
    requires (!NoFlags(k) || !NoFlags(v)) && Sized(k) && Sized(v) && Replaying(s, EntryFront(k, v))
    ensures var (kv, w) := TakePair(k, v, s);
            NoTrue(kv.0) && NoTrue(kv.1) && ZerosAhead(w) && w.current == 0
    decreases Map(k, v), 0
  {
    hide Take, Fresh, Replaying, ZerosAhead, NoFlags, NoTrue, Encode, Other, Front;
    var (key, u) := Take(k, Fresh(k, s.junk), s);
    if NoFlags(k) {
      OtherIsReal(k);
      StillZeros(s, EntryFront(k, v));
      TakeDull(k, s);
      PlainReplayed(k, Other(k), s, Front(v));
      FirstMissed(v, u);
    } else {
      FirstMissed(k, s);
      TakeKeepsSettings(k, Fresh(k, s.junk), s);
      TakeDull(v, u);
      DullNow(u, Take(v, Fresh(v, u.junk), u).1);
    }
  }

  lemma StillZeros(s: Source, front: seq<byte>)
    requires Replaying(s, front)
    ensures ZerosAhead(s)
  {
  }

  // ----- exactly which types survive

  /** A bool and the types without one are read in the end, however their own attempts came up short; no other type is,
      whatever else it holds. */
  lemma OwnRetriesIff(t: Type)
    requires Sized(t)
    ensures NoFlags(t) || t == Flag <==> forall x, target, s, tries, rest :: Survives(t, x, target, s, tries, rest)
  {
    hide Take, Encode, Typed, NoFlags, Tried, Fits, Fresh, ValueOf, Merge, View, AllShort, Real;
    if NoFlags(t) {
      forall x, target, s, tries, rest ensures Survives(t, x, target, s, tries, rest) {
        PlainSurvives(t, x, target, s, tries, rest);
      }
    } else if t == Flag {
      forall x, target, s, tries, rest ensures Survives(t, x, target, s, tries, rest) {
        LoneBoolSurvives(x, target, s, tries, rest);
      }
    } else {
      var s, tries := FirstIsLost(t);
    }
  }

  lemma PlainSurvives(t: Type, x: Item, target: Value, s: Source, tries: seq<Try>, rest: seq<byte>)
    requires NoFlags(t)
    ensures Survives(t, x, target, s, tries, rest)
  {
    hide Take, Encode, Typed, NoFlags, Tried, Fits, ValueOf, Merge, View, Real, OwnHistory, Plain;
    if OwnHistory(t, s, tries) {
      OwnIsPlain(t, s, tries);
      if HasArrived(t, x, target, s, tries, rest) {
        RetriedValueIsRead(t, x, target, s, tries, rest);
      }
    }
  }

  lemma OwnIsPlain(t: Type, s: Source, tries: seq<Try>)
    requires NoFlags(t) && OwnHistory(t, s, tries)
    ensures Start(s) && Plain(tries)
  {
    hide Take, NoFlags, Tried, AllShort;
  }

  /** The value with one true bool and zeros after it, cut right after that bool. */
  lemma FirstIsLost(t: Type) returns (s: Source, tries: seq<Try>)
    requires !NoFlags(t) && t != Flag && Sized(t)
    ensures !Survives(t, First(t), Fresh(t, s.junk), s, tries, [])
  {
    hide Take, Encode, Typed, NoFlags, Fresh, ValueOf, Merge, View, Real, NoTrue, Zeros, Front, Behind, First;
    FirstEncoded(t);
    FirstIsReal(t);
    var junk: nat -> byte := _ => 0;
    s := Source(Replayed(Pair([], 0, Front(t) + [1], false)), 0, false, false, junk);
    FirstCut(t, s);
    var u := Take(t, Fresh(t, junk), s).1;
    tries := [Try(t, Fresh(t, junk), Zeros(Behind(t)))];
    assert tries[1..] == [] && tries[0].Valid();
    var next := Rewound(u, Zeros(Behind(t)));
    assert Tried(s, tries) == Tried(next, []) == next;
    assert AllShort(next, []) && AllShort(s, tries);
    assert ArrivedIn([]) == [] && ArrivedIn(tries) == Zeros(Behind(t)) + [] == Zeros(Behind(t));
    assert [] + (Front(t) + [1]) + Zeros(Behind(t)) == Encode(First(t)) + [];
    NextReplays(u, Front(t), Behind(t));
    FirstMissed(t, next);
    FreshMerges(t, First(t), junk);
  }

  lemma NextReplays(u: Source, front: seq<byte>, k: nat)
    requires u.from.Replayed? && u.from.streams.replay == [] + front && u.from.streams.main == [] && k > 0
    ensures Replaying(Rewound(u, Zeros(k)), front)
  {
    assert [] + Zeros(k) == Zeros(k) && ([] + front)[0..] == front;
  }
}
