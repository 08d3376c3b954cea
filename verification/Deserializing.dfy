/**
 What `>>` does to its target as it is written: a read that comes up short leaves the bytes it did not get as they
 were, and reading goes on. The codec's Decode is what this amounts to when the input is complete.
 */
module Deserializing {
  import opened Bytes
  import opened Codec
  import opened ResumableRead

  type Streams = p: Pair | p.Valid() witness Pair([], 0, [], false)

  /** Where the bytes come from. */
  datatype From =
    | Counted(size: nat)           // counting: a read adds to the count and gives nothing
    | Buffer(bytes: seq<byte>)     // a read gets all of its bytes or none
    | Stream(bytes: seq<byte>)     // a read gets what there is
    | Replayed(streams: Streams)   // readBytesWithBuffer

  /** `current` is currentReadByte; `mismatch` is the flag a short read sets, and `flagged` its copy that
      last_did_not_read_whole_size reports; byte i of a scalar that has just been declared is junk(i). */
  datatype Source = Source(from: From, current: byte, flagged: bool, mismatch: bool, junk: nat -> byte)

  /** The bytes that reads through the source can still get. */
  function View(s: Source): seq<byte> {
    match s.from
    case Counted(_) => []
    case Buffer(bytes) => bytes
    case Stream(bytes) => bytes
    case Replayed(p) => if p.mainFailed then p.replay[p.at..] else p.All()[p.at..]
  }

  // ----- reads into what is already there

  function Fill(s: Source, dest: seq<byte>): (res: (seq<byte>, Source))
    ensures |res.0| == |dest|
  {
    match s.from
    case Counted(size) => (dest, s.(from := Counted(size + |dest|)))
    case Buffer(bytes) =>
      if |dest| <= |bytes| then (bytes[..|dest|], s.(from := Buffer(bytes[|dest|..]))) else (dest, s)
    case Stream(bytes) =>
      var got := Min(|dest|, |bytes|);
      (bytes[..got] + dest[got..], s.(from := Stream(bytes[got..]), mismatch := s.mismatch || got < |dest|))
    case Replayed(p) =>
      var (bytes, q) := Step(p, |dest|);
      (bytes + dest[|bytes|..], s.(from := Replayed(q), mismatch := Mismatch(s.mismatch, p, |dest|)))
  }

  /** The flag after readBytesWithBuffer: clear when the replay buffer had it all, set when the bytes ran out. */
  function Mismatch(before: bool, p: Pair, size: nat): bool
    requires p.Valid()
  {
    if 0 < size <= |p.replay| - p.at then false else before || |Step(p, size).0| < size
  }

  /** readByte, which a bool is read with: it never goes through the replay buffer. */
  function FillCurrent(s: Source): Source {
    match s.from
    case Replayed(p) =>
      if p.mainFailed || p.main == [] then s.(from := Replayed(p.(mainFailed := true)), mismatch := true)
      else s.(from := Replayed(p.(main := p.main[1..])), current := p.main[0])
    case _ =>
      var (bytes, t) := Fill(s, [s.current]);
      t.(current := bytes[0])
  }

  /** `>>` into a count that starts as `start`. */
  function TakeCount(s: Source, start: nat): (nat, Source) {
    var (bytes, t) := Fill(s, SizeBytes(start, SIZE_WIDTH));
    (SizeValue(bytes), t)
  }

  /** did_not_read_whole_size: the only call that sets the flag deserializers ask. */
  function DidNotRead(s: Source): (bool, Source) {
    (s.mismatch, s.(flagged := s.mismatch, mismatch := false))
  }

  // ----- whole values

  /** A target just declared: only scalars are left uninitialised. */
  function Fresh(t: Type, junk: nat -> byte): (v: Value)
    ensures Fits(t, v)
  {
    match t
    case Scalar(width) => VScalar(seq(width, i requires 0 <= i => junk(i)))
    case Flag => VFlag(false)
    case Text => VText([])
    case Vector(_) => VVector([])
    case Map(_, _) => VMap(map[])
    case Set(_) => VSet({})
  }

  predicate Fits(t: Type, v: Value) {
    match t
    case Scalar(width) => v.VScalar? && |v.bytes| == width
    case Flag => v.VFlag?
    case Text => v.VText?
    case Vector(_) => v.VVector?
    case Map(_, _) => v.VMap?
    case Set(_) => v.VSet?
  }

  /** str.resize(n) */
  function Resized(chars: seq<byte>, n: nat): (r: seq<byte>)
    ensures |r| == n
  {
    if n <= |chars| then chars[..n] else chars + seq(n - |chars|, _ => 0)
  }

  /** The count starts as the target's own size; a set flag ends the call after it. */
  function TakeText(chars: seq<byte>, s: Source): (seq<byte>, Source) {
    var (n, u) := TakeCount(s, |chars|);
    if u.flagged then (chars, u) else Fill(u, Resized(chars, n))
  }

  function Take(t: Type, target: Value, s: Source): (Value, Source)
    requires Fits(t, target)
    decreases t, 1, 0
  {
    hide Fill, FillCurrent, TakeCount, TakeText, Fresh, Resized, Assigned, Members;
    match t
    case Scalar(_) =>
      var (bytes, u) := Fill(s, target.bytes);
      (VScalar(bytes), u)
    case Flag =>
      var u := FillCurrent(s);
      (VFlag(u.current != 0), u)
    case Text =>
      var (chars, u) := TakeText(target.chars, s);
      (VText(chars), u)
    case Vector(e) =>
      var (n, u) := TakeCount(s, 0);
      var (vs, w) := TakeEach(e, n, [], u);
      (VVector(target.elems + vs), w)
    case Map(k, v) =>
      var (n, u) := TakeCount(s, 0);
      var (kvs, w) := TakePairs(k, v, n, [], u);
      (VMap(target.entries + Assigned(kvs)), w)
    case Set(e) =>
      var (n, u) := TakeCount(s, 0);
      var (vs, w) := TakeEach(e, n, [], u);
      (VSet(target.members + Members(vs)), w)
  }

  /** n more elements after those already taken. */
  function TakeEach(e: Type, n: nat, done: seq<Value>, s: Source): (seq<Value>, Source)
    decreases e, 2, n
  {
    if n == 0 then (done, s)
    else
      var (v, u) := Take(e, Fresh(e, s.junk), s);
      TakeEach(e, n - 1, done + [v], u)
  }

  function TakePair(k: Type, v: Type, s: Source): ((Value, Value), Source)
    decreases Map(k, v), 0, 0
  {
    var (key, u) := Take(k, Fresh(k, s.junk), s);
    var (value, w) := Take(v, Fresh(v, s.junk), u);
    ((key, value), w)
  }

  function TakePairs(k: Type, v: Type, n: nat, done: seq<(Value, Value)>, s: Source): (seq<(Value, Value)>, Source)
    decreases Map(k, v), 0, n + 1
  {
    if n == 0 then (done, s)
    else
      var (kv, u) := TakePair(k, v, s);
      TakePairs(k, v, n - 1, done + [kv], u)
  }

  /** Asking hands out the flag of the short reads since the last time, and asking again clears it. */
  lemma AskedTwice(s: Source)
    ensures DidNotRead(s).0 == s.mismatch && DidNotRead(s).1.flagged == s.mismatch && DidNotRead(s).1.from == s.from
    ensures var (again, t) := DidNotRead(DidNotRead(s).1);
            !again && !t.flagged && !t.mismatch
  {
  }

  /** Counting a read adds its size and touches nothing else. */
  lemma CountingRead(s: Source, dest: seq<byte>)
    requires s.from.Counted?
    ensures Fill(s, dest) == (dest, s.(from := Counted(s.from.size + |dest|)))
  {
  }

  // ----- complete input

  predicate NoFlags(t: Type) {
    match t
    case Flag => false
    case Vector(e) => NoFlags(e)
    case Map(k, v) => NoFlags(k) && NoFlags(v)
    case Set(e) => NoFlags(e)
    case _ => true
  }

  /** A bool is read where the view starts, unless the view starts in a replay buffer. */
  predicate Readable(t: Type, s: Source) {
    s.from.Replayed? ==> NoFlags(t)
  }

  /** The same kind of source, nothing of a replayed stream lost, and the settings untouched. */
  ghost predicate Carried(s: Source, t: Source) {
    && t.flagged == s.flagged && t.junk == s.junk
    && t.from.Counted? == s.from.Counted? && t.from.Buffer? == s.from.Buffer? && t.from.Stream? == s.from.Stream?
    && (s.from.Replayed? ==>
          var p, q := s.from.streams, t.from.streams;
          t.current == s.current && q.All() == p.All() && p.replay <= q.replay && q.mainFailed == p.mainFailed)
  }

  lemma FillKeepsSettings(s: Source, dest: seq<byte>)
    ensures SameSettings(s, Fill(s, dest).1) && Fill(s, dest).1.current == s.current
  {
    hide Step, Mismatch;
  }

  /** A read gets the front of the view; with too few bytes there, a buffer gives nothing and a stream all it has. */
  lemma FillDelivers(s: Source, dest: seq<byte>)
    ensures var (bytes, t) := Fill(s, dest);
            if |dest| <= |View(s)| then
              bytes == View(s)[..|dest|] && View(t) == View(s)[|dest|..] && Carried(s, t)
            else if s.from.Counted? || s.from.Buffer? then bytes == dest && View(t) == View(s)
            else bytes == View(s) + dest[|View(s)|..] && View(t) == []
  {
    hide Step, TakeFrom, DropFrom, Mismatch;
    FillKeepsSettings(s, dest);
    match s.from {
      case Replayed(p) => FillFromStreams(s, dest);
      case Stream(bytes) => FrontAndBack(bytes, dest);
      case _ =>
    }
  }

  lemma FillFromStreams(s: Source, dest: seq<byte>)
    requires s.from.Replayed?
    ensures var (bytes, t) := Fill(s, dest);
            if |dest| <= |View(s)| then
              bytes == View(s)[..|dest|] && View(t) == View(s)[|dest|..] && Carried(s, t)
            else bytes == View(s) + dest[|View(s)|..] && View(t) == []
  {
    hide Step, TakeFrom, DropFrom, View, Mismatch;
    StepShowsView(s, |dest|);
    FrontAndBack(View(s), dest);
    SameView(s.(from := Replayed(Step(s.from.streams, |dest|).1)), Fill(s, dest).1);
  }

  lemma SameView(s: Source, t: Source)
    requires s.from == t.from
    ensures View(s) == View(t)
  {
  }

  lemma FrontAndBack(view: seq<byte>, dest: seq<byte>)
    ensures TakeFrom(view, |dest|) == (if |dest| <= |view| then view[..|dest|] else view)
    ensures DropFrom(view, |dest|) == (if |dest| <= |view| then view[|dest|..] else [])
    ensures |dest| <= |view| ==> view[..|dest|] + dest[|dest|..] == view[..|dest|]
    ensures |view| <= |dest| ==> view[..|view|] == view && view[|view|..] == []
  {
  }

  /** No read, complete or short, changes the flag deserializers ask, or where the bytes come from. */
  ghost predicate SameSettings(s: Source, t: Source) {
    && t.flagged == s.flagged && t.junk == s.junk
    && t.from.Counted? == s.from.Counted? && t.from.Buffer? == s.from.Buffer?
    && t.from.Stream? == s.from.Stream?
  }

  lemma CountKeepsSettings(s: Source, start: nat)
    ensures SameSettings(s, TakeCount(s, start).1)
  {
    hide Fill, SizeBytes, SizeValue;
    FillKeepsSettings(s, SizeBytes(start, SIZE_WIDTH));
  }

  lemma {:induction false} TakeKeepsSettings(t: Type, target: Value, s: Source)
    requires Fits(t, target)
    ensures SameSettings(s, Take(t, target, s).1)
    decreases t, 1, 0
  {
    hide Fill, TakeCount, TakeEach, TakePairs, Resized;
    match t {
      case Scalar(_) => FillKeepsSettings(s, target.bytes);
      case Flag => if !s.from.Replayed? { FillKeepsSettings(s, [s.current]); }
      case Text =>
        CountKeepsSettings(s, |target.chars|);
        var (n, u) := TakeCount(s, |target.chars|);
        FillKeepsSettings(u, Resized(target.chars, n));
      case Vector(e) =>
        CountKeepsSettings(s, 0);
        EachKeepsSettings(e, TakeCount(s, 0).0, [], TakeCount(s, 0).1);
      case Set(e) =>
        CountKeepsSettings(s, 0);
        EachKeepsSettings(e, TakeCount(s, 0).0, [], TakeCount(s, 0).1);
      case Map(k, v) =>
        CountKeepsSettings(s, 0);
        PairsKeepSettings(k, v, TakeCount(s, 0).0, [], TakeCount(s, 0).1);
    }
  }

  lemma {:induction false} EachKeepsSettings(e: Type, n: nat, done: seq<Value>, s: Source)
    ensures SameSettings(s, TakeEach(e, n, done, s).1)
    decreases e, 2, n
  {
    hide Take, Fresh;
    if n > 0 {
      TakeKeepsSettings(e, Fresh(e, s.junk), s);
      var (v, u) := Take(e, Fresh(e, s.junk), s);
      EachKeepsSettings(e, n - 1, done + [v], u);
    }
  }

  lemma {:induction false} PairKeepsSettings(k: Type, v: Type, s: Source)
    ensures SameSettings(s, TakePair(k, v, s).1)
    decreases Map(k, v), 0, 0
  {
    hide Take, Fresh;
    TakeKeepsSettings(k, Fresh(k, s.junk), s);
    TakeKeepsSettings(v, Fresh(v, s.junk), Take(k, Fresh(k, s.junk), s).1);
  }

  lemma {:induction false} PairsKeepSettings(k: Type, v: Type, n: nat, done: seq<(Value, Value)>, s: Source)
    ensures SameSettings(s, TakePairs(k, v, n, done, s).1)
    decreases Map(k, v), 0, n + 1
  {
    hide TakePair;
    if n > 0 {
      PairKeepsSettings(k, v, s);
      var (kv, u) := TakePair(k, v, s);
      PairsKeepSettings(k, v, n - 1, done + [kv], u);
    }
  }

  lemma StepShowsView(s: Source, size: nat)
    requires s.from.Replayed?
    ensures var p := s.from.streams;
            var (bytes, q) := Step(p, size);
            && |bytes| <= size && bytes == TakeFrom(View(s), size)
            && View(s.(from := Replayed(q))) == DropFrom(View(s), size)
            && q.All() == p.All() && p.replay <= q.replay
            && (size <= |View(s)| ==> q.mainFailed == p.mainFailed)
  {
    hide Step;
    StepConserves(s.from.streams, size);
    var p := s.from.streams;
    var (bytes, q) := Step(p, size);
    assert q.replay[q.at..] == p.All()[q.at..][..|q.replay| - q.at];
    assert View(s)[|bytes|..] == (if p.mainFailed then p.replay else p.All())[p.at + |bytes|..];
  }

  /** When the flag of short reads is set: a stream that has fewer bytes than asked for sets it, a buffer never does,
      and a read that the replay buffer serves alone clears it. */
  lemma MismatchAfter(s: Source, dest: seq<byte>)
    ensures Fill(s, dest).1.mismatch <==>
            match s.from
            case Stream(bytes) => s.mismatch || |bytes| < |dest|
            case Replayed(p) =>
              !(0 < |dest| <= |p.replay| - p.at) && (s.mismatch || |View(s)| < |dest|)
            case _ => s.mismatch
  {
    hide Step;
    if s.from.Replayed? {
      StepShowsView(s, |dest|);
    }
  }

  lemma CountDelivers(s: Source, start: nat)
    requires DecodeSize(View(s)).Some?
    ensures var (n, t) := TakeCount(s, start);
            DecodeSize(View(s)) == Some(Decoded(n, View(t))) && Carried(s, t)
  {
    hide SizeValue, SizeBytes, View, Fill;
    FillDelivers(s, SizeBytes(start, SIZE_WIDTH));
  }

  lemma CurrentDelivers(s: Source)
    requires !s.from.Replayed? && View(s) != []
    ensures FillCurrent(s).current == View(s)[0] && View(FillCurrent(s)) == View(s)[1..]
    ensures Carried(s, FillCurrent(s))
  {
    hide Fill;
    FillDelivers(s, [s.current]);
    FillKeepsSettings(s, [s.current]);
    assert View(s)[..1] == [View(s)[0]];
  }

  lemma CarriedOn(s: Source, t: Source, u: Source)
    requires Carried(s, t) && Carried(t, u)
    ensures Carried(s, u)
  {
  }

  /** With a complete encoding in view, every value ends as Decode says, merged into what the target held; what
      follows stays in view, and a replayed stream loses nothing. */
  lemma {:induction false} TakeIsDecode(t: Type, target: Value, s: Source)
    requires Fits(t, target) && Readable(t, s) && !s.flagged && Decode(t, View(s)).Some?
    ensures var (v, u) := Take(t, target, s);
            Decode(t, View(s)) == Some(Decoded(Decode(t, View(s)).value.value, View(u))) &&
            v == Merge(target, Decode(t, View(s)).value.value) && Carried(s, u)
    decreases t, 1, 0
  {
    hide TakeCount, DecodeSize, View, Fill, FillCurrent, TakeEach, TakePairs, DecodeEach, DecodePairs, Carried, Resized;
    match t {
      case Scalar(_) => FillDelivers(s, target.bytes);
      case Flag => CurrentDelivers(s);
      case Text =>
        CountDelivers(s, |target.chars|);
        var (n, u) := TakeCount(s, |target.chars|);
        CarriedKeepsFlag(s, u);
        FillDelivers(u, Resized(target.chars, n));
        CarriedOn(s, u, Fill(u, Resized(target.chars, n)).1);
      case Vector(e) =>
        CountDelivers(s, 0);
        var (n, u) := TakeCount(s, 0);
        CarriedKeepsFlag(s, u);
        TakeEachIsDecode(e, n, [], u);
        NoneBefore(DecodeEach(e, n, View(u)).value.value);
        CarriedOn(s, u, TakeEach(e, n, [], u).1);
      case Map(k, v) =>
        CountDelivers(s, 0);
        var (n, u) := TakeCount(s, 0);
        CarriedKeepsFlag(s, u);
        TakePairsIsDecode(k, v, n, [], u);
        NoneBefore(DecodePairs(k, v, n, View(u)).value.value);
        CarriedOn(s, u, TakePairs(k, v, n, [], u).1);
      case Set(e) =>
        CountDelivers(s, 0);
        var (n, u) := TakeCount(s, 0);
        CarriedKeepsFlag(s, u);
        TakeEachIsDecode(e, n, [], u);
        NoneBefore(DecodeEach(e, n, View(u)).value.value);
        CarriedOn(s, u, TakeEach(e, n, [], u).1);
    }
  }

  lemma NoneBefore<T>(vs: seq<T>)
    ensures [] + vs == vs
  {
  }

  lemma CarriedKeepsFlag(s: Source, t: Source)
    requires Carried(s, t)
    ensures t.flagged == s.flagged && t.junk == s.junk && t.from.Replayed? == s.from.Replayed?
  {
  }

  lemma {:induction false} TakeEachIsDecode(e: Type, n: nat, done: seq<Value>, s: Source)
    requires Readable(e, s) && !s.flagged && DecodeEach(e, n, View(s)).Some?
    ensures var (vs, u) := TakeEach(e, n, done, s);
            var Decoded(decoded, rest) := DecodeEach(e, n, View(s)).value;
            vs == done + decoded && View(u) == rest && Carried(s, u)
    decreases e, 2, n
  {
    hide Decode, Take, View, Carried;
    if n == 0 {
      assert done + [] == done;
      CarriedSelf(s);
    } else {
      TakeIsDecode(e, Fresh(e, s.junk), s);
      MergeIntoFresh(e, View(s), s.junk);
      var (v, u) := Take(e, Fresh(e, s.junk), s);
      CarriedKeepsFlag(s, u);
      TakeEachIsDecode(e, n - 1, done + [v], u);
      CarriedOn(s, u, TakeEach(e, n - 1, done + [v], u).1);
      Regroup(done, v, DecodeEach(e, n - 1, View(u)).value.value);
    }
  }

  lemma CarriedSelf(s: Source)
    ensures Carried(s, s)
  {
  }

  lemma Regroup<T>(done: seq<T>, v: T, vs: seq<T>)
    ensures (done + [v]) + vs == done + ([v] + vs)
  {
  }

  lemma {:induction false} TakePairIsDecode(k: Type, v: Type, s: Source)
    requires Readable(k, s) && Readable(v, s) && !s.flagged && DecodePair(k, v, View(s)).Some?
    ensures var (kv, u) := TakePair(k, v, s);
            DecodePair(k, v, View(s)) == Some(Decoded(kv, View(u))) && Carried(s, u)
    decreases Map(k, v), 0, 0
  {
    hide Decode, Take, View, Carried;
    TakeIsDecode(k, Fresh(k, s.junk), s);
    MergeIntoFresh(k, View(s), s.junk);
    var (key, u) := Take(k, Fresh(k, s.junk), s);
    CarriedKeepsFlag(s, u);
    TakeIsDecode(v, Fresh(v, s.junk), u);
    MergeIntoFresh(v, View(u), s.junk);
    CarriedOn(s, u, Take(v, Fresh(v, s.junk), u).1);
  }

  lemma {:induction false} TakePairsIsDecode(k: Type, v: Type, n: nat, done: seq<(Value, Value)>, s: Source)
    requires Readable(k, s) && Readable(v, s) && !s.flagged && DecodePairs(k, v, n, View(s)).Some?
    ensures var (kvs, u) := TakePairs(k, v, n, done, s);
            var Decoded(decoded, rest) := DecodePairs(k, v, n, View(s)).value;
            kvs == done + decoded && View(u) == rest && Carried(s, u)
    decreases Map(k, v), 0, n + 1
  {
    hide DecodePair, TakePair, View, Carried;
    if n == 0 {
      assert done + [] == done;
      CarriedSelf(s);
    } else {
      TakePairIsDecode(k, v, s);
      var (kv, u) := TakePair(k, v, s);
      CarriedKeepsFlag(s, u);
      TakePairsIsDecode(k, v, n - 1, done + [kv], u);
      CarriedOn(s, u, TakePairs(k, v, n - 1, done + [kv], u).1);
      Regroup(done, kv, DecodePairs(k, v, n - 1, View(u)).value.value);
    }
  }

  lemma MergeIntoFresh(t: Type, bytes: seq<byte>, junk: nat -> byte)
    requires Decode(t, bytes).Some?
    ensures Merge(Fresh(t, junk), Decode(t, bytes).value.value) == Decode(t, bytes).value.value
  {
    hide DecodeSize;
    var v := Decode(t, bytes).value.value;
    if v.VVector? { assert [] + v.elems == v.elems; }
  }

  /** So whatever is decoded from a complete encoding with anything after it is the value that was encoded. */
  lemma TakeOfEncoded(t: Type, x: Item, target: Value, s: Source, rest: seq<byte>)
    requires Fits(t, target) && Readable(t, s) && !s.flagged && Typed(t, x) && View(s) == Encode(x) + rest
    ensures var (v, u) := Take(t, target, s);
            v == Merge(target, ValueOf(x)) && View(u) == rest && Carried(s, u)
  {
    hide Take, Decode, Encode, Typed, View, Carried, NoFlags;
    RoundTrip(t, x, rest);
    TakeIsDecode(t, target, s);
  }
}
