/**
 Reading from a main stream through a replay buffer: bytes already taken are served again from the buffer, new
 ones come from the main stream and are appended to the buffer.
 */
module ResumableRead {
  import opened Bytes

  /** Both streams between two calls: the replay buffer, good and written at its end, and the main stream. */
  datatype Pair = Pair(replay: seq<byte>, at: nat, main: seq<byte>, mainFailed: bool) {
    predicate Valid() { at <= |replay| }

    /** Everything there is: what the replay buffer holds, then what the main stream has still to give. */
    function All(): seq<byte> { replay + main }
  }

  function TakeFrom(bytes: seq<byte>, n: nat): seq<byte> { bytes[..Min(n, |bytes|)] }

  function DropFrom(bytes: seq<byte>, n: nat): seq<byte> { bytes[Min(n, |bytes|)..] }

  /** One call: first the replay buffer, then the main stream unless it has failed. */
  function Step(s: Pair, size: nat): (res: (seq<byte>, Pair))
    requires s.Valid()
    ensures res.1.Valid()
  {
    var again := TakeFrom(s.replay[s.at..], size);
    if |again| == size && size > 0 then (again, s.(at := s.at + size))
    else
      var left := size - |again|;
      var got := if s.mainFailed then [] else TakeFrom(s.main, left);
      (again + got,
       Pair(s.replay + got, s.at + |again| + |got|, s.main[|got|..], s.mainFailed || |got| < left))
  }

  lemma StepWithinReplay(s: Pair, size: nat)
    requires s.Valid() && size <= |s.replay| - s.at
    ensures Step(s, size) == (s.replay[s.at..s.at + size], s.(at := s.at + size))
  {
    assert TakeFrom(s.replay[s.at..], size) == s.replay[s.at..s.at + size];
    if size == 0 {
      assert TakeFrom(s.main, 0) == [] && TakeFrom(s.replay[s.at..], 0) == [];
      assert s.replay + [] == s.replay && s.main[0..] == s.main;
      assert Step(s, 0).0 == [];
    }
  }

  lemma StepPastReplay(s: Pair, size: nat)
    requires s.Valid() && |s.replay| - s.at < size
    ensures var g := if s.mainFailed then 0 else Min(size - (|s.replay| - s.at), |s.main|);
            Step(s, size) == (s.replay[s.at..] + s.main[..g],
                              Pair(s.replay + s.main[..g], |s.replay| + g, s.main[g..],
                                   s.mainFailed || g < size - (|s.replay| - s.at)))
  {
    assert TakeFrom(s.replay[s.at..], size) == s.replay[s.at..];
    assert s.main[..0] == [];
  }

  /** Every call keeps the data together, delivers the next bytes of unread replay and main stream as far as they
      go, and leaves the replay position just past them. */
  lemma StepConserves(s: Pair, size: nat)
    requires s.Valid()
    ensures var (bytes, t) := Step(s, size);
            && t.All() == s.All() && s.replay <= t.replay
            && bytes == (if s.mainFailed then TakeFrom(s.replay[s.at..], size) else TakeFrom(s.All()[s.at..], size))
            && t.at == s.at + |bytes| && t.replay[s.at..t.at] == bytes
            && (t.mainFailed <==> s.mainFailed || |bytes| < size)
            && (s.mainFailed ==> t.replay == s.replay && t.main == s.main)
  {
    hide Step;
    MovedBytes(s.replay, s.at, s.main, size);
    if size <= |s.replay| - s.at {
      StepWithinReplay(s, size);
      assert s.All()[s.at..][..size] == s.replay[s.at..s.at + size] == s.replay[s.at..][..size];
    } else {
      StepPastReplay(s, size);
      assert s.main[..0] == [];
    }
  }

  lemma MovedBytes(replay: seq<byte>, at: nat, main: seq<byte>, size: nat)
    requires at <= |replay|
    ensures (replay + main)[at..] == replay[at..] + main
    ensures forall g :: 0 <= g <= |main| ==>
              (replay + main[..g]) + main[g..] == replay + main &&
              (replay + main[..g])[at..at + |replay[at..]| + g] == replay[at..] + main[..g]
    ensures |replay[at..]| <= size ==>
              TakeFrom(replay[at..] + main, size) == replay[at..] + TakeFrom(main, size - |replay[at..]|)
  {
  }

  function Steps(s: Pair, sizes: seq<nat>): (res: (seq<seq<byte>>, Pair))
    requires s.Valid()
    ensures res.1.Valid() && |res.0| == |sizes|
    decreases |sizes|
  {
    if sizes == [] then ([], s)
    else
      var (bytes, t) := Step(s, sizes[0]);
      var (more, u) := Steps(t, sizes[1..]);
      ([bytes] + more, u)
  }

  /** Reading the same sizes in one go from a single stream with all the bytes. */
  function InOneGo(whole: seq<byte>, sizes: seq<nat>): (parts: seq<seq<byte>>)
    ensures |parts| == |sizes|
    decreases |sizes|
  {
    if sizes == [] then [] else [TakeFrom(whole, sizes[0])] + InOneGo(DropFrom(whole, sizes[0]), sizes[1..])
  }

  lemma {:induction false} FailedDeliversRestOfReplay(s: Pair, sizes: seq<nat>)
    requires s.Valid() && s.mainFailed
    ensures Steps(s, sizes).0 == InOneGo(s.replay[s.at..], sizes)
    ensures Steps(s, sizes).1.All() == s.All()
    decreases |sizes|
  {
    if sizes != [] {
      StepConserves(s, sizes[0]);
      var (bytes, t) := Step(s, sizes[0]);
      assert t.replay == s.replay;
      FailedDeliversRestOfReplay(t, sizes[1..]);
      assert t.replay[t.at..] == DropFrom(s.replay[s.at..], sizes[0]);
    }
  }

  lemma {:induction false} NothingLeft(sizes: seq<nat>)
    ensures InOneGo([], sizes) == seq(|sizes|, _ => [])
    decreases |sizes|
  {
    if sizes != [] { NothingLeft(sizes[1..]); }
  }

  /** A round of reads that starts with the main stream good delivers what one stream with the unread replay bytes
      and the main bytes would, and loses nothing. */
  lemma {:induction false} RoundIsInOneGo(s: Pair, sizes: seq<nat>)
    requires s.Valid() && !s.mainFailed
    ensures Steps(s, sizes).0 == InOneGo(s.All()[s.at..], sizes)
    ensures Steps(s, sizes).1.All() == s.All()
    decreases |sizes|
  {
    if sizes != [] {
      StepConserves(s, sizes[0]);
      var (bytes, t) := Step(s, sizes[0]);
      assert t.All()[t.at..] == DropFrom(s.All()[s.at..], sizes[0]);
      if t.mainFailed {
        FailedDeliversRestOfReplay(t, sizes[1..]);
        assert t.at == |s.All()|;
        assert t.replay[t.at..] == [] && t.All()[t.at..] == [];
      } else {
        RoundIsInOneGo(t, sizes[1..]);
      }
    }
  }

  // ----- rewinding once more data has arrived

  /** The replay buffer set back to its start, the main stream cleared, and more bytes arrived on it. */
  function Rewind(s: Pair, arrived: seq<byte>): Pair {
    Pair(s.replay, 0, s.main + arrived, false)
  }

  /** A round of reads of any sizes, and what arrives on the main stream after it. */
  datatype Round = Round(sizes: seq<nat>, arrived: seq<byte>)

  /** One round after another, the streams rewound and cleared after each. */
  function Rounds(s: Pair, rounds: seq<Round>): (t: Pair)
    requires s.Valid()
    ensures t.Valid()
    decreases |rounds|
  {
    if rounds == [] then s
    else Rounds(Rewind(Steps(s, rounds[0].sizes).1, rounds[0].arrived), rounds[1..])
  }

  function Arrived(rounds: seq<Round>): seq<byte> {
    if rounds == [] then [] else rounds[0].arrived + Arrived(rounds[1..])
  }

  lemma {:induction false} LongerStreamExtends(whole: seq<byte>, more: seq<byte>, sizes: seq<nat>)
    ensures forall i :: 0 <= i < |sizes| ==> InOneGo(whole, sizes)[i] <= InOneGo(whole + more, sizes)[i]
    decreases |sizes|
  {
    if sizes != [] {
      var n := sizes[0];
      if n <= |whole| {
        assert DropFrom(whole + more, n) == DropFrom(whole, n) + more;
        LongerStreamExtends(whole[n..], more, sizes[1..]);
      } else {
        NothingLeft(sizes[1..]);
        assert DropFrom(whole, n) == [];
      }
    }
  }

  /** Replay: whatever rounds of complete or short reads of whatever sizes came before, rewinding and reading gives
      what reading all bytes so far in one go gives, and every part extends what the same read delivered earlier. */
  lemma ReplayIsInOneGo(s: Pair, rounds: seq<Round>, sizes: seq<nat>)
    requires s.at == 0 && !s.mainFailed
    ensures var last := Steps(Rounds(s, rounds), sizes).0;
            && last == InOneGo(s.All() + Arrived(rounds), sizes)
            && forall i :: 0 <= i < |sizes| ==> Steps(s, sizes).0[i] <= last[i]
  {
    RoundsKeepAll(s, rounds);
    var r := Rounds(s, rounds);
    RoundIsInOneGo(r, sizes);
    RoundIsInOneGo(s, sizes);
    assert r.All()[0..] == r.All() && s.All()[0..] == s.All();
    LongerStreamExtends(s.All(), Arrived(rounds), sizes);
  }

  lemma {:induction false} RoundsKeepAll(s: Pair, rounds: seq<Round>)
    requires s.at == 0 && !s.mainFailed
    ensures var r := Rounds(s, rounds);
            r.at == 0 && !r.mainFailed && r.All() == s.All() + Arrived(rounds)
    decreases |rounds|
  {
    if rounds == [] {
      assert s.All() + [] == s.All();
    } else {
      var (sizes, arrived) := (rounds[0].sizes, rounds[0].arrived);
      RoundIsInOneGo(s, sizes);
      var t := Steps(s, sizes).1;
      var next := Rewind(t, arrived);
      assert next.All() == t.All() + arrived;
      RoundsKeepAll(next, rounds[1..]);
      assert s.All() + arrived + Arrived(rounds[1..]) == s.All() + (arrived + Arrived(rounds[1..]));
    }
  }
}
