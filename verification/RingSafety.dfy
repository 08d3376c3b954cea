/** What holds in every state that any interleaving of the two threads can reach. */
module RingSafety {
  import opened Bytes
  import opened Modular
  import opened RingProtocol

  lemma {:induction false} RunKeepsInv(c: Config, s: State, events: seq<Event>)
    requires Inv(c, s) && Runs(c, s, events)
    ensures Inv(c, After(c, s, events))
    decreases |events|
  {
    if events != [] {
      StepKeepsInv(c, s, events[0]);
      RunKeepsInv(c, Do(c, s, events[0]), events[1..]);
    }
  }

  lemma InitInv(c: Config, memory: seq<byte>)
    requires c.Valid() && |memory| == c.size
    ensures Inv(c, Init(c, memory))
  {
  }

  lemma ReachableInv(c: Config, s: State)
    requires Reachable(c, s)
    ensures Inv(c, s)
  {
    var memory: seq<byte>, events: seq<Event> :|
      |memory| == c.size && Runs(c, Init(c, memory), events) && s == After(c, Init(c, memory), events);
    RunKeepsInv(c, Init(c, memory), events);
  }

  lemma QueueOfWindow(ring: seq<byte>, head: nat, k: nat, data: seq<byte>)
    requires head < |ring| && k <= |data| && Window(ring, |ring|, k, data)
    requires (head + |ring| - Cell(k, |ring|)) % |ring| == |data| - k
    ensures Queue(ring, head, Cell(k, |ring|)) == data[k..]
  {
    hide Cell;
    var unread := Queue(ring, head, Cell(k, |ring|));
    forall i | 0 <= i < |data| - k ensures unread[i] == data[k..][i] {
      CellOfCell(k, i, |ring|);
      assert ring[Cell(k + i, |ring|)] == data[k + i];
    }
  }

  /** Bytes come out in the order they went in, none lost, duplicated or torn: what has been consumed and what
      is still unread on the ring make up exactly what was published, in the middle of any transfer. */
  lemma ConsumedThenUnreadIsPublished(c: Config, s: State)
    requires Reachable(c, s)
    ensures InBounds(c, s)
    ensures Consumed(s) + Unread(c, s) == Published(s)
    ensures s.delivered <= Consumed(s) && s.accepted <= Published(s)
    ensures |Unread(c, s)| <= c.size - 1
    ensures s.writer.WIdle? && s.reader.RIdle? ==> s.delivered + Unread(c, s) == s.accepted
  {
    ReachableInv(c, s);
    InvInBounds(c, s);
    hide Window, Filled, Fetched;
    var p, k := |Published(s)|, |Consumed(s)|;
    UsedFormula(p, k, c.size);
    QueueOfWindow(s.ring, s.head, k, Published(s));
    assert Published(s) == Published(s)[..k] + Published(s)[k..];
  }

  /** The cells an in-flight write is filling hold no published unread byte, and none that a read is copying. */
  lemma CellsBeingFilledAreFree(c: Config, s: State, i: nat)
    requires Reachable(c, s) && s.writer.WCopy? && i < s.writer.chunk
    ensures InBounds(c, s)
    ensures |Consumed(s)| <= |Published(s)|
    ensures forall j :: |Consumed(s)| <= j < |Published(s)| ==>
                          SegmentCell(c, s.writer.at, s.writer.chunk, i) != Cell(j, c.size)
    ensures s.reader.RCopy? ==> forall j :: 0 <= j < s.reader.chunk ==>
              SegmentCell(c, s.writer.at, s.writer.chunk, i) != SegmentCell(c, s.reader.at, s.reader.chunk, j)
  {
    ReachableInv(c, s);
    InvInBounds(c, s);
    var p, k := |Published(s)|, |Consumed(s)|;
    SegmentsAreModular(c, p, s.writer.chunk, i);
    forall j | k <= j < p ensures Cell(p + i, c.size) != Cell(j, c.size) {
      DistinctCells(j, p + i, c.size);
    }
    if s.reader.RCopy? {
      forall j | 0 <= j < s.reader.chunk
        ensures Cell(p + i, c.size) != SegmentCell(c, s.reader.at, s.reader.chunk, j)
      {
        SegmentsAreModular(c, k, s.reader.chunk, j);
        DistinctCells(k + j, p + i, c.size);
      }
    }
  }

  /** Room and data as available_write and available_read would report them if both loads happened now. */
  function FreeNow(c: Config, s: State): nat
    requires InBounds(c, s)
  {
    (c.size - 1 + s.tail - s.head) % c.size
  }

  function UsedNow(c: Config, s: State): nat
    requires InBounds(c, s)
  {
    (s.head + c.size - s.tail) % c.size
  }

  lemma FreeAndUsedNow(c: Config, s: State)
    requires Inv(c, s)
    ensures InBounds(c, s)
    ensures UsedNow(c, s) == |Published(s)| - |Consumed(s)|
    ensures FreeNow(c, s) == c.size - 1 - UsedNow(c, s)
  {
    InvInBounds(c, s);
    FreeFormula(|Published(s)|, |Consumed(s)|, c.size);
    UsedFormula(|Published(s)|, |Consumed(s)|, c.size);
  }

  /** A snapshot taken by one thread stays a lower bound on the truth until that thread itself publishes,
      whatever the other thread does in between; free and used always add up to N - 1. */
  lemma SnapshotsAreLowerBounds(c: Config, s: State)
    requires Reachable(c, s)
    ensures InBounds(c, s)
    ensures FreeNow(c, s) + UsedNow(c, s) == c.size - 1
    ensures s.writer.WTail? ==> (c.size - 1 + s.tail - s.writer.seen) % c.size == FreeNow(c, s)
    ensures s.writer.WHead? || s.writer.WCopy? ==> 0 < s.writer.chunk <= FreeNow(c, s)
    ensures s.reader.RTail? ==> (s.reader.seen + c.size - s.tail) % c.size <= UsedNow(c, s)
    ensures s.reader.RHead? || s.reader.RCopy? ==> 0 < s.reader.chunk <= UsedNow(c, s)
  {
    ReachableInv(c, s);
    FreeAndUsedNow(c, s);
  }

  /** A thread inside a call always has a step it can take. */
  lemma ThreadsInACallCanStep(c: Config, s: State)
    requires Reachable(c, s)
    ensures !s.writer.WIdle? ==> Enabled(c, s, WriterStep) || exists i :: Enabled(c, s, WriterCopy(i))
    ensures !s.reader.RIdle? ==> Enabled(c, s, ReaderStep) || exists i :: Enabled(c, s, ReaderCopy(i))
  {
    ReachableInv(c, s);
    InvInBounds(c, s);
    if s.writer.WCopy? && !AllCopied(s.writer.chunk, s.writer.copied) {
      var i := FirstMissing(s.writer.chunk, s.writer.copied, 0);
      assert Enabled(c, s, WriterCopy(i));
    }
    if s.reader.RCopy? && !AllCopied(s.reader.chunk, s.reader.copied) {
      var i := FirstMissing(s.reader.chunk, s.reader.copied, 0);
      assert Enabled(c, s, ReaderCopy(i));
    }
  }

  /** The threads do not wait for each other: a thread that is idle can be called, and within a straight copy every
      byte not copied yet can come next, wherever the other thread stands. */
  lemma ThreadsAreFree(c: Config, s: State)
    requires Reachable(c, s)
    ensures forall src :: s.writer.WIdle? ==> Enabled(c, s, CallWrite(src))
    ensures forall dest :: s.reader.RIdle? ==> Enabled(c, s, CallRead(dest))
    ensures forall i: nat :: s.writer.WCopy? && i < s.writer.chunk && i !in s.writer.copied && s.writer.at + i < c.size
              ==> Enabled(c, s, WriterCopy(i))
    ensures forall i: nat :: s.reader.RCopy? && i < s.reader.chunk && i !in s.reader.copied && s.reader.at + i < c.size
              ==> Enabled(c, s, ReaderCopy(i))
  {
    hide Window, Filled, Fetched, Cell;
    ReachableInv(c, s);
    InvInBounds(c, s);
  }

  lemma FirstMissing(chunk: nat, copied: set<nat>, from: nat) returns (i: nat)
    requires from <= chunk && !AllCopied(chunk, copied)
    requires forall j :: 0 <= j < from ==> j in copied
    ensures i < chunk && i !in copied && forall j :: 0 <= j < i ==> j in copied
    decreases chunk - from
  {
    if from !in copied { i := from; } else { i := FirstMissing(chunk, copied, from + 1); }
  }

  // ----- what the producer was given

  function Given(events: seq<Event>): seq<byte> {
    if events == [] then [] else (if events[0].CallWrite? then events[0].src else []) + Given(events[1..])
  }

  /** Everything the producer has been handed: finished writes, and all of the write in progress. */
  function Handed(s: State): seq<byte> {
    if s.writer.WIdle? then s.accepted else s.accepted + s.writer.src
  }

  lemma StepHands(c: Config, s: State, e: Event)
    requires Enabled(c, s, e) && !c.nonBlocking
    ensures Handed(Do(c, s, e)) == Handed(s) + if e.CallWrite? then e.src else []
  {
    if e.WriterStep? && s.writer.WLoop? {
      assert s.writer.src[..|s.writer.src|] == s.writer.src;
    }
  }

  lemma {:induction false} BlockingRunHands(c: Config, s: State, events: seq<Event>)
    requires Inv(c, s) && Runs(c, s, events) && !c.nonBlocking
    ensures Handed(After(c, s, events)) == Handed(s) + Given(events)
    decreases |events|
  {
    hide Do, Enabled, Inv, Handed, InBounds;
    if events != [] {
      var t := Do(c, s, events[0]);
      var first := if events[0].CallWrite? then events[0].src else [];
      StepKeepsInv(c, s, events[0]);
      StepHands(c, s, events[0]);
      BlockingRunHands(c, t, events[1..]);
      assert (Handed(s) + first) + Given(events[1..]) == Handed(s) + (first + Given(events[1..]));
    }
  }

  /** In blocking mode the delivered bytes are a prefix of all bytes the producer was given, in order. */
  lemma DeliveredIsPrefixOfGiven(c: Config, memory: seq<byte>, events: seq<Event>)
    requires c.Valid() && !c.nonBlocking && |memory| == c.size && Runs(c, Init(c, memory), events)
    ensures var s := After(c, Init(c, memory), events);
            && s.delivered <= Consumed(s) <= Published(s) <= Given(events)
            && (s.writer.WIdle? ==> s.accepted == Given(events))
  {
    hide Window, Filled, Fetched, Cell, ReaderInv, Unread;
    var s := After(c, Init(c, memory), events);
    InitInv(c, memory);
    BlockingRunHands(c, Init(c, memory), events);
    assert Reachable(c, s);
    ConsumedThenUnreadIsPublished(c, s);
    PublishedIsHanded(s);
  }

  lemma PublishedIsHanded(s: State)
    ensures Published(s) <= Handed(s)
    ensures s.writer.WIdle? ==> Published(s) == Handed(s) == s.accepted
  {
  }

  // ----- in non-blocking mode too: what each write contributed

  /** The sources handed over from state s on, that of a write in progress first. */
  function Sources(s: State, events: seq<Event>): seq<seq<byte>> {
    (if s.writer.WIdle? then [] else [s.writer.src]) + Calls(events)
  }

  function Calls(events: seq<Event>): seq<seq<byte>> {
    if events == [] then [] else (if events[0].CallWrite? then [events[0].src] else []) + Calls(events[1..])
  }

  function Flatten(parts: seq<seq<byte>>): seq<byte> {
    if parts == [] then [] else parts[0] + Flatten(parts[1..])
  }

  ghost predicate PrefixEach(parts: seq<seq<byte>>, whole: seq<seq<byte>>) {
    |parts| == |whole| && forall i :: 0 <= i < |parts| ==> parts[i] <= whole[i]
  }

  /** The sources at hand before and after one step. */
  lemma SourceAtHand(c: Config, s: State, e: Event)
    requires Inv(c, s) && Enabled(c, s, e)
    ensures var t := Do(c, s, e);
            if e.CallWrite? then
              s.writer.WIdle? && !t.writer.WIdle? && t.writer.src == e.src && t.accepted == s.accepted
            else if s.writer.WIdle? then t.writer.WIdle? && t.accepted == s.accepted
            else if t.writer.WIdle? then
              s.writer.written <= |s.writer.src| && t.accepted == s.accepted + s.writer.src[..s.writer.written]
            else t.writer.src == s.writer.src && t.accepted == s.accepted
  {
    hide Window, Filled, Fetched, Cell, ReaderInv;
  }

  /** One step's effect on the sources: a finished write contributes its written prefix, nothing else moves. */
  lemma StepContributes(c: Config, s: State, e: Event, more: seq<Event>, parts: seq<seq<byte>>)
      returns (all: seq<seq<byte>>)
    requires Inv(c, s) && Enabled(c, s, e) && PrefixEach(parts, Sources(Do(c, s, e), more))
    ensures PrefixEach(all, Sources(s, [e] + more))
    ensures s.accepted + Flatten(all) == Do(c, s, e).accepted + Flatten(parts)
  {
    hide Do, Enabled, Inv, Flatten;
    var t := Do(c, s, e);
    SourceAtHand(c, s, e);
    assert ([e] + more)[1..] == more;
    if !s.writer.WIdle? && t.writer.WIdle? {
      var mine := s.writer.src[..s.writer.written];
      all := [mine] + parts;
      assert Sources(s, [e] + more) == [s.writer.src] + Sources(t, more);
      FlattenFirst(mine, parts);
      assert t.accepted == s.accepted + mine;
    } else {
      all := parts;
      assert Sources(s, [e] + more) == Sources(t, more);
    }
  }

  lemma FlattenFirst(first: seq<byte>, parts: seq<seq<byte>>)
    ensures Flatten([first] + parts) == first + Flatten(parts)
  {
  }

  lemma {:induction false} RunContributes(c: Config, s: State, events: seq<Event>) returns (parts: seq<seq<byte>>)
    requires Inv(c, s) && Runs(c, s, events)
    ensures PrefixEach(parts, Sources(s, events))
    ensures Published(After(c, s, events)) == s.accepted + Flatten(parts)
    decreases |events|
  {
    hide Do, Enabled, Inv, Window, Filled, Fetched;
    if events == [] {
      if s.writer.WIdle? {
        parts := [];
      } else {
        var mine := s.writer.src[..Min(s.writer.written, |s.writer.src|)];
        parts := [mine];
        FlattenFirst(mine, []);
        assert [mine] + [] == [mine];
      }
    } else {
      StepKeepsInv(c, s, events[0]);
      var later := RunContributes(c, Do(c, s, events[0]), events[1..]);
      parts := StepContributes(c, s, events[0], events[1..], later);
      assert [events[0]] + events[1..] == events;
    }
  }

  /** In either mode the published bytes are a prefix of each source handed to the producer, one after the other,
      and the delivered bytes are a prefix of that. */
  lemma DeliveredIsMadeOfPrefixes(c: Config, memory: seq<byte>, events: seq<Event>) returns (parts: seq<seq<byte>>)
    requires c.Valid() && |memory| == c.size && Runs(c, Init(c, memory), events)
    ensures PrefixEach(parts, Calls(events))
    ensures var s := After(c, Init(c, memory), events);
            s.delivered <= Consumed(s) <= Published(s) == Flatten(parts)
  {
    hide Window, Filled, Fetched, Cell, ReaderInv, WriterInv, Unread;
    var s := After(c, Init(c, memory), events);
    InitInv(c, memory);
    parts := RunContributes(c, Init(c, memory), events);
    assert Reachable(c, s);
    ConsumedThenUnreadIsPublished(c, s);
    assert [] + Calls(events) == Calls(events);
    assert [] + Flatten(parts) == Flatten(parts);
  }
}
