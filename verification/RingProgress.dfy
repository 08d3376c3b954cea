/** Termination of non-blocking calls under any behaviour of the other thread, and progress of blocking calls. */
module RingProgress {
  import opened Bytes
  import opened Modular
  import opened RingProtocol
  import opened RingSafety

  predicate IsWriterMove(e: Event) { e.WriterStep? || e.WriterCopy? }

  predicate IsReaderMove(e: Event) { e.ReaderStep? || e.ReaderCopy? }

  function WriterMoves(events: seq<Event>): nat {
    if events == [] then 0 else (if IsWriterMove(events[0]) then 1 else 0) + WriterMoves(events[1..])
  }

  function ReaderMoves(events: seq<Event>): nat {
    if events == [] then 0 else (if IsReaderMove(events[0]) then 1 else 0) + ReaderMoves(events[1..])
  }

  function CountUpTo(n: nat): (s: set<nat>)
    ensures |s| == n && forall i: nat :: i in s <==> i < n
  {
    if n == 0 then {} else CountUpTo(n - 1) + {n - 1}
  }

  lemma {:induction false} SubsetSize(a: set<nat>, b: set<nat>)
    requires a <= b
    ensures |a| <= |b| && (|a| == |b| ==> a == b)
  {
    if a != {} {
      var x :| x in a;
      SubsetSize(a - {x}, b - {x});
    }
  }

  /** A transfer in progress has copied at most its chunk, and exactly its chunk when nothing is missing. */
  lemma CopiedSize(chunk: nat, copied: set<nat>)
    requires forall i :: i in copied ==> i < chunk
    ensures |copied| <= chunk
    ensures AllCopied(chunk, copied) ==> |copied| == chunk
  {
    SubsetSize(copied, CountUpTo(chunk));
    if AllCopied(chunk, copied) {
      SubsetSize(CountUpTo(chunk), copied);
    }
  }

  // ----- non-blocking calls

  /** Bytes left and spins left, weighted so that every move of the writer inside its call lowers the sum. */
  ghost function WriterMeasure(w: Writer): int {
    match w
    case WIdle => 0
    case WLoop(src, written, spins, _) => 5 * (|src| - written) + 3 * (WRITE_SPIN_LIMIT + 2 - spins)
    case WTail(src, written, spins, _, _) => 5 * (|src| - written) + 3 * (WRITE_SPIN_LIMIT + 2 - spins) - 1
    case WHead(src, written, spins, _, _) => 5 * (|src| - written) + 3 * (WRITE_SPIN_LIMIT + 2 - spins) - 2
    case WCopy(src, written, spins, _, _, _, copied) =>
      5 * (|src| - written) + 3 * (WRITE_SPIN_LIMIT + 2 - spins) - 3 - |copied|
  }

  ghost function ReaderMeasure(r: Reader): int {
    match r
    case RIdle => 0
    case RLoop(dest, taken, spins, _) => 5 * (|dest| - taken) + 3 * (READ_SPIN_LIMIT + 2 - spins)
    case RTail(dest, taken, spins, _, _) => 5 * (|dest| - taken) + 3 * (READ_SPIN_LIMIT + 2 - spins) - 1
    case RHead(dest, taken, spins, _, _) => 5 * (|dest| - taken) + 3 * (READ_SPIN_LIMIT + 2 - spins) - 2
    case RCopy(dest, taken, spins, _, _, _, copied) =>
      5 * (|dest| - taken) + 3 * (READ_SPIN_LIMIT + 2 - spins) - 3 - |copied|
  }

  lemma WriterMeasureFalls(c: Config, s: State, e: Event)
    requires Inv(c, s) && Enabled(c, s, e) && c.nonBlocking && !e.CallWrite?
    ensures 0 <= WriterMeasure(Do(c, s, e).writer)
    ensures if IsWriterMove(e) then WriterMeasure(Do(c, s, e).writer) < WriterMeasure(s.writer)
            else Do(c, s, e).writer == s.writer
  {
    hide Window, Filled, Fetched, Cell;
    if s.writer.WCopy? {
      CopiedSize(s.writer.chunk, s.writer.copied);
      if e.WriterCopy? {
        CopiedSize(s.writer.chunk, s.writer.copied + {e.wi});
      }
    }
  }

  lemma ReaderMeasureFalls(c: Config, s: State, e: Event)
    requires Inv(c, s) && Enabled(c, s, e) && c.nonBlocking && !e.CallRead?
    ensures 0 <= ReaderMeasure(Do(c, s, e).reader)
    ensures if IsReaderMove(e) then ReaderMeasure(Do(c, s, e).reader) < ReaderMeasure(s.reader)
            else Do(c, s, e).reader == s.reader
  {
    hide Window, Filled, Fetched, Cell;
    if s.reader.RCopy? {
      CopiedSize(s.reader.chunk, s.reader.copied);
      if e.ReaderCopy? {
        CopiedSize(s.reader.chunk, s.reader.copied + {e.ri});
      }
    }
  }

  lemma {:induction false} WriterMovesBounded(c: Config, s: State, events: seq<Event>)
    requires Inv(c, s) && Runs(c, s, events) && c.nonBlocking
    requires 0 <= WriterMeasure(s.writer)
    requires forall e :: e in events ==> !e.CallWrite?
    ensures WriterMoves(events) <= WriterMeasure(s.writer)
    decreases |events|
  {
    if events != [] {
      StepKeepsInv(c, s, events[0]);
      WriterMeasureFalls(c, s, events[0]);
      WriterMovesBounded(c, Do(c, s, events[0]), events[1..]);
    }
  }

  lemma {:induction false} ReaderMovesBounded(c: Config, s: State, events: seq<Event>)
    requires Inv(c, s) && Runs(c, s, events) && c.nonBlocking
    requires 0 <= ReaderMeasure(s.reader)
    requires forall e :: e in events ==> !e.CallRead?
    ensures ReaderMoves(events) <= ReaderMeasure(s.reader)
    decreases |events|
  {
    if events != [] {
      StepKeepsInv(c, s, events[0]);
      ReaderMeasureFalls(c, s, events[0]);
      ReaderMovesBounded(c, Do(c, s, events[0]), events[1..]);
    }
  }

  /** Without a new call the writer works on the same source, or has returned. */
  lemma {:induction false} WriterKeepsSource(c: Config, s: State, events: seq<Event>)
    requires c.Valid() && Runs(c, s, events) && forall e :: e in events ==> !e.CallWrite?
    ensures var w := After(c, s, events).writer;
            if s.writer.WIdle? then w.WIdle? else w.WIdle? || w.src == s.writer.src
    decreases |events|
  {
    if events != [] {
      WriterKeepsSource(c, Do(c, s, events[0]), events[1..]);
    }
  }

  lemma {:induction false} ReaderKeepsSize(c: Config, s: State, events: seq<Event>)
    requires c.Valid() && Runs(c, s, events) && forall e :: e in events ==> !e.CallRead?
    ensures var r := After(c, s, events).reader;
            if s.reader.RIdle? then r.RIdle? else r.RIdle? || |r.dest| == |s.reader.dest|
    decreases |events|
  {
    if events != [] {
      ReaderKeepsSize(c, Do(c, s, events[0]), events[1..]);
    }
  }

  /** A non-blocking write of n bytes ends within 5n + 306 of its own steps and n + 101 loop iterations,
      whatever the other thread does meanwhile (even if it never runs). */
  lemma NonBlockingWriteEnds(c: Config, s: State, src: seq<byte>, events: seq<Event>)
    requires Reachable(c, s) && c.nonBlocking && Enabled(c, s, CallWrite(src))
    requires Runs(c, Do(c, s, CallWrite(src)), events)
    requires forall e :: e in events ==> !e.CallWrite?
    ensures WriterMoves(events) <= 5 * |src| + 306
    ensures var w := After(c, Do(c, s, CallWrite(src)), events).writer;
            !w.WIdle? ==> w.src == src && w.iters <= |src| + 101
  {
    ReachableInv(c, s);
    StepKeepsInv(c, s, CallWrite(src));
    WriterMovesBounded(c, Do(c, s, CallWrite(src)), events);
    WriterKeepsSource(c, Do(c, s, CallWrite(src)), events);
    RunKeepsInv(c, Do(c, s, CallWrite(src)), events);
  }

  /** The same for a read: 5n + 3000006 own steps and n + 1000001 loop iterations. */
  lemma NonBlockingReadEnds(c: Config, s: State, dest: seq<byte>, events: seq<Event>)
    requires Reachable(c, s) && c.nonBlocking && Enabled(c, s, CallRead(dest))
    requires Runs(c, Do(c, s, CallRead(dest)), events)
    requires forall e :: e in events ==> !e.CallRead?
    ensures ReaderMoves(events) <= 5 * |dest| + 3_000_006
    ensures var r := After(c, Do(c, s, CallRead(dest)), events).reader;
            !r.RIdle? ==> |r.dest| == |dest| && r.iters <= |dest| + 1_000_001
  {
    ReachableInv(c, s);
    StepKeepsInv(c, s, CallRead(dest));
    ReaderMovesBounded(c, Do(c, s, CallRead(dest)), events);
    ReaderKeepsSize(c, Do(c, s, CallRead(dest)), events);
    RunKeepsInv(c, Do(c, s, CallRead(dest)), events);
  }

  /** A write returns a short count only in non-blocking mode, at a moment when the ring is full, and after
      having written something or having spun its limit. */
  lemma ShortWriteOnlyWhenFull(c: Config, s: State)
    requires Reachable(c, s) && Enabled(c, s, WriterStep) && Do(c, s, WriterStep).writer.WIdle?
    ensures Do(c, s, WriterStep).accepted == s.accepted + s.writer.src[..s.writer.written]
    ensures s.writer.written < |s.writer.src| ==>
              && c.nonBlocking && FreeNow(c, s) == 0 && UsedNow(c, s) == c.size - 1
              && (s.writer.written > 0 || s.writer.spins == WRITE_SPIN_LIMIT + 1)
  {
    ReachableInv(c, s);
    FreeAndUsedNow(c, s);
  }

  /** A read returns a short count only in non-blocking mode, having loaded a head equal to its own tail. */
  lemma ShortReadOnlyWhenEmpty(c: Config, s: State)
    requires Reachable(c, s) && Enabled(c, s, ReaderStep) && Do(c, s, ReaderStep).reader.RIdle?
    ensures Do(c, s, ReaderStep).delivered == s.delivered + s.reader.dest[..s.reader.taken]
    ensures s.reader.taken < |s.reader.dest| ==>
              && c.nonBlocking && s.reader.RTail? && s.reader.seen == s.tail
              && (s.reader.taken > 0 || s.reader.spins == READ_SPIN_LIMIT + 1)
  {
    ReachableInv(c, s);
    if s.reader.RTail? {
      CellsApart(s.reader.seen, s.tail, c.size);
    }
  }

  // ----- how often a call looks before it gives up

  /** While a non-blocking call has transferred nothing, every loop iteration but the current one was an empty look. */
  ghost predicate LooksCounted(c: Config, s: State) {
    c.nonBlocking ==>
      && (!s.writer.WIdle? && s.writer.written == 0 ==>
            s.writer.iters == s.writer.spins + if s.writer.WLoop? then 0 else 1)
      && (!s.reader.RIdle? && s.reader.taken == 0 ==>
            s.reader.iters == s.reader.spins + if s.reader.RLoop? then 0 else 1)
  }

  lemma StepCountsLooks(c: Config, s: State, e: Event)
    requires Inv(c, s) && LooksCounted(c, s) && Enabled(c, s, e)
    ensures LooksCounted(c, Do(c, s, e))
  {
    hide Window, Filled, Fetched, Cell;
  }

  lemma {:induction false} RunCountsLooks(c: Config, s: State, events: seq<Event>)
    requires Inv(c, s) && LooksCounted(c, s) && Runs(c, s, events)
    ensures LooksCounted(c, After(c, s, events))
    decreases |events|
  {
    hide Do, Enabled, Inv, LooksCounted;
    if events != [] {
      StepKeepsInv(c, s, events[0]);
      StepCountsLooks(c, s, events[0]);
      RunCountsLooks(c, Do(c, s, events[0]), events[1..]);
    }
  }

  lemma ReachableLooks(c: Config, s: State)
    requires Reachable(c, s)
    ensures LooksCounted(c, s)
  {
    var memory: seq<byte>, events: seq<Event> :|
      |memory| == c.size && Runs(c, Init(c, memory), events) && s == After(c, Init(c, memory), events);
    InitInv(c, memory);
    RunCountsLooks(c, Init(c, memory), events);
  }

  /** A look that finds the ring empty ends the read exactly when the mode is non-blocking and something has been read,
      or this was look number 1000002 of a read that has got nothing. */
  lemma EmptyLookEndsRead(c: Config, s: State)
    requires Reachable(c, s) && s.reader.RTail? && s.reader.seen == s.tail
    ensures Enabled(c, s, ReaderStep)
    ensures Do(c, s, ReaderStep).reader.RIdle? <==>
            c.nonBlocking && (s.reader.taken > 0 || s.reader.iters == 1_000_002)
  {
    hide Window, Filled, Fetched, Cell;
    ReachableInv(c, s);
    InvInBounds(c, s);
    ReachableLooks(c, s);
    SameCell(s.tail, c.size);
  }

  /** The same for a write that finds the ring full: look number 102. */
  lemma FullLookEndsWrite(c: Config, s: State)
    requires Reachable(c, s) && s.writer.WTail? && InBounds(c, s) && UsedNow(c, s) == c.size - 1
    ensures Enabled(c, s, WriterStep)
    ensures Do(c, s, WriterStep).writer.WIdle? <==>
            c.nonBlocking && (s.writer.written > 0 || s.writer.iters == 102)
  {
    hide Window, Filled, Fetched, Cell;
    ReachableInv(c, s);
    InvInBounds(c, s);
    ReachableLooks(c, s);
    FreeAndUsedNow(c, s);
  }

  lemma SameCell(a: nat, n: nat)
    requires a < n
    ensures (a + n - a) % n == 0
  {
    ModUnique(n, 1, 0, n);
  }

  /** A call that was asked for something and returns with nothing has looked that often, in non-blocking mode. */
  lemma EmptyHandedAfterAllLooks(c: Config, s: State)
    requires Reachable(c, s) && InBounds(c, s)
    ensures s.reader.RTail? && s.reader.taken == 0 && Do(c, s, ReaderStep).reader.RIdle? ==>
              c.nonBlocking && s.reader.iters == 1_000_002
    ensures s.reader.RLoop? && s.reader.taken == 0 && Do(c, s, ReaderStep).reader.RIdle? ==> s.reader.dest == []
    ensures s.writer.WTail? && s.writer.written == 0 && Do(c, s, WriterStep).writer.WIdle? ==>
              c.nonBlocking && s.writer.iters == 102
    ensures s.writer.WLoop? && s.writer.written == 0 && Do(c, s, WriterStep).writer.WIdle? ==> s.writer.src == []
  {
    hide Window, Filled, Fetched, Cell;
    ReachableInv(c, s);
    ReachableLooks(c, s);
  }

  /** A look that finds room or data leads to a transfer of all of it, as far as the call still needs it. */
  lemma LookTakesAll(c: Config, s: State)
    requires Reachable(c, s)
    ensures InBounds(c, s)
    ensures s.writer.WTail? && UsedNow(c, s) < c.size - 1 ==>
              var w := Do(c, s, WriterStep).writer;
              w.WHead? && w.chunk == Min(c.size - 1 - UsedNow(c, s), |s.writer.src| - s.writer.written)
    ensures s.reader.RTail? && s.reader.seen != s.tail ==>
              var r := Do(c, s, ReaderStep).reader;
              var seen := if s.tail <= s.reader.seen then s.reader.seen - s.tail else s.reader.seen + c.size - s.tail;
              r.RHead? && r.chunk == Min(seen, |s.reader.dest| - s.reader.taken)
  {
    hide Window, Filled, Fetched, Cell;
    ReachableInv(c, s);
    InvInBounds(c, s);
    FreeAndUsedNow(c, s);
    if s.reader.RTail? { WrapOnce(s.reader.seen + c.size - s.tail, c.size); }
  }

  lemma CellsApart(a: nat, b: nat, n: nat)
    requires a < n && b < n
    ensures (a + n - b) % n == 0 ==> a == b
  {
    if a < b {
      ModUnique(a + n - b, 0, a + n - b, n);
    } else {
      ModUnique(a + n - b, 1, a - b, n);
    }
  }

  // ----- blocking calls

  /** Bytes asked of each side so far, and what is still outstanding on both sides together. */
  function WriteGoal(s: State): nat { |s.accepted| + if s.writer.WIdle? then 0 else |s.writer.src| }

  function ReadGoal(s: State): nat { |s.delivered| + if s.reader.RIdle? then 0 else |s.reader.dest| }

  function Outstanding(s: State): int {
    (WriteGoal(s) - |Published(s)|) + (ReadGoal(s) - |Consumed(s)|)
  }

  /** A blocking pair of calls: the consumer asks for exactly as many bytes in all as the producer sends. */
  ghost predicate Matched(c: Config, s: State) {
    Inv(c, s) && !c.nonBlocking && 2 <= c.size && WriteGoal(s) == ReadGoal(s)
  }

  predicate WriterCanTransfer(c: Config, s: State)
    requires InBounds(c, s)
  {
    |Published(s)| < WriteGoal(s) && 0 < FreeNow(c, s)
  }

  predicate ReaderCanTransfer(c: Config, s: State)
    requires InBounds(c, s)
  {
    |Consumed(s)| < ReadGoal(s) && 0 < UsedNow(c, s)
  }

  /** Both sides are never stuck at once: while anything is outstanding, one side finds room or data. */
  lemma OneSideCanTransfer(c: Config, s: State)
    requires Matched(c, s) && 0 < Outstanding(s)
    ensures InBounds(c, s)
    ensures WriterCanTransfer(c, s) || ReaderCanTransfer(c, s)
  {
    FreeAndUsedNow(c, s);
  }

  predicate IsCall(e: Event) { e.CallWrite? || e.CallRead? }

  /** Own moves the writer needs, once it can transfer, until it publishes. */
  ghost function WriterDistance(c: Config, w: Writer): int {
    match w
    case WIdle => 0
    case WLoop(_, _, _, _) => c.size + 3
    case WTail(_, _, _, _, _) => c.size + 2
    case WHead(_, _, _, _, chunk) => chunk + 2
    case WCopy(_, _, _, _, chunk, _, copied) => chunk + 1 - |copied|
  }

  ghost function ReaderDistance(c: Config, s: State): int
    requires c.Valid()
  {
    match s.reader
    case RIdle => 0
    case RLoop(_, _, _, _) => c.size + 3
    case RTail(_, _, _, _, seen) =>
      if (seen + c.size - s.tail) % c.size == 0 then c.size + 4 else c.size + 2
    case RHead(_, _, _, _, chunk) => chunk + 2
    case RCopy(_, _, _, _, chunk, _, copied) => chunk + 1 - |copied|
  }

  lemma StepKeepsGoals(c: Config, s: State, e: Event)
    requires Inv(c, s) && Enabled(c, s, e) && !IsCall(e) && !c.nonBlocking
    ensures WriteGoal(Do(c, s, e)) == WriteGoal(s) && ReadGoal(Do(c, s, e)) == ReadGoal(s)
  {
    hide Window, Filled, Fetched, Cell;
  }

  lemma StepKeepsTotals(c: Config, s: State, e: Event)
    requires Inv(c, s) && Enabled(c, s, e) && !IsCall(e)
    ensures var t := Do(c, s, e);
            && |Published(t)| == |Published(s)| + (if e.WriterStep? && s.writer.WCopy? then s.writer.chunk else 0)
            && |Consumed(t)| == |Consumed(s)| + (if e.ReaderStep? && s.reader.RCopy? then s.reader.chunk else 0)
  {
    hide Window, Filled, Fetched, Cell;
  }

  lemma MatchedStep(c: Config, s: State, e: Event)
    requires Matched(c, s) && Enabled(c, s, e) && !IsCall(e)
    ensures Matched(c, Do(c, s, e)) && Outstanding(Do(c, s, e)) <= Outstanding(s)
    ensures e.WriterStep? && s.writer.WCopy? ==> Outstanding(Do(c, s, e)) < Outstanding(s)
    ensures e.ReaderStep? && s.reader.RCopy? ==> Outstanding(Do(c, s, e)) < Outstanding(s)
  {
    StepKeepsInv(c, s, e);
    StepKeepsGoals(c, s, e);
    StepKeepsTotals(c, s, e);
  }

  lemma WriterStaysReady(c: Config, s: State, e: Event)
    requires Matched(c, s) && Enabled(c, s, e) && !IsCall(e)
    requires WriterCanTransfer(c, s) && Outstanding(Do(c, s, e)) == Outstanding(s)
    ensures Inv(c, Do(c, s, e))
    ensures InBounds(c, Do(c, s, e)) && WriterCanTransfer(c, Do(c, s, e)) && !Do(c, s, e).writer.WIdle?
    ensures !IsWriterMove(e) ==> Do(c, s, e).writer == s.writer
  {
    hide Window, Filled, Fetched, Cell;
    var t := Do(c, s, e);
    MatchedStep(c, s, e);
    StepKeepsGoals(c, s, e);
    StepKeepsTotals(c, s, e);
    FreeAndUsedNow(c, s);
    FreeAndUsedNow(c, t);
  }

  lemma WriterGetsCloser(c: Config, s: State, e: Event)
    requires Matched(c, s) && Enabled(c, s, e) && !IsCall(e)
    requires WriterCanTransfer(c, s) && Outstanding(Do(c, s, e)) == Outstanding(s)
    ensures InBounds(c, Do(c, s, e)) && WriterCanTransfer(c, Do(c, s, e))
    ensures if IsWriterMove(e) then WriterDistance(c, Do(c, s, e).writer) < WriterDistance(c, s.writer)
            else WriterDistance(c, Do(c, s, e).writer) == WriterDistance(c, s.writer)
    ensures 0 < WriterDistance(c, Do(c, s, e).writer)
  {
    hide Window, Filled, Fetched, Cell, ReaderInv, StepReader, Published, Consumed;
    WriterStaysReady(c, s, e);
    var w := Do(c, s, e).writer;
    if w.WCopy? {
      CopiedSize(w.chunk, w.copied);
    }
    if e.WriterStep? {
      MatchedStep(c, s, e);
      assert s.writer.WTail? ==> (c.size - 1 + s.tail - s.writer.seen) % c.size == FreeNow(c, s);
    }
  }

  lemma ReaderStaysReady(c: Config, s: State, e: Event)
    requires Matched(c, s) && Enabled(c, s, e) && !IsCall(e)
    requires ReaderCanTransfer(c, s) && Outstanding(Do(c, s, e)) == Outstanding(s)
    ensures Inv(c, Do(c, s, e))
    ensures InBounds(c, Do(c, s, e)) && ReaderCanTransfer(c, Do(c, s, e)) && !Do(c, s, e).reader.RIdle?
    ensures Do(c, s, e).tail == s.tail
    ensures !IsReaderMove(e) ==> Do(c, s, e).reader == s.reader
  {
    hide Window, Filled, Fetched, Cell;
    var t := Do(c, s, e);
    MatchedStep(c, s, e);
    StepKeepsGoals(c, s, e);
    StepKeepsTotals(c, s, e);
    FreeAndUsedNow(c, s);
    FreeAndUsedNow(c, t);
  }

  lemma ReaderGetsCloser(c: Config, s: State, e: Event)
    requires Matched(c, s) && Enabled(c, s, e) && !IsCall(e)
    requires ReaderCanTransfer(c, s) && Outstanding(Do(c, s, e)) == Outstanding(s)
    ensures InBounds(c, Do(c, s, e)) && ReaderCanTransfer(c, Do(c, s, e))
    ensures if IsReaderMove(e) then ReaderDistance(c, Do(c, s, e)) < ReaderDistance(c, s)
            else ReaderDistance(c, Do(c, s, e)) == ReaderDistance(c, s)
    ensures 0 < ReaderDistance(c, Do(c, s, e))
  {
    hide Window, Filled, Fetched, Cell, WriterInv, StepWriter, Published, Consumed;
    ReaderStaysReady(c, s, e);
    var r := Do(c, s, e).reader;
    if r.RCopy? {
      CopiedSize(r.chunk, r.copied);
    }
    if e.ReaderStep? {
      MatchedStep(c, s, e);
    }
  }

  lemma {:induction false} MatchedRun(c: Config, s: State, events: seq<Event>)
    requires Matched(c, s) && Runs(c, s, events) && forall e :: e in events ==> !IsCall(e)
    ensures Matched(c, After(c, s, events)) && Outstanding(After(c, s, events)) <= Outstanding(s)
    ensures WriteGoal(After(c, s, events)) == WriteGoal(s)
    decreases |events|
  {
    if events != [] {
      MatchedStep(c, s, events[0]);
      StepKeepsGoals(c, s, events[0]);
      MatchedRun(c, Do(c, s, events[0]), events[1..]);
    }
  }

  lemma {:induction false} WriterTransfers(c: Config, s: State, events: seq<Event>)
    requires Matched(c, s) && Runs(c, s, events) && forall e :: e in events ==> !IsCall(e)
    requires InBounds(c, s) && WriterCanTransfer(c, s)
    requires WriterMoves(events) >= WriterDistance(c, s.writer) && 0 < WriterDistance(c, s.writer)
    ensures Outstanding(After(c, s, events)) < Outstanding(s)
    decreases |events|
  {
    assert events != [];
    var t := Do(c, s, events[0]);
    MatchedStep(c, s, events[0]);
    if Outstanding(t) < Outstanding(s) {
      MatchedRun(c, t, events[1..]);
    } else {
      WriterGetsCloser(c, s, events[0]);
      WriterTransfers(c, t, events[1..]);
    }
  }

  lemma {:induction false} ReaderTransfers(c: Config, s: State, events: seq<Event>)
    requires Matched(c, s) && Runs(c, s, events) && forall e :: e in events ==> !IsCall(e)
    requires InBounds(c, s) && ReaderCanTransfer(c, s)
    requires ReaderMoves(events) >= ReaderDistance(c, s) && 0 < ReaderDistance(c, s)
    ensures Outstanding(After(c, s, events)) < Outstanding(s)
    decreases |events|
  {
    assert events != [];
    var t := Do(c, s, events[0]);
    MatchedStep(c, s, events[0]);
    if Outstanding(t) < Outstanding(s) {
      MatchedRun(c, t, events[1..]);
    } else {
      ReaderGetsCloser(c, s, events[0]);
      ReaderTransfers(c, t, events[1..]);
    }
  }

  /** A fair round lets each thread move N + 4 times, unless its call has returned by the end of the round. */
  ghost predicate FairRound(c: Config, s: State, events: seq<Event>)
    requires c.Valid() && Runs(c, s, events)
  {
    && (forall e :: e in events ==> !IsCall(e))
    && (WriterMoves(events) >= c.size + 4 || After(c, s, events).writer.WIdle?)
    && (ReaderMoves(events) >= c.size + 4 || After(c, s, events).reader.RIdle?)
  }

  lemma DistancesBounded(c: Config, s: State)
    requires Matched(c, s)
    ensures !s.writer.WIdle? ==> 0 < WriterDistance(c, s.writer) <= c.size + 4
    ensures !s.reader.RIdle? ==> 0 < ReaderDistance(c, s) <= c.size + 4
  {
    hide Window, Filled, Fetched, Cell;
    if s.writer.WCopy? { CopiedSize(s.writer.chunk, s.writer.copied); }
    if s.reader.RCopy? { CopiedSize(s.reader.chunk, s.reader.copied); }
  }

  lemma FairRoundTransfers(c: Config, s: State, events: seq<Event>)
    requires Matched(c, s) && Runs(c, s, events) && FairRound(c, s, events) && 0 < Outstanding(s)
    ensures Outstanding(After(c, s, events)) < Outstanding(s)
  {
    OneSideCanTransfer(c, s);
    MatchedRun(c, s, events);
    DistancesBounded(c, s);
    if WriterCanTransfer(c, s) && WriterMoves(events) >= c.size + 4 {
      WriterTransfers(c, s, events);
    } else if ReaderCanTransfer(c, s) && ReaderMoves(events) >= c.size + 4 {
      ReaderTransfers(c, s, events);
    } else {
      TotalsGrow(c, s, events);
    }
  }

  lemma {:induction false} TotalsGrow(c: Config, s: State, events: seq<Event>)
    requires Inv(c, s) && Runs(c, s, events) && forall e :: e in events ==> !IsCall(e)
    ensures |Published(s)| <= |Published(After(c, s, events))|
    ensures |Consumed(s)| <= |Consumed(After(c, s, events))|
    decreases |events|
  {
    if events != [] {
      StepKeepsInv(c, s, events[0]);
      StepKeepsTotals(c, s, events[0]);
      TotalsGrow(c, Do(c, s, events[0]), events[1..]);
    }
  }

  /** Once nothing is outstanding, each thread has at most the move left that ends its call. */
  lemma {:induction false} LastMoves(c: Config, s: State, events: seq<Event>)
    requires Matched(c, s) && Runs(c, s, events) && (forall e :: e in events ==> !IsCall(e))
    requires Outstanding(s) == 0
    ensures WriterMoves(events) <= (if s.writer.WIdle? then 0 else 1)
    ensures ReaderMoves(events) <= (if s.reader.RIdle? then 0 else 1)
    ensures Outstanding(After(c, s, events)) == 0
    decreases |events|
  {
    hide Window, Filled, Fetched, Cell;
    if events != [] {
      var t := Do(c, s, events[0]);
      MatchedStep(c, s, events[0]);
      NothingNegative(c, s);
      NothingNegative(c, t);
      LastMoves(c, t, events[1..]);
    }
  }

  lemma NothingNegative(c: Config, s: State)
    requires Inv(c, s)
    ensures |Published(s)| <= WriteGoal(s) && |Consumed(s)| <= ReadGoal(s)
  {
  }

  ghost predicate FairRounds(c: Config, s: State, rounds: seq<seq<Event>>)
    requires c.Valid()
    decreases |rounds|
  {
    rounds == [] ||
    (Runs(c, s, rounds[0]) && FairRound(c, s, rounds[0]) && FairRounds(c, After(c, s, rounds[0]), rounds[1..]))
  }

  ghost function AfterRounds(c: Config, s: State, rounds: seq<seq<Event>>): State
    requires c.Valid() && FairRounds(c, s, rounds)
    decreases |rounds|
  {
    if rounds == [] then s else AfterRounds(c, After(c, s, rounds[0]), rounds[1..])
  }

  /** Every fair schedule finishes both calls: a matched blocking write and read end within as many fair rounds
      as there are outstanding bytes, plus one, and then every byte sent has been delivered in order. */
  lemma {:induction false} FairSchedulesFinish(c: Config, s: State, rounds: seq<seq<Event>>)
    requires Matched(c, s) && FairRounds(c, s, rounds) && |rounds| > Outstanding(s)
    ensures var t := AfterRounds(c, s, rounds);
            && t.writer.WIdle? && t.reader.RIdle? && t.delivered == t.accepted
            && |t.accepted| == WriteGoal(s)
    decreases |rounds|
  {
    NothingNegative(c, s);
    var t := After(c, s, rounds[0]);
    MatchedRun(c, s, rounds[0]);
    if Outstanding(s) == 0 {
      LastMoves(c, s, rounds[0]);
      NothingNegative(c, t);
      if |rounds| == 1 {
        assert t.delivered == Consumed(t) == Published(t) == t.accepted;
      } else {
        FairSchedulesFinish(c, t, rounds[1..]);
      }
    } else {
      FairRoundTransfers(c, s, rounds[0]);
      FairSchedulesFinish(c, t, rounds[1..]);
    }
  }

  /** A fresh ring on which a write of src and a read into dest have just been called. */
  function Started(memory: seq<byte>, src: seq<byte>, dest: seq<byte>): State {
    State(memory, 0, 0, WLoop(src, 0, 0, 0), RLoop(dest, 0, 0, 0), [], [])
  }

  lemma StartedIsReachable(c: Config, memory: seq<byte>, src: seq<byte>, dest: seq<byte>)
    requires c.Valid() && |memory| == c.size
    ensures Reachable(c, Started(memory, src, dest))
  {
    var s0 := Init(c, memory);
    var calls := [CallWrite(src), CallRead(dest)];
    var s1 := Do(c, s0, calls[0]);
    assert calls[1..] == [CallRead(dest)];
    assert calls[1..][1..] == [];
    assert Runs(c, Do(c, s1, CallRead(dest)), []);
    assert Runs(c, s1, calls[1..]);
    assert Runs(c, s0, calls);
    assert After(c, s0, calls) == After(c, s1, calls[1..]) == After(c, Do(c, s1, CallRead(dest)), []);
  }

  /** A blocking write of n bytes met by a blocking read of n bytes delivers exactly those bytes, and both
      calls return, within 2n + 1 fair rounds of any schedule. */
  lemma MatchedCallsDeliver(c: Config, memory: seq<byte>, src: seq<byte>, dest: seq<byte>, rounds: seq<seq<Event>>)
    requires 2 <= c.size && !c.nonBlocking && |memory| == c.size && |src| == |dest|
    requires FairRounds(c, Started(memory, src, dest), rounds) && |rounds| > 2 * |src|
    ensures var t := AfterRounds(c, Started(memory, src, dest), rounds);
            t.writer.WIdle? && t.reader.RIdle? && t.delivered == src
  {
    var s := Started(memory, src, dest);
    StartedIsReachable(c, memory, src, dest);
    ReachableInv(c, s);
    FairSchedulesFinish(c, s, rounds);
    RoundsHand(c, s, rounds);
    assert Handed(s) == src;
  }

  lemma {:induction false} RoundsHand(c: Config, s: State, rounds: seq<seq<Event>>)
    requires Matched(c, s) && FairRounds(c, s, rounds)
    ensures Handed(AfterRounds(c, s, rounds)) == Handed(s)
    decreases |rounds|
  {
    if rounds != [] {
      BlockingRunHands(c, s, rounds[0]);
      NothingGiven(rounds[0]);
      MatchedRun(c, s, rounds[0]);
      RoundsHand(c, After(c, s, rounds[0]), rounds[1..]);
    }
  }

  lemma {:induction false} NothingGiven(events: seq<Event>)
    requires forall e :: e in events ==> !IsCall(e)
    ensures Given(events) == []
  {
    if events != [] {
      assert !IsCall(events[0]);
      NothingGiven(events[1..]);
    }
  }
}
