/**
 The single-producer single-consumer ring as a state machine. Each atomic load, each copied byte and each
 atomic store of write_internal and read_internal is one step of its own, and the steps of the two threads
 interleave freely. A memcpy copies its bytes in any order; the second memcpy of a wrapped transfer starts
 after the first has finished.
 */
module RingProtocol {
  import opened Bytes
  import opened Modular

  datatype Config = Config(size: nat, nonBlocking: bool) {
    ghost predicate Valid() { 0 < size }
  }

  const WRITE_SPIN_LIMIT := 100
  const READ_SPIN_LIMIT := 1_000_000

  /** Where the producer stands inside write_internal(src, |src|). */
  datatype Writer =
    | WIdle
    | WLoop(src: seq<byte>, written: nat, spins: nat, iters: nat)               // about to test written < n
    | WTail(src: seq<byte>, written: nat, spins: nat, iters: nat, seen: nat)    // head loaded, tail not yet
    | WHead(src: seq<byte>, written: nat, spins: nat, iters: nat, chunk: nat)   // room found, head to be reloaded
    | WCopy(src: seq<byte>, written: nat, spins: nat, iters: nat, chunk: nat, at: nat, copied: set<nat>)

  /** Where the consumer stands inside read_internal(dest, |dest|). */
  datatype Reader =
    | RIdle
    | RLoop(dest: seq<byte>, taken: nat, spins: nat, iters: nat)
    | RTail(dest: seq<byte>, taken: nat, spins: nat, iters: nat, seen: nat)
    | RHead(dest: seq<byte>, taken: nat, spins: nat, iters: nat, chunk: nat)
    | RCopy(dest: seq<byte>, taken: nat, spins: nat, iters: nat, chunk: nat, at: nat, copied: set<nat>)

  /** `accepted` and `delivered` log what finished calls reported: the source bytes a write counted as
      written, and the destination bytes a read counted as read. `iters` counts loop iterations. */
  datatype State = State(
    ring: seq<byte>, head: nat, tail: nat,
    writer: Writer, reader: Reader,
    accepted: seq<byte>, delivered: seq<byte>)

  datatype Event =
    | CallWrite(src: seq<byte>) | WriterStep | WriterCopy(wi: nat)
    | CallRead(dest: seq<byte>) | ReaderStep | ReaderCopy(ri: nat)

  function Init(c: Config, memory: seq<byte>): State
    requires c.Valid() && |memory| == c.size
  {
    State(memory, 0, 0, WIdle, RIdle, [], [])
  }

  // ----- the two memcpy segments of a transfer of `chunk` bytes that starts at cell `at`

  function FirstSegment(c: Config, at: nat, chunk: nat): nat
    requires at <= c.size
  {
    Min(chunk, c.size - at)
  }

  function SegmentCell(c: Config, at: nat, chunk: nat, i: nat): nat
    requires at <= c.size && i < chunk
  {
    if i < FirstSegment(c, at, chunk) then at + i else i - FirstSegment(c, at, chunk)
  }

  predicate MayCopy(c: Config, at: nat, chunk: nat, copied: set<nat>, i: nat)
    requires at <= c.size
  {
    && i < chunk && i !in copied
    && (i >= FirstSegment(c, at, chunk) ==> forall j :: 0 <= j < FirstSegment(c, at, chunk) ==> j in copied)
  }

  predicate AllCopied(chunk: nat, copied: set<nat>) {
    forall j :: 0 <= j < chunk ==> j in copied
  }

  // ----- one step

  /** Indices and cursors stay inside their arrays, so every step is defined. */
  predicate InBounds(c: Config, s: State) {
    && 0 < c.size && |s.ring| == c.size && s.head < c.size && s.tail < c.size
    && (!s.writer.WIdle? ==> s.writer.written <= |s.writer.src|)
    && (s.writer.WTail? ==> s.writer.seen < c.size)
    && (s.writer.WHead? || s.writer.WCopy? ==> s.writer.written + s.writer.chunk <= |s.writer.src|)
    && (s.writer.WCopy? ==> s.writer.at < c.size && s.writer.chunk < c.size)
    && (!s.reader.RIdle? ==> s.reader.taken <= |s.reader.dest|)
    && (s.reader.RTail? ==> s.reader.seen < c.size)
    && (s.reader.RHead? || s.reader.RCopy? ==> s.reader.taken + s.reader.chunk <= |s.reader.dest|)
    && (s.reader.RCopy? ==> s.reader.at < c.size && s.reader.chunk < c.size)
  }

  predicate Enabled(c: Config, s: State, e: Event) {
    InBounds(c, s) &&
    match e
    case CallWrite(_) => s.writer.WIdle?
    case WriterStep => !s.writer.WIdle? && (s.writer.WCopy? ==> AllCopied(s.writer.chunk, s.writer.copied))
    case WriterCopy(i) =>
      s.writer.WCopy? && MayCopy(c, s.writer.at, s.writer.chunk, s.writer.copied, i)
    case CallRead(_) => s.reader.RIdle?
    case ReaderStep => !s.reader.RIdle? && (s.reader.RCopy? ==> AllCopied(s.reader.chunk, s.reader.copied))
    case ReaderCopy(i) =>
      s.reader.RCopy? && MayCopy(c, s.reader.at, s.reader.chunk, s.reader.copied, i)
  }

  function Do(c: Config, s: State, e: Event): State
    requires Enabled(c, s, e)
  {
    match e
    case CallWrite(src) => s.(writer := WLoop(src, 0, 0, 0))
    case WriterStep => StepWriter(c, s)
    case WriterCopy(i) =>
      var w := s.writer;
      s.(ring := s.ring[SegmentCell(c, w.at, w.chunk, i) := w.src[w.written + i]],
         writer := w.(copied := w.copied + {i}))
    case CallRead(dest) => s.(reader := RLoop(dest, 0, 0, 0))
    case ReaderStep => StepReader(c, s)
    case ReaderCopy(i) =>
      var r := s.reader;
      s.(reader := r.(dest := r.dest[r.taken + i := s.ring[SegmentCell(c, r.at, r.chunk, i)]],
                      copied := r.copied + {i}))
  }

  function StepWriter(c: Config, s: State): State
    requires InBounds(c, s) && !s.writer.WIdle?
  {
    match s.writer
    case WLoop(src, written, spins, iters) =>
      if written < |src| then s.(writer := WTail(src, written, spins, iters + 1, s.head))
      else FinishWrite(s, written)
    case WTail(src, written, spins, iters, seen) =>
      var avail := (c.size - 1 + s.tail - seen) % c.size;
      if avail == 0 then
        if c.nonBlocking && (written > 0 || spins > WRITE_SPIN_LIMIT) then FinishWrite(s, written)
        else s.(writer := WLoop(src, written, if c.nonBlocking then spins + 1 else spins, iters))
      else
        s.(writer := WHead(src, written, spins, iters, Min(avail, |src| - written)))
    case WHead(src, written, spins, iters, chunk) =>
      s.(writer := WCopy(src, written, spins, iters, chunk, s.head, {}))
    case WCopy(src, written, spins, iters, chunk, at, copied) =>
      s.(head := (at + chunk) % c.size, writer := WLoop(src, written + chunk, spins, iters))
  }

  function FinishWrite(s: State, written: nat): State
    requires !s.writer.WIdle? && written <= |s.writer.src|
  {
    s.(writer := WIdle, accepted := s.accepted + s.writer.src[..written])
  }

  function StepReader(c: Config, s: State): State
    requires InBounds(c, s) && !s.reader.RIdle?
  {
    match s.reader
    case RLoop(dest, taken, spins, iters) =>
      if taken < |dest| then s.(reader := RTail(dest, taken, spins, iters + 1, s.head))
      else FinishRead(s, taken)
    case RTail(dest, taken, spins, iters, seen) =>
      var avail := (seen + c.size - s.tail) % c.size;
      if avail == 0 then
        if c.nonBlocking && (taken > 0 || spins > READ_SPIN_LIMIT) then FinishRead(s, taken)
        else s.(reader := RLoop(dest, taken, if c.nonBlocking then spins + 1 else spins, iters))
      else
        s.(reader := RHead(dest, taken, spins, iters, Min(avail, |dest| - taken)))
    case RHead(dest, taken, spins, iters, chunk) =>
      s.(reader := RCopy(dest, taken, spins, iters, chunk, s.tail, {}))
    case RCopy(dest, taken, spins, iters, chunk, at, copied) =>
      s.(tail := (at + chunk) % c.size, reader := RLoop(dest, taken + chunk, spins, iters))
  }

  function FinishRead(s: State, taken: nat): State
    requires !s.reader.RIdle? && taken <= |s.reader.dest|
  {
    s.(reader := RIdle, delivered := s.delivered + s.reader.dest[..taken])
  }

  // ----- runs

  predicate Runs(c: Config, s: State, events: seq<Event>)
    requires c.Valid()
    decreases |events|
  {
    events == [] || (Enabled(c, s, events[0]) && Runs(c, Do(c, s, events[0]), events[1..]))
  }

  function After(c: Config, s: State, events: seq<Event>): State
    requires c.Valid() && Runs(c, s, events)
    decreases |events|
  {
    if events == [] then s else After(c, Do(c, s, events[0]), events[1..])
  }

  ghost predicate Reachable(c: Config, s: State) {
    c.Valid() && exists memory: seq<byte>, events: seq<Event> ::
      |memory| == c.size && Runs(c, Init(c, memory), events) && s == After(c, Init(c, memory), events)
  }

  // ----- what has been published and consumed so far

  /** Bytes made visible to the consumer: those of finished writes and those of the write in progress. */
  function Published(s: State): seq<byte> {
    if s.writer.WIdle? then s.accepted else s.accepted + s.writer.src[..Min(s.writer.written, |s.writer.src|)]
  }

  /** Bytes taken off the ring: those of finished reads and those of the read in progress. */
  function Consumed(s: State): seq<byte> {
    if s.reader.RIdle? then s.delivered else s.delivered + s.reader.dest[..Min(s.reader.taken, |s.reader.dest|)]
  }

  /** The cells between tail and head, read off the ring. */
  function Unread(c: Config, s: State): seq<byte>
    requires c.Valid() && |s.ring| == c.size && s.head < c.size && s.tail < c.size
  {
    Queue(s.ring, s.head, s.tail)
  }

  // ----- the invariant

  /** The cells of totals from..|data| hold those bytes of data. */
  ghost predicate Window(ring: seq<byte>, n: nat, from: nat, data: seq<byte>)
    requires 0 < n == |ring|
  {
    forall j :: from <= j < |data| ==> ring[Cell(j, n)] == data[j]
  }

  /** The cells from total p on hold the bytes of src that a write in progress has copied. */
  ghost predicate Filled(ring: seq<byte>, n: nat, p: nat, src: seq<byte>, written: nat, copied: set<nat>)
    requires 0 < n == |ring|
  {
    forall i :: i in copied ==> written + i < |src| && ring[Cell(p + i, n)] == src[written + i]
  }

  /** The destination bytes that a read in progress has copied are the published ones from total k on. */
  ghost predicate Fetched(dest: seq<byte>, taken: nat, published: seq<byte>, k: nat, copied: set<nat>) {
    forall i :: i in copied ==> taken + i < |dest| && k + i < |published| && dest[taken + i] == published[k + i]
  }

  ghost predicate Shared(c: Config, s: State) {
    var p, k := |Published(s)|, |Consumed(s)|;
    && c.Valid() && |s.ring| == c.size
    && s.head == Cell(p, c.size) && s.tail == Cell(k, c.size)
    && k <= p < k + c.size
    && Consumed(s) == Published(s)[..k]
    && Window(s.ring, c.size, k, Published(s))
  }

  ghost predicate WriterInv(c: Config, s: State)
    requires c.Valid() && |s.ring| == c.size
  {
    var p, k := |Published(s)|, |Consumed(s)|;
    s.writer.WIdle? ||
    (var w := s.writer;
     && w.written <= |w.src|
     && (c.nonBlocking ==> w.spins <= WRITE_SPIN_LIMIT + 1)
     && (c.nonBlocking ==> w.iters <= w.written + w.spins + if w.WLoop? then 0 else 1)
     && (w.WTail? ==> w.written < |w.src| && w.seen == s.head)
     && (w.WHead? || w.WCopy? ==> 0 < w.chunk <= |w.src| - w.written && w.chunk <= c.size - 1 - (p - k))
     && (w.WCopy? ==>
           && w.at == s.head
           && (forall i :: i in w.copied ==> i < w.chunk)
           && Filled(s.ring, c.size, p, w.src, w.written, w.copied)))
  }

  ghost predicate ReaderInv(c: Config, s: State)
    requires c.Valid()
  {
    var p, k := |Published(s)|, |Consumed(s)|;
    s.reader.RIdle? ||
    (var r := s.reader;
     && r.taken <= |r.dest|
     && (c.nonBlocking ==> r.spins <= READ_SPIN_LIMIT + 1)
     && (c.nonBlocking ==> r.iters <= r.taken + r.spins + if r.RLoop? then 0 else 1)
     && (r.RTail? ==> r.taken < |r.dest| && r.seen < c.size && (r.seen + c.size - s.tail) % c.size <= p - k)
     && (r.RHead? || r.RCopy? ==> 0 < r.chunk <= |r.dest| - r.taken && r.chunk <= p - k)
     && (r.RCopy? ==>
           && r.at == s.tail
           && (forall i :: i in r.copied ==> i < r.chunk)
           && Fetched(r.dest, r.taken, Published(s), k, r.copied)))
  }

  ghost predicate Inv(c: Config, s: State) {
    Shared(c, s) && WriterInv(c, s) && ReaderInv(c, s)
  }

  lemma InvInBounds(c: Config, s: State)
    requires Inv(c, s)
    ensures InBounds(c, s)
  {
  }

  /** The two memcpy segments together are the mod-N copy. */
  lemma SegmentsAreModular(c: Config, p: nat, chunk: nat, i: nat)
    requires c.Valid() && i < chunk <= c.size
    ensures SegmentCell(c, Cell(p, c.size), chunk, i) == Cell(p + i, c.size)
  {
    CellAfter(p, i, c.size);
  }

  // ----- what a copied byte and a published chunk do to the window

  lemma WindowKeeps(ring: seq<byte>, n: nat, from: nat, data: seq<byte>, at: nat, b: byte)
    requires 0 < n == |ring| && Window(ring, n, from, data) && |data| <= at < from + n
    ensures Window(ring[Cell(at, n) := b], n, from, data)
  {
    forall j | from <= j < |data| ensures Cell(j, n) != Cell(at, n) {
      DistinctCells(j, at, n);
    }
  }

  lemma FilledGrows(ring: seq<byte>, n: nat, p: nat, src: seq<byte>, written: nat, copied: set<nat>, i: nat)
    requires 0 < n == |ring| && Filled(ring, n, p, src, written, copied)
    requires i < n && written + i < |src| && forall m :: m in copied ==> m < n
    ensures Filled(ring[Cell(p + i, n) := src[written + i]], n, p, src, written, copied + {i})
  {
    forall m | m in copied && m != i ensures Cell(p + m, n) != Cell(p + i, n) {
      if m < i { DistinctCells(p + m, p + i, n); } else { DistinctCells(p + i, p + m, n); }
    }
  }

  lemma WindowExtends(ring: seq<byte>, n: nat, from: nat, data: seq<byte>, src: seq<byte>, written: nat,
                      copied: set<nat>, chunk: nat)
    requires 0 < n == |ring| && Window(ring, n, from, data) && written + chunk <= |src|
    requires Filled(ring, n, |data|, src, written, copied) && AllCopied(chunk, copied)
    ensures Window(ring, n, from, data + src[written..written + chunk])
  {
    var p, all := |data|, data + src[written..written + chunk];
    forall j | from <= j < |all| ensures ring[Cell(j, n)] == all[j] {
      if j >= p {
        assert j - p in copied;
        assert ring[Cell(p + (j - p), n)] == src[written + (j - p)];
      }
    }
  }

  lemma WindowNarrows(ring: seq<byte>, n: nat, from: nat, data: seq<byte>, k: nat)
    requires 0 < n == |ring| && Window(ring, n, from, data) && from <= k
    ensures Window(ring, n, k, data)
  {
  }

  lemma FetchedGrows(dest: seq<byte>, taken: nat, published: seq<byte>, k: nat, copied: set<nat>, i: nat, b: byte)
    requires Fetched(dest, taken, published, k, copied)
    requires taken + i < |dest| && k + i < |published| && b == published[k + i]
    ensures Fetched(dest[taken + i := b], taken, published, k, copied + {i})
  {
  }

  lemma FetchedPrefix(dest: seq<byte>, taken: nat, published: seq<byte>, more: seq<byte>, k: nat, copied: set<nat>)
    requires Fetched(dest, taken, published, k, copied) && published <= more
    ensures Fetched(dest, taken, more, k, copied)
  {
  }

  lemma FetchedSlice(dest: seq<byte>, taken: nat, published: seq<byte>, k: nat, copied: set<nat>, chunk: nat)
    requires Fetched(dest, taken, published, k, copied) && AllCopied(chunk, copied)
    requires taken + chunk <= |dest| && k + chunk <= |published|
    ensures dest[taken..taken + chunk] == published[k..k + chunk]
  {
    var got, expected := dest[taken..taken + chunk], published[k..k + chunk];
    forall i | 0 <= i < chunk ensures got[i] == expected[i] {
      assert i in copied;
    }
  }

  // ----- what one thread's step leaves alone

  /** A step that keeps the reader's own state, and only appends to what is published, keeps its invariant. */
  lemma ReaderKept(c: Config, s: State, t: State)
    requires Shared(c, s) && ReaderInv(c, s)
    requires t.reader == s.reader && t.tail == s.tail && t.delivered == s.delivered
    requires Published(s) <= Published(t)
    ensures ReaderInv(c, t)
  {
    if s.reader.RCopy? {
      var r := s.reader;
      FetchedPrefix(r.dest, r.taken, Published(s), Published(t), |Consumed(s)|, r.copied);
    }
    hide Fetched, Window, Cell;
  }

  /** A step that keeps the writer's own state and the ring, and only consumes, keeps the writer's invariant. */
  lemma WriterKept(c: Config, s: State, t: State)
    requires Shared(c, s) && WriterInv(c, s)
    requires t.writer == s.writer && t.head == s.head && t.accepted == s.accepted && t.ring == s.ring
    requires |Consumed(s)| <= |Consumed(t)| <= |Published(s)|
    ensures WriterInv(c, t)
  {
    hide Filled, Window, Cell;
  }

  lemma WriterCopyKeepsInv(c: Config, s: State, i: nat)
    requires Inv(c, s) && Enabled(c, s, WriterCopy(i))
    ensures Inv(c, Do(c, s, WriterCopy(i)))
  {
    hide Filled, Fetched, Window, Cell, ReaderInv;
    var t := Do(c, s, WriterCopy(i));
    var w := s.writer;
    var p, k := |Published(s)|, |Consumed(s)|;
    SegmentsAreModular(c, p, w.chunk, i);
    WindowKeeps(s.ring, c.size, k, Published(s), p + i, w.src[w.written + i]);
    FilledGrows(s.ring, c.size, p, w.src, w.written, w.copied, i);
    assert Published(t) == Published(s) && Consumed(t) == Consumed(s);
    ReaderKept(c, s, t);
  }

  lemma PublishAppends(c: Config, s: State)
    requires InBounds(c, s) && s.writer.WCopy?
    ensures Published(StepWriter(c, s)) ==
            Published(s) + s.writer.src[s.writer.written..s.writer.written + s.writer.chunk]
  {
    var w := s.writer;
    assert w.src[..w.written] + w.src[w.written..w.written + w.chunk] == w.src[..w.written + w.chunk];
  }

  lemma WriterPublishKeepsInv(c: Config, s: State)
    requires Inv(c, s) && s.writer.WCopy? && Enabled(c, s, WriterStep)
    ensures Inv(c, Do(c, s, WriterStep))
  {
    hide Filled, Fetched, Window, Cell, ReaderInv;
    var t := Do(c, s, WriterStep);
    var w := s.writer;
    PublishAppends(c, s);
    WindowExtends(s.ring, c.size, |Consumed(s)|, Published(s), w.src, w.written, w.copied, w.chunk);
    CellOfCell(|Published(s)|, w.chunk, c.size);
    assert Consumed(t) == Consumed(s);
    ReaderKept(c, s, t);
  }

  lemma WriterOtherStepKeepsInv(c: Config, s: State)
    requires Inv(c, s) && !s.writer.WCopy? && Enabled(c, s, WriterStep)
    ensures Inv(c, Do(c, s, WriterStep))
    ensures Published(Do(c, s, WriterStep)) == Published(s)
  {
    var t := Do(c, s, WriterStep);
    if s.writer.WHead? {
      assert Filled(s.ring, c.size, |Published(s)|, s.writer.src, s.writer.written, {});
    }
    hide Filled, Fetched, Window, Cell;
    FreeFormula(|Published(s)|, |Consumed(s)|, c.size);
    assert Published(t) == Published(s) && Consumed(t) == Consumed(s);
    ReaderKept(c, s, t);
  }

  lemma CallKeepsInv(c: Config, s: State, e: Event)
    requires Inv(c, s) && Enabled(c, s, e) && (e.CallWrite? || e.CallRead?)
    ensures Inv(c, Do(c, s, e))
    ensures Published(Do(c, s, e)) == Published(s) && Consumed(Do(c, s, e)) == Consumed(s)
  {
    hide Filled, Fetched, Window, Cell;
    var t := Do(c, s, e);
    assert Published(t) == Published(s) && Consumed(t) == Consumed(s);
  }

  lemma ReaderCopyKeepsInv(c: Config, s: State, i: nat)
    requires Inv(c, s) && Enabled(c, s, ReaderCopy(i))
    ensures Inv(c, Do(c, s, ReaderCopy(i)))
  {
    var t := Do(c, s, ReaderCopy(i));
    var r := s.reader;
    var k := |Consumed(s)|;
    SegmentsAreModular(c, k, r.chunk, i);
    assert s.ring[Cell(k + i, c.size)] == Published(s)[k + i];
    hide Filled, Fetched, Window, Cell;
    FetchedGrows(r.dest, r.taken, Published(s), k, r.copied, i, Published(s)[k + i]);
    assert t.reader.dest[..r.taken] == r.dest[..r.taken];
    assert Published(t) == Published(s) && Consumed(t) == Consumed(s);
    WriterKept(c, s, t);
  }

  lemma ExtendPrefix(whole: seq<byte>, done: seq<byte>, dest: seq<byte>, taken: nat, chunk: nat)
    requires taken + chunk <= |dest| && |done| + taken + chunk <= |whole|
    requires done + dest[..taken] == whole[..|done| + taken]
    requires dest[taken..taken + chunk] == whole[|done| + taken..|done| + taken + chunk]
    ensures done + dest[..taken + chunk] == whole[..|done| + taken + chunk]
  {
    var got := dest[taken..taken + chunk];
    assert dest[..taken + chunk] == dest[..taken] + got;
    assert done + dest[..taken + chunk] == (done + dest[..taken]) + got;
  }

  lemma ReleaseConsumes(c: Config, s: State)
    requires Inv(c, s) && s.reader.RCopy? && Enabled(c, s, ReaderStep)
    ensures Consumed(Do(c, s, ReaderStep)) == Published(s)[..|Consumed(s)| + s.reader.chunk]
  {
    hide Filled, Fetched, Window, Cell, WriterInv;
    var r := s.reader;
    var k := |Consumed(s)|;
    assert k == |s.delivered| + r.taken;
    FetchedSlice(r.dest, r.taken, Published(s), k, r.copied, r.chunk);
    ExtendPrefix(Published(s), s.delivered, r.dest, r.taken, r.chunk);
  }

  lemma ReaderReleaseKeepsInv(c: Config, s: State)
    requires Inv(c, s) && s.reader.RCopy? && Enabled(c, s, ReaderStep)
    ensures Inv(c, Do(c, s, ReaderStep))
  {
    hide Filled, Fetched, Window, Cell, WriterInv;
    var t := Do(c, s, ReaderStep);
    var k := |Consumed(s)|;
    ReleaseConsumes(c, s);
    CellOfCell(k, s.reader.chunk, c.size);
    WindowNarrows(s.ring, c.size, k, Published(s), k + s.reader.chunk);
    WriterKept(c, s, t);
    assert Published(t) == Published(s);
  }

  lemma ReaderOtherStepKeepsInv(c: Config, s: State)
    requires Inv(c, s) && !s.reader.RCopy? && Enabled(c, s, ReaderStep)
    ensures Inv(c, Do(c, s, ReaderStep))
    ensures Consumed(Do(c, s, ReaderStep)) == Consumed(s)
  {
    var t := Do(c, s, ReaderStep);
    if s.reader.RHead? {
      assert Fetched(s.reader.dest, s.reader.taken, Published(s), |Consumed(s)|, {});
    }
    hide Filled, Fetched, Window, Cell;
    UsedFormula(|Published(s)|, |Consumed(s)|, c.size);
    assert Published(t) == Published(s) && Consumed(t) == Consumed(s);
    WriterKept(c, s, t);
  }

  lemma StepKeepsInv(c: Config, s: State, e: Event)
    requires Inv(c, s) && Enabled(c, s, e)
    ensures Inv(c, Do(c, s, e))
  {
    match e
    case CallWrite(_) => CallKeepsInv(c, s, e);
    case CallRead(_) => CallKeepsInv(c, s, e);
    case WriterCopy(i) => WriterCopyKeepsInv(c, s, i);
    case ReaderCopy(i) => ReaderCopyKeepsInv(c, s, i);
    case WriterStep =>
      if s.writer.WCopy? { WriterPublishKeepsInv(c, s); } else { WriterOtherStepKeepsInv(c, s); }
    case ReaderStep =>
      if s.reader.RCopy? { ReaderReleaseKeepsInv(c, s); } else { ReaderOtherStepKeepsInv(c, s); }
  }
}
