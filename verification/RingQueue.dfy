/** The ring used by one thread alone: a byte queue of capacity N - 1, kept in an array and two indices. */
module RingQueue {
  import opened Bytes
  import opened Modular
  import opened RingProtocol

  const HEADER_SIZE := 16  // two 8-byte atomics in front of the ring's memory

  /** How many places cell k comes after cell `at`, going around n cells. */
  function PlacesAfter(k: nat, at: nat, n: nat): (d: nat)
    requires k < n && at < n
    ensures d < n
  {
    if at <= k then k - at else k + n - at
  }

  /** The ring with data copied to the cells from `at` on, modulo the ring's size. */
  function CopyAround(ring: seq<byte>, at: nat, data: seq<byte>): (after: seq<byte>)
    requires at < |ring| && |data| <= |ring|
    ensures |after| == |ring|
  {
    seq(|ring|, k requires 0 <= k < |ring| =>
      if PlacesAfter(k, at, |ring|) < |data| then data[PlacesAfter(k, at, |ring|)] else ring[k])
  }

  lemma CopyAroundIsModular(ring: seq<byte>, at: nat, data: seq<byte>, i: nat)
    requires at < |ring| && |data| <= |ring| && i < |ring|
    ensures CopyAround(ring, at, data)[(at + i) % |ring|] == if i < |data| then data[i] else ring[(at + i) % |ring|]
  {
    hide Cell;
    WrapOnce(at + i, |ring|);
  }

  /** Two straight copies, up to the end of the ring and then from its start, are one copy around it. */
  lemma TwoSegmentsGoAround(ring: seq<byte>, at: nat, data: seq<byte>)
    requires at < |ring| && |data| <= |ring|
    ensures var end := Min(|data|, |ring| - at);
            Splice(Splice(ring, at, data[..end]), 0, data[end..]) == CopyAround(ring, at, data)
  {
  }

  lemma UsedAndFree(n: nat, head: nat, tail: nat)
    requires head < n && tail < n
    ensures (head + n - tail) % n == PlacesAfter(head, tail, n)
    ensures (n - 1 + tail - head) % n == n - 1 - PlacesAfter(head, tail, n)
  {
    hide Cell;
    WrapOnce(head + n - tail, n);
    WrapOnce(n - 1 + tail - head, n);
  }

  lemma QueueAt(ring: seq<byte>, head: nat, tail: nat, i: nat)
    requires head < |ring| && tail < |ring| && i < |Queue(ring, head, tail)|
    ensures |Queue(ring, head, tail)| == PlacesAfter(head, tail, |ring|)
    ensures Queue(ring, head, tail)[i] == ring[if tail + i < |ring| then tail + i else tail + i - |ring|]
  {
    hide Cell;
    UsedAndFree(|ring|, head, tail);
    WrapOnce(tail + i, |ring|);
  }

  lemma EnqueueAround(ring: seq<byte>, head: nat, tail: nat, data: seq<byte>)
    requires head < |ring| && tail < |ring| && |data| + |Queue(ring, head, tail)| < |ring|
    ensures (head + |data|) % |ring| < |ring|
    ensures Queue(CopyAround(ring, head, data), (head + |data|) % |ring|, tail) == Queue(ring, head, tail) + data
  {
    hide Cell;
    var n, used := |ring|, |Queue(ring, head, tail)|;
    UsedAndFree(n, head, tail);
    WrapOnce(head + |data|, n);
    UsedAndFree(n, (head + |data|) % n, tail);
    var h := (head + |data|) % n;
    var after := CopyAround(ring, head, data);
    var longer, expected := Queue(after, h, tail), Queue(ring, head, tail) + data;
    forall i | 0 <= i < used + |data| ensures longer[i] == expected[i] {
      QueueAt(after, h, tail, i);
      if i < used { QueueAt(ring, head, tail, i); }
    }
  }

  lemma DequeueAround(ring: seq<byte>, head: nat, tail: nat, chunk: nat)
    requires head < |ring| && tail < |ring| && chunk <= |Queue(ring, head, tail)|
    ensures (tail + chunk) % |ring| < |ring|
    ensures Queue(ring, head, (tail + chunk) % |ring|) == Queue(ring, head, tail)[chunk..]
  {
    hide Cell;
    var n, used := |ring|, |Queue(ring, head, tail)|;
    UsedAndFree(n, head, tail);
    WrapOnce(tail + chunk, n);
    UsedAndFree(n, head, (tail + chunk) % n);
    var t := (tail + chunk) % n;
    var shorter, expected := Queue(ring, head, t), Queue(ring, head, tail)[chunk..];
    forall i | 0 <= i < used - chunk ensures shorter[i] == expected[i] {
      QueueAt(ring, head, t, i);
      QueueAt(ring, head, tail, chunk + i);
    }
  }

  /** The queue's first bytes are the straight run up to the end of the ring, then the run from its start. */
  lemma QueueInTwoRuns(ring: seq<byte>, head: nat, tail: nat, chunk: nat)
    requires head < |ring| && tail < |ring| && chunk <= |Queue(ring, head, tail)| < |ring|
    ensures var end := Min(chunk, |ring| - tail);
            Queue(ring, head, tail)[..chunk] == ring[tail..tail + end] + ring[..chunk - end]
  {
    var end := Min(chunk, |ring| - tail);
    var first, runs := Queue(ring, head, tail)[..chunk], ring[tail..tail + end] + ring[..chunk - end];
    hide Cell, Queue;
    forall i | 0 <= i < chunk ensures first[i] == runs[i] {
      QueueAt(ring, head, tail, i);
    }
  }

  class RingBuffer {
    const ring: array<byte>
    var head: nat
    var tail: nat
    const nonBlocking: bool

    ghost predicate Valid()
      reads this
    {
      0 < ring.Length && head < ring.Length && tail < ring.Length
    }

    ghost function Contents(): (bytes: seq<byte>)
      requires Valid()
      reads this, ring
      ensures |bytes| < ring.Length
    {
      Queue(ring[..], head, tail)
    }

    constructor (totalSize: nat, nonBlocking: bool)
      ensures Valid() && fresh(ring) && Contents() == [] && this.nonBlocking == nonBlocking
      ensures ring.Length == if totalSize > 16 then totalSize - 16 else 1
    {
      ring := new byte[if totalSize > HEADER_SIZE then totalSize - HEADER_SIZE else 1];
      head, tail := 0, 0;
      this.nonBlocking := nonBlocking;
    }

    method AvailableRead() returns (n: nat)
      requires Valid()
      ensures n == |Contents()|
    {
      n := (head + ring.Length - tail) % ring.Length;
    }

    method AvailableWrite() returns (n: nat)
      requires Valid()
      ensures n + |Contents()| == ring.Length - 1
    {
      UsedAndFree(ring.Length, head, tail);
      n := (ring.Length - 1 + tail - head) % ring.Length;
    }

    method CopyIn(at: nat, src: seq<byte>, from: nat, count: nat)
      requires at + count <= ring.Length && from + count <= |src|
      modifies ring
      ensures ring[..] == Splice(old(ring[..]), at, src[from..from + count])
    {
      hide Splice;
      SpliceEmpty(ring[..], at);
      assert src[from..from + 0] == [];
      for i := 0 to count
        invariant ring[..] == Splice(old(ring[..]), at, src[from..from + i])
      {
        SpliceOne(old(ring[..]), at, src[from..from + i], src[from + i]);
        ring[at + i] := src[from + i];
        assert src[from..from + i] + [src[from + i]] == src[from..from + (i + 1)];
      }
    }

    method CopyOut(dest: array<byte>, to: nat, at: nat, count: nat)
      requires at + count <= ring.Length && to + count <= dest.Length && dest != ring
      modifies dest
      ensures dest[..] == Splice(old(dest[..]), to, ring[at..at + count])
    {
      hide Splice;
      SpliceEmpty(dest[..], to);
      assert ring[at..at + 0] == [];
      for i := 0 to count
        invariant dest[..] == Splice(old(dest[..]), to, ring[at..at + i])
      {
        SpliceOne(old(dest[..]), to, ring[at..at + i], ring[at + i]);
        dest[to + i] := ring[at + i];
        assert ring[at..at + i] + [ring[at + i]] == ring[at..at + (i + 1)];
      }
    }

    /** Copies src[from..from + chunk] around the ring from the head and publishes the new head. */
    method Transfer(src: seq<byte>, from: nat, chunk: nat)
      requires Valid() && from + chunk <= |src| && chunk + |Contents()| < ring.Length
      modifies this`head, ring
      ensures Valid() && Contents() == old(Contents()) + src[from..from + chunk]
    {
      hide Queue, CopyAround, Splice;
      var h := head;
      var end := Min(chunk, ring.Length - h);
      ghost var before, data := ring[..], src[from..from + chunk];
      TwoSegmentsGoAround(before, h, data);
      EnqueueAround(before, h, tail, data);
      CopyIn(h, src, from, end);
      assert src[from..from + end] == data[..end];
      SpliceEmpty(ring[..], 0);
      if chunk > end {
        CopyIn(0, src, from + end, chunk - end);
        assert src[from + end..from + end + (chunk - end)] == data[end..];
      } else {
        assert data[end..] == [];
      }
      assert ring[..] == CopyAround(before, h, data);
      head := (h + chunk) % ring.Length;
    }

    /** A write used by one thread alone. A blocking write that does not fit would wait for ever for a reader. */
    method WriteInternal(src: seq<byte>) returns (written: nat)
      requires Valid() && (nonBlocking || |src| + |Contents()| < ring.Length)
      modifies this`head, ring
      ensures Valid()
      ensures written == Min(|src|, ring.Length - 1 - old(|Contents()|))
      ensures Contents() == old(Contents()) + src[..written]
    {
      hide Queue;
      written := 0;
      var fullSpins := 0;
      while written < |src|
        invariant Valid() && 0 <= fullSpins <= WRITE_SPIN_LIMIT + 1
        invariant written <= Min(|src|, ring.Length - 1 - old(|Contents()|))
        invariant Contents() == old(Contents()) + src[..written]
        decreases |src| - written, WRITE_SPIN_LIMIT + 2 - fullSpins
      {
        var avail := AvailableWrite();
        if avail == 0 {
          if nonBlocking {
            if written > 0 || fullSpins > WRITE_SPIN_LIMIT { break; }
            fullSpins := fullSpins + 1;
            continue;
          }
          assert false;
        }
        var chunk := Min(avail, |src| - written);
        Transfer(src, written, chunk);
        assert src[..written] + src[written..written + chunk] == src[..written + chunk];
        written := written + chunk;
      }
    }

    /** Copies chunk bytes from the tail around the ring into dest[to..] and releases their cells. */
    method Receive(dest: array<byte>, to: nat, chunk: nat)
      requires Valid() && dest != ring && to + chunk <= dest.Length && chunk <= |Contents()|
      modifies this`tail, dest
      ensures Valid() && Contents() == old(Contents())[chunk..]
      ensures dest[..] == Splice(old(dest[..]), to, old(Contents())[..chunk])
    {
      hide Queue, Splice;
      var t := tail;
      var end := Min(chunk, ring.Length - t);
      QueueInTwoRuns(ring[..], head, t, chunk);
      DequeueAround(ring[..], head, t, chunk);
      SpliceTwice(dest[..], to, ring[t..t + end], ring[..chunk - end]);
      SpliceNothing(dest[..], to, ring[t..t + end]);
      CopyOut(dest, to, t, end);
      if chunk > end {
        CopyOut(dest, to + end, 0, chunk - end);
      }
      tail := (t + chunk) % ring.Length;
    }

    /** A read used by one thread alone. A blocking read of more than is there would wait for ever. */
    method ReadInternal(dest: array<byte>, n: nat) returns (count: nat)
      requires Valid() && dest != ring && n <= dest.Length && (nonBlocking || n <= |Contents()|)
      modifies this`tail, dest
      ensures Valid()
      ensures count == Min(n, old(|Contents()|))
      ensures dest[..] == Splice(old(dest[..]), 0, old(Contents())[..count])
      ensures Contents() == old(Contents())[count..]
    {
      hide Queue, Splice;
      SpliceEmpty(dest[..], 0);
      count := 0;
      var emptySpins := 0;
      while count < n
        invariant Valid() && 0 <= emptySpins <= READ_SPIN_LIMIT + 1
        invariant count <= Min(n, old(|Contents()|))
        invariant dest[..] == Splice(old(dest[..]), 0, old(Contents())[..count])
        invariant Contents() == old(Contents())[count..]
        decreases n - count, READ_SPIN_LIMIT + 2 - emptySpins
      {
        var avail := AvailableRead();
        if avail == 0 {
          if nonBlocking {
            if count > 0 || emptySpins > READ_SPIN_LIMIT { break; }
            emptySpins := emptySpins + 1;
            continue;
          }
          assert false;
        }
        var chunk := Min(avail, n - count);
        Receive(dest, count, chunk);
        SplicePrefix(old(dest[..]), old(Contents()), count, chunk);
        count := count + chunk;
      }
    }
  }
}
