/** The buffer-backed Serial itself: its fields updated in place, each method against its specification. */
module BitSerial {
  import opened Bytes
  import opened Bits
  import opened BitWriting
  import opened BitReading

  datatype Outcome = Done | NotABitStream

  /** A writer whose pending byte may just have filled up, flushed if so. */
  function Flushed(w: Writer): Writer
    requires w.index <= |w.memory|
  {
    if w.count == 8 then WriteWhole(w, w.current) else w
  }

  lemma WriteOneMore(w: Writer, bits: seq<bool>, bit: bool)
    requires w.index <= |w.memory| && w.count < 8
    ensures WriteEach(w, bits + [bit]) == WriteBit(WriteEach(w, bits), bit)
  {
    WriteEachSplit(w, bits, [bit]);
    assert [bit][1..] == [];
    var v := WriteEach(w, bits);
    assert WriteEach(v, [bit]) == WriteEach(WriteBit(v, bit), []);
  }

  lemma NothingWritten(w: Writer)
    requires w.index <= |w.memory| && w.count < 8
    ensures WriteEach(w, []) == w
  {
  }

  lemma {:induction false} ReadOneMore(r: Reader, n: nat)
    requires r.Valid()
    ensures ReadEach(r, n + 1) == (ReadEach(r, n).0 + [ReadBit(ReadEach(r, n).1).0], ReadBit(ReadEach(r, n).1).1)
    decreases n
  {
    hide ReadBit;
    var (bit, q) := ReadBit(r);
    if n == 0 {
      assert ReadEach(q, 0) == ([], q) && ReadEach(r, 0) == ([], r);
      assert [bit] + [] == [] + [bit];
    } else {
      ReadOneMore(q, n - 1);
      var (bits, t) := ReadEach(q, n - 1);
      assert [bit] + (bits + [ReadBit(t).0]) == ([bit] + bits) + [ReadBit(t).0];
    }
  }

  lemma {:induction false} ReadBlockOneMore(r: Reader, n: nat)
    requires r.Valid()
    ensures ReadBlock(r, n + 1) == (ReadBlock(r, n).0 + [BlockBit(ReadBlock(r, n).1).0], BlockBit(ReadBlock(r, n).1).1)
    decreases n
  {
    hide BlockBit;
    var (bit, q) := BlockBit(r);
    if n == 0 {
      assert ReadBlock(q, 0) == ([], q) && ReadBlock(r, 0) == ([], r);
      assert [bit] + [] == [] + [bit];
    } else {
      ReadBlockOneMore(q, n - 1);
      var (bits, t) := ReadBlock(q, n - 1);
      assert [bit] + (bits + [BlockBit(t).0]) == ([bit] + bits) + [BlockBit(t).0];
    }
  }

  /** A reader that has been given a new byte if it stood at offset 8. */
  function Reloaded(r: Reader): Reader
    requires r.Valid()
  {
    if r.offset == 8 then Load(r) else r
  }

  lemma LoadAtEight(r: Reader)
    requires r.Valid() && r.offset == 8
    ensures BitReading.ReadByte(r).1 == Load(r)
  {
  }

  lemma TakeReloaded(r: Reader, now: Reader)
    requires r.Valid() && now.Valid() && now.offset < 8 && (now == r || now == Reloaded(r))
    ensures BlockBit(r) == (BitAt(now.current, now.offset), now.(offset := now.offset + 1))
  {
  }

  class Serial {
    const buffer: array<byte>
    const bitStream: bool
    var currentReadByte: byte
    var bitsRead: nat
    var readIndex: nat
    var currentWriteByte: byte
    var bitsWritten: nat
    var writeIndex: nat

    ghost predicate InRange()
      reads this
    {
      readIndex <= buffer.Length && writeIndex <= buffer.Length && bitsRead <= 8 && bitsWritten <= 8
    }

    ghost predicate Valid()
      reads this
    {
      InRange() && bitsWritten < 8
    }

    ghost function Out(): (w: Writer)
      requires InRange()
      reads this, buffer
      ensures w.index <= |w.memory|
    {
      Writer(buffer[..], writeIndex, currentWriteByte, bitsWritten, bitStream)
    }

    ghost function In(): (r: Reader)
      requires InRange()
      reads this, buffer
      ensures r.Valid()
    {
      Reader(buffer[..], readIndex, currentReadByte, bitsRead, bitStream)
    }

    constructor (buffer: array<byte>, bitStream: bool)
      ensures this.buffer == buffer && this.bitStream == bitStream && Valid()
      ensures Out() == Writer(buffer[..], 0, 0, 0, bitStream)
      ensures In() == Reader(buffer[..], 0, 0, 8, bitStream)
    {
      this.buffer := buffer;
      this.bitStream := bitStream;
      currentReadByte, bitsRead, readIndex := 0, 8, 0;
      currentWriteByte, bitsWritten, writeIndex := 0, 0, 0;
    }

    // ----- writing; each method leaves the reading side as it was, but for the shared buffer

    method WriteBytes(src: seq<byte>)
      requires InRange()
      modifies this`writeIndex, buffer
      ensures InRange() && Out() == BitWriting.WriteBytes(old(Out()), src)
    {
      hide Splice;
      if writeIndex + |src| <= buffer.Length {
        SpliceEmpty(buffer[..], writeIndex);
        assert src[..0] == [] && src[..|src|] == src;
        for i := 0 to |src|
          invariant InRange() && writeIndex == old(writeIndex)
          invariant buffer[..] == Splice(old(buffer[..]), writeIndex, src[..i])
        {
          SpliceOne(old(buffer[..]), writeIndex, src[..i], src[i]);
          assert src[..i] + [src[i]] == src[..i + 1];
          buffer[writeIndex + i] := src[i];
        }
        writeIndex := writeIndex + |src|;
      }
    }

    method WriteByte(b: byte)
      requires InRange()
      modifies this`currentWriteByte, this`bitsWritten, this`writeIndex, buffer
      ensures Valid()
      ensures Out() == if old(bitsWritten) == 8 then WriteWhole(old(Out()), b) else BitWriting.WriteByte(old(Out()), b)
      decreases if bitStream && 0 < bitsWritten < 8 then 2 else 0
    {
      hide Splice, WriteEach, BitWriting.WriteBytes, BitWriting.WriteBit, BitsOf, BitAt;
      if bitStream && 0 < bitsWritten < 8 {
        assert BitsOf(b)[..0] == [];
        NothingWritten(Out());
        for e := 0 to 8
          invariant Valid() && Out() == WriteEach(old(Out()), BitsOf(b)[..e])
        {
          WriteOneMore(old(Out()), BitsOf(b)[..e], BitsOf(b)[e]);
          assert BitsOf(b)[..e] + [BitsOf(b)[e]] == BitsOf(b)[..e + 1];
          WriteBit(BitAt(b, e));
        }
        assert BitsOf(b)[..8] == BitsOf(b);
        return;
      }
      WriteBytes([b]);
      currentWriteByte := 0;
      bitsWritten := 0;
    }

    method WriteBit(bit: bool)
      requires Valid()
      modifies this`currentWriteByte, this`bitsWritten, this`writeIndex, buffer
      ensures Valid() && Out() == BitWriting.WriteBit(old(Out()), bit)
      decreases 1
    {
      currentWriteByte := OrBit(currentWriteByte, bitsWritten, bit);
      bitsWritten := bitsWritten + 1;
      if bitsWritten == 8 {
        WriteByte(currentWriteByte);
      }
    }

    /** The inner loop of writeBits: fills up the pending byte with bits from i on, without flushing it. */
    method FillPending(container: seq<bool>, i: nat, size: nat) returns (next: nat)
      requires Valid() && i < size <= |container|
      modifies this`currentWriteByte, this`bitsWritten
      ensures InRange() && i < next <= size && (bitsWritten == 8 || next == size)
      ensures Flushed(Out()) == WriteEach(old(Out()), container[i..next])
      ensures Out().bitStream == old(Out().bitStream) && (bitsWritten < 8 ==> Flushed(Out()) == Out())
    {
      hide WriteEach, WriteWhole, BitWriting.WriteBytes, OrBit;
      ghost var before := Out();
      NothingWritten(before);
      assert container[i..i] == [];
      next := i;
      var k := bitsWritten;
      while k < 8 && next < size
        invariant InRange() && i <= next <= size && k == bitsWritten && (next == i ==> k < 8)
        invariant Out().bitStream == before.bitStream && writeIndex == before.index && buffer[..] == before.memory
        invariant Flushed(Out()) == WriteEach(before, container[i..next])
        decreases 8 - k
      {
        WriteOneMore(before, container[i..next], container[next]);
        assert container[i..next] + [container[next]] == container[i..next + 1];
        currentWriteByte := OrBit(currentWriteByte, k, container[next]);
        k, next, bitsWritten := k + 1, next + 1, bitsWritten + 1;
      }
    }

    /** The same buffer, index, pending byte and offset as `size` single bits. The bits written are always the
        first ones of the container: the index is not used. */
    method WriteBits(container: seq<bool>, index: nat, size: nat) returns (outcome: Outcome)
      requires Valid() && size <= |container|
      modifies this`currentWriteByte, this`bitsWritten, this`writeIndex, buffer
      ensures Valid() && (outcome == Done <==> bitStream)
      ensures Out() == if bitStream then WriteEach(old(Out()), container[..size]) else old(Out())
    {
      if !bitStream { return NotABitStream; }
      hide WriteEach, WriteWhole, BitWriting.WriteByte;
      ghost var before := Out();
      NothingWritten(before);
      var i := 0;
      assert container[..0] == [];
      while i < size
        invariant Valid() && i <= size && Out() == WriteEach(before, container[..i])
        decreases size - i
      {
        var next := FillPending(container, i, size);
        WriteEachSplit(before, container[..i], container[i..next]);
        assert container[..i] + container[i..next] == container[..next];
        if bitsWritten == 8 {
          WriteByte(currentWriteByte);
        }
        i := next;
      }
      return Done;
    }

    method Synchronize()
      requires Valid()
      modifies this`currentWriteByte, this`bitsWritten, this`writeIndex, buffer
      ensures Valid() && Out() == BitWriting.Synchronize(old(Out()))
    {
      if 0 < bitsWritten < 8 {
        bitsWritten := 8;
        WriteByte(currentWriteByte);
      }
    }

    // ----- reading; the buffer and the writing side stay as they are

    method ReadBytes(size: nat) returns (bytes: seq<byte>)
      requires InRange()
      modifies this`readIndex
      ensures InRange() && (bytes, In()) == BitReading.ReadBytes(old(In()), size)
    {
      bytes := [];
      if readIndex + size <= buffer.Length {
        bytes := buffer[readIndex..readIndex + size];
        readIndex := readIndex + size;
      }
    }

    /** readBytes into the current byte, the offset back at its first bit. */
    method LoadByte()
      requires InRange()
      modifies this`readIndex, this`currentReadByte, this`bitsRead
      ensures InRange() && In() == Load(old(In()))
    {
      var bytes := ReadBytes(1);
      if bytes != [] { currentReadByte := bytes[0]; }
      bitsRead := 0;
    }

    method ReadBit() returns (bit: bool)
      requires InRange()
      modifies this`readIndex, this`currentReadByte, this`bitsRead
      ensures InRange() && (bit, In()) == BitReading.ReadBit(old(In()))
    {
      if bitsRead == 0 || bitsRead == 8 {
        LoadByte();
      }
      bit := BitAt(currentReadByte, bitsRead);
      bitsRead := bitsRead + 1;
    }

    method ReadByte() returns (b: byte)
      requires InRange()
      modifies this`readIndex, this`currentReadByte, this`bitsRead
      ensures InRange() && (b, In()) == BitReading.ReadByte(old(In()))
    {
      if bitStream && 0 < bitsRead < 8 {
        b := 0;
        ghost var before := In();
        ghost var bits: seq<bool> := [];
        for e := 0 to 8
          invariant InRange() && |bits| == e && b == Assemble(bits) && (bits, In()) == ReadEach(before, e)
        {
          ReadOneMore(before, e);
          var bit := ReadBit();
          assert (bits + [bit])[..e] == bits;
          b := OrBit(b, e, bit);
          bits := bits + [bit];
        }
        return;
      }
      LoadByte();
      b := currentReadByte;
    }

    /** Fills container[index..index + size]. */
    method ReadBits(container: array<bool>, index: nat, size: nat) returns (outcome: Outcome)
      requires InRange() && index + size <= container.Length && container as object != buffer  // two separate arrays
      modifies this`readIndex, this`currentReadByte, this`bitsRead, container
      ensures InRange() && (outcome == Done <==> bitStream)
      ensures if bitStream then
                && container[..] == Splice(old(container[..]), index, ReadBlock(old(In()), size).0)
                && In() == ReadBlock(old(In()), size).1
              else In() == old(In()) && container[..] == old(container[..])
    {
      hide Splice, BlockBit, BitReading.ReadByte, ReadBlock, Load, BitAt;
      if !bitStream { return NotABitStream; }
      ghost var before := In();
      var i := 0;
      SpliceEmpty(container[..], index);
      NothingRead(before);
      while i < size
        invariant InRange() && i <= size && In() == ReadBlock(before, i).1
        invariant container[..] == Splice(old(container[..]), index, ReadBlock(before, i).0)
        decreases size - i
      {
        var start := i;
        if bitsRead == 8 {
          LoadAtEight(In());
          var _ := ReadByte();
        }
        var k := bitsRead;
        while k < 8 && i < size
          invariant InRange() && start <= i <= size && k == bitsRead
          invariant start == i ==> k < 8
          invariant In() == if start == i then Reloaded(ReadBlock(before, i).1) else ReadBlock(before, i).1
          invariant container[..] == Splice(old(container[..]), index, ReadBlock(before, i).0)
          decreases 8 - k
        {
          ReadBlockOneMore(before, i);
          TakeReloaded(ReadBlock(before, i).1, In());
          SpliceOne(old(container[..]), index, ReadBlock(before, i).0, BitAt(currentReadByte, k));
          container[index + i] := BitAt(currentReadByte, k);
          k, i, bitsRead := k + 1, i + 1, bitsRead + 1;
        }
      }
      return Done;
    }
  }
}
