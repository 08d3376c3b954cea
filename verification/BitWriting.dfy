/** What each write operation of a buffer-backed Serial does to the buffer and to the pending byte. */
module BitWriting {
  import opened Bytes
  import opened Bits

  datatype Writer = Writer(memory: seq<byte>, index: nat, current: byte, count: nat, bitStream: bool) {
    ghost predicate Valid() {
      index <= |memory| && count < 8 && Below(current, count)
    }
  }

  /** Everything written so far: the bits of the stored bytes, then the low pending bits. */
  ghost function Written(w: Writer): seq<bool>
    requires w.index <= |w.memory| && w.count <= 8
  {
    Stream(w.memory[..w.index]) + BitsOf(w.current)[..w.count]
  }

  /** Enough buffer left for n more bits. */
  predicate Room(w: Writer, n: nat) {
    8 * w.index + w.count + n <= 8 * |w.memory|
  }

  /** writeBytes on a buffer: all of src, or nothing when it does not fit. */
  function WriteBytes(w: Writer, src: seq<byte>): (r: Writer)
    requires w.index <= |w.memory|
    ensures r.index <= |r.memory| == |w.memory| && r.bitStream == w.bitStream
  {
    if w.index + |src| <= |w.memory| then
      w.(memory := Splice(w.memory, w.index, src), index := w.index + |src|)
    else w
  }

  /** writeByte on a byte boundary, which also drops whatever was pending. */
  function WriteWhole(w: Writer, b: byte): (r: Writer)
    requires w.index <= |w.memory|
    ensures r.index <= |r.memory| == |w.memory| && r.count == 0 && r.bitStream == w.bitStream
  {
    WriteBytes(w, [b]).(current := 0, count := 0)
  }

  function WriteBit(w: Writer, bit: bool): (r: Writer)
    requires w.index <= |w.memory| && w.count < 8
    ensures r.index <= |r.memory| == |w.memory| && r.count < 8 && r.bitStream == w.bitStream
  {
    var current := OrBit(w.current, w.count, bit);
    if w.count + 1 == 8 then WriteWhole(w.(current := current, count := 8), current)
    else w.(current := current, count := w.count + 1)
  }

  function WriteEach(w: Writer, bits: seq<bool>): (r: Writer)
    requires w.index <= |w.memory| && w.count < 8
    ensures r.index <= |r.memory| == |w.memory| && r.count < 8 && r.bitStream == w.bitStream
    decreases |bits|
  {
    if bits == [] then w else WriteEach(WriteBit(w, bits[0]), bits[1..])
  }

  function WriteByte(w: Writer, b: byte): (r: Writer)
    requires w.index <= |w.memory| && w.count < 8
    ensures r.index <= |r.memory| == |w.memory| && r.count < 8 && r.bitStream == w.bitStream
  {
    if w.bitStream && w.count > 0 then WriteEach(w, BitsOf(b)) else WriteWhole(w, b)
  }

  /** Flushes the pending bits as one byte, the bits above them zero. */
  function Synchronize(w: Writer): (r: Writer)
    requires w.index <= |w.memory| && w.count < 8
  {
    if w.count > 0 then WriteWhole(w.(count := 8), w.current) else w
  }

  // ----- each operation appends its own bits

  lemma WrittenLength(w: Writer)
    requires w.index <= |w.memory| && w.count <= 8
    ensures |Written(w)| == 8 * w.index + w.count
  {
  }

  lemma StoredAppends(w: Writer, src: seq<byte>)
    requires w.index + |src| <= |w.memory|
    ensures Stream(WriteBytes(w, src).memory[..w.index + |src|]) == Stream(w.memory[..w.index]) + Stream(src)
  {
    assert WriteBytes(w, src).memory[..w.index + |src|] == w.memory[..w.index] + src;
    StreamAppend(w.memory[..w.index], src);
  }

  /** A bit is appended exactly when it does not complete a byte for which the buffer has no room; the pending
      byte keeps zeros above the offset either way. */
  lemma WriteBitAppends(w: Writer, bit: bool)
    requires w.Valid()
    ensures WriteBit(w, bit).Valid()
    ensures Written(WriteBit(w, bit)) == Written(w) + [bit] <==> w.count < 7 || w.index < |w.memory|
  {
    hide OrBit, BitAt, Mask, BitsOf, Below, Stream;
    var current := OrBit(w.current, w.count, bit);
    OrBitAppends(w.current, w.count, bit);
    ZeroIsBelow(0);
    WrittenLength(w);
    WrittenLength(WriteBit(w, bit));
    if w.count == 7 && w.index < |w.memory| {
      StoredAppends(w, [current]);
      StreamOne(current);
      assert BitsOf(current)[..8] == BitsOf(current);
      assert Written(WriteBit(w, bit)) == Stream(w.memory[..w.index]) + BitsOf(current);
    }
  }

  /** What number the pending byte becomes, and where it goes with its eighth bit: to the next place of the buffer,
      and nowhere when there is none. */
  lemma WriteBitNumber(w: Writer, bit: bool)
    requires w.Valid()
    ensures var v, n := WriteBit(w, bit), w.current as nat + if bit then PowerOf(2, w.count) else 0;
            if w.count < 7 then v == w.(current := v.current, count := w.count + 1) && v.current as nat == n
            else if w.index == |w.memory| then v == w.(current := 0, count := 0)
            else
              && v == Writer(w.memory[w.index := v.memory[w.index]], w.index + 1, 0, 0, w.bitStream)
              && v.memory[w.index] as nat == n
  {
    hide BitAt, Mask, OrBit, PowerOf;
    OrBitAdds(w.current, w.count, bit);
  }

  lemma {:induction false} WriteEachAppends(w: Writer, bits: seq<bool>)
    requires w.Valid() && Room(w, |bits|)
    ensures WriteEach(w, bits).Valid() && Written(WriteEach(w, bits)) == Written(w) + bits
    decreases |bits|
  {
    hide OrBit, BitAt, Mask, BitsOf, Below, Stream;
    if bits != [] {
      var v := WriteBit(w, bits[0]);
      WriteBitAppends(w, bits[0]);
      WrittenLength(w);
      WrittenLength(v);
      WriteEachAppends(v, bits[1..]);
      assert [bits[0]] + bits[1..] == bits;
      assert Written(w) + [bits[0]] + bits[1..] == Written(w) + ([bits[0]] + bits[1..]);
    }
  }

  lemma {:induction false} WriteEachSplit(w: Writer, a: seq<bool>, b: seq<bool>)
    requires w.index <= |w.memory| && w.count < 8
    ensures WriteEach(w, a + b) == WriteEach(WriteEach(w, a), b)
    decreases |a|
  {
    if a == [] {
      assert a + b == b;
    } else {
      assert (a + b)[1..] == a[1..] + b;
      WriteEachSplit(WriteBit(w, a[0]), a[1..], b);
    }
  }

  /** Writing bits that do not complete a byte only collects them in the pending byte. */
  lemma {:induction false} PendingCollects(w: Writer, bits: seq<bool>)
    requires w.Valid() && w.count + |bits| < 8
    ensures var v := WriteEach(w, bits);
            && v == w.(current := v.current, count := w.count + |bits|) && v.Valid()
            && BitsOf(v.current)[..v.count] == BitsOf(w.current)[..w.count] + bits
    decreases |bits|
  {
    hide OrBit, BitAt, Mask, BitsOf, Below;
    if bits != [] {
      var v := WriteBit(w, bits[0]);
      OrBitAppends(w.current, w.count, bits[0]);
      PendingCollects(v, bits[1..]);
      assert BitsOf(v.current)[..v.count] == BitsOf(w.current)[..w.count] + [bits[0]];
      assert [bits[0]] + bits[1..] == bits;
    }
  }

  lemma LastBitRebuilds(c: byte, b: byte)
    requires Below(c, 7) && BitsOf(c)[..7] == BitsOf(b)[..7]
    ensures OrBit(c, 7, BitsOf(b)[7]) == b
  {
    hide OrBit, BitAt, Mask, BitsOf, Below;
    var current := OrBit(c, 7, BitsOf(b)[7]);
    OrBitAppends(c, 7, BitsOf(b)[7]);
    assert BitsOf(current) == BitsOf(current)[..8] == BitsOf(b)[..7] + [BitsOf(b)[7]] == BitsOf(b);
    SameBitsSameByte(current, b);
  }

  /** Eight single bits from a byte boundary rebuild the byte they came from and flush it. */
  lemma EightBitsFlushByte(w: Writer, b: byte)
    requires w.Valid() && w.count == 0
    ensures WriteEach(w, BitsOf(b)) == WriteWhole(w, b)
  {
    hide OrBit, BitAt, Mask, BitsOf, Below, WriteBit, WriteWhole;
    var low, last := BitsOf(b)[..7], BitsOf(b)[7];
    assert BitsOf(b) == low + [last];
    WriteEachSplit(w, low, [last]);
    PendingCollects(w, low);
    var v := WriteEach(w, low);
    assert BitsOf(w.current)[..0] + low == low;
    LastBitRebuilds(v.current, b);
    assert [last][1..] == [];
    assert WriteEach(WriteBit(v, last), []) == WriteBit(v, last);
    LastBitFlushes(w, v, last, b);
  }

  lemma LastBitFlushes(w: Writer, v: Writer, bit: bool, b: byte)
    requires w.index <= |w.memory| && v == w.(current := v.current, count := 7) && OrBit(v.current, 7, bit) == b
    ensures WriteBit(v, bit) == WriteWhole(w, b)
  {
    hide OrBit, Splice;
  }

  /** writeByte leaves the same buffer, index, pending byte and offset as eight writeBit calls, from any offset. */
  lemma WriteByteIsEightBits(w: Writer, b: byte)
    requires w.Valid() && w.bitStream
    ensures WriteByte(w, b) == WriteEach(w, BitsOf(b))
  {
    if w.count == 0 { EightBitsFlushByte(w, b); }
  }

  /** A whole byte is appended from any offset if and only if the Serial is a bit stream or nothing is pending:
      without bitStream a byte written in the middle of a byte throws the pending bits away. */
  lemma WriteByteAppends(w: Writer, b: byte)
    requires w.Valid() && Room(w, 8)
    ensures w.index < |w.memory|
    ensures Written(WriteByte(w, b)) == Written(w) + BitsOf(b) <==> w.bitStream || w.count == 0
  {
    hide BitAt, BitsOf, Below, Stream;
    if w.bitStream {
      WriteByteIsEightBits(w, b);
      WriteEachAppends(w, BitsOf(b));
    } else {
      WrittenLength(w);
      WrittenLength(WriteByte(w, b));
      StoredAppends(w, [b]);
      StreamOne(b);
    }
  }

  /** Such a byte: after one single bit of a Serial without bitStream, writeByte drops the bit. */
  lemma PendingBitDropped(memory: seq<byte>, bit: bool, b: byte)
    requires 1 <= |memory|
    ensures var w := WriteBit(Writer(memory, 0, 0, 0, false), bit);
            && Written(w) == [bit] && Written(WriteByte(w, b)) == BitsOf(b) != Written(w) + BitsOf(b)
  {
    hide BitAt, BitsOf, Below, Stream, OrBit, WriteBit;
    OneBitPending(memory, bit, false);
    var w := WriteBit(Writer(memory, 0, 0, 0, false), bit);
    NothingStored(memory);
    StoredAppends(w, [b]);
    StreamOne(b);
    assert |[bit] + BitsOf(b)| == 9;
  }

  lemma NothingStored(memory: seq<byte>)
    ensures Stream(memory[..0]) == []
  {
  }

  /** A byte on a boundary, or of a Serial without bitStream, takes the next place of the buffer, if there is one, and
      whatever was pending is gone either way. */
  lemma WriteByteWhole(w: Writer, b: byte)
    requires w.Valid() && (!w.bitStream || w.count == 0)
    ensures WriteByte(w, b) ==
            if w.index == |w.memory| then w.(current := 0, count := 0)
            else Writer(w.memory[w.index := b], w.index + 1, 0, 0, w.bitStream)
  {
  }

  /** What does not fit the buffer is not written at all. */
  lemma BytesThatDoNotFit(w: Writer, src: seq<byte>)
    requires w.index <= |w.memory| < w.index + |src|
    ensures WriteBytes(w, src) == w
  {
  }

  /** Multi-byte values go straight to the buffer, in front of the pending bits: with room they are appended exactly
      when value and pending bits read the same in both orders, as they do where no bits are pending. */
  lemma WriteBytesAppends(w: Writer, src: seq<byte>)
    requires w.Valid() && Room(w, 8 * |src|)
    ensures WriteBytes(w, src).Valid()
    ensures var pending := BitsOf(w.current)[..w.count];
            Written(WriteBytes(w, src)) == Written(w) + Stream(src) <==>
            Stream(src) + pending == pending + Stream(src)
    ensures w.count == 0 ==> Written(WriteBytes(w, src)) == Written(w) + Stream(src)
  {
    hide BitAt, BitsOf, Below, Stream, Written, WriteBytes;
    BytesBeforePending(w, src);
    var stored, pending := Stream(w.memory[..w.index]), BitsOf(w.current)[..w.count];
    Regrouped(stored, Stream(src), pending);
    SameTail(stored, Stream(src) + pending, pending + Stream(src));
    if w.count == 0 { NothingAround(Stream(src), pending); }
  }

  lemma BytesBeforePending(w: Writer, src: seq<byte>)
    requires w.index + |src| <= |w.memory| && w.count <= 8
    ensures WriteBytes(w, src) == w.(memory := WriteBytes(w, src).memory, index := w.index + |src|)
    ensures Written(w) == Stream(w.memory[..w.index]) + BitsOf(w.current)[..w.count]
    ensures Written(WriteBytes(w, src)) == (Stream(w.memory[..w.index]) + Stream(src)) + BitsOf(w.current)[..w.count]
  {
    hide *;
    BytesMoveIndex(w, src);
    StoredAppends(w, src);
    WrittenIs(w);
    WrittenIs(WriteBytes(w, src));
  }

  lemma WrittenIs(w: Writer)
    requires w.index <= |w.memory| && w.count <= 8
    ensures Written(w) == Stream(w.memory[..w.index]) + BitsOf(w.current)[..w.count]
  {
    hide Stream, BitsOf;
  }

  lemma BytesMoveIndex(w: Writer, src: seq<byte>)
    requires w.index + |src| <= |w.memory|
    ensures WriteBytes(w, src) == w.(memory := WriteBytes(w, src).memory, index := w.index + |src|)
  {
    hide Splice;
  }

  lemma Regrouped(a: seq<bool>, b: seq<bool>, c: seq<bool>)
    ensures (a + b) + c == a + (b + c) && (a + c) + b == a + (c + b)
  {
  }

  lemma NothingAround(bits: seq<bool>, nothing: seq<bool>)
    requires nothing == []
    ensures bits + nothing == nothing + bits
  {
  }

  lemma SameTail(front: seq<bool>, a: seq<bool>, b: seq<bool>)
    ensures front + a == front + b <==> a == b
  {
    assert (front + a)[|front|..] == a && (front + b)[|front|..] == b;
  }

  /** Such a misplaced value: a true bit, then an integer that is even, in a bit stream. */
  lemma ValueBeforePendingBit(memory: seq<byte>, src: seq<byte>)
    requires src != [] && !BitAt(src[0], 0) && |src| < |memory|
    ensures var w := WriteBit(Writer(memory, 0, 0, 0, true), true);
            && Written(w) == [true] && Written(WriteBytes(w, src)) == Stream(src) + [true] != Written(w) + Stream(src)
  {
    hide BitAt, BitsOf, Below, Stream, OrBit, Written, WriteBytes, WriteBit;
    OneBitPending(memory, true, true);
    var w := WriteBit(Writer(memory, 0, 0, 0, true), true);
    NothingStored(memory);
    BytesBeforePending(w, src);
    OnlyTail(Stream(src), [true]);
    FirstBit(src);
    assert (Stream(src) + [true])[0] != ([true] + Stream(src))[0];
  }

  lemma OneBitPending(memory: seq<byte>, bit: bool, bitStream: bool)
    ensures var w := WriteBit(Writer(memory, 0, 0, 0, bitStream), bit);
            && w.Valid() && w.memory == memory && w.index == 0 && w.count == 1 && w.bitStream == bitStream
            && Written(w) == [bit] == BitsOf(w.current)[..1]
  {
    hide BitAt, BitsOf, Below, OrBit;
    ZeroIsBelow(0);
    OrBitAppends(0, 0, bit);
    NothingStored(memory);
    assert BitsOf(0)[..0] == [];
  }

  lemma OnlyTail(b: seq<bool>, c: seq<bool>)
    ensures ([] + b) + c == b + c
  {
  }

  lemma FirstBit(src: seq<byte>)
    requires src != []
    ensures Stream(src) != [] && Stream(src)[0] == BitAt(src[0], 0)
  {
  }

  /** synchronize completes the last byte with zero bits and leaves nothing pending. */
  lemma SynchronizePads(w: Writer)
    requires w.Valid() && Room(w, 0)
    ensures var s := Synchronize(w);
            && s.count == 0 && s.index == (8 * w.index + w.count + 7) / 8 <= |s.memory| == |w.memory|
            && Stream(s.memory[..s.index]) == Written(w) + seq((8 - w.count) % 8, _ => false)
  {
    hide BitAt, BitsOf, Below, Stream;
    if w.count > 0 {
      StoredAppends(w, [w.current]);
      StreamOne(w.current);
      BelowPads(w.current, w.count);
    }
  }

  /** With no place left, synchronize drops the pending bits. */
  lemma SynchronizeFull(w: Writer)
    requires w.Valid() && w.index == |w.memory|
    ensures Synchronize(w) == if w.count == 0 then w else w.(current := 0, count := 0)
  {
  }
}
