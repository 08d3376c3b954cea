/** What each read operation of a buffer-backed Serial delivers and where it leaves the reader. */
module BitReading {
  import opened Bytes
  import opened Bits

  /** offset is the next bit of `current` to deliver; 8, and for single bits and bytes also 0, ask for a new byte. */
  datatype Reader = Reader(memory: seq<byte>, index: nat, current: byte, offset: nat, bitStream: bool) {
    ghost predicate Valid() { index <= |memory| && offset <= 8 }
  }

  /** The bits still to come, for a reader that is in the middle of a byte or on a boundary. */
  ghost function Remaining(r: Reader): (bits: seq<bool>)
    requires r.Valid()
    ensures |bits| == (if 0 < r.offset then 8 - r.offset else 0) + 8 * (|r.memory| - r.index)
  {
    (if 0 < r.offset then BitsOf(r.current)[r.offset..] else []) + Stream(r.memory[r.index..])
  }

  /** readBytes of one byte into the current byte: past the end of the buffer the old byte stays. */
  function Load(r: Reader): (s: Reader)
    requires r.Valid()
    ensures s.Valid() && s.offset == 0 && s.bitStream == r.bitStream
  {
    if r.index < |r.memory| then r.(current := r.memory[r.index], index := r.index + 1, offset := 0)
    else r.(offset := 0)
  }

  /** The bit at the offset, and the offset moved on. */
  function Take(r: Reader): (bool, Reader)
    requires r.Valid() && r.offset < 8
  {
    (BitAt(r.current, r.offset), r.(offset := r.offset + 1))
  }

  function ReadBit(r: Reader): (res: (bool, Reader))
    requires r.Valid()
    ensures res.1.Valid() && 1 <= res.1.offset && res.1.bitStream == r.bitStream
  {
    Take(if r.offset == 0 || r.offset == 8 then Load(r) else r)
  }

  /** The bit step of readBits, which asks for a new byte at offset 8 only. */
  function BlockBit(r: Reader): (res: (bool, Reader))
    requires r.Valid()
    ensures res.1.Valid() && 1 <= res.1.offset && res.1.bitStream == r.bitStream
  {
    Take(if r.offset == 8 then Load(r) else r)
  }

  function ReadEach(r: Reader, n: nat): (res: (seq<bool>, Reader))
    requires r.Valid()
    ensures res.1.Valid() && |res.0| == n && res.1.bitStream == r.bitStream
    ensures n > 0 ==> 1 <= res.1.offset
    decreases n
  {
    if n == 0 then ([], r)
    else
      var (bit, s) := ReadBit(r);
      var (bits, t) := ReadEach(s, n - 1);
      ([bit] + bits, t)
  }

  function ReadBlock(r: Reader, n: nat): (res: (seq<bool>, Reader))
    requires r.Valid()
    ensures res.1.Valid() && |res.0| == n && res.1.bitStream == r.bitStream
    ensures n > 0 ==> 1 <= res.1.offset
    decreases n
  {
    if n == 0 then ([], r)
    else
      var (bit, s) := BlockBit(r);
      var (bits, t) := ReadBlock(s, n - 1);
      ([bit] + bits, t)
  }

  function ReadByte(r: Reader): (res: (byte, Reader))
    requires r.Valid()
    ensures res.1.Valid() && res.1.bitStream == r.bitStream
  {
    if r.bitStream && 0 < r.offset < 8 then
      var (bits, s) := ReadEach(r, 8);
      (Assemble(bits), s)
    else
      (Load(r).current, Load(r))
  }

  /** readBytes of several bytes: all of them, or nothing when the buffer holds fewer. */
  function ReadBytes(r: Reader, n: nat): (res: (seq<byte>, Reader))
    requires r.Valid()
    ensures res.1.Valid() && res.1.bitStream == r.bitStream && res.1.offset == r.offset
  {
    if r.index + n <= |r.memory| then (r.memory[r.index..r.index + n], r.(index := r.index + n)) else ([], r)
  }

  // ----- what the operations deliver while the input lasts

  lemma LoadKeepsRemaining(r: Reader)
    requires r.Valid() && (r.offset == 0 || r.offset == 8) && r.index < |r.memory|
    ensures BitsOf(Load(r).current) + Stream(Load(r).memory[Load(r).index..]) == Remaining(r)
  {
    assert r.memory[r.index..][1..] == r.memory[r.index + 1..];
    assert BitsOf(r.current)[8..] == [];
  }

  lemma ReadBitDelivers(r: Reader)
    requires r.Valid() && Remaining(r) != []
    ensures ReadBit(r).0 == Remaining(r)[0] && Remaining(ReadBit(r).1) == Remaining(r)[1..]
  {
    hide BitAt, Stream;
    if r.offset == 0 || r.offset == 8 {
      LoadKeepsRemaining(r);
    }
  }

  lemma {:induction false} ReadEachDelivers(r: Reader, n: nat)
    requires r.Valid() && n <= |Remaining(r)|
    ensures ReadEach(r, n).0 == Remaining(r)[..n] && Remaining(ReadEach(r, n).1) == Remaining(r)[n..]
    decreases n
  {
    hide BitAt, BitsOf, Remaining, ReadBit;
    if n > 0 {
      ReadBitDelivers(r);
      ReadEachDelivers(ReadBit(r).1, n - 1);
      assert Remaining(r)[..n] == [Remaining(r)[0]] + Remaining(r)[1..][..n - 1];
    }
  }

  lemma ReadByteDelivers(r: Reader)
    requires r.Valid() && r.bitStream && 8 <= |Remaining(r)|
    ensures BitsOf(ReadByte(r).0) == Remaining(r)[..8] && Remaining(ReadByte(r).1) == Remaining(r)[8..]
  {
    hide BitsOf, BitAt, Stream, ReadEach;
    if 0 < r.offset < 8 {
      hide Remaining;
      ReadEachDelivers(r, 8);
      AssembleBits(ReadEach(r, 8).0);
      assert BitsOf(ReadByte(r).0)[..8] == BitsOf(ReadByte(r).0);
    } else {
      LoadKeepsRemaining(r);
    }
  }

  lemma ReadBytesDelivers(r: Reader, n: nat)
    requires r.Valid() && (r.offset == 0 || r.offset == 8) && 8 * n <= |Remaining(r)|
    ensures |ReadBytes(r, n).0| == n && Stream(ReadBytes(r, n).0) == Remaining(r)[..8 * n]
    ensures Remaining(ReadBytes(r, n).1) == Remaining(r)[8 * n..]
  {
    hide BitAt;
    assert r.memory[r.index..] == r.memory[r.index..r.index + n] + r.memory[r.index + n..];
    StreamAppend(r.memory[r.index..r.index + n], r.memory[r.index + n..]);
    assert BitsOf(r.current)[8..] == [];
  }

  // ----- which bits and bytes these are, also at the end of the input

  /** The bit delivered is a binary digit of the current byte, or the lowest one of the next byte on a boundary; past
      the end that is the lowest digit of the old byte again. */
  lemma ReadBitIsDigit(r: Reader)
    requires r.Valid()
    ensures var (bit, s) := ReadBit(r);
            if 0 < r.offset < 8 then
              s == r.(offset := r.offset + 1) && (bit <==> (r.current as nat / PowerOf(2, r.offset)) % 2 == 1)
            else if r.index < |r.memory| then
              && s == r.(current := r.memory[r.index], index := r.index + 1, offset := 1)
              && (bit <==> r.memory[r.index] as nat % 2 == 1)
            else s == r.(offset := 1) && (bit <==> r.current as nat % 2 == 1)
  {
    hide BitAt, PowerOf;
    if 0 < r.offset < 8 { BitIsDigit(r.current, r.offset); } else { LowestBit(Load(r).current); }
  }

  lemma LowestBit(b: byte)
    ensures BitAt(b, 0) <==> b as nat % 2 == 1
  {
    BitOne(b);
  }

  /** A byte read on a boundary, or without bitStream, is the next one whole, and past the end the old one again. */
  lemma ReadByteWhole(r: Reader)
    requires r.Valid() && (!r.bitStream || r.offset == 0 || r.offset == 8)
    ensures ReadByte(r) ==
            if r.index < |r.memory| then
              (r.memory[r.index], r.(current := r.memory[r.index], index := r.index + 1, offset := 0))
            else (r.current, r.(offset := 0))
  {
  }

  /** Of a value that the buffer does not hold whole, nothing is read. */
  lemma BytesThatAreNotThere(r: Reader, n: nat)
    requires r.Valid() && |r.memory| - r.index < n
    ensures ReadBytes(r, n) == ([], r)
  {
  }

  // ----- readBits against single bits

  /** From any offset but 0, readBits of n bits delivers the bits of n readBit calls and ends in the same state,
      also when the buffer runs out on the way. */
  lemma {:induction false} BlockIsSingleBits(r: Reader, n: nat)
    requires r.Valid() && 1 <= r.offset
    ensures ReadBlock(r, n) == ReadEach(r, n)
    decreases n
  {
    if n > 0 {
      BlockIsSingleBits(ReadBit(r).1, n - 1);
    }
  }

  lemma {:induction false} ReadBlockSplit(r: Reader, m: nat, n: nat)
    requires r.Valid()
    ensures var (a, s) := ReadBlock(r, m);
            var (b, t) := ReadBlock(s, n);
            ReadBlock(r, m + n) == (a + b, t)
    decreases m
  {
    var (a, s) := ReadBlock(r, m);
    var (b, t) := ReadBlock(s, n);
    if m == 0 {
      assert a + b == b;
    } else {
      var (bit, q) := BlockBit(r);
      ReadBlockSplit(q, m - 1, n);
      var (rest, _) := ReadBlock(q, m - 1);
      assert [bit] + (rest + b) == ([bit] + rest) + b;
    }
  }

  lemma {:induction false} TakeSome(r: Reader, n: nat)
    requires r.Valid() && r.offset + n <= 8
    ensures ReadBlock(r, n) == (BitsOf(r.current)[r.offset..r.offset + n], r.(offset := r.offset + n))
    decreases n
  {
    hide BitAt;
    if n == 0 {
      assert BitsOf(r.current)[r.offset..r.offset] == [];
    } else {
      TakeSome(BlockBit(r).1, n - 1);
      assert [BitsOf(r.current)[r.offset]] + BitsOf(r.current)[r.offset + 1..r.offset + n] ==
             BitsOf(r.current)[r.offset..r.offset + n];
    }
  }

  /** From offset 0 a block of up to 8 bits delivers the byte that was already delivered, and reads no input. */
  lemma BlockAtZero(r: Reader, n: nat)
    requires r.Valid() && r.offset == 0 && n <= 8
    ensures ReadBlock(r, n) == (BitsOf(r.current)[..n], r.(offset := n))
  {
    TakeSome(r, n);
  }

  /** On a boundary single bits go on with the next byte. */
  lemma SingleBitsLoadFirst(r: Reader, n: nat)
    requires r.Valid() && (r.offset == 0 || r.offset == 8) && 0 < n
    ensures ReadEach(r, n) == ReadBlock(Load(r), n)
  {
    BlockIsSingleBits(ReadBit(r).1, n - 1);
  }

  lemma BlockLoadsAtEight(r: Reader, n: nat)
    requires r.Valid() && r.offset == 8 && 0 < n
    ensures ReadBlock(r, n) == ReadBlock(Load(r), n)
  {
  }

  /** The rest of the input is shorter than the block and only repeats the current byte. */
  predicate OnlyRepeats(r: Reader, n: nat)
    requires r.Valid()
  {
    |r.memory| - r.index < (n + 7) / 8 && forall i :: r.index <= i < |r.memory| ==> r.memory[i] == r.current
  }

  /** Exactly when readBits of n bits agrees with n readBit calls: at offset 0, right after a byte read on a
      boundary, it repeats that byte, which goes unnoticed only if the input has nothing else to give. */
  lemma {:induction false} BlockAgreesWithSingleBits(r: Reader, n: nat)
    requires r.Valid()
    ensures ReadBlock(r, n) == ReadEach(r, n) <==> r.offset != 0 || n == 0 || OnlyRepeats(r, n)
    decreases |r.memory| - r.index
  {
    hide BitsOf, ReadBlock, ReadEach;
    if r.offset != 0 {
      BlockIsSingleBits(r, n);
    } else if n == 0 {
      NothingRead(r);
    } else if r.index == |r.memory| {
      SingleBitsLoadFirst(r, n);
      assert Load(r) == r;
    } else if n <= 8 {
      SingleBitsLoadFirst(r, n);
      BlockAtZero(r, n);
      BlockAtZero(Load(r), n);
    } else {
      BlockAgreesWithSingleBits(Load(r), n - 8);
      LongBlockAgrees(r, n);
    }
  }

  lemma NothingRead(r: Reader)
    requires r.Valid()
    ensures ReadBlock(r, 0) == ([], r) == ReadEach(r, 0)
  {
  }

  /** A long block at offset 0 agrees with single bits if its first byte repeats and the rest agrees one byte on. */
  lemma LongBlockAgrees(r: Reader, n: nat)
    requires r.Valid() && r.offset == 0 && 8 < n && r.index < |r.memory|
    requires var y := Load(r);
             ReadBlock(y, n - 8) == ReadEach(y, n - 8) <==> OnlyRepeats(y, n - 8)
    ensures ReadBlock(r, n) == ReadEach(r, n) <==> OnlyRepeats(r, n)
  {
    hide BitsOf, ReadBlock, ReadEach;
    var y := Load(r);
    SingleBitsLoadFirst(r, n);
    BlockOfTwoParts(r, n);
    BlockOfTwoParts(y, n);
    assert Load(r.(offset := 8)) == y && Load(y.(offset := 8)) == Load(y);
    SingleBitsLoadFirst(y, n - 8);
    JoinedBits(r.current, y.current, ReadBlock(y, n - 8).0, ReadBlock(Load(y), n - 8).0);
    RepeatsFromNext(r, n);
  }

  lemma RepeatsFromNext(r: Reader, n: nat)
    requires r.Valid() && r.offset == 0 && 8 < n && r.index < |r.memory|
    ensures OnlyRepeats(r, n) <==> r.current == Load(r).current && OnlyRepeats(Load(r), n - 8)
  {
    assert (n - 8 + 7) / 8 == (n + 7) / 8 - 1;
  }

  lemma BlockOfTwoParts(r: Reader, n: nat)
    requires r.Valid() && r.offset == 0 && 8 < n
    ensures var (rest, t) := ReadBlock(Load(r.(offset := 8)), n - 8);
            ReadBlock(r, n) == (BitsOf(r.current) + rest, t)
  {
    hide BitAt;
    ReadBlockSplit(r, 8, n - 8);
    BlockAtZero(r, 8);
    assert BitsOf(r.current)[..8] == BitsOf(r.current);
    BlockLoadsAtEight(r.(offset := 8), n - 8);
  }

  lemma JoinedBits(a: byte, b: byte, x: seq<bool>, y: seq<bool>)
    ensures BitsOf(a) + x == BitsOf(b) + y <==> a == b && x == y
  {
    hide BitAt;
    if BitsOf(a) == BitsOf(b) { SameBitsSameByte(a, b); }
    assert (BitsOf(a) + x)[..8] == BitsOf(a) && (BitsOf(b) + y)[..8] == BitsOf(b);
    assert (BitsOf(a) + x)[8..] == x && (BitsOf(b) + y)[8..] == y;
  }
}
