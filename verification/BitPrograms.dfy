/** Programs of writes read back by the matching programs of reads. */
module BitPrograms {
  import opened Bytes
  import opened Bits
  import opened BitWriting
  import opened BitReading

  datatype Item =
    | Bit(bit: bool)              // writeBit / readBit
    | Whole(b: byte)              // writeByte / readByte
    | Block(bits: seq<bool>)      // writeBits / readBits
    | Raw(bytes: seq<byte>)       // writeBytes / readBytes, the multi-byte values

  /** What the reading program asks for: the kind of each item and its size. */
  datatype Ask = AskBit | AskWhole | AskBlock(bits: nat) | AskRaw(bytes: nat)

  function AskFor(item: Item): Ask {
    match item
    case Bit(_) => AskBit
    case Whole(_) => AskWhole
    case Block(bits) => AskBlock(|bits|)
    case Raw(bytes) => AskRaw(|bytes|)
  }

  function BitsIn(item: Item): seq<bool> {
    match item
    case Bit(bit) => [bit]
    case Whole(b) => BitsOf(b)
    case Block(bits) => bits
    case Raw(bytes) => Stream(bytes)
  }

  function AllBits(items: seq<Item>): seq<bool> {
    if items == [] then [] else BitsIn(items[0]) + AllBits(items[1..])
  }

  function AskForAll(items: seq<Item>): seq<Ask> {
    if items == [] then [] else [AskFor(items[0])] + AskForAll(items[1..])
  }

  function Write(w: Writer, item: Item): (r: Writer)
    requires w.index <= |w.memory| && w.count < 8
    ensures r.index <= |r.memory| == |w.memory| && r.count < 8
  {
    match item
    case Bit(bit) => WriteBit(w, bit)
    case Whole(b) => WriteByte(w, b)
    case Block(bits) => WriteEach(w, bits)
    case Raw(bytes) => WriteBytes(w, bytes)
  }

  function WriteAll(w: Writer, items: seq<Item>): (r: Writer)
    requires w.index <= |w.memory| && w.count < 8
    ensures r.index <= |r.memory| == |w.memory| && r.count < 8
    decreases |items|
  {
    if items == [] then w else WriteAll(Write(w, items[0]), items[1..])
  }

  function Read(r: Reader, ask: Ask): (res: (Item, Reader))
    requires r.Valid()
    ensures res.1.Valid() && res.1.bitStream == r.bitStream
  {
    match ask
    case AskBit => var (bit, s) := ReadBit(r); (Bit(bit), s)
    case AskWhole => var (b, s) := ReadByte(r); (Whole(b), s)
    case AskBlock(n) => var (bits, s) := ReadBlock(r, n); (Block(bits), s)
    case AskRaw(n) => var (bytes, s) := ReadBytes(r, n); (Raw(bytes), s)
  }

  function ReadAll(r: Reader, asks: seq<Ask>): (res: (seq<Item>, Reader))
    requires r.Valid()
    ensures res.1.Valid()
    decreases |asks|
  {
    if asks == [] then ([], r)
    else
      var (item, s) := Read(r, asks[0]);
      var (items, t) := ReadAll(s, asks[1..]);
      ([item] + items, t)
  }

  function Size(ask: Ask): nat {
    match ask
    case AskBit => 1
    case AskWhole => 8
    case AskBlock(n) => n
    case AskRaw(n) => 8 * n
  }

  /** Multi-byte values only on byte boundaries; no block of bits straight after a byte read on a boundary. */
  predicate MayAsk(place: nat, ask: Ask) {
    match ask
    case AskBit => true
    case AskWhole => true
    case AskBlock(n) => n == 0 || place != 0
    case AskRaw(_) => place == 0 || place == 8
  }

  /** The reader's offset after a read, while the input lasts; offsets 0 and 8 are both byte boundaries. */
  function PlaceAfter(place: nat, ask: Ask): (next: nat)
    requires place <= 8
    ensures next <= 8
  {
    match ask
    case AskBit => place % 8 + 1
    case AskWhole => if 0 < place < 8 then place else 0
    case AskBlock(n) => if n == 0 then place else (place + n - 1) % 8 + 1
    case AskRaw(_) => place
  }

  predicate WellFormed(place: nat, asks: seq<Ask>)
    requires place <= 8
    decreases |asks|
  {
    asks == [] || (MayAsk(place, asks[0]) && WellFormed(PlaceAfter(place, asks[0]), asks[1..]))
  }

  function TotalSize(asks: seq<Ask>): nat {
    if asks == [] then 0 else Size(asks[0]) + TotalSize(asks[1..])
  }

  lemma PlaceMovesBySize(place: nat, ask: Ask)
    requires place <= 8 && MayAsk(place, ask)
    ensures PlaceAfter(place, ask) % 8 == (place + Size(ask)) % 8
  {
  }

  /** The last read that moved the reader's offset was of a byte. */
  predicate AfterWhole(asks: seq<Ask>) {
    asks != [] &&
    match asks[|asks| - 1]
    case AskWhole => true
    case AskBit => false
    case AskBlock(n) => n == 0 && AfterWhole(asks[..|asks| - 1])
    case AskRaw(_) => AfterWhole(asks[..|asks| - 1])
  }

  function Place(place: nat, asks: seq<Ask>): (p: nat)
    requires place <= 8
    ensures p <= 8
  {
    if asks == [] then place else PlaceAfter(Place(place, asks[..|asks| - 1]), asks[|asks| - 1])
  }

  lemma {:induction false} WellFormedSoFar(place: nat, asks: seq<Ask>, last: Ask)
    requires place <= 8
    ensures WellFormed(place, asks + [last]) <==> WellFormed(place, asks) && MayAsk(Place(place, asks), last)
    decreases |asks|
  {
    hide MayAsk, PlaceAfter;
    if asks == [] {
      assert [last][1..] == [] && [] + [last] == [last];
    } else {
      assert (asks + [last])[1..] == asks[1..] + [last];
      WellFormedSoFar(PlaceAfter(place, asks[0]), asks[1..], last);
      PlaceFromFirst(place, asks);
    }
  }

  lemma {:induction false} PlaceFromFirst(place: nat, asks: seq<Ask>)
    requires place <= 8 && asks != []
    ensures Place(place, asks) == Place(PlaceAfter(place, asks[0]), asks[1..])
    decreases |asks|
  {
    hide PlaceAfter;
    if |asks| == 1 {
      assert asks[..0] == [] && asks[1..] == [];
    } else {
      PlaceFromFirst(place, asks[..|asks| - 1]);
      assert asks[1..][..|asks| - 2] == asks[..|asks| - 1][1..];
    }
  }

  lemma {:induction false} PlaceIs(asks: seq<Ask>)
    requires WellFormed(8, asks)
    ensures Place(8, asks) % 8 == TotalSize(asks) % 8
    ensures Place(8, asks) == 0 <==> TotalSize(asks) % 8 == 0 && AfterWhole(asks)
    decreases |asks|
  {
    hide PlaceAfter, MayAsk, Size, WellFormed;
    if asks != [] {
      var front, last := asks[..|asks| - 1], asks[|asks| - 1];
      assert asks == front + [last];
      WellFormedSoFar(8, front, last);
      PlaceIs(front);
      TotalGrows(front, last);
      NextPlace(Place(8, front), last, TotalSize(front));
    }
  }

  lemma NextPlace(place: nat, ask: Ask, total: nat)
    requires place <= 8 && MayAsk(place, ask) && place % 8 == total % 8
    ensures PlaceAfter(place, ask) % 8 == (total + Size(ask)) % 8
    ensures PlaceAfter(place, ask) == 0 <==>
            if ask.AskWhole? then total % 8 == 0
            else if ask.AskRaw? || (ask.AskBlock? && ask.bits == 0) then place == 0
            else false
    ensures !ask.AskBit? && (ask.AskBlock? ==> ask.bits == 0) ==> (total + Size(ask)) % 8 == total % 8
  {
    PlaceMovesBySize(place, ask);
    SumOfRests(place, total, Size(ask));
  }

  lemma SumOfRests(a: nat, b: nat, n: nat)
    requires a % 8 == b % 8
    ensures (a + n) % 8 == (b + n) % 8
  {
  }

  lemma {:induction false} TotalGrows(asks: seq<Ask>, last: Ask)
    ensures TotalSize(asks + [last]) == TotalSize(asks) + Size(last)
  {
    if asks == [] {
      assert [last][1..] == [] && [] + [last] == [last];
    } else {
      assert (asks + [last])[1..] == asks[1..] + [last];
      TotalGrows(asks[1..], last);
    }
  }

  /** The programs allowed, without the reader's offset: a multi-byte value stands on a byte boundary, and no block of
      bits follows a byte that was read on one. */
  lemma {:induction false} WellFormedIff(asks: seq<Ask>)
    ensures WellFormed(8, asks) <==>
            forall i :: 0 <= i < |asks| ==>
              && (asks[i].AskRaw? ==> TotalSize(asks[..i]) % 8 == 0)
              && (asks[i].AskBlock? && asks[i].bits > 0 ==> !(TotalSize(asks[..i]) % 8 == 0 && AfterWhole(asks[..i])))
    decreases |asks|
  {
    hide PlaceAfter, AfterWhole, WellFormed, TotalSize;
    if asks == [] {
      NothingIsWellFormed();
    } else {
      var front, last := asks[..|asks| - 1], asks[|asks| - 1];
      assert asks == front + [last];
      WellFormedSoFar(8, front, last);
      WellFormedIff(front);
      assert forall i :: 0 <= i < |front| ==> front[i] == asks[i] && front[..i] == asks[..i];
      if WellFormed(8, front) { PlaceIs(front); }
    }
  }

  lemma NothingIsWellFormed()
    ensures WellFormed(8, [])
  {
  }

  lemma {:induction false} SizeOfAsks(items: seq<Item>)
    ensures TotalSize(AskForAll(items)) == |AllBits(items)|
  {
    if items != [] { SizeOfAsks(items[1..]); }
  }

  // ----- writing

  lemma CountMovesBySize(i: nat, count: nat, j: nat, after: nat, place: nat, ask: Ask)
    requires count < 8 && after < 8 && place <= 8 && count == place % 8 && MayAsk(place, ask)
    requires 8 * j + after == 8 * i + count + Size(ask)
    ensures after == PlaceAfter(place, ask) % 8
  {
    PlaceMovesBySize(place, ask);
  }

  lemma WriteAppends(w: Writer, place: nat, item: Item)
    requires w.Valid() && w.bitStream && place <= 8 && w.count == place % 8
    requires MayAsk(place, AskFor(item)) && Room(w, |BitsIn(item)|)
    ensures Write(w, item).Valid() && Write(w, item).bitStream
    ensures Written(Write(w, item)) == Written(w) + BitsIn(item)
    ensures Write(w, item).count == PlaceAfter(place, AskFor(item)) % 8
  {
    hide BitAt, BitsOf, Below, Stream, WriteEach, WriteByte, WriteBytes, WriteBit, Written, PlaceAfter;
    match item {
      case Bit(bit) => WriteBitAppends(w, bit);
      case Whole(b) => WriteByteIsEightBits(w, b); WriteEachAppends(w, BitsOf(b));
      case Block(bits) => WriteEachAppends(w, bits);
      case Raw(bytes) => WriteBytesAppends(w, bytes);
    }
    WrittenLength(w);
    WrittenLength(Write(w, item));
    assert |BitsIn(item)| == Size(AskFor(item));
    CountMovesBySize(w.index, w.count, Write(w, item).index, Write(w, item).count, place, AskFor(item));
  }

  lemma {:induction false} WriteAllAppends(w: Writer, place: nat, items: seq<Item>)
    requires w.Valid() && w.bitStream && place <= 8 && w.count == place % 8
    requires WellFormed(place, AskForAll(items)) && Room(w, |AllBits(items)|)
    ensures WriteAll(w, items).Valid() && Written(WriteAll(w, items)) == Written(w) + AllBits(items)
    decreases |items|
  {
    hide Written, MayAsk, PlaceAfter, BitsIn, Write;
    if items != [] {
      var v := Write(w, items[0]);
      WriteAppends(w, place, items[0]);
      WrittenLength(w);
      WrittenLength(v);
      WriteAllAppends(v, PlaceAfter(place, AskFor(items[0])), items[1..]);
      assert Written(w) + BitsIn(items[0]) + AllBits(items[1..]) ==
             Written(w) + (BitsIn(items[0]) + AllBits(items[1..]));
    }
  }

  // ----- reading

  lemma {:induction false} OffsetAfterBits(r: Reader, n: nat)
    requires r.Valid() && 0 < n
    ensures ReadEach(r, n).1.offset == (if r.offset == 0 then (n - 1) % 8 + 1 else (r.offset + n - 1) % 8 + 1)
    decreases n
  {
    hide BitAt;
    if n > 1 { OffsetAfterBits(ReadBit(r).1, n - 1); }
  }

  lemma SamePlaceInByte(offset: nat)
    requires 0 < offset < 8
    ensures (offset + 8 - 1) % 8 + 1 == offset
  {
  }

  lemma ReadMovesPlace(r: Reader, ask: Ask)
    requires r.Valid() && r.bitStream && MayAsk(r.offset, ask)
    ensures Read(r, ask).1.offset == PlaceAfter(r.offset, ask)
  {
    hide BitAt, BitsOf, ReadEach, ReadBlock, Assemble, Remaining;
    match ask {
      case AskBit =>
      case AskWhole =>
        if 0 < r.offset < 8 {
          OffsetAfterBits(r, 8);
          SamePlaceInByte(r.offset);
        }
      case AskBlock(n) =>
        if n > 0 {
          BlockIsSingleBits(r, n);
          OffsetAfterBits(r, n);
        } else {
          NothingRead(r);
        }
      case AskRaw(n) =>
    }
  }

  lemma ReadDelivers(r: Reader, ask: Ask)
    requires r.Valid() && r.bitStream && MayAsk(r.offset, ask) && Size(ask) <= |Remaining(r)|
    ensures var (item, s) := Read(r, ask);
            && AskFor(item) == ask && BitsIn(item) == Remaining(r)[..Size(ask)]
            && Remaining(s) == Remaining(r)[Size(ask)..] && s.offset == PlaceAfter(r.offset, ask)
  {
    hide BitAt, BitsOf, Stream, Remaining, PlaceAfter, ReadEach, ReadByte, ReadBytes, ReadBlock, ReadBit;
    ReadMovesPlace(r, ask);
    match ask {
      case AskBit => ReadBitDelivers(r);
      case AskWhole => ReadByteDelivers(r);
      case AskBlock(n) =>
        if n > 0 {
          BlockIsSingleBits(r, n);
          ReadEachDelivers(r, n);
        } else {
          NothingRead(r);
        }
      case AskRaw(n) => ReadBytesDelivers(r, n);
    }
  }

  /** However the reads are grouped into bits, bytes, blocks and multi-byte values, with enough input they deliver
      the same overall bits, in order, and leave the rest. */
  lemma {:induction false} AnyGroupingDelivers(r: Reader, asks: seq<Ask>)
    requires r.Valid() && r.bitStream && WellFormed(r.offset, asks) && TotalSize(asks) <= |Remaining(r)|
    ensures var (items, s) := ReadAll(r, asks);
            && AskForAll(items) == asks
            && AllBits(items) == Remaining(r)[..TotalSize(asks)] && Remaining(s) == Remaining(r)[TotalSize(asks)..]
    decreases |asks|
  {
    hide Remaining, MayAsk, PlaceAfter, BitsIn, Read, AskFor, Size;
    if asks != [] {
      ReadDelivers(r, asks[0]);
      var (item, s) := Read(r, asks[0]);
      AnyGroupingDelivers(s, asks[1..]);
      var (items, t) := ReadAll(s, asks[1..]);
      assert ([item] + items)[1..] == items;
      assert Remaining(r)[..Size(asks[0])] + Remaining(r)[Size(asks[0])..][..TotalSize(asks[1..])] ==
             Remaining(r)[..TotalSize(asks)];
    }
  }

  lemma {:induction false} SameBitsSameItems(a: seq<Item>, b: seq<Item>)
    requires AskForAll(a) == AskForAll(b) && AllBits(a) == AllBits(b)
    ensures a == b
  {
    if a != [] {
      var n := |BitsIn(a[0])|;
      assert AskFor(a[0]) == AskForAll(a)[0] == AskForAll(b)[0] == AskFor(b[0]);
      assert BitsIn(a[0]) == AllBits(a)[..n] == AllBits(b)[..n] == BitsIn(b[0]);
      SameBitsSameItem(a[0], b[0]);
      assert AllBits(a[1..]) == AllBits(a)[n..] && AllBits(b[1..]) == AllBits(b)[n..];
      assert AskForAll(a[1..]) == AskForAll(a)[1..] && AskForAll(b[1..]) == AskForAll(b)[1..];
      SameBitsSameItems(a[1..], b[1..]);
    }
  }

  lemma SameBitsSameItem(a: Item, b: Item)
    requires AskFor(a) == AskFor(b) && BitsIn(a) == BitsIn(b)
    ensures a == b
  {
    hide BitAt, Mask;
    match a {
      case Bit(_) =>
      case Whole(x) => SameBitsSameByte(x, b.b);
      case Block(_) =>
      case Raw(x) => StreamPrefix(x, b.bytes);
    }
  }

  lemma StreamFrom(memory: seq<byte>, i: nat, j: nat, before: seq<bool>, body: seq<bool>)
    requires i <= j <= |memory| && |before| == 8 * i && Stream(memory[..j]) == before + body
    ensures body <= Stream(memory[i..])
  {
    assert memory[..j] == memory[..i] + memory[i..j] && memory[i..] == memory[i..j] + memory[j..];
    StreamAppend(memory[..i], memory[i..j]);
    StreamAppend(memory[i..j], memory[j..]);
    assert body == Stream(memory[..j])[8 * i..] == Stream(memory[i..j]);
  }

  /** Round trip: any well-formed program of writes from a byte boundary, then synchronize, is read back exactly by
      the matching reads, whatever stale byte the reader starts with, given room for the bits. */
  lemma ProgramRoundTrip(w: Writer, items: seq<Item>, stale: byte)
    requires w.Valid() && w.bitStream && w.count == 0
    requires WellFormed(8, AskForAll(items)) && Room(w, |AllBits(items)|)
    ensures var v := Synchronize(WriteAll(w, items));
            ReadAll(Reader(v.memory, w.index, stale, 8, true), AskForAll(items)).0 == items
  {
    hide BitsOf, Stream, WriteAll, ReadAll, Synchronize, Remaining;
    var v := Synchronize(WriteAll(w, items));
    var r := Reader(v.memory, w.index, stale, 8, true);
    ProgramStored(w, items);
    AllStillToCome(r);
    SizeOfAsks(items);
    AnyGroupingDelivers(r, AskForAll(items));
    SameBitsSameItems(ReadAll(r, AskForAll(items)).0, items);
  }

  lemma AllStillToCome(r: Reader)
    requires r.Valid() && r.offset == 8
    ensures Remaining(r) == Stream(r.memory[r.index..])
  {
    assert BitsOf(r.current)[8..] == [];
  }

  /** After synchronize the buffer holds, from where writing began, all bits of the program. */
  lemma ProgramStored(w: Writer, items: seq<Item>)
    requires w.Valid() && w.bitStream && w.count == 0
    requires WellFormed(8, AskForAll(items)) && Room(w, |AllBits(items)|)
    ensures var v := Synchronize(WriteAll(w, items));
            w.index <= |v.memory| && AllBits(items) <= Stream(v.memory[w.index..])
  {
    hide BitAt, BitsOf, Below, Stream, WriteAll, Synchronize;
    var v := Synchronize(WriteAll(w, items));
    WriteAllAppends(w, 8, items);
    WrittenLength(w);
    WrittenLength(WriteAll(w, items));
    SynchronizePads(WriteAll(w, items));
    var pad := seq((8 - WriteAll(w, items).count) % 8, _ => false);
    assert Written(w) + AllBits(items) + pad == Written(w) + (AllBits(items) + pad);
    StreamFrom(v.memory, w.index, v.index, Written(w), AllBits(items) + pad);
  }

  /** The restriction on blocks is needed: a block of bits straight after a byte read on a boundary gets that
      byte's bits again. */
  lemma BlockAfterByteIsMisread(w: Writer, stale: byte)
    requires w.Valid() && w.bitStream && w.count == 0 && Room(w, 16)
    ensures var items := [Whole(0), Block([true])];
            var v := Synchronize(WriteAll(w, items));
            !WellFormed(8, AskForAll(items)) &&
            ReadAll(Reader(v.memory, w.index, stale, 8, true), AskForAll(items)).0 == [Whole(0), Block([false])]
  {
    var items := [Whole(0), Block([true])];
    var w1 := WriteByte(w, 0);
    var v := Synchronize(WriteAll(w, items));
    assert items[1..] == [Block([true])] && items[1..][1..] == [];
    assert WriteAll(w, items) == WriteAll(w1, items[1..]) == WriteAll(WriteEach(w1, [true]), []);
    assert [true][1..] == [];
    assert WriteEach(w1, [true]) == WriteEach(WriteBit(w1, true), []) == WriteBit(w1, true);
    assert v.memory[w.index] == 0;
    var r := Reader(v.memory, w.index, stale, 8, true);
    var asks := AskForAll(items);
    assert asks == [AskWhole, AskBlock(1)];
    assert asks[1..] == [AskBlock(1)] && asks[1..][1..] == [];
    var r1 := Load(r);
    BlockAtZero(r1, 1);
    assert !BitAt(0, 0);
    assert BitsOf(0)[..1] == [false];
    assert ReadBlock(r1, 1).0 == [false];
    assert Read(r, AskWhole) == (Whole(0), r1);
    assert ReadAll(r1, asks[1..]).0 == [Block([false])];
    assert ReadAll(r, asks).0 == [Whole(0)] + [Block([false])];
  }
}
