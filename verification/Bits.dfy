/** Bytes as eight bits, least significant first. */
module Bits {
  import opened Bytes

  /** 1 << k */
  function Mask(k: nat): byte
    requires k < 8
  {
    match k
    case 0 => 1 case 1 => 2 case 2 => 4 case 3 => 8
    case 4 => 16 case 5 => 32 case 6 => 64 case _ => 128
  }

  predicate BitAt(b: byte, k: nat)
    requires k < 8
  {
    b & Mask(k) != 0
  }

  /** b | (bit << k) */
  function OrBit(b: byte, k: nat, bit: bool): byte
    requires k < 8
  {
    if bit then b | Mask(k) else b
  }

  lemma OrBitAt(b: byte, k: nat, bit: bool, j: nat)
    requires k < 8 && j < 8
    ensures BitAt(OrBit(b, k, bit), j) == (BitAt(b, j) || (j == k && bit))
  {
  }

  function BitsOf(b: byte): (bits: seq<bool>)
    ensures |bits| == 8 && forall k :: 0 <= k < 8 ==> bits[k] == BitAt(b, k)
  {
    seq(8, k requires 0 <= k < 8 => BitAt(b, k))
  }

  lemma SameBitsSameByte(a: byte, b: byte)
    requires BitsOf(a) == BitsOf(b)
    ensures a == b
  {
    assert BitsOf(a)[0] == BitsOf(b)[0] && BitsOf(a)[1] == BitsOf(b)[1];
    assert BitsOf(a)[2] == BitsOf(b)[2] && BitsOf(a)[3] == BitsOf(b)[3];
    assert BitsOf(a)[4] == BitsOf(b)[4] && BitsOf(a)[5] == BitsOf(b)[5];
    assert BitsOf(a)[6] == BitsOf(b)[6] && BitsOf(a)[7] == BitsOf(b)[7];
  }

  /** No bit at or above k is set. */
  ghost predicate Below(b: byte, k: nat) {
    forall j :: k <= j < 8 ==> !BitAt(b, j)
  }

  lemma ZeroIsBelow(k: nat)
    ensures Below(0, k)
  {
  }

  /** Setting bit k of a byte with nothing at or above k appends one bit to its low bits. */
  lemma OrBitAppends(b: byte, k: nat, bit: bool)
    requires k < 8 && Below(b, k)
    ensures Below(OrBit(b, k, bit), k + 1)
    ensures BitsOf(OrBit(b, k, bit))[..k + 1] == BitsOf(b)[..k] + [bit]
  {
    forall j | 0 <= j < 8 ensures BitAt(OrBit(b, k, bit), j) == (BitAt(b, j) || (j == k && bit)) {
      OrBitAt(b, k, bit, j);
    }
    hide OrBit, Mask, BitAt;
  }

  lemma BelowPads(b: byte, k: nat)
    requires k <= 8 && Below(b, k)
    ensures BitsOf(b) == BitsOf(b)[..k] + seq(8 - k, _ => false)
  {
    hide Mask, BitAt;
  }

  /** The byte with these low bits. */
  function Assemble(bits: seq<bool>): byte
    requires |bits| <= 8
  {
    if bits == [] then 0 else OrBit(Assemble(bits[..|bits| - 1]), |bits| - 1, bits[|bits| - 1])
  }

  lemma {:induction false} AssembleBits(bits: seq<bool>)
    requires |bits| <= 8
    ensures Below(Assemble(bits), |bits|) && BitsOf(Assemble(bits))[..|bits|] == bits
  {
    hide OrBit, BitAt, BitsOf, Below;
    if bits == [] {
      ZeroIsBelow(0);
    } else {
      var n := |bits| - 1;
      AssembleBits(bits[..n]);
      OrBitAppends(Assemble(bits[..n]), n, bits[n]);
      assert bits[..n] + [bits[n]] == bits;
    }
  }

  function Stream(bytes: seq<byte>): (bits: seq<bool>)
    ensures |bits| == 8 * |bytes|
  {
    if bytes == [] then [] else BitsOf(bytes[0]) + Stream(bytes[1..])
  }

  lemma {:induction false} StreamAppend(a: seq<byte>, b: seq<byte>)
    ensures Stream(a + b) == Stream(a) + Stream(b)
  {
    if a == [] {
      assert a + b == b;
    } else {
      assert (a + b)[1..] == a[1..] + b;
      StreamAppend(a[1..], b);
    }
  }

  lemma StreamOne(b: byte)
    ensures Stream([b]) == BitsOf(b)
  {
  }

  /** Bytes are determined by their bits, also as a prefix of a longer stream. */
  lemma {:induction false} StreamPrefix(a: seq<byte>, b: seq<byte>)
    requires Stream(a) <= Stream(b)
    ensures a <= b
  {
    if a != [] {
      assert BitsOf(a[0]) == Stream(a)[..8] == Stream(b)[..8] == BitsOf(b[0]);
      SameBitsSameByte(a[0], b[0]);
      assert Stream(a[1..]) == Stream(a)[8..] && Stream(b[1..]) == Stream(b)[8..];
      StreamPrefix(a[1..], b[1..]);
    }
  }

  // ----- numbers below 256 as bytes

  function NumberBits(n: nat, width: nat): (bits: seq<bool>)
    ensures |bits| == width
  {
    if width == 0 then [] else [n % 2 == 1] + NumberBits(n / 2, width - 1)
  }

  function BitsNumber(bits: seq<bool>): nat {
    if bits == [] then 0 else (if bits[0] then 1 else 0) + 2 * BitsNumber(bits[1..])
  }

  lemma {:induction false} NumberBitsRoundTrip(n: nat, width: nat)
    requires n < PowerOf(2, width)
    ensures BitsNumber(NumberBits(n, width)) == n
    decreases width
  {
    if width > 0 {
      NumberBitsRoundTrip(n / 2, width - 1);
      assert NumberBits(n, width)[1..] == NumberBits(n / 2, width - 1);
    }
  }

  function NumberByte(n: nat): byte { Assemble(NumberBits(n, 8)) }

  function ByteNumber(b: byte): nat { BitsNumber(BitsOf(b)) }

  lemma ByteNumberRoundTrip(n: nat)
    requires n < 256
    ensures ByteNumber(NumberByte(n)) == n
  {
    hide BitsOf, Assemble, BitAt, NumberBits, BitsNumber;
    AssembleBits(NumberBits(n, 8));
    assert BitsOf(NumberByte(n))[..8] == BitsOf(NumberByte(n));
    assert PowerOf(2, 4) == 16;
    NumberBitsRoundTrip(n, 8);
  }

  // ----- bits and numbers

  lemma Powers()
    ensures PowerOf(2, 0) == 1 && PowerOf(2, 1) == 2 && PowerOf(2, 2) == 4 && PowerOf(2, 3) == 8
    ensures PowerOf(2, 4) == 16 && PowerOf(2, 5) == 32 && PowerOf(2, 6) == 64 && PowerOf(2, 7) == 128
  {
    assert PowerOf(2, 1) == 2 * PowerOf(2, 0);
    assert PowerOf(2, 2) == 2 * PowerOf(2, 1) && PowerOf(2, 3) == 2 * PowerOf(2, 2);
    assert PowerOf(2, 4) == 2 * PowerOf(2, 3) && PowerOf(2, 5) == 2 * PowerOf(2, 4);
    assert PowerOf(2, 6) == 2 * PowerOf(2, 5) && PowerOf(2, 7) == 2 * PowerOf(2, 6);
  }

  /** Bit k of a byte is the binary digit of weight 2^k of its number. */
  lemma BitIsDigit(b: byte, k: nat)
    requires k < 8
    ensures BitAt(b, k) <==> (b as nat / PowerOf(2, k)) % 2 == 1
  {
    hide PowerOf;
    Powers();
    match k {
      case 0 => BitOne(b);
      case 1 => BitTwo(b);
      case 2 => BitFour(b);
      case 3 => BitEight(b);
      case _ => HighBits(b);
    }
  }

  lemma BitOne(b: byte)
    ensures BitAt(b, 0) <==> b as nat % 2 == 1
  {
  }

  lemma BitTwo(b: byte)
    ensures BitAt(b, 1) <==> b as nat / 2 % 2 == 1
  {
  }

  lemma BitFour(b: byte)
    ensures BitAt(b, 2) <==> b as nat / 4 % 2 == 1
  {
  }

  lemma BitEight(b: byte)
    ensures BitAt(b, 3) <==> b as nat / 8 % 2 == 1
  {
  }

  lemma HighBits(b: byte)
    ensures BitAt(b, 4) <==> b as nat / 16 % 2 == 1
    ensures BitAt(b, 5) <==> b as nat / 32 % 2 == 1
    ensures BitAt(b, 6) <==> b as nat / 64 % 2 == 1
    ensures BitAt(b, 7) <==> b as nat / 128 % 2 == 1
  {
  }

  /** Setting a clear bit k to a value adds the value times 2^k. */
  lemma OrBitAdds(b: byte, k: nat, bit: bool)
    requires k < 8 && !BitAt(b, k)
    ensures OrBit(b, k, bit) as nat == b as nat + if bit then PowerOf(2, k) else 0
  {
    hide PowerOf, BitAt;
    Powers();
    if bit && k < 4 { AddLow(b, k); }
    if bit && 4 <= k { AddHigh(b, k); }
  }

  lemma AddLow(b: byte, k: nat)
    requires k < 4 && !BitAt(b, k)
    ensures OrBit(b, k, true) as nat == b as nat + match k case 0 => 1 case 1 => 2 case 2 => 4 case _ => 8
  {
    hide BitAt;
    match k {
      case 0 => AddOne(b);
      case 1 => AddTwo(b);
      case 2 => AddFour(b);
      case _ => AddEight(b);
    }
  }

  lemma AddHigh(b: byte, k: nat)
    requires 4 <= k < 8 && !BitAt(b, k)
    ensures OrBit(b, k, true) as nat == b as nat + match k case 4 => 16 case 5 => 32 case 6 => 64 case _ => 128
  {
    hide BitAt;
    match k {
      case 4 => AddSixteen(b);
      case 5 => AddThirtyTwo(b);
      case 6 => AddSixtyFour(b);
      case _ => AddLast(b);
    }
  }

  lemma AddOne(b: byte)
    requires !BitAt(b, 0)
    ensures (b | 1) as nat == b as nat + 1
  {
  }

  lemma AddTwo(b: byte)
    requires !BitAt(b, 1)
    ensures (b | 2) as nat == b as nat + 2
  {
  }

  lemma AddFour(b: byte)
    requires !BitAt(b, 2)
    ensures (b | 4) as nat == b as nat + 4
  {
  }

  lemma AddEight(b: byte)
    requires !BitAt(b, 3)
    ensures (b | 8) as nat == b as nat + 8
  {
  }

  lemma AddSixteen(b: byte)
    requires !BitAt(b, 4)
    ensures (b | 16) as nat == b as nat + 16
  {
  }

  lemma AddThirtyTwo(b: byte)
    requires !BitAt(b, 5)
    ensures (b | 32) as nat == b as nat + 32
  {
  }

  lemma AddSixtyFour(b: byte)
    requires !BitAt(b, 6)
    ensures (b | 64) as nat == b as nat + 64
  {
  }

  lemma AddLast(b: byte)
    requires !BitAt(b, 7)
    ensures (b | 128) as nat == b as nat + 128
  {
  }

  lemma HalvesTwice(n: nat, k: nat)
    requires 0 < k < 8
    ensures n / 2 / PowerOf(2, k - 1) == n / PowerOf(2, k)
  {
    hide PowerOf;
    Powers();
    match k {
      case 1 => assert n / 2 / 1 == n / 2;
      case 2 => assert n / 2 / 2 == n / 4;
      case 3 => assert n / 2 / 4 == n / 8;
      case 4 => assert n / 2 / 8 == n / 16;
      case 5 => assert n / 2 / 16 == n / 32;
      case 6 => assert n / 2 / 32 == n / 64;
      case _ => assert n / 2 / 64 == n / 128;
    }
  }

  lemma {:induction false} NumberBitsAt(n: nat, width: nat, k: nat)
    requires k < width && k < 8
    ensures NumberBits(n, width)[k] <==> (n / PowerOf(2, k)) % 2 == 1
    decreases width
  {
    hide PowerOf;
    Powers();
    if k > 0 {
      NumberBitsAt(n / 2, width - 1, k - 1);
      HalvesTwice(n, k);
    }
  }

  /** A byte's number is its value, and the other way round. */
  lemma ByteNumberIs(b: byte)
    ensures ByteNumber(b) == b as nat
  {
    hide BitAt, PowerOf, NumberBits, BitsNumber;
    var n := b as nat;
    forall k | 0 <= k < 8 ensures BitsOf(b)[k] == NumberBits(n, 8)[k] {
      BitIsDigit(b, k);
      NumberBitsAt(n, 8, k);
    }
    assert BitsOf(b) == NumberBits(n, 8);
    EighthPower();
    NumberBitsRoundTrip(n, 8);
  }

  lemma EighthPower()
    ensures PowerOf(2, 8) == 256
  {
    Powers();
    assert PowerOf(2, 8) == 2 * PowerOf(2, 7);
  }

  lemma NumberByteIs(n: nat)
    requires n < 256
    ensures NumberByte(n) as nat == n
  {
    hide NumberByte, ByteNumber;
    ByteNumberRoundTrip(n);
    ByteNumberIs(NumberByte(n));
  }

  /** Bit k of byte i comes at place 8i + k. */
  lemma {:induction false} StreamAt(bytes: seq<byte>, i: nat, k: nat)
    requires i < |bytes| && k < 8
    ensures Stream(bytes)[8 * i + k] <==> (bytes[i] as nat / PowerOf(2, k)) % 2 == 1
    decreases i
  {
    hide BitAt;
    if i == 0 { BitIsDigit(bytes[0], k); } else { StreamAt(bytes[1..], i - 1, k); }
  }
}
