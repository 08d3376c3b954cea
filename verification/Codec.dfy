/** The nested value codec: fixed-width scalars, flags, strings, vectors, maps and sets behind 8-byte counts. */
module Codec {
  import opened Bytes
  import opened Bits

  datatype Option<T> = None | Some(value: T)

  datatype Type =
    | Scalar(width: nat)
    | Flag
    | Text
    | Vector(elem: Type)
    | Map(key: Type, value: Type)
    | Set(elem: Type)

  /** A value as its holder compares it. */
  datatype Value =
    | VScalar(bytes: seq<byte>)
    | VFlag(flag: bool)
    | VText(chars: seq<byte>)
    | VVector(elems: seq<Value>)
    | VMap(entries: map<Value, Value>)
    | VSet(members: set<Value>)

  /** A value as a serializer walks it: containers list their elements in iteration order, which for a hash
      container is any order at all. */
  datatype Item =
    | IScalar(bytes: seq<byte>)
    | IFlag(flag: bool)
    | IText(chars: seq<byte>)
    | IVector(elems: seq<Item>)
    | IMap(entries: seq<Entry>)
    | ISet(members: seq<Item>)

  datatype Entry = Entry(key: Item, value: Item)

  const SIZE_LIMIT := 0x1_0000_0000_0000_0000

  predicate Typed(t: Type, x: Item)
    decreases x
  {
    match (t, x)
    case (Scalar(width), IScalar(bytes)) => |bytes| == width
    case (Flag, IFlag(_)) => true
    case (Text, IText(chars)) => |chars| < SIZE_LIMIT
    case (Vector(e), IVector(xs)) => |xs| < SIZE_LIMIT && forall i :: 0 <= i < |xs| ==> Typed(e, xs[i])
    case (Map(k, v), IMap(es)) =>
      |es| < SIZE_LIMIT && forall i :: 0 <= i < |es| ==> Typed(k, es[i].key) && Typed(v, es[i].value)
    case (Set(e), ISet(xs)) => |xs| < SIZE_LIMIT && forall i :: 0 <= i < |xs| ==> Typed(e, xs[i])
    case _ => false
  }

  // ----- the value behind an iteration order

  function ValueOf(x: Item): Value
    decreases x
  {
    match x
    case IScalar(bytes) => VScalar(bytes)
    case IFlag(flag) => VFlag(flag)
    case IText(chars) => VText(chars)
    case IVector(xs) => VVector(ValuesOf(xs))
    case IMap(es) => VMap(Assigned(EntriesOf(es)))
    case ISet(xs) => VSet(Members(ValuesOf(xs)))
  }

  function ValuesOf(xs: seq<Item>): (vs: seq<Value>)
    ensures |vs| == |xs| && forall i :: 0 <= i < |xs| ==> vs[i] == ValueOf(xs[i])
    decreases xs
  {
    seq(|xs|, i requires 0 <= i < |xs| => ValueOf(xs[i]))
  }

  function EntriesOf(es: seq<Entry>): (kvs: seq<(Value, Value)>)
    ensures |kvs| == |es|
    ensures forall i :: 0 <= i < |es| ==> kvs[i] == EntryOf(es[i])
    decreases es
  {
    seq(|es|, i requires 0 <= i < |es| => EntryOf(es[i]))
  }

  function EntryOf(e: Entry): (Value, Value)
    decreases e
  {
    (ValueOf(e.key), ValueOf(e.value))
  }

  /** kv[k] = v for each pair in turn: a later pair for the same key wins. */
  function Assigned<K, V>(kvs: seq<(K, V)>): map<K, V> {
    if kvs == [] then map[] else map[kvs[0].0 := kvs[0].1] + Assigned(kvs[1..])
  }

  function Members(values: seq<Value>): set<Value> {
    set v | v in values
  }

  // ----- counts

  const SIZE_WIDTH := 8

  /** size_t as its bytes in memory, least significant first. */
  function SizeBytes(n: nat, width: nat): (bytes: seq<byte>)
    ensures |bytes| == width
  {
    if width == 0 then [] else [NumberByte(n % 256)] + SizeBytes(n / 256, width - 1)
  }

  function SizeValue(bytes: seq<byte>): nat {
    if bytes == [] then 0 else ByteNumber(bytes[0]) + 256 * SizeValue(bytes[1..])
  }

  lemma {:induction false} SizeRoundTrip(n: nat, width: nat)
    requires n < PowerOf(256, width)
    ensures SizeValue(SizeBytes(n, width)) == n
    decreases width
  {
    hide NumberByte, ByteNumber;
    if width > 0 {
      ByteNumberRoundTrip(n % 256);
      SizeRoundTrip(n / 256, width - 1);
      assert SizeBytes(n, width)[1..] == SizeBytes(n / 256, width - 1);
    }
  }

  lemma CountRoundTrip(n: nat)
    requires n < 0x1_0000_0000_0000_0000
    ensures SizeValue(SizeBytes(n, SIZE_WIDTH)) == n
  {
    assert PowerOf(256, 2) == 0x1_0000 && PowerOf(256, 4) == 0x1_0000_0000;
    assert PowerOf(256, 6) == 0x1_0000_0000_0000 && PowerOf(256, 8) == SIZE_LIMIT;
    SizeRoundTrip(n, SIZE_WIDTH);
  }

  // ----- encoding

  function Encode(x: Item): seq<byte>
    decreases x
  {
    match x
    case IScalar(bytes) => bytes
    case IFlag(flag) => [if flag then 1 else 0]
    case IText(chars) => SizeBytes(|chars|, SIZE_WIDTH) + chars
    case IVector(xs) => SizeBytes(|xs|, SIZE_WIDTH) + EncodeEach(xs)
    case IMap(es) => SizeBytes(|es|, SIZE_WIDTH) + EncodePairs(es)
    case ISet(xs) => SizeBytes(|xs|, SIZE_WIDTH) + EncodeEach(xs)
  }

  function EncodeEach(xs: seq<Item>): seq<byte>
    decreases xs
  {
    if xs == [] then [] else Encode(xs[0]) + EncodeEach(xs[1..])
  }

  function EncodePairs(es: seq<Entry>): seq<byte>
    decreases es
  {
    if es == [] then [] else EncodePair(es[0]) + EncodePairs(es[1..])
  }

  function EncodePair(e: Entry): seq<byte>
    decreases e
  {
    Encode(e.key) + Encode(e.value)
  }

  lemma PowersOfByte()
    ensures PowerOf(256, 0) == 1 && PowerOf(256, 1) == 0x100 && PowerOf(256, 2) == 0x1_0000
    ensures PowerOf(256, 3) == 0x100_0000 && PowerOf(256, 4) == 0x1_0000_0000
    ensures PowerOf(256, 5) == 0x100_0000_0000 && PowerOf(256, 6) == 0x1_0000_0000_0000
    ensures PowerOf(256, 7) == 0x100_0000_0000_0000
  {
    assert PowerOf(256, 1) == 256 * PowerOf(256, 0);
    assert PowerOf(256, 2) == 256 * PowerOf(256, 1) && PowerOf(256, 3) == 256 * PowerOf(256, 2);
    assert PowerOf(256, 4) == 256 * PowerOf(256, 3) && PowerOf(256, 5) == 256 * PowerOf(256, 4);
    assert PowerOf(256, 6) == 256 * PowerOf(256, 5) && PowerOf(256, 7) == 256 * PowerOf(256, 6);
  }

  lemma ByteDown(n: nat, k: nat)
    requires 0 < k < 8
    ensures n / 256 / PowerOf(256, k - 1) == n / PowerOf(256, k)
  {
    hide PowerOf;
    PowersOfByte();
    match k {
      case 1 => assert n / 256 / 1 == n / 256;
      case 2 => assert n / 256 / 0x100 == n / 0x1_0000;
      case 3 => assert n / 256 / 0x1_0000 == n / 0x100_0000;
      case 4 => assert n / 256 / 0x100_0000 == n / 0x1_0000_0000;
      case 5 => assert n / 256 / 0x1_0000_0000 == n / 0x100_0000_0000;
      case 6 => assert n / 256 / 0x100_0000_0000 == n / 0x1_0000_0000_0000;
      case _ => assert n / 256 / 0x1_0000_0000_0000 == n / 0x100_0000_0000_0000;
    }
  }

  /** Byte k of a count is its digit of weight 256^k. */
  lemma {:induction false} CountDigits(n: nat, width: nat, k: nat)
    requires k < width && k < 8
    ensures SizeBytes(n, width)[k] as nat == n / PowerOf(256, k) % 256
    decreases width
  {
    hide PowerOf, NumberByte;
    PowersOfByte();
    if k == 0 {
      NumberByteIs(n % 256);
    } else {
      CountDigits(n / 256, width - 1, k - 1);
      ByteDown(n, k);
    }
  }

  /** Eight bytes that hold the digits of n, least significant first. */
  ghost predicate IsCount(bytes: seq<byte>, n: nat) {
    |bytes| == 8 && forall k :: 0 <= k < 8 ==> bytes[k] as nat == n / PowerOf(256, k) % 256
  }

  lemma CountIs(n: nat)
    ensures IsCount(SizeBytes(n, SIZE_WIDTH), n)
  {
    forall k | 0 <= k < 8 ensures SizeBytes(n, SIZE_WIDTH)[k] as nat == n / PowerOf(256, k) % 256 {
      CountDigits(n, SIZE_WIDTH, k);
    }
  }

  /** The layout of an encoding, byte by byte: a bool is one byte, one or zero; everything of variable length stands
      behind a count of eight bytes, elements in iteration order, each key in front of its value. */
  lemma Layout(x: Item)
    ensures match x
            case IScalar(bytes) => Encode(x) == bytes
            case IFlag(flag) => Encode(x) == [if flag then 1 else 0]
            case IText(chars) => exists count :: IsCount(count, |chars|) && Encode(x) == count + chars
            case IVector(xs) => exists count :: IsCount(count, |xs|) && Encode(x) == count + EncodeEach(xs)
            case IMap(es) => exists count :: IsCount(count, |es|) && Encode(x) == count + EncodePairs(es)
            case ISet(xs) => exists count :: IsCount(count, |xs|) && Encode(x) == count + EncodeEach(xs)
  {
    hide SizeBytes, IsCount;
    match x {
      case IText(chars) => CountIs(|chars|);
      case IVector(xs) => CountIs(|xs|);
      case IMap(es) => CountIs(|es|);
      case ISet(xs) => CountIs(|xs|);
      case _ =>
    }
  }

  lemma LayoutOfParts(x: Item, xs: seq<Item>, k: Item, v: Item, es: seq<Entry>)
    ensures EncodeEach([]) == [] && EncodeEach([x] + xs) == Encode(x) + EncodeEach(xs)
    ensures EncodePairs([]) == [] && EncodePairs([Entry(k, v)] + es) == Encode(k) + Encode(v) + EncodePairs(es)
  {
    hide Encode;
    assert ([x] + xs)[1..] == xs && ([Entry(k, v)] + es)[1..] == es;
  }

  // ----- decoding; None when the input ends too early

  datatype Decoded<T> = Decoded(value: T, rest: seq<byte>)

  function DecodeSize(bytes: seq<byte>): Option<Decoded<nat>> {
    if |bytes| < SIZE_WIDTH then None
    else Some(Decoded(SizeValue(bytes[..SIZE_WIDTH]), bytes[SIZE_WIDTH..]))
  }

  function Decode(t: Type, bytes: seq<byte>): Option<Decoded<Value>>
    decreases t, 1, 0
  {
    match t
    case Scalar(width) =>
      if |bytes| < width then None else Some(Decoded(VScalar(bytes[..width]), bytes[width..]))
    case Flag =>
      if bytes == [] then None else Some(Decoded(VFlag(bytes[0] != 0), bytes[1..]))
    case Text =>
      (match DecodeSize(bytes)
       case None => None
       case Some(Decoded(n, rest)) =>
         if |rest| < n then None else Some(Decoded(VText(rest[..n]), rest[n..])))
    case Vector(e) =>
      (match DecodeSize(bytes)
       case None => None
       case Some(Decoded(n, rest)) =>
         match DecodeEach(e, n, rest)
         case None => None
         case Some(Decoded(vs, rest')) => Some(Decoded(VVector(vs), rest')))
    case Map(k, v) =>
      (match DecodeSize(bytes)
       case None => None
       case Some(Decoded(n, rest)) =>
         match DecodePairs(k, v, n, rest)
         case None => None
         case Some(Decoded(kvs, rest')) => Some(Decoded(VMap(Assigned(kvs)), rest')))
    case Set(e) =>
      (match DecodeSize(bytes)
       case None => None
       case Some(Decoded(n, rest)) =>
         match DecodeEach(e, n, rest)
         case None => None
         case Some(Decoded(vs, rest')) => Some(Decoded(VSet(Members(vs)), rest')))
  }

  function DecodeEach(e: Type, n: nat, bytes: seq<byte>): Option<Decoded<seq<Value>>>
    decreases e, 2, n
  {
    if n == 0 then Some(Decoded([], bytes))
    else
      match Decode(e, bytes)
      case None => None
      case Some(Decoded(v, rest)) =>
        match DecodeEach(e, n - 1, rest)
        case None => None
        case Some(Decoded(vs, rest')) => Some(Decoded([v] + vs, rest'))
  }

  function DecodePair(k: Type, v: Type, bytes: seq<byte>): Option<Decoded<(Value, Value)>>
    decreases Map(k, v), 0, 0
  {
    match Decode(k, bytes)
    case None => None
    case Some(Decoded(key, rest)) =>
      match Decode(v, rest)
      case None => None
      case Some(Decoded(value, rest')) => Some(Decoded((key, value), rest'))
  }

  function DecodePairs(k: Type, v: Type, n: nat, bytes: seq<byte>): Option<Decoded<seq<(Value, Value)>>>
    decreases Map(k, v), 0, n + 1
  {
    if n == 0 then Some(Decoded([], bytes))
    else
      match DecodePair(k, v, bytes)
      case None => None
      case Some(Decoded(kv, rest)) =>
        match DecodePairs(k, v, n - 1, rest)
        case None => None
        case Some(Decoded(kvs, rest')) => Some(Decoded([kv] + kvs, rest'))
  }

  // ----- round trip

  lemma DecodeSizeOf(n: nat, rest: seq<byte>)
    requires n < SIZE_LIMIT
    ensures DecodeSize(SizeBytes(n, SIZE_WIDTH) + rest) == Some(Decoded(n, rest))
  {
    CountRoundTrip(n);
    var bytes := SizeBytes(n, SIZE_WIDTH) + rest;
    assert bytes[..SIZE_WIDTH] == SizeBytes(n, SIZE_WIDTH) && bytes[SIZE_WIDTH..] == rest;
  }

  /** Decoding what was encoded, with anything after it, gives the value back and leaves exactly what came after,
      for every nested type and every iteration order. */
  lemma {:induction false} RoundTrip(t: Type, x: Item, rest: seq<byte>)
    requires Typed(t, x)
    ensures Decode(t, Encode(x) + rest) == Some(Decoded(ValueOf(x), rest))
    decreases x, 1
  {
    hide SizeBytes, SizeValue, DecodeSize;
    match x {
      case IScalar(bytes) =>
        assert (bytes + rest)[..|bytes|] == bytes && (bytes + rest)[|bytes|..] == rest;
      case IFlag(_) =>
      case IText(chars) =>
        DecodeSizeOf(|chars|, chars + rest);
        assert Encode(x) + rest == SizeBytes(|chars|, SIZE_WIDTH) + (chars + rest);
        assert (chars + rest)[..|chars|] == chars && (chars + rest)[|chars|..] == rest;
      case IVector(xs) =>
        DecodeSizeOf(|xs|, EncodeEach(xs) + rest);
        assert Encode(x) + rest == SizeBytes(|xs|, SIZE_WIDTH) + (EncodeEach(xs) + rest);
        RoundTripEach(t.elem, xs, rest);
      case IMap(es) =>
        DecodeSizeOf(|es|, EncodePairs(es) + rest);
        assert Encode(x) + rest == SizeBytes(|es|, SIZE_WIDTH) + (EncodePairs(es) + rest);
        RoundTripPairs(t.key, t.value, es, rest);
      case ISet(xs) =>
        DecodeSizeOf(|xs|, EncodeEach(xs) + rest);
        assert Encode(x) + rest == SizeBytes(|xs|, SIZE_WIDTH) + (EncodeEach(xs) + rest);
        RoundTripEach(t.elem, xs, rest);
    }
  }

  lemma {:induction false} RoundTripEach(e: Type, xs: seq<Item>, rest: seq<byte>)
    requires forall i :: 0 <= i < |xs| ==> Typed(e, xs[i])
    ensures DecodeEach(e, |xs|, EncodeEach(xs) + rest) == Some(Decoded(ValuesOf(xs), rest))
    decreases xs, 0
  {
    hide Encode, Decode, ValueOf, Typed;
    if xs == [] {
      assert [] + rest == rest;
    } else {
      assert EncodeEach(xs) + rest == Encode(xs[0]) + (EncodeEach(xs[1..]) + rest);
      RoundTrip(e, xs[0], EncodeEach(xs[1..]) + rest);
      RoundTripEach(e, xs[1..], rest);
      assert ValuesOf(xs) == [ValueOf(xs[0])] + ValuesOf(xs[1..]);
    }
  }

  lemma {:induction false} RoundTripPairs(k: Type, v: Type, es: seq<Entry>, rest: seq<byte>)
    requires forall i :: 0 <= i < |es| ==> Typed(k, es[i].key) && Typed(v, es[i].value)
    ensures DecodePairs(k, v, |es|, EncodePairs(es) + rest) == Some(Decoded(EntriesOf(es), rest))
    decreases es, 0
  {
    hide EncodePair, DecodePair, EntryOf, Typed;
    if es == [] {
      assert [] + rest == rest;
    } else {
      assert EncodePairs(es) + rest == EncodePair(es[0]) + (EncodePairs(es[1..]) + rest);
      RoundTripPair(k, v, es[0], EncodePairs(es[1..]) + rest);
      RoundTripPairs(k, v, es[1..], rest);
      assert EntriesOf(es) == [EntryOf(es[0])] + EntriesOf(es[1..]);
    }
  }

  lemma {:induction false} RoundTripPair(k: Type, v: Type, e: Entry, rest: seq<byte>)
    requires Typed(k, e.key) && Typed(v, e.value)
    ensures DecodePair(k, v, EncodePair(e) + rest) == Some(Decoded(EntryOf(e), rest))
    decreases e, 0
  {
    assert EncodePair(e) + rest == Encode(e.key) + (Encode(e.value) + rest);
    RoundTrip(k, e.key, Encode(e.value) + rest);
    RoundTrip(v, e.value, rest);
  }

  /** No encoding of a type is a proper prefix of another one of that type, and equal encodings mean equal values. */
  lemma PrefixFree(t: Type, x: Item, y: Item, restX: seq<byte>, restY: seq<byte>)
    requires Typed(t, x) && Typed(t, y)
    requires Encode(x) + restX == Encode(y) + restY
    ensures ValueOf(x) == ValueOf(y) && restX == restY && Encode(x) == Encode(y)
  {
    RoundTrip(t, x, restX);
    RoundTrip(t, y, restY);
    assert Encode(x) == (Encode(x) + restX)[..|Encode(x)|];
    assert Encode(y) == (Encode(y) + restY)[..|Encode(y)|];
  }

  // ----- concatenations of values of any types

  function DecodeAll(ts: seq<Type>, bytes: seq<byte>): Option<Decoded<seq<Value>>>
  {
    if ts == [] then Some(Decoded([], bytes))
    else
      match Decode(ts[0], bytes)
      case None => None
      case Some(Decoded(v, rest)) =>
        match DecodeAll(ts[1..], rest)
        case None => None
        case Some(Decoded(vs, rest')) => Some(Decoded([v] + vs, rest'))
  }

  /** A concatenation decodes to exactly the values written, one after the other. */
  lemma {:induction false} ConcatenationRoundTrip(ts: seq<Type>, xs: seq<Item>, rest: seq<byte>)
    requires |ts| == |xs| && forall i :: 0 <= i < |xs| ==> Typed(ts[i], xs[i])
    ensures DecodeAll(ts, EncodeEach(xs) + rest) == Some(Decoded(ValuesOf(xs), rest))
    decreases |xs|
  {
    if xs == [] {
      assert [] + rest == rest;
    } else {
      assert EncodeEach(xs) + rest == Encode(xs[0]) + (EncodeEach(xs[1..]) + rest);
      RoundTrip(ts[0], xs[0], EncodeEach(xs[1..]) + rest);
      ConcatenationRoundTrip(ts[1..], xs[1..], rest);
      assert ValuesOf(xs) == [ValueOf(xs[0])] + ValuesOf(xs[1..]);
    }
  }

  // ----- iteration order does not matter

  ghost predicate DistinctKeys<K, V>(kvs: seq<(K, V)>) {
    forall i, j :: 0 <= i < j < |kvs| ==> kvs[i].0 != kvs[j].0
  }

  /** kvs lists the entries of m, each once, in some order. */
  ghost predicate Lists<K, V>(kvs: seq<(K, V)>, m: map<K, V>) {
    && DistinctKeys(kvs)
    && (forall i :: 0 <= i < |kvs| ==> kvs[i].0 in m && m[kvs[i].0] == kvs[i].1)
    && (forall k :: k in m ==> (k, m[k]) in kvs)
  }

  /** A map assigned from any listing of its entries is that map: the iteration order leaves no trace. */
  lemma {:induction false} AnyOrderAssigns<K, V>(kvs: seq<(K, V)>, m: map<K, V>)
    requires Lists(kvs, m)
    ensures Assigned(kvs) == m
    decreases |kvs|
  {
    if kvs == [] {
      assert m.Keys == {};
    } else {
      ListsRest(kvs, m);
      AnyOrderAssigns(kvs[1..], m - {kvs[0].0});
    }
  }

  lemma ListsRest<K, V>(kvs: seq<(K, V)>, m: map<K, V>)
    requires Lists(kvs, m) && kvs != []
    ensures Lists(kvs[1..], m - {kvs[0].0})
    ensures m == map[kvs[0].0 := kvs[0].1] + (m - {kvs[0].0})
  {
    var rest := m - {kvs[0].0};
    forall i | 0 <= i < |kvs[1..]| ensures kvs[1..][i].0 in rest && rest[kvs[1..][i].0] == kvs[1..][i].1 {
      assert kvs[1..][i] == kvs[i + 1];
    }
    forall j | j in rest ensures (j, rest[j]) in kvs[1..] {
      assert (j, m[j]) in kvs;
      assert kvs[0] != (j, m[j]);
    }
  }

  lemma AssignedNothing<K, V>(m: map<K, V>)
    ensures m + Assigned([]) == m
  {
  }

  /** Assigning one pair more overrides by its key. */
  lemma {:induction false} AssignedLast<K, V>(kvs: seq<(K, V)>, kv: (K, V))
    ensures Assigned(kvs + [kv]) == Assigned(kvs)[kv.0 := kv.1]
  {
    if kvs == [] {
      assert [kv][1..] == [];
    } else {
      assert (kvs + [kv])[1..] == kvs[1..] + [kv];
      AssignedLast(kvs[1..], kv);
    }
  }

  /** Whatever order a hash map is walked in, its encoding decodes to the map itself. */
  lemma MapRoundTripInAnyOrder(k: Type, v: Type, es: seq<Entry>, m: map<Value, Value>, rest: seq<byte>)
    requires Typed(Map(k, v), IMap(es)) && Lists(EntriesOf(es), m)
    ensures Decode(Map(k, v), Encode(IMap(es)) + rest) == Some(Decoded(VMap(m), rest))
  {
    RoundTrip(Map(k, v), IMap(es), rest);
    AnyOrderAssigns(EntriesOf(es), m);
  }

  lemma SetRoundTripInAnyOrder(e: Type, xs: seq<Item>, members: set<Value>, rest: seq<byte>)
    requires Typed(Set(e), ISet(xs)) && forall v :: v in ValuesOf(xs) <==> v in members
    ensures Decode(Set(e), Encode(ISet(xs)) + rest) == Some(Decoded(VSet(members), rest))
  {
    RoundTrip(Set(e), ISet(xs), rest);
    assert Members(ValuesOf(xs)) == members;
  }

  // ----- decoding into a target that already holds something

  /** Vectors are appended to, maps overridden by key, sets united with; everything else is replaced. */
  function Merge(target: Value, decoded: Value): Value {
    match (target, decoded)
    case (VVector(a), VVector(b)) => VVector(a + b)
    case (VMap(a), VMap(b)) => VMap(a + b)
    case (VSet(a), VSet(b)) => VSet(a + b)
    case _ => decoded
  }
}
