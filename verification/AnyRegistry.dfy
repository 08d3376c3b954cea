/** The registry that tags std::any values by stable name: four maps filled by register_type. */
module AnyRegistry {
  import opened Bytes
  import opened Codec
  import opened Deserializing
  import opened ShortInput

  type TypeId = nat
  type Name = seq<byte>

  datatype Any = Empty | Holding(id: TypeId, value: Value)

  type Serializer = Any -> seq<byte>
  type Deserializer = (Any, Source) -> (Any, Source)

  /** One call of register_type. */
  datatype Registration = Registration(id: TypeId, name: Name, ser: Serializer, deser: Deserializer)

  datatype Maps = Maps(
    serializers: map<TypeId, Serializer>,
    deserializers: map<TypeId, Deserializer>,
    typeNames: map<TypeId, Name>,
    nameTypes: map<Name, TypeId>)

  function Register(m: Maps, g: Registration): Maps {
    if g.name in m.nameTypes then m
    else Maps(m.serializers[g.id := g.ser], m.deserializers[g.id := g.deser],
              m.typeNames[g.id := g.name], m.nameTypes[g.name := g.id])
  }

  function Registered(history: seq<Registration>): Maps {
    if history == [] then Maps(map[], map[], map[], map[])
    else Register(Registered(history[..|history| - 1]), history[|history| - 1])
  }

  datatype ReadResult =
    | UnknownName(name: Name)        // throws: no type of that name
    | NoDeserializer(name: Name)     // throws: a name without a deserializer
    | Read(any: Any, source: Source)

  function SerializeAny(m: Maps, a: Any): seq<byte> {
    if a.Empty? || a.id !in m.serializers || a.id !in m.typeNames then Encode(IFlag(false))
    else Encode(IFlag(true)) + Encode(IText(m.typeNames[a.id])) + m.serializers[a.id](a)
  }

  function DeserializeAny(m: Maps, target: Any, s: Source): ReadResult {
    var (present, u) := Take(Flag, VFlag(false), s);
    if u.flagged || present == VFlag(false) then Read(target, u) else DeserializeNamed(m, target, u)
  }

  function DeserializeNamed(m: Maps, target: Any, s: Source): ReadResult {
    var (name, u) := TakeText([], s);
    if u.flagged then Read(target, u)
    else if name !in m.nameTypes then UnknownName(name)
    else if m.nameTypes[name] !in m.deserializers then NoDeserializer(name)
    else Finished(m.deserializers[m.nameTypes[name]](target, u))
  }

  function Finished(r: (Any, Source)): ReadResult { Read(r.0, r.1) }

  // ----- which registrations count

  /** A registration is taken exactly when no earlier one used its name. */
  ghost predicate Taken(history: seq<Registration>, i: nat)
    requires i < |history|
  {
    forall j :: 0 <= j < i ==> history[j].name != history[i].name
  }

  /** The registration in force for a type: the last one taken. */
  ghost predicate Current(history: seq<Registration>, t: TypeId, i: nat) {
    && i < |history| && history[i].id == t && Taken(history, i)
    && forall j :: i < j < |history| && history[j].id == t ==> !Taken(history, j)
  }

  lemma {:induction false} NamesBound(history: seq<Registration>)
    ensures forall i :: 0 <= i < |history| ==> history[i].name in Registered(history).nameTypes
    ensures forall n :: n in Registered(history).nameTypes ==> exists i :: 0 <= i < |history| && history[i].name == n
  {
    if history != [] {
      var k := |history| - 1;
      var before := history[..k];
      NamesBound(before);
      forall i | 0 <= i < |history| ensures history[i].name in Registered(history).nameTypes {
        if i < k { assert before[i] == history[i]; }
      }
      forall n | n in Registered(history).nameTypes ensures exists i :: 0 <= i < |history| && history[i].name == n {
        if n in Registered(before).nameTypes {
          var i :| 0 <= i < |before| && before[i].name == n;
          assert history[i].name == n;
        } else {
          assert history[k].name == n;
        }
      }
    }
  }

  lemma LastTaken(history: seq<Registration>)
    requires history != []
    ensures var k := |history| - 1;
            Taken(history, k) <==> history[k].name !in Registered(history[..k]).nameTypes
  {
    var k := |history| - 1;
    var before := history[..k];
    NamesBound(before);
    forall j | 0 <= j < k ensures before[j] == history[j] {
    }
    if history[k].name in Registered(before).nameTypes {
      var i :| 0 <= i < |before| && before[i].name == history[k].name;
      assert history[i].name == history[k].name;
    }
  }

  /** A bound name is never rebound: later registrations only add names. */
  lemma {:induction false} NamesNeverRebound(history: seq<Registration>, more: seq<Registration>)
    ensures forall n :: n in Registered(history).nameTypes ==>
              n in Registered(history + more).nameTypes &&
              Registered(history + more).nameTypes[n] == Registered(history).nameTypes[n]
    decreases |more|
  {
    if more == [] {
      assert history + more == history;
    } else {
      var k := |more| - 1;
      NamesNeverRebound(history, more[..k]);
      assert (history + more)[..|history| + k] == history + more[..k];
    }
  }

  /** After any history, the type of a current registration has that registration's name, serializer and
      deserializer, all three from the same call, and the name leads back to the type. */
  lemma {:induction false} CurrentInForce(history: seq<Registration>, t: TypeId, i: nat)
    requires Current(history, t, i)
    ensures var m := Registered(history);
            && t in m.serializers && m.serializers[t] == history[i].ser
            && t in m.deserializers && m.deserializers[t] == history[i].deser
            && t in m.typeNames && m.typeNames[t] == history[i].name
            && history[i].name in m.nameTypes && m.nameTypes[history[i].name] == t
    decreases |history|
  {
    var k := |history| - 1;
    LastTaken(history);
    if i < k {
      var before := history[..k];
      assert forall j :: 0 <= j < k ==> before[j] == history[j];
      CurrentBefore(history, t, i);
      CurrentInForce(before, t, i);
    }
  }

  lemma CurrentBefore(history: seq<Registration>, t: TypeId, i: nat)
    requires Current(history, t, i) && i < |history| - 1
    ensures Current(history[..|history| - 1], t, i)
  {
    var before := history[..|history| - 1];
    forall j | i < j < |before| && before[j].id == t ensures !Taken(before, j) {
      assert !Taken(history, j);
    }
  }

  /** Every type with a serializer has a current registration. */
  lemma {:induction false} SerializableHasCurrent(history: seq<Registration>, t: TypeId) returns (i: nat)
    requires var m := Registered(history); t in m.serializers || t in m.deserializers || t in m.typeNames
    ensures Current(history, t, i)
    decreases |history|
  {
    var k := |history| - 1;
    var before := history[..k];
    LastTaken(history);
    if Taken(history, k) && history[k].id == t {
      i := k;
    } else {
      i := SerializableHasCurrent(before, t);
      forall j | i < j < |history| && history[j].id == t ensures !Taken(history, j) {
        if j < k { assert !Taken(before, j); }
      }
    }
  }

  /** The type of every bound name has a deserializer. */
  lemma {:induction false} NamedHasDeserializer(history: seq<Registration>, n: Name)
    requires n in Registered(history).nameTypes
    ensures Registered(history).nameTypes[n] in Registered(history).deserializers
    decreases |history|
  {
    var before := history[..|history| - 1];
    if n in Registered(before).nameTypes {
      NamedHasDeserializer(before, n);
    }
  }

  /** The second error of deserialize, a name without a deserializer, cannot happen after any history. */
  lemma NeverNoDeserializer(history: seq<Registration>, target: Any, s: Source, n: Name)
    ensures DeserializeAny(Registered(history), target, s) != NoDeserializer(n)
  {
    hide Take, TakeText, Registered;
    var (_, u) := Take(Flag, VFlag(false), s);
    var (name, _) := TakeText([], u);
    if name in Registered(history).nameTypes { NamedHasDeserializer(history, name); }
  }

  // ----- what is written is read back

  /** No replay buffer, and the flag clear: what `>>` needs to read a string and a bool. */
  ghost predicate Direct(s: Source) { !s.from.Replayed? && !s.flagged }

  /** The deserializer undoes the serializer for this value, whatever the target held. */
  ghost predicate Inverts(deser: Deserializer, ser: Serializer, a: Any) {
    forall target, s, rest :: ReadsBack(deser, ser, a, target, s, rest)
  }

  ghost predicate ReadsBack(deser: Deserializer, ser: Serializer, a: Any, target: Any, s: Source, rest: seq<byte>) {
    Direct(s) && View(s) == ser(a) + rest ==> deser(target, s).0 == a && View(deser(target, s).1) == rest
  }

  /** What the built-in serializers of scalars and strings write. */
  function PlainBytes(a: Any): seq<byte> {
    match a
    case Holding(_, VScalar(bytes)) => Encode(IScalar(bytes))
    case Holding(_, VText(chars)) => Encode(IText(chars))
    case _ => []
  }

  /** `TYPE value; serial >> value; any = value`, unless the flag is set. */
  function PlainAny(id: TypeId, t: Type, target: Any, s: Source): (Any, Source) {
    var (v, u) := Take(t, Fresh(t, s.junk), s);
    (if u.flagged then target else Holding(id, v), u)
  }

  /** The registration the built-in types and the registering macro make. */
  function PlainRegistration(id: TypeId, name: Name, t: Type): Registration {
    Registration(id, name, PlainBytes, (target, s) => PlainAny(id, t, target, s))
  }

  lemma PlainRegistrationInverts(id: TypeId, name: Name, t: Type, x: Item)
    requires Typed(t, x) && (x.IScalar? || x.IText?)
    ensures Inverts(PlainRegistration(id, name, t).deser, PlainRegistration(id, name, t).ser, Holding(id, ValueOf(x)))
  {
    hide Encode, Take, Carried, View;
    var g, a := PlainRegistration(id, name, t), Holding(id, ValueOf(x));
    forall target, s, rest ensures ReadsBack(g.deser, g.ser, a, target, s, rest) {
      if Direct(s) && View(s) == g.ser(a) + rest {
        PlainAnyReads(id, t, x, target, s, rest);
      }
    }
  }

  lemma PlainAnyReads(id: TypeId, t: Type, x: Item, target: Any, s: Source, rest: seq<byte>)
    requires Typed(t, x) && (x.IScalar? || x.IText?) && Direct(s) && View(s) == Encode(x) + rest
    ensures var (a, u) := PlainAny(id, t, target, s);
            a == Holding(id, ValueOf(x)) && View(u) == rest
  {
    hide Encode, Take, Carried, View;
    TakeOfEncoded(t, x, Fresh(t, s.junk), s, rest);
    CarriedKeepsFlag(s, Take(t, Fresh(t, s.junk), s).1);
  }

  /** What was written while registration i was current is handed to whatever deserializer is current for the same
      type when it is read, however many registrations came in between: it starts right at the old payload. */
  lemma NameSelectsSameType(history: seq<Registration>, more: seq<Registration>, a: Any, target: Any, s: Source,
                            rest: seq<byte>, i: nat, j: nat) returns (payload: Source)
    requires a.Holding? && Current(history, a.id, i) && Current(history + more, a.id, j)
    requires |history[i].name| < SIZE_LIMIT
    requires Direct(s) && View(s) == SerializeAny(Registered(history), a) + rest
    ensures Direct(payload) && View(payload) == history[i].ser(a) + rest
    ensures DeserializeAny(Registered(history + more), target, s) ==
            Finished((history + more)[j].deser(target, payload))
  {
    hide Encode, Take, TakeText, View, Carried, Registered;
    CurrentInForce(history, a.id, i);
    CurrentInForce(history + more, a.id, j);
    NamesNeverRebound(history, more);
    var name, written := history[i].name, history[i].ser(a);
    TaggedBytes(Registered(history), a, rest);
    var u := FlagTaken(s, true, Encode(IText(name)) + (written + rest));
    payload := NameTaken(u, name, written + rest);
  }

  /** A whole name throws exactly when no registration of the history has it. */
  lemma UnknownNameThrows(history: seq<Registration>, target: Any, s: Source, name: Name, rest: seq<byte>)
    requires Direct(s) && |name| < 0x1_0000_0000_0000_0000
    requires View(s) == Encode(IFlag(true)) + (Encode(IText(name)) + rest)
    ensures DeserializeAny(Registered(history), target, s) == UnknownName(name) <==>
            forall i :: 0 <= i < |history| ==> history[i].name != name
  {
    hide Encode, Take, TakeText, View, Registered;
    NamesBound(history);
    var u := FlagTaken(s, true, Encode(IText(name)) + rest);
    var _ := NameTaken(u, name, rest);
  }

  /** With the flag set, an any is left alone whatever the input holds: only its first byte is read. */
  lemma FlaggedAnyIsLeftAlone(m: Maps, target: Any, s: Source)
    requires s.flagged
    ensures DeserializeAny(m, target, s) == Read(target, FillCurrent(s))
    ensures !s.from.Replayed? && View(s) != [] ==> View(FillCurrent(s)) == View(s)[1..]
  {
    hide FillCurrent, TakeText, View;
    TakeKeepsSettings(Flag, VFlag(false), s);
    if !s.from.Replayed? && View(s) != [] { CurrentDelivers(s); }
  }

  lemma TaggedBytes(m: Maps, a: Any, rest: seq<byte>)
    requires a.Holding? && a.id in m.serializers && a.id in m.typeNames
    ensures SerializeAny(m, a) + rest ==
            Encode(IFlag(true)) + (Encode(IText(m.typeNames[a.id])) + (m.serializers[a.id](a) + rest))
  {
    hide Encode;
  }

  lemma FlagTaken(s: Source, flag: bool, rest: seq<byte>) returns (u: Source)
    requires Direct(s) && View(s) == Encode(IFlag(flag)) + rest
    ensures Take(Flag, VFlag(false), s) == (VFlag(flag), u) && Direct(u) && View(u) == rest
  {
    hide Encode, View, Take;
    TakeOfEncoded(Flag, IFlag(flag), VFlag(false), s, rest);
    u := Take(Flag, VFlag(false), s).1;
  }

  lemma NameTaken(s: Source, name: Name, rest: seq<byte>) returns (u: Source)
    requires Direct(s) && |name| < SIZE_LIMIT && View(s) == Encode(IText(name)) + rest
    ensures TakeText([], s) == (name, u) && Direct(u) && View(u) == rest
  {
    hide Encode, View, TakeText;
    TakeOfEncoded(Text, IText(name), VText([]), s, rest);
    u := TakeText([], s).1;
  }

  /** A registered any round-trips, leaving exactly what came after it. */
  lemma RegisteredRoundTrip(history: seq<Registration>, a: Any, target: Any, s: Source, rest: seq<byte>, i: nat)
    requires a.Holding? && Current(history, a.id, i) && |history[i].name| < SIZE_LIMIT
    requires Inverts(history[i].deser, history[i].ser, a)
    requires Direct(s) && View(s) == SerializeAny(Registered(history), a) + rest
    ensures var r := DeserializeAny(Registered(history), target, s);
            r.Read? && r.any == a && View(r.source) == rest
  {
    assert history + [] == history;
    OldNameRoundTrip(history, [], a, target, s, rest, i, i);
  }

  /** Bytes written under an old name are still read as the same value, if the type's current deserializer still
      understands what the old serializer wrote. */
  lemma OldNameRoundTrip(history: seq<Registration>, more: seq<Registration>, a: Any, target: Any, s: Source,
                         rest: seq<byte>, i: nat, j: nat)
    requires a.Holding? && Current(history, a.id, i) && Current(history + more, a.id, j)
    requires |history[i].name| < SIZE_LIMIT
    requires Inverts((history + more)[j].deser, history[i].ser, a)
    requires Direct(s) && View(s) == SerializeAny(Registered(history), a) + rest
    ensures var r := DeserializeAny(Registered(history + more), target, s);
            r.Read? && r.any == a && View(r.source) == rest
  {
    hide DeserializeAny, SerializeAny, View, Registered, Direct;
    var payload := NameSelectsSameType(history, more, a, target, s, rest, i, j);
    assert ReadsBack((history + more)[j].deser, history[i].ser, a, target, payload, rest);
  }

  /** An empty any, or one of a type no registration was taken for, writes one false flag, and reading that leaves
      the target as it was. */
  lemma UnregisteredWritesFlag(history: seq<Registration>, reader: Maps, a: Any, target: Any, s: Source,
                               rest: seq<byte>)
    requires a.Empty? || forall i :: !Current(history, a.id, i)
    requires Direct(s) && View(s) == SerializeAny(Registered(history), a) + rest
    ensures SerializeAny(Registered(history), a) == [0]
    ensures var r := DeserializeAny(reader, target, s);
            r.Read? && r.any == target && View(r.source) == rest
  {
    hide View, Take, TakeText, Registered;
    if a.Holding? && a.id in Registered(history).serializers {
      var i := SerializableHasCurrent(history, a.id);
      assert false;
    }
    var _ := FlagTaken(s, false, rest);
  }

  // ----- an any cut short

  /** The name that is looked up when fewer than eight bytes are left for its count: a buffer gives no name, a stream
      as many zeros as its bytes say. */
  function CutName(s: Source): Name
    requires |View(s)| < SIZE_WIDTH
  {
    if s.from.Counted? || s.from.Buffer? then []
    else Zeros(SizeValue(View(s) + Zeros(SIZE_WIDTH - |View(s)|)))
  }

  /** With the flag clear, an any cut short in the count of its name does not stop there: it throws exactly when the
      made-up name is not registered, and goes on to the deserializer of that name when it is. */
  lemma CutNameIsLookedUp(history: seq<Registration>, target: Any, s: Source, u: Source)
    requires Take(Flag, VFlag(false), s) == (VFlag(true), u) && !s.flagged && |View(u)| < SIZE_WIDTH
    ensures var m, name := Registered(history), CutName(u);
            if name !in m.nameTypes then DeserializeAny(m, target, s) == UnknownName(name)
            else
              m.nameTypes[name] in m.deserializers &&
              DeserializeAny(m, target, s) == Finished(m.deserializers[m.nameTypes[name]](target, TakeText([], u).1))
  {
    hide Take, TakeText, View, Registered, CutName;
    TakeKeepsSettings(Flag, VFlag(false), s);
    CutNameTaken(u);
    var (name, w) := TakeText([], u);
    if name in Registered(history).nameTypes { NamedHasDeserializer(history, name); }
  }

  lemma CutNameTaken(s: Source)
    requires |View(s)| < SIZE_WIDTH && !s.flagged
    ensures TakeText([], s).0 == CutName(s) && !TakeText([], s).1.flagged
  {
    hide SizeBytes, SizeValue, View, Fill, TakeCount, Resized;
    CountRoundTrip(0);
    CutCountTaken(s, 0);
    ZeroCount(SIZE_WIDTH);
    var (n, u) := TakeCount(s, 0);
    FillDelivers(u, Resized([], n));
    FillKeepsSettings(u, Resized([], n));
    FreshTextIsZeros(n, s.junk);
    NoneBefore(Resized([], n)[0..]);
    assert Zeros(SIZE_WIDTH)[|View(s)|..] == Zeros(SIZE_WIDTH - |View(s)|);
    if s.from.Counted? || s.from.Buffer? { assert Resized([], 0) == []; }
  }

  /** So a buffer whose any ends in that count throws unless an empty name is registered. */
  lemma CutNameInBuffer(history: seq<Registration>, target: Any, s: Source, bytes: seq<byte>)
    requires s.from == Buffer([1] + bytes) && |bytes| < SIZE_WIDTH && !s.flagged
    ensures DeserializeAny(Registered(history), target, s) == UnknownName([]) <==>
            [] !in Registered(history).nameTypes
  {
    hide DeserializeAny, Registered, Take, TakeText;
    FlagInFront(s, 1, bytes);
    CutNameIsLookedUp(history, target, s, s.(from := Buffer(bytes), current := 1));
  }

  /** And a stream that ends with the bytes one and three throws unless the name of three zero bytes is registered. */
  lemma CutNameOnStream(history: seq<Registration>, target: Any, s: Source)
    requires s.from == Stream([1] + [3]) && !s.flagged
    ensures DeserializeAny(Registered(history), target, s) == UnknownName([0, 0, 0]) <==>
            [0, 0, 0] !in Registered(history).nameTypes
  {
    hide DeserializeAny, Registered, Take, TakeText, SizeValue;
    FlagInFront(s, 1, [3]);
    ThreeAndZeros();
    assert Zeros(3) == [0, 0, 0];
    CutNameIsLookedUp(history, target, s, s.(from := Stream([3]), current := 1));
  }

  lemma FlagInFront(s: Source, b: byte, bytes: seq<byte>)
    ensures s.from == Buffer([b] + bytes) ==>
              Take(Flag, VFlag(false), s) == (VFlag(b != 0), s.(from := Buffer(bytes), current := b))
    ensures s.from == Stream([b] + bytes) ==>
              Take(Flag, VFlag(false), s) == (VFlag(b != 0), s.(from := Stream(bytes), current := b))
  {
    assert ([b] + bytes)[1..] == bytes && ([b] + bytes)[..1] == [b];
  }

  /** With nothing left where the flag should be, the last byte read as a bool decides whether a name is looked up. */
  lemma NothingLeftOfAny(history: seq<Registration>, target: Any, s: Source)
    requires View(s) == []
    ensures var m, r := Registered(history), DeserializeAny(Registered(history), target, s);
            && (s.flagged || s.current == 0 ==> r == Read(target, Take(Flag, VFlag(false), s).1))
            && (!s.flagged && s.current != 0 ==> (r == UnknownName([]) <==> [] !in m.nameTypes))
  {
    hide Take, TakeText, View, Registered, DeserializeNamed, SizeValue;
    MissingBoolRepeats(s, false);
    TakeKeepsSettings(Flag, VFlag(false), s);
    var u := Take(Flag, VFlag(false), s).1;
    if !s.flagged && s.current != 0 {
      NothingLeftAfterBool(s);
      CutNameOfNothing(u);
      CutNameIsLookedUp(history, target, s, u);
    }
  }

  lemma CutNameOfNothing(s: Source)
    requires View(s) == []
    ensures CutName(s) == []
  {
    hide View, SizeValue;
    NoCountIsZero();
  }

  lemma NothingLeftAfterBool(s: Source)
    requires View(s) == []
    ensures View(Take(Flag, VFlag(false), s).1) == []
  {
    hide Fill;
    FillDelivers(s, [s.current]);
  }

  /** A deserializer of the built-in kind leaves its target alone exactly when the flag is set, or what it read,
      complete or not, is what the target holds. */
  lemma CutValueIsAssigned(id: TypeId, t: Type, target: Any, s: Source)
    ensures PlainAny(id, t, target, s).0 == target <==>
            s.flagged || target == Holding(id, Take(t, Fresh(t, s.junk), s).0)
  {
    hide Take, Fresh;
    TakeKeepsSettings(t, Fresh(t, s.junk), s);
  }

  // ----- the registry object

  class Registry {
    var serializers: map<TypeId, Serializer>
    var deserializers: map<TypeId, Deserializer>
    var typeNames: map<TypeId, Name>
    var nameTypes: map<Name, TypeId>
    ghost var history: seq<Registration>

    ghost predicate Valid()
      reads this
    {
      Maps(serializers, deserializers, typeNames, nameTypes) == Registered(history)
    }

    constructor ()
      ensures Valid() && history == []
    {
      serializers, deserializers, typeNames, nameTypes := map[], map[], map[], map[];
      history := [];
    }

    method RegisterType(id: TypeId, name: Name, ser: Serializer, deser: Deserializer)
      requires Valid()
      modifies this
      ensures Valid() && history == old(history) + [Registration(id, name, ser, deser)]
    {
      history := history + [Registration(id, name, ser, deser)];
      assert history[..|history| - 1] == old(history);
      if name in nameTypes {
        return;
      }
      serializers := serializers[id := ser];
      deserializers := deserializers[id := deser];
      typeNames := typeNames[id := name];
      nameTypes := nameTypes[name := id];
    }

    method Serialize(a: Any) returns (bytes: seq<byte>)
      requires Valid()
      ensures bytes == SerializeAny(Registered(history), a)
    {
      if a.Empty? { return Encode(IFlag(false)); }
      if a.id !in serializers { return Encode(IFlag(false)); }
      if a.id !in typeNames { return Encode(IFlag(false)); }
      bytes := Encode(IFlag(true));
      bytes := bytes + Encode(IText(typeNames[a.id]));
      bytes := bytes + serializers[a.id](a);
    }

    method Deserialize(target: Any, s: Source) returns (result: ReadResult)
      requires Valid()
      ensures result == DeserializeAny(Registered(history), target, s)
    {
      hide TakeText;
      var (present, u) := Take(Flag, VFlag(false), s);
      if u.flagged { return Read(target, u); }
      if present == VFlag(false) { return Read(target, u); }
      var (name, w) := TakeText([], u);
      if w.flagged { return Read(target, w); }
      if name !in nameTypes { return UnknownName(name); }
      var id := nameTypes[name];
      if id !in deserializers { return NoDeserializer(name); }
      var (any, x) := deserializers[id](target, w);
      result := Read(any, x);
    }
  }
}
