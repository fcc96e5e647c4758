/** The wire format by itself (Protocol Buffers Encoding, "Message Structure"):
    what the encoder writes is a run of numbered values of the four wire types,
    and a reader that knows none of the fields can skip them. */
module NanopbWire {
  import opened Prelude
  import opened NanopbVarint
  import opened NanopbOverlong
  import opened NanopbSchema
  import opened NanopbDecode
  import opened NanopbEncode
  import opened NanopbRoundTrip
  import opened NanopbMerge

  /** A value as the format has it, whatever its field's type. */
  datatype Wire = Number(n: nat) | Eight(bytes: seq<byte>) | Block(bytes: seq<byte>) | Four(bytes: seq<byte>)

  predicate Carriable(w: Wire) {
    match w
    case Number(n) => n < TWO64
    case Eight(bytes) => |bytes| == 8
    case Block(bytes) => |bytes| < TWO32
    case Four(bytes) => |bytes| == 4
  }

  /** The wire types of the format. */
  function WireNumber(w: Wire): nat {
    match w
    case Number(_) => 0
    case Eight(_) => 1
    case Block(_) => 2
    case Four(_) => 5
  }

  function Payload(w: Wire): seq<byte> {
    match w
    case Number(n) => EncodeVarint(n)
    case Eight(bytes) => bytes
    case Block(bytes) => EncodeVarint(|bytes|) + bytes
    case Four(bytes) => bytes
  }

  /** A numbered value. */
  function Written(number: nat, w: Wire): seq<byte> {
    EncodeVarint(8 * number + WireNumber(w)) + Payload(w)
  }

  // ----- skipping -----

  lemma {:induction false} SkipsDigits(n: nat, t: seq<byte>)
    ensures SkipVarint(EncodeVarint(n) + t) == Some(t)
    decreases n
  {
    hide EncodeVarint;
    EncodeVarintHead(n, t);
    if n >= 128 {
      SkipsDigits(n / 128, t);
    }
  }

  /** Any numbered value is read as its number and wire type, and skipped whole. */
  lemma WrittenIsSkipped(number: nat, w: Wire, t: seq<byte>)
    requires 1 <= number < 0x2000_0000 && Carriable(w)
    ensures DecodeTag(Written(number, w) + t) == TagOk(number, WireNumber(w), Payload(w) + t)
    ensures SkipField(WireNumber(w), Payload(w) + t) == Some(t)
  {
    hide EncodeVarint, DecodeVarint32, SkipVarint, Substream;
    assert Written(number, w) + t == EncodeVarint(8 * number + WireNumber(w)) + (Payload(w) + t);
    Varint32RoundTrip(8 * number + WireNumber(w), Payload(w) + t);
    match w {
      case Number(n) => SkipsDigits(n, t);
      case Eight(bytes) => assert (bytes + t)[8..] == t;
      case Block(bytes) => SubstreamOf(bytes, t);
      case Four(bytes) => assert (bytes + t)[4..] == t;
    }
  }

  lemma OneDigitMore(s: seq<byte>, n: nat)
    requires s != [] && s[0] >= 128 && n <= |s|
    ensures IsVarint(s[..n]) <==> n > 1 && IsVarint(s[1..][..n - 1])
  {
    if n > 1 {
      assert s[..n][1..] == s[1..][..n - 1];
      assert s[..n] == [s[0]] + s[1..][..n - 1];
    }
  }

  lemma VarintOfOne(s: seq<byte>)
    requires s != [] && s[0] < 128
    ensures IsVarint(s[..1])
  {
  }

  lemma {:induction false} SkipVarintExactly(s: seq<byte>)
    ensures SkipVarint(s).Some? <==> exists n: nat :: n <= |s| && IsVarint(s[..n])
    ensures SkipVarint(s).Some? ==>
              var n := |s| - |SkipVarint(s).value|;
              0 < n && IsVarint(s[..n]) && s[n..] == SkipVarint(s).value
    decreases |s|
  {
    hide IsVarint;
    if s == [] {
      NotEmptyVarint();
    } else if s[0] < 128 {
      VarintOfOne(s);
    } else {
      SkipVarintExactly(s[1..]);
      if SkipVarint(s).Some? {
        var n := |s| - |SkipVarint(s).value|;
        OneDigitMore(s, n);
        assert s[n..] == s[1..][n - 1..];
      }
      if n: nat :| n <= |s| && IsVarint(s[..n]) {
        OneDigitMore(s, n);
      }
    }
  }

  lemma NotEmptyVarint()
    ensures !IsVarint([])
  {
  }

  /** What is skipped is exactly one value of the wire type; there are no
      others. */
  lemma SkipExactly(wire: nat, s: seq<byte>)
    ensures SkipField(wire, s).Some? ==> wire == 0 || wire == 1 || wire == 2 || wire == 5
    ensures wire == 0 ==> (SkipField(wire, s).Some? <==> exists n: nat :: n <= |s| && IsVarint(s[..n]))
    ensures wire == 1 ==> SkipField(wire, s) == if |s| >= 8 then Some(s[8..]) else None
    ensures wire == 5 ==> SkipField(wire, s) == if |s| >= 4 then Some(s[4..]) else None
    ensures wire == 2 ==>
              match DecodeVarint32(s)
              case None => SkipField(wire, s) == None
              case Some(p) => SkipField(wire, s) == if |p.rest| >= p.value then Some(p.rest[p.value..]) else None
  {
    hide SkipVarint, DecodeVarint32;
    SkipVarintExactly(s);
  }

  // ----- what the encoder writes -----

  /** The low 32 bits, least significant byte first. */
  function FourBytes(n: nat): seq<byte> {
    [n % 256, n / 0x100 % 256, n / 0x1_0000 % 256, n / 0x100_0000 % 256]
  }

  lemma FixedIsLittleEndian(n: nat)
    ensures ToBytes(n, 4) == FourBytes(n) && ToBytes(n, 8) == FourBytes(n) + FourBytes(n / TWO32)
  {
    hide ToBytes;
    var n3 := n / 256 / 256 / 256;
    ToBytesNext(n, 3);
    ToBytesNext(n / 256, 2);
    ToBytesNext(n / 256 / 256, 1);
    ToBytesNext(n3, 0);
    ToBytesNext(n, 7);
    ToBytesNext(n / 256, 6);
    ToBytesNext(n / 256 / 256, 5);
    ToBytesNext(n3, 4);
    var high := n3 / 256;
    assert high == n / TWO32;
    ToBytesNext(high, 3);
    ToBytesNext(high / 256, 2);
    ToBytesNext(high / 256 / 256, 1);
    ToBytesNext(high / 256 / 256 / 256, 0);
    Quotients(n);
    Quotients(high);
  }

  lemma Quotients(n: nat)
    ensures n / 256 / 256 == n / 0x1_0000 && n / 256 / 256 / 256 == n / 0x100_0000
  {
  }

  lemma ToBytesNext(n: nat, count: nat)
    ensures ToBytes(n, count + 1) == [n % 256] + ToBytes(n / 256, count)
    ensures ToBytes(n, 0) == []
  {
  }

  /** The value of a field on the wire: the three integer types modulo 2^64 or
      zig-zag, the fixed ones little-endian, everything else a block. */
  function WireOf(f: Field, v: Val): (w: Wire)
    requires HoldsVal(f, v) && EncodeVal(f, v).Some?
  {
    match f.ltype
    case Varint => Number(v.n % TWO64)
    case UVarint => Number(v.n)
    case SVarint => Number(if v.n >= 0 then 2 * v.n else -2 * v.n - 1)
    case Fixed32 => Four(FourBytes(v.n))
    case Fixed64 => Eight(FourBytes(v.n) + FourBytes(v.n / TWO32))
    case Submessage => Block(EncodeFrom(f.sub, v.slots, 0).value)
    case _ => Block(v.bytes)
  }

  /** The wire type of a field's type, by number. */
  function WireTypeOf(t: LType): nat {
    match t
    case Varint => 0
    case UVarint => 0
    case SVarint => 0
    case Fixed32 => 5
    case Fixed64 => 1
    case _ => 2
  }

  lemma {:induction false} TaggedIsWritten(f: Field, v: Val)
    requires GoodField(f) && HoldsVal(f, v) && EncodeVal(f, v).Some?
    ensures EncodeTagged(f, v) == Some(Written(f.tag, WireOf(f, v)))
    ensures WireNumber(WireOf(f, v)) == WireTypeOf(f.ltype)
    ensures ShortVal(f, v) ==> Carriable(WireOf(f, v))
  {
    hide EncodeVarint, EncodeFrom, Holds, ToBytes, FourBytes;
    if f.ltype.Fixed32? || f.ltype.Fixed64? {
      FixedIsLittleEndian(v.n);
    } else if f.ltype.SVarint? {
      ZigZagIs(v.n);
    }
  }

  /** The codes alternate: 0, -1, 1, -2, 2, ... */
  lemma ZigZagIs(n: int)
    requires -TWO63 <= n < TWO63
    ensures ZigZag(n) == if n >= 0 then 2 * n else -2 * n - 1
  {
    assert n < 0 ==> (2 * (n + TWO64)) % TWO64 == 2 * n + TWO64;
  }

  /** A payload whose length a reader can take in. */
  predicate ShortVal(f: Field, v: Val)
    requires HoldsVal(f, v)
  {
    f.ltype.Submessage? ==> Short(Encode(f.sub, v.slots))
  }

  /** A field with its tag is read by anyone as its number, its wire type and a
      value of that type. */
  lemma {:induction false} TaggedIsSkipped(f: Field, v: Val, t: seq<byte>)
    requires FieldReady(f) && HoldsVal(f, v) && EncodeTagged(f, v).Some? && ShortVal(f, v)
    ensures
      var tag := DecodeTag(EncodeTagged(f, v).value + t);
      && tag.TagOk? && tag.tag == f.tag && tag.wire == WireTypeOf(f.ltype)
      && SkipField(tag.wire, tag.rest) == Some(t)
  {
    hide EncodeVarint, EncodeTagged, WireOf, Written, Payload, SkipField, DecodeTag, HoldsVal, Carriable;
    TaggedEncodes(f, v);
    TaggedIsWritten(f, v);
    WrittenIsSkipped(f.tag, WireOf(f, v), t);
  }

  lemma TaggedEncodes(f: Field, v: Val)
    requires HoldsVal(f, v) && EncodeTagged(f, v).Some?
    ensures EncodeVal(f, v).Some?
  {
  }

  // ----- in which order -----

  lemma PartsHold(fields: seq<Field>, m: seq<Slot>, k: nat)
    requires Holds(fields, m) && k <= |fields|
    ensures Holds(fields[..k], m[..k]) && Holds(fields[k..], m[k..])
  {
  }

  /** A message's fields are written one after the other, in the order of its
      type: what the first k of them are by themselves, then the others. */
  lemma InOrder(fields: seq<Field>, m: seq<Slot>, k: nat)
    requires Holds(fields, m) && k <= |fields| && Holds(fields[..k], m[..k]) && Holds(fields[k..], m[k..])
    ensures Encode(fields, m) == Append(Encode(fields[..k], m[..k]), Encode(fields[k..], m[k..]))
  {
    FirstOnes(fields, m, k, 0);
    OtherOnes(fields, m, k, k);
  }

  lemma {:induction false} OtherOnes(fields: seq<Field>, m: seq<Slot>, k: nat, i: nat)
    requires Holds(fields, m) && k <= i <= |fields| && Holds(fields[k..], m[k..])
    ensures EncodeFrom(fields, m, i) == EncodeFrom(fields[k..], m[k..], i - k)
    decreases |fields| - i
  {
    hide EncodeSlot, HoldsSlot, OneMember;
    if i < |fields| {
      assert fields[k..][i - k] == fields[i] && m[k..][i - k] == m[i];
      OtherOnes(fields, m, k, i + 1);
    }
  }

  lemma {:induction false} FirstOnes(fields: seq<Field>, m: seq<Slot>, k: nat, i: nat)
    requires Holds(fields, m) && i <= k <= |fields| && Holds(fields[..k], m[..k])
    ensures EncodeFrom(fields, m, i) == Append(EncodeFrom(fields[..k], m[..k], i), EncodeFrom(fields, m, k))
    decreases k - i
  {
    hide EncodeSlot, HoldsSlot, OneMember;
    if i < k {
      assert HoldsSlot(fields[i], m[i]) && fields[..k][i] == fields[i] && m[..k][i] == m[i];
      FirstOnes(fields, m, k, i + 1);
      var first, rest := EncodeSlot(fields[i], m[i]), EncodeFrom(fields[..k], m[..k], i + 1);
      var others := EncodeFrom(fields, m, k);
      AppendThrice(first, rest, others);
    } else {
      AppendNothing(EncodeFrom(fields, m, k));
    }
  }

  lemma AppendThrice(a: Option<seq<byte>>, b: Option<seq<byte>>, c: Option<seq<byte>>)
    ensures Append(a, Append(b, c)) == Append(Append(a, b), c)
  {
    if a.Some? && b.Some? && c.Some? {
      assert a.value + (b.value + c.value) == a.value + b.value + c.value;
    }
  }

  lemma AppendNothing(a: Option<seq<byte>>)
    ensures Append(Some([]), a) == a
  {
    if a.Some? {
      assert [] + a.value == a.value;
    }
  }

  // ----- what the encoder leaves out -----

  /** A field with nothing to say: absent, empty, or, without presence, zero or
      a submessage that would take no bytes. A required one always speaks. */
  predicate SaysNothing(f: Field, slot: Slot)
    requires HoldsSlot(f, slot)
  {
    match f.htype
    case Required => false
    case Optional => !slot.has
    case Repeated => slot.items == []
    case Oneof(_) => slot.held.None?
    case Singular => Nothing(f, slot.v)
  }

  predicate Nothing(f: Field, v: Val)
    requires HoldsVal(f, v)
  {
    match v
    case VInt(n) => n == 0
    case VBytes(bytes) => bytes == []
    case VMsg(slots) => Encode(f.sub, slots) == Some([])
  }

  /** A field takes no bytes exactly if it has nothing to say. */
  lemma {:induction false} SlotIsEmpty(f: Field, slot: Slot)
    requires HoldsSlot(f, slot)
    ensures EncodeSlot(f, slot) == Some([]) <==> SaysNothing(f, slot)
    ensures IsDefault(f, slot) <==> SaysNothing(f, slot)
    decreases f
  {
    hide EncodeVal, EncodeTagged, EncodePacked, EncodeFrom, EncodeVarint;
    match f.htype {
      case Repeated =>
        ArraySpeaks(f, slot.items);
      case Oneof(_) =>
        if slot.held.Some? {
          TaggedSpeaks(f, slot.held.value);
        }
      case Singular =>
        TaggedSpeaks(f, slot.v);
        if f.ltype.Submessage? {
          MessageIsEmpty(f.sub, slot.v.slots);
        }
        assert IsZero(f, slot.v) <==> Nothing(f, slot.v);
      case _ =>
        TaggedSpeaks(f, slot.v);
    }
  }

  lemma TagIsBytes(f: Field)
    ensures EncodeTag(WireType(f.ltype), f.tag) != [] && EncodeTag(WT_STRING, f.tag) != []
  {
  }

  lemma TaggedSpeaks(f: Field, v: Val)
    requires HoldsVal(f, v)
    ensures EncodeTagged(f, v) != Some([])
  {
    hide EncodeTag, EncodeVal;
    TagIsBytes(f);
  }

  lemma ArraySpeaks(f: Field, items: seq<Val>)
    requires forall i :: 0 <= i < |items| ==> HoldsVal(f, items[i])
    ensures EncodeArray(f, items) == Some([]) <==> items == []
  {
    hide EncodeTagged, EncodePacked, EncodeTag;
    TagIsBytes(f);
    if items != [] {
      TaggedSpeaks(f, items[0]);
      assert EncodeItems(f, items) == Append(EncodeTagged(f, items[0]), EncodeItems(f, items[1..]));
    }
  }

  /** And a message takes none exactly if no field says anything. */
  lemma {:induction false} MessageIsEmpty(fields: seq<Field>, m: seq<Slot>)
    requires Holds(fields, m)
    ensures Encode(fields, m) == Some([]) <==> forall i :: 0 <= i < |fields| ==> SaysNothing(fields[i], m[i])
    ensures AllDefault(fields, m) <==> Encode(fields, m) == Some([])
    decreases fields, 1
  {
    hide IsDefault, EncodeSlot, SaysNothing;
    forall i | 0 <= i < |fields|
      ensures EncodeSlot(fields[i], m[i]) == Some([]) <==> SaysNothing(fields[i], m[i])
      ensures IsDefault(fields[i], m[i]) <==> SaysNothing(fields[i], m[i])
    {
      SlotIsEmpty(fields[i], m[i]);
    }
    RestIsEmpty(fields, m, 0);
  }

  lemma {:induction false} RestIsEmpty(fields: seq<Field>, m: seq<Slot>, k: nat)
    requires Holds(fields, m) && k <= |fields|
    ensures EncodeFrom(fields, m, k) == Some([]) <==>
              forall i :: k <= i < |fields| ==> EncodeSlot(fields[i], m[i]) == Some([])
    decreases |fields| - k
  {
    hide EncodeSlot, HoldsSlot;
    if k < |fields| {
      assert HoldsSlot(fields[k], m[k]);
      RestIsEmpty(fields, m, k + 1);
    }
  }

  // ----- what the encoder refuses -----

  /** A byte string must lie in its cell behind its size; a submessage has
      fields of its own. */
  predicate FitsVal(f: Field, v: Val)
    requires HoldsVal(f, v)
    decreases f, 0
  {
    match f.ltype
    case Bytes => |v.bytes| + 4 <= f.dataSize
    case Submessage => FitsAll(f.sub, v.slots)
    case _ => true
  }

  /** An array must not have more items than it has room for. */
  predicate FitsSlot(f: Field, slot: Slot)
    requires HoldsSlot(f, slot)
    decreases f, 1
  {
    match f.htype
    case Required => FitsVal(f, slot.v)
    case Singular => Nothing(f, slot.v) || FitsVal(f, slot.v)
    case Optional => slot.has ==> FitsVal(f, slot.v)
    case Repeated => |slot.items| <= f.arraySize && forall i :: 0 <= i < |slot.items| ==> FitsVal(f, slot.items[i])
    case Oneof(_) => slot.held.Some? ==> FitsVal(f, slot.held.value)
  }

  predicate FitsAll(fields: seq<Field>, m: seq<Slot>)
    requires Holds(fields, m)
    decreases fields, 0
  {
    forall i :: 0 <= i < |fields| ==> FitsSlot(fields[i], m[i])
  }

  lemma {:induction false} ValEncodes(f: Field, v: Val)
    requires GoodField(f) && HoldsVal(f, v)
    ensures EncodeVal(f, v).Some? <==> FitsVal(f, v)
    ensures EncodeTagged(f, v).Some? <==> FitsVal(f, v)
    decreases f, 0
  {
    hide EncodeFrom, EncodeVarint, FitsAll;
    if f.ltype.Submessage? {
      EncodesExactly(f.sub, v.slots);
    }
  }

  lemma {:induction false} ItemsEncode(f: Field, items: seq<Val>)
    requires GoodField(f) && forall i :: 0 <= i < |items| ==> HoldsVal(f, items[i])
    ensures EncodeItems(f, items).Some? <==> forall i :: 0 <= i < |items| ==> FitsVal(f, items[i])
    ensures f.ltype.Packable() ==> EncodePacked(f, items).Some?
    decreases f, 1, |items|
  {
    hide EncodeTagged, EncodeScalar, HoldsVal, GoodField, FitsVal;
    if items != [] {
      ValEncodes(f, items[0]);
      NumberEncodes(f, items[0]);
      ItemsEncode(f, items[1..]);
      assert items == [items[0]] + items[1..];
    }
  }

  lemma NumberEncodes(f: Field, v: Val)
    requires GoodField(f) && HoldsVal(f, v)
    ensures f.ltype.Packable() ==> EncodeScalar(f, v).Some? && FitsVal(f, v)
  {
  }

  lemma {:induction false} SlotEncodes(f: Field, slot: Slot)
    requires GoodField(f) && HoldsSlot(f, slot)
    ensures EncodeSlot(f, slot).Some? <==> FitsSlot(f, slot)
    decreases f, 2
  {
    hide EncodeTagged, EncodeItems, EncodePacked, FitsVal, EncodeTag, EncodeString, Nothing, IsZero;
    match f.htype {
      case Repeated =>
        ItemsEncode(f, slot.items);
        forall i | 0 <= i < |slot.items|
          ensures f.ltype.Packable() ==> FitsVal(f, slot.items[i])
        {
          NumberEncodes(f, slot.items[i]);
        }
      case Oneof(_) =>
        if slot.held.Some? {
          ValEncodes(f, slot.held.value);
        }
      case Singular =>
        ValEncodes(f, slot.v);
        SlotIsEmpty(f, slot);
      case _ =>
        ValEncodes(f, slot.v);
    }
  }

  /** Encoding fails exactly if some array is over-full or some byte string
      does not fit its cell, in a field that would be written. */
  lemma {:induction false} EncodesExactly(fields: seq<Field>, m: seq<Slot>)
    requires GoodFields(fields) && Holds(fields, m)
    ensures Encode(fields, m).Some? <==> FitsAll(fields, m)
    decreases fields, 3
  {
    hide EncodeSlot, FitsSlot;
    forall i | 0 <= i < |fields|
      ensures EncodeSlot(fields[i], m[i]).Some? <==> FitsSlot(fields[i], m[i])
    {
      SlotEncodes(fields[i], m[i]);
    }
    RestEncodes(fields, m, 0);
  }

  lemma {:induction false} RestEncodes(fields: seq<Field>, m: seq<Slot>, k: nat)
    requires Holds(fields, m) && k <= |fields|
    ensures EncodeFrom(fields, m, k).Some? <==> forall i :: k <= i < |fields| ==> EncodeSlot(fields[i], m[i]).Some?
    decreases |fields| - k
  {
    hide EncodeSlot, HoldsSlot;
    if k < |fields| {
      assert HoldsSlot(fields[k], m[k]);
      RestEncodes(fields, m, k + 1);
    }
  }

  // ----- a whole message, to a reader that knows none of its fields -----

  lemma {:induction false} UnknownAppends(other: seq<Field>, a: seq<byte>, b: seq<byte>)
    requires Unknown(other, a) && Unknown(other, b)
    ensures Unknown(other, a + b)
    decreases |a|
  {
    hide DecodeTag, SkipField, Find;
    if a == [] {
      assert a + b == b;
    } else {
      var tag := DecodeTag(a);
      TagLocal(a, b);
      SkipLocal(tag.wire, tag.rest, b);
      UnknownAppends(other, SkipField(tag.wire, tag.rest).value, b);
    }
  }

  /** The other message type has fields, but not this one. */
  predicate Strange(other: seq<Field>, f: Field) {
    other != [] && Find(other, f.tag).None?
  }

  lemma WrittenIsUnknown(other: seq<Field>, f: Field, w: Wire)
    requires Strange(other, f) && 1 <= f.tag < 0x2000_0000 && Carriable(w)
    ensures Unknown(other, Written(f.tag, w))
  {
    hide DecodeTag, SkipField, Find, Written, Payload;
    var s := Written(f.tag, w);
    assert s + [] == s && Payload(w) + [] == Payload(w);
    WrittenIsSkipped(f.tag, w, []);
    assert Unknown(other, []);
  }

  predicate ShortArray(f: Field, items: seq<Val>)
    requires forall i :: 0 <= i < |items| ==> HoldsVal(f, items[i])
  {
    if f.ltype.Packable() then Short(EncodePacked(f, items)) else forall i :: 0 <= i < |items| ==> ShortVal(f, items[i])
  }

  predicate ShortSlot(f: Field, slot: Slot)
    requires HoldsSlot(f, slot)
  {
    match f.htype
    case Required => ShortVal(f, slot.v)
    case Singular => ShortVal(f, slot.v)
    case Optional => ShortVal(f, slot.v)
    case Repeated => ShortArray(f, slot.items)
    case Oneof(_) => slot.held.Some? ==> ShortVal(f, slot.held.value)
  }

  lemma {:induction false} TaggedIsUnknown(other: seq<Field>, f: Field, v: Val)
    requires FieldReady(f) && HoldsVal(f, v) && EncodeTagged(f, v).Some? && ShortVal(f, v) && Strange(other, f)
    ensures Unknown(other, EncodeTagged(f, v).value)
  {
    hide EncodeTagged, WireOf, Written, HoldsVal, Carriable, Unknown, Find;
    TaggedEncodes(f, v);
    TaggedIsWritten(f, v);
    WrittenIsUnknown(other, f, WireOf(f, v));
  }

  lemma {:induction false} ItemsAreUnknown(other: seq<Field>, f: Field, items: seq<Val>)
    requires FieldReady(f) && (forall i :: 0 <= i < |items| ==> HoldsVal(f, items[i]) && ShortVal(f, items[i]))
    requires EncodeItems(f, items).Some? && Strange(other, f)
    ensures Unknown(other, EncodeItems(f, items).value)
    decreases |items|
  {
    hide EncodeTagged, HoldsVal, FieldReady, ShortVal, Find;
    if items != [] {
      assert HoldsVal(f, items[0]) && ShortVal(f, items[0]);
      TaggedIsUnknown(other, f, items[0]);
      ItemsAreUnknown(other, f, items[1..]);
      UnknownAppends(other, EncodeTagged(f, items[0]).value, EncodeItems(f, items[1..]).value);
    }
  }

  lemma {:induction false} SlotIsUnknown(other: seq<Field>, f: Field, slot: Slot)
    requires FieldReady(f) && HoldsSlot(f, slot) && EncodeSlot(f, slot).Some? && ShortSlot(f, slot) && Strange(other, f)
    ensures Unknown(other, EncodeSlot(f, slot).value)
  {
    hide EncodeTagged, EncodeItems, EncodePacked, HoldsVal, ShortVal, Find, Unknown, IsDefault;
    assert Unknown(other, []) by {
      NothingIsUnknown(other);
    }
    if f.htype.Repeated? {
      if slot.items != [] {
        if f.ltype.Packable() {
          WrittenIsUnknown(other, f, Block(EncodePacked(f, slot.items).value));
        } else {
          ItemsAreUnknown(other, f, slot.items);
        }
      }
    } else if f.htype.Oneof? {
      if slot.held.Some? {
        TaggedIsUnknown(other, f, slot.held.value);
      }
    } else if EncodeSlot(f, slot) == EncodeTagged(f, slot.v) {
      TaggedIsUnknown(other, f, slot.v);
    }
  }

  lemma NothingIsUnknown(other: seq<Field>)
    ensures Unknown(other, [])
  {
  }

  predicate ShortMessage(fields: seq<Field>, m: seq<Slot>)
    requires Holds(fields, m)
  {
    forall i :: 0 <= i < |fields| ==> ShortSlot(fields[i], m[i])
  }

  lemma {:induction false} EncodingIsUnknown(other: seq<Field>, fields: seq<Field>, m: seq<Slot>, k: nat)
    requires WireReady(fields) && Holds(fields, m) && ShortMessage(fields, m) && k <= |fields|
    requires EncodeFrom(fields, m, k).Some?
    requires forall i :: 0 <= i < |fields| ==> Strange(other, fields[i])
    ensures Unknown(other, EncodeFrom(fields, m, k).value)
    decreases |fields| - k
  {
    hide EncodeSlot, ShortSlot, HoldsSlot, FieldReady, OneMember, Strange;
    if k == |fields| {
      NothingIsUnknown(other);
    } else {
      hide Unknown;
      assert FieldReady(fields[k]) && HoldsSlot(fields[k], m[k]) && ShortSlot(fields[k], m[k]);
      assert Strange(other, fields[k]);
      SlotIsUnknown(other, fields[k], m[k]);
      EncodingIsUnknown(other, fields, m, k + 1);
      UnknownAppends(other, EncodeSlot(fields[k], m[k]).value, EncodeFrom(fields, m, k + 1).value);
    }
  }

  /** Whatever this encoder writes of a message, a reader of another type that
      shares none of its fields ignores all of it. */
  lemma {:induction false} EncodingIsIgnored(
      other: seq<Field>, held: seq<Slot>, fields: seq<Field>, m: seq<Slot>, a: seq<byte>, b: seq<byte>)
    requires GoodFields(other) && Holds(other, held) && ReadsAll(other, held, a)
    requires WireReady(fields) && Holds(fields, m) && ShortMessage(fields, m) && Encode(fields, m).Some?
    requires forall i :: 0 <= i < |fields| ==> Strange(other, fields[i])
    ensures DecodeNoinit(other, held, a + Encode(fields, m).value + b) == DecodeNoinit(other, held, a + b)
  {
    hide DecodeNoinit, EncodeFrom, Holds, GoodFields, WireReady, ReadsAll, Unknown, Strange, ShortMessage;
    EncodingIsUnknown(other, fields, m, 0);
    UnknownFieldsIgnored(other, held, a, Encode(fields, m).value, b);
  }

  // ----- varints, digit by digit -----

  /** The bytes of a varint are the base-128 digits, least significant first,
      and there are no more of them than it takes. */
  lemma {:induction false} VarintDigit(v: nat, i: nat)
    ensures
      var s := EncodeVarint(v);
      && (|s| > i + 1 <==> v >= Shl(1, 7 * (i + 1)))
      && (i < |s| ==> s[i] == Digit(v, i) + if i == |s| - 1 then 0 else 128)
    decreases i
  {
    if v < 128 {
      ShlPositive(7 * i);
      ShlSeven(1, 7 * i);
    } else if i == 0 {
      ShlAt(1, 7);
    } else {
      VarintDigit(v / 128, i - 1);
      ShlSeven(1, 7 * i);
    }
  }

  function Digit(v: nat, i: nat): nat {
    if i == 0 then v % 128 else Digit(v / 128, i - 1)
  }

  // ----- what the decoders accept -----

  /** A substream is the length and exactly that many bytes. */
  lemma SubstreamExactly(s: seq<byte>, b: seq<byte>, rest: seq<byte>)
    ensures Substream(s) == Some(Parsed(b, rest)) <==> DecodeVarint32(s) == Some(Parsed(|b|, b + rest))
  {
    hide DecodeVarint32;
    if Substream(s) == Some(Parsed(b, rest)) {
      var p := DecodeVarint32(s).value;
      assert p.rest == b + rest;
    }
    if DecodeVarint32(s) == Some(Parsed(|b|, b + rest)) {
      assert (b + rest)[..|b|] == b && (b + rest)[|b|..] == rest;
    }
  }

  /** Integer fields take the low 32 bits, or all 64 if they have them, as a
      signed number, and refuse it exactly if their cell is too small. */
  lemma IntExactly(f: Field, u: nat, n: int)
    requires f.dataSize in {1, 2, 4, 8} && u < TWO64
    ensures DecodeInt(f, u) == Some(VInt(n)) <==>
              var word := if f.dataSize == 8 then TWO64 else TWO32;
              (u - n) % word == 0 && -ByteBound(f.dataSize) <= n < ByteBound(f.dataSize)
  {
    var size := if f.dataSize == 8 then 8 else 4;
    SignedIs(u, size);
    var svalue := Signed(u, size);
    ClampKeeps(svalue, f.dataSize);
    SignedUnique(u, size, svalue, n);
    hide Signed;
  }

  /** Storing a number into a cell keeps it exactly if it is in range. */
  lemma ClampKeeps(v: int, size: nat)
    requires IntSize(size)
    ensures Signed(v % TWO64, size) == v <==> -ByteBound(size) <= v < ByteBound(size)
  {
    SignedIs(v % TWO64, size);
    if -ByteBound(size) <= v < ByteBound(size) {
      SameResidue(v, size);
      SignedUnique(v % TWO64, size, Signed(v % TWO64, size), v);
    }
  }

  lemma SameResidue(v: int, size: nat)
    requires IntSize(size)
    ensures (v % TWO64 - v) % (2 * ByteBound(size)) == 0
  {
    Residue(v, TWO64);
  }

  lemma Residue(a: int, word: int)
    requires word == TWO64
    ensures exists q: int :: a % word - a == q * word
  {
    assert a % word - a == (-(a / word)) * word;
  }

  lemma SignedIs(u: nat, size: nat)
    requires IntSize(size)
    ensures -ByteBound(size) <= Signed(u, size) < ByteBound(size)
    ensures (u - Signed(u, size)) % (2 * ByteBound(size)) == 0
  {
  }

  lemma SignedUnique(u: int, size: nat, a: int, b: int)
    requires IntSize(size) && (u - a) % (2 * ByteBound(size)) == 0
    requires -ByteBound(size) <= a < ByteBound(size)
    ensures (u - b) % (2 * ByteBound(size)) == 0 && -ByteBound(size) <= b < ByteBound(size) ==> a == b
  {
  }

  lemma UnsignedExactly(f: Field, u: nat, n: int)
    requires f.dataSize in {1, 2, 4, 8} && u < TWO64
    ensures DecodeUnsigned(f, u) == Some(VInt(n)) <==> n == u && u < 2 * ByteBound(f.dataSize)
  {
  }

  /** The bytes of s before its first NUL, or all of them. */
  predicate UpToNul(b: seq<byte>, s: seq<byte>) {
    b <= s && 0 !in b && (|b| < |s| ==> s[|b|] == 0)
  }

  lemma {:induction false} CStringIs(s: seq<byte>)
    ensures UpToNul(CString(s), s)
  {
    if s != [] && s[0] != 0 {
      CStringIs(s[1..]);
      assert [s[0]] + s[1..] == s;
    }
  }

  /** A length-delimited scalar is taken exactly if it is all there and fits its
      cell: bytes beside their size, strings beside a terminator, fixed-length
      bytes fully, or not at all. */
  lemma LengthExactly(f: Field, size: nat, s: seq<byte>)
    requires f.ltype.Bytes? || f.ltype.String? || f.ltype.FixedLengthBytes?
    ensures FromLength(f, size, s).Some? <==>
              && size <= |s|
              && if f.ltype.Bytes? then size + BYTES_HEADER <= f.dataSize
                 else if f.ltype.String? then size < f.dataSize
                 else size == 0 || size == f.dataSize
    ensures FromLength(f, size, s).Some? ==>
              var p := FromLength(f, size, s).value;
              && p.rest == s[size..] && p.value.VBytes?
              && if f.ltype.String? then UpToNul(p.value.bytes, s[..size])
                 else p.value.bytes == if f.ltype.Bytes? || size > 0 then s[..size] else Zeros(f.dataSize)
  {
    if size <= |s| {
      CStringIs(s[..size]);
    }
  }
}
