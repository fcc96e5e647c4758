/** Decoding undoes encoding. For every struct the encoder accepts, decoding
    the encoding gives the struct back, absent fields at their defaults, and
    reads every byte; it fails exactly when some encoded string fills its
    array and so has no terminator, or when a submessage or packed array takes
    2^32 bytes, whose length the decoder reads into 32 bits. */
module NanopbRoundTrip {
  import opened Prelude
  import opened NanopbVarint
  import opened NanopbSchema
  import opened NanopbDecode
  import opened NanopbEncode

  // ----- what survives a round trip -----

  /** Message types whose tags the wire can carry apart: nonzero, 29 bits,
      distinct; proto3 singular scalars start at zero. */
  predicate WireReady(fields: seq<Field>)
    decreases fields, 0
  {
    && (forall i :: 0 <= i < |fields| ==> FieldReady(fields[i]))
    && (forall i, j :: 0 <= i < j < |fields| ==> fields[i].tag != fields[j].tag)
  }

  predicate FieldReady(f: Field)
    decreases f, 0
  {
    && GoodField(f)
    && 1 <= f.tag < 0x2000_0000
    && (f.ltype.Submessage? ==> WireReady(f.sub))
    && (f.htype.Singular? && !f.ltype.Submessage? ==>
          f.initial == VInt(0) || f.initial == VBytes([]) || (f.ltype.FixedLengthBytes? && f.dataSize > 0))
  }

  lemma ReadyIsGood(fields: seq<Field>)
    requires WireReady(fields)
    ensures GoodFields(fields)
  {
  }

  function CanonVal(f: Field, v: Val): (r: Val)
    requires GoodField(f) && HoldsVal(f, v)
    ensures HoldsVal(f, r)
    decreases f, 0
  {
    if f.ltype.Submessage? then VMsg(Canon(f.sub, v.slots)) else v
  }

  function CanonItems(f: Field, items: seq<Val>): (r: seq<Val>)
    requires GoodField(f) && forall i :: 0 <= i < |items| ==> HoldsVal(f, items[i])
    ensures |r| == |items| && forall i :: 0 <= i < |items| ==> HoldsVal(f, r[i]) && r[i] == CanonVal(f, items[i])
    decreases f, 1
  {
    seq(|items|, i requires 0 <= i < |items| => CanonVal(f, items[i]))
  }

  /** An absent optional field keeps nothing but its default. */
  function CanonSlot(f: Field, slot: Slot): (r: Slot)
    requires GoodField(f) && HoldsSlot(f, slot)
    ensures HoldsSlot(f, r)
    ensures slot == Union(None) <==> r == Union(None)
    decreases f, 2
  {
    match f.htype
    case Required => One(CanonVal(f, slot.v))
    case Singular => One(CanonVal(f, slot.v))
    case Optional => if slot.has then Opt(true, CanonVal(f, slot.v)) else Opt(false, DefaultVal(f))
    case Repeated => Rep(CanonItems(f, slot.items))
    case Oneof(_) => if slot.held.Some? then Union(Some(CanonVal(f, slot.held.value))) else Union(None)
  }

  /** m with every absent field at its default. */
  function Canon(fields: seq<Field>, m: seq<Slot>): (r: seq<Slot>)
    requires GoodFields(fields) && Holds(fields, m)
    ensures Holds(fields, r)
    ensures forall i :: 0 <= i < |fields| ==> r[i] == CanonSlot(fields[i], m[i])
    decreases fields, 0
  {
    seq(|fields|, i requires 0 <= i < |fields| => CanonSlot(fields[i], m[i]))
  }

  // ----- what the decoder can read back -----

  /** A length prefix is read back into 32 bits. */
  predicate Short(payload: Option<seq<byte>>) {
    payload.Some? ==> |payload.value| < TWO32
  }

  /** Strings keep room for their terminator; submessages are short. */
  predicate ReadableVal(f: Field, v: Val)
    requires HoldsVal(f, v)
    decreases f, 0
  {
    if f.ltype.Submessage? then Readable(f.sub, v.slots) && Short(Encode(f.sub, v.slots))
    else f.ltype.String? ==> |v.bytes| < f.dataSize
  }

  predicate ReadableItems(f: Field, items: seq<Val>)
    requires forall i :: 0 <= i < |items| ==> HoldsVal(f, items[i])
    decreases f, 1
  {
    forall i :: 0 <= i < |items| ==> ReadableVal(f, items[i])
  }

  predicate ReadableArray(f: Field, items: seq<Val>)
    requires forall i :: 0 <= i < |items| ==> HoldsVal(f, items[i])
    decreases f, 2
  {
    ReadableItems(f, items) && (f.ltype.Packable() ==> Short(EncodePacked(f, items)))
  }

  /** What the slot puts on the wire. */
  predicate ReadableSlot(f: Field, slot: Slot)
    requires HoldsSlot(f, slot)
    decreases f, 3
  {
    match f.htype
    case Required => ReadableVal(f, slot.v)
    case Singular => !IsDefault(f, slot) ==> ReadableVal(f, slot.v)
    case Optional => slot.has ==> ReadableVal(f, slot.v)
    case Repeated => ReadableArray(f, slot.items)
    case Oneof(_) => slot.held.Some? ==> ReadableVal(f, slot.held.value)
  }

  predicate Readable(fields: seq<Field>, m: seq<Slot>)
    requires Holds(fields, m)
    decreases fields, 0
  {
    forall i :: 0 <= i < |fields| ==> ReadableSlot(fields[i], m[i])
  }

  // ----- scalars -----

  lemma {:induction false} LittleEndianBytes(n: nat, count: nat)
    requires n < Shl(1, 8 * count)
    ensures LittleEndian(ToBytes(n, count)) == n
  {
    if count > 0 {
      ShlSeven(1, 8 * (count - 1));
      LittleEndianBytes(n / 256, count - 1);
      assert ToBytes(n, count)[1..] == ToBytes(n / 256, count - 1);
    }
  }

  lemma FixedRoundTrip(n: nat, count: nat, t: seq<byte>)
    requires (count == 4 && n < TWO32) || (count == 8 && n < TWO64)
    ensures LittleEndian((ToBytes(n, count) + t)[..count]) == n && (ToBytes(n, count) + t)[count..] == t
  {
    ShlEight(1, count);
    LittleEndianBytes(n, count);
    assert (ToBytes(n, count) + t)[..count] == ToBytes(n, count);
  }

  lemma SignedOfWrapped(n: int, size: nat)
    requires IntSize(size) && -ByteBound(size) <= n < ByteBound(size)
    ensures Signed(n % TWO64, size) == n
    ensures size != 8 ==> Signed(n % TWO64, 4) == n
  {
    WrapTo(n, ByteBound(size));
    if size != 8 {
      WrapTo(n, TWO31);
    }
  }

  /** A sign-extended number keeps its low bits. */
  lemma WrapTo(n: int, bound: int)
    requires bound == 0x80 || bound == 0x8000 || bound == TWO31 || bound == TWO63
    requires -bound <= n < bound
    ensures n < 0 ==> n % TWO64 == n + TWO64 && (n + TWO64) % (2 * bound) == n + 2 * bound
    ensures 0 <= n ==> n % TWO64 == n && n % (2 * bound) == n
  {
  }

  lemma VarintFieldRoundTrip(f: Field, v: Val)
    requires IntSize(f.dataSize) && (f.ltype.Varint? || f.ltype.UVarint? || f.ltype.SVarint?)
    requires HoldsScalar(f, v)
    ensures
      var u := if f.ltype.Varint? then v.n % TWO64 else if f.ltype.UVarint? then v.n else ZigZag(v.n);
      0 <= u < TWO64 && FromVarint(f, u) == Some(v)
  {
    if f.ltype.Varint? {
      SignedOfWrapped(v.n, f.dataSize);
    } else if f.ltype.SVarint? {
      ZigZagRoundTrip(v.n);
      SignedOfWrapped(v.n, f.dataSize);
    } else {
      ModSmall(v.n, 2 * ByteBound(f.dataSize));
    }
  }

  /** A length-delimited value comes back, unless it is a string that fills
      its array. */
  lemma StringRoundTrip(f: Field, b: seq<byte>, t: seq<byte>)
    requires f.ltype.Bytes? || f.ltype.String? || f.ltype.FixedLengthBytes?
    requires HoldsScalar(f, VBytes(b)) && f.dataSize < TWO32
    requires f.ltype.Bytes? ==> |b| + BYTES_HEADER <= f.dataSize
    ensures DecodeScalar(f, EncodeString(b) + t)
         == if f.ltype.String? && |b| >= f.dataSize then None else Some(Parsed(VBytes(b), t))
  {
    hide Varint32From, EncodeVarint;
    assert EncodeString(b) + t == EncodeVarint(|b|) + (b + t);
    Varint32RoundTrip(|b|, b + t);
    assert (b + t)[..|b|] == b && (b + t)[|b|..] == t;
    if f.ltype.FixedLengthBytes? && |b| == 0 {
      assert b == Zeros(0) && b + t == t;
    }
  }

  lemma ScalarRoundTrip(f: Field, v: Val, t: seq<byte>)
    requires !f.ltype.Submessage? && HoldsScalar(f, v) && f.dataSize < TWO32
    requires EncodeScalar(f, v).Some?
    ensures DecodeScalar(f, EncodeScalar(f, v).value + t)
         == if f.ltype.String? && |v.bytes| >= f.dataSize then None else Some(Parsed(v, t))
  {
    hide Varint64From, EncodeVarint, LittleEndian, ToBytes, FromVarint;
    if f.ltype.Fixed32? {
      FixedRoundTrip(v.n, 4, t);
    } else if f.ltype.Fixed64? {
      FixedRoundTrip(v.n, 8, t);
    } else if f.ltype.Bytes? || f.ltype.String? || f.ltype.FixedLengthBytes? {
      StringRoundTrip(f, v.bytes, t);
    } else {
      var u := if f.ltype.Varint? then v.n % TWO64 else if f.ltype.UVarint? then v.n else ZigZag(v.n);
      VarintFieldRoundTrip(f, v);
      Varint64RoundTrip(u, t);
    }
  }

  /** Packed items come back appended to the ones already there. */
  lemma {:induction false} PackedRoundTrip(f: Field, done: seq<Val>, items: seq<Val>)
    requires f.ltype.Packable()
    requires forall i :: 0 <= i < |items| ==> HoldsVal(f, items[i])
    requires forall i :: 0 <= i < |done| ==> HoldsVal(f, done[i])
    requires |done| + |items| <= f.arraySize
    requires EncodePacked(f, items).Some? && f.dataSize < TWO32
    ensures DecodePacked(f, done, EncodePacked(f, items).value) == Some(done + items)
    decreases |items|
  {
    hide HoldsScalar, EncodeScalar, DecodeScalar;
    if items == [] {
      assert done + items == done;
    } else {
      var v := items[0];
      assert HoldsVal(f, v);
      var tail := EncodePacked(f, items[1..]).value;
      var s := EncodeScalar(f, v).value + tail;
      assert EncodePacked(f, items).value == s;
      ScalarRoundTrip(f, v, tail);
      assert DecodeScalar(f, s) == Some(Parsed(v, tail));
      assert s != [];
      PackedRoundTrip(f, done + [v], items[1..]);
      assert done + items == done + [v] + items[1..];
    }
  }

  // ----- one field of a message -----

  lemma TagRoundTrip(wire: nat, tag: nat, t: seq<byte>)
    requires 1 <= tag < 0x2000_0000 && wire < 8
    ensures DecodeTag(EncodeTag(wire, tag) + t) == TagOk(tag, wire, t)
  {
    hide DecodeVarint32, EncodeVarint;
    Varint32RoundTrip(8 * tag + wire, t);
    assert EncodeTag(wire, tag) + t != [];
  }

  lemma FindListed(fields: seq<Field>, k: nat)
    requires WireReady(fields) && k < |fields|
    ensures Find(fields, fields[k].tag) == Some(k)
  {
    var r := Find(fields, fields[k].tag);
    assert r.Some?;
  }

  /** Reading field k's tag hands the rest to its decoder and goes on. */
  lemma LoopField(fields: seq<Field>, m: seq<Slot>, k: nat, wire: nat, s: seq<byte>, seen: set<nat>)
    requires WireReady(fields) && GoodFields(fields) && Holds(fields, m)
    requires k < |fields| && wire < 8
    ensures DecodeLoop(fields, m, EncodeTag(wire, fields[k].tag) + s, seen)
         == match DecodeSlot(fields[k], m[k], wire, s)
            case None => None
            case Some(p) => DecodeLoop(fields, Store(fields, m, k, p.value), p.rest, MarkSeen(fields, k, seen))
  {
    assert EncodeTag(wire, fields[k].tag) + s != [];
    hide EncodeTag, DecodeTag, DecodeSlot, Store, Find, MarkSeen;
    assert FieldReady(fields[k]);
    TagRoundTrip(wire, fields[k].tag, s);
    FindListed(fields, k);
  }

  /** m with slot k replaced; Store does this when the union is empty. */
  lemma StoreAlone(fields: seq<Field>, m: seq<Slot>, k: nat, slot: Slot)
    requires Holds(fields, m) && k < |fields| && HoldsSlot(fields[k], slot)
    requires forall i :: 0 <= i < |fields| && i != k && SameUnion(fields[k], fields[i]) ==> m[i] == Union(None)
    ensures Store(fields, m, k, slot) == m[k := slot]
  {
  }

  predicate UnionFree(fields: seq<Field>, m: seq<Slot>, k: nat)
    requires |m| == |fields| && k < |fields|
  {
    forall i :: 0 <= i < |fields| && i != k && SameUnion(fields[k], fields[i]) ==> m[i] == Union(None)
  }

  // ----- values -----

  /** PB_DECODERS undoes PB_ENCODERS on a fresh destination. */
  lemma {:induction false} ValRoundTrip(f: Field, v: Val, t: seq<byte>)
    requires FieldReady(f) && HoldsVal(f, v)
    requires EncodeVal(f, v).Some? && |EncodeVal(f, v).value| < TWO63
    ensures DecodeVal(f, DefaultVal(f), EncodeVal(f, v).value + t)
         == if ReadableVal(f, v) then Some(Parsed(CanonVal(f, v), t)) else None
    decreases f, 1
  {
    if f.ltype.Submessage? {
      SubmessageRoundTrip(f, v, t);
    } else {
      hide EncodeScalar, DecodeScalar;
      ScalarRoundTrip(f, v, t);
    }
  }

  /** Whether a length-delimited payload is found again. */
  lemma PayloadRoundTrip(b: seq<byte>, t: seq<byte>)
    requires |b| < TWO63
    ensures Substream(EncodeString(b) + t) == if |b| < TWO32 then Some(Parsed(b, t)) else None
  {
    hide EncodeVarint, DecodeVarint32;
    assert EncodeString(b) + t == EncodeVarint(|b|) + (b + t);
    if |b| < TWO32 {
      Varint32RoundTrip(|b|, b + t);
      assert (b + t)[..|b|] == b && (b + t)[|b|..] == t;
    } else {
      Varint32RefusesLong(|b|, b + t);
    }
  }

  lemma {:induction false} SubmessageRoundTrip(f: Field, v: Val, t: seq<byte>)
    requires FieldReady(f) && HoldsVal(f, v) && f.ltype.Submessage?
    requires EncodeVal(f, v).Some? && |EncodeVal(f, v).value| < TWO63
    ensures DecodeVal(f, DefaultVal(f), EncodeVal(f, v).value + t)
         == if ReadableVal(f, v) then Some(Parsed(CanonVal(f, v), t)) else None
    decreases f, 0
  {
    hide DecodeNoinit, EncodeFrom, Readable, Canon, Defaults, Holds, EncodeVarint, DecodeVarint32;
    assert Holds(f.sub, v.slots);
    var b := EncodeFrom(f.sub, v.slots, 0).value;
    assert EncodeVal(f, v) == Some(EncodeString(b));
    PayloadRoundTrip(b, t);
    MessageRoundTrip(f.sub, v.slots);
  }

  // ----- slots -----

  /** What a field that is not an array holds once v was read into it. */
  function Received(f: Field, v: Val): (slot: Slot)
    requires GoodField(f) && HoldsVal(f, v) && !f.htype.Repeated?
    ensures HoldsSlot(f, slot)
  {
    if f.htype.Optional? then Opt(true, CanonVal(f, v))
    else if f.htype.Oneof? then Union(Some(CanonVal(f, v)))
    else One(CanonVal(f, v))
  }

  /** An array after one more item. */
  function Appended(f: Field, done: seq<Val>, v: Val): (slot: Slot)
    requires GoodField(f) && HoldsVal(f, v) && f.htype.Repeated? && HoldsSlot(f, Rep(done))
    ensures HoldsSlot(f, slot)
  {
    assert forall i :: 0 <= i < |done| ==> HoldsVal(f, Rep(done).items[i]);
    Rep(done + [CanonVal(f, v)])
  }

  /** A field written with its tag, met once. */
  lemma {:induction false} TaggedRoundTrip(
      fields: seq<Field>, m: seq<Slot>, k: nat, v: Val, t: seq<byte>, seen: set<nat>)
    requires WireReady(fields) && GoodFields(fields) && Holds(fields, m) && k < |fields|
    requires HoldsVal(fields[k], v) && m[k] == DefaultSlot(fields[k]) && UnionFree(fields, m, k)
    requires !fields[k].htype.Repeated?
    requires EncodeTagged(fields[k], v).Some? && |EncodeTagged(fields[k], v).value| < TWO63
    ensures
      var f := fields[k];
      var slot := Received(f, v);
      DecodeLoop(fields, m, EncodeTagged(f, v).value + t, seen)
      == if ReadableVal(f, v) then DecodeLoop(fields, Store(fields, m, k, slot), t, MarkSeen(fields, k, seen))
         else None
    decreases fields[k], 2
  {
    hide EncodeVal, DecodeVal, CanonVal, ReadableVal, DecodeLoop, DefaultVal, EncodeTag, Store, Holds, HoldsVal;
    hide WireReady, MarkSeen;
    var f := fields[k];
    assert FieldReady(f) by { assert WireReady(fields); FieldsReady(fields, k); }
    var e := EncodeVal(f, v).value;
    assert EncodeTagged(f, v).value + t == EncodeTag(WireType(f.ltype), f.tag) + (e + t);
    LoopField(fields, m, k, WireType(f.ltype), e + t, seen);
    ValRoundTrip(f, v, t);
  }

  lemma FieldsReady(fields: seq<Field>, k: nat)
    requires WireReady(fields) && k < |fields|
    ensures FieldReady(fields[k])
  {
  }

  /** An array's items, each with its tag, are appended one by one. */
  lemma {:induction false} ItemsRoundTrip(
      fields: seq<Field>, m: seq<Slot>, k: nat, done: seq<Val>, items: seq<Val>, t: seq<byte>, seen: set<nat>)
    requires WireReady(fields) && GoodFields(fields) && Holds(fields, m) && k < |fields|
    requires fields[k].htype.Repeated? && !fields[k].ltype.Packable() && FieldReady(fields[k])
    requires forall i :: 0 <= i < |items| ==> HoldsVal(fields[k], items[i])
    requires m[k] == Rep(done) && |done| + |items| <= fields[k].arraySize
    requires EncodeItems(fields[k], items).Some? && |EncodeItems(fields[k], items).value| < TWO63
    requires Holds(fields, m[k := Rep(done + CanonItems(fields[k], items))])
    ensures DecodeLoop(fields, m, EncodeItems(fields[k], items).value + t, seen)
         == if ReadableItems(fields[k], items)
            then DecodeLoop(fields, m[k := Rep(done + CanonItems(fields[k], items))], t, seen)
            else None
    decreases fields[k], 3, |items|
  {
    hide EncodeVal, DecodeLoop, CanonVal, ReadableVal, ReadableItems, EncodeTag, WireReady, FieldReady, OneMember;
    hide Store, HoldsVal, Appended;
    var f := fields[k];
    if items == [] {
      assert ReadableItems(f, items) by { ReadableNil(f); }
      assert done + CanonItems(f, items) == done;
      assert m[k := Rep(done + CanonItems(f, items))] == m;
      assert EncodeItems(f, items).value + t == t;
    } else {
      var v, rest := items[0], items[1..];
      assert HoldsVal(f, v);
      var e, tail := EncodeVal(f, v).value, EncodeItems(f, rest).value;
      assert EncodeItems(f, items).value + t == EncodeTag(WireType(f.ltype), f.tag) + (e + (tail + t));
      ItemStep(fields, m, k, done, v, tail + t, seen);
      assert ReadableItems(f, items) <==> ReadableVal(f, v) && ReadableItems(f, rest) by {
        ReadableCons(f, items);
      }
      if ReadableVal(f, v) {
        StoreItem(fields, m, k, done, items);
        ItemsRoundTrip(
          fields, Store(fields, m, k, Appended(f, done, v)), k, done + [CanonVal(f, v)], rest, t, seen);
      }
    }
  }

  lemma ReadableNil(f: Field)
    ensures ReadableItems(f, [])
  {
  }

  lemma {:induction false} StoreItem(fields: seq<Field>, m: seq<Slot>, k: nat, done: seq<Val>, items: seq<Val>)
    requires Holds(fields, m) && k < |fields| && fields[k].htype.Repeated? && GoodField(fields[k])
    requires items != [] && forall i :: 0 <= i < |items| ==> HoldsVal(fields[k], items[i])
    requires HoldsSlot(fields[k], Rep(done))
    ensures
      var f := fields[k];
      var m' := Store(fields, m, k, Appended(f, done, items[0]));
      m'[k] == Rep(done + [CanonVal(f, items[0])])
      && m'[k := Rep(done + [CanonVal(f, items[0])] + CanonItems(f, items[1..]))]
         == m[k := Rep(done + CanonItems(f, items))]
  {
    hide CanonVal, HoldsVal, OneMember;
    var f := fields[k];
    assert CanonItems(f, items) == [CanonVal(f, items[0])] + CanonItems(f, items[1..]);
    assert done + CanonItems(f, items) == done + [CanonVal(f, items[0])] + CanonItems(f, items[1..]);
  }

  lemma ReadableCons(f: Field, items: seq<Val>)
    requires items != [] && forall i :: 0 <= i < |items| ==> HoldsVal(f, items[i])
    ensures ReadableItems(f, items) <==> ReadableVal(f, items[0]) && ReadableItems(f, items[1..])
  {
    if ReadableVal(f, items[0]) && ReadableItems(f, items[1..]) {
      forall i | 0 <= i < |items|
        ensures ReadableVal(f, items[i])
      {
        if i > 0 {
          assert items[i] == items[1..][i - 1];
        }
      }
    }
    if ReadableItems(f, items) {
      forall i | 0 <= i < |items[1..]|
        ensures ReadableVal(f, items[1..][i])
      {
        assert items[1..][i] == items[i + 1];
      }
    }
  }

  /** One item of an unpacked array. */
  lemma {:induction false} ItemStep(
      fields: seq<Field>, m: seq<Slot>, k: nat, done: seq<Val>, v: Val, t: seq<byte>, seen: set<nat>)
    requires WireReady(fields) && GoodFields(fields) && Holds(fields, m) && k < |fields|
    requires fields[k].htype.Repeated? && !fields[k].ltype.Packable() && FieldReady(fields[k])
    requires HoldsVal(fields[k], v) && m[k] == Rep(done) && |done| < fields[k].arraySize
    requires EncodeVal(fields[k], v).Some? && |EncodeVal(fields[k], v).value| < TWO63
    ensures
      var f := fields[k];
      var slot := Appended(f, done, v);
      DecodeLoop(fields, m, EncodeTag(WireType(f.ltype), f.tag) + (EncodeVal(f, v).value + t), seen)
      == if ReadableVal(f, v) then DecodeLoop(fields, Store(fields, m, k, slot), t, seen) else None
    decreases fields[k], 2
  {
    hide EncodeVal, DecodeVal, CanonVal, ReadableVal, DecodeLoop, DefaultVal, EncodeTag, Store, HoldsVal, WireReady;
    var f := fields[k];
    LoopField(fields, m, k, WireType(f.ltype), EncodeVal(f, v).value + t, seen);
    ValRoundTrip(f, v, t);
  }

  /** A packed array. */
  lemma PackedSlotRoundTrip(fields: seq<Field>, m: seq<Slot>, k: nat, items: seq<Val>, t: seq<byte>, seen: set<nat>)
    requires WireReady(fields) && GoodFields(fields) && Holds(fields, m) && k < |fields|
    requires fields[k].htype.Repeated? && fields[k].ltype.Packable()
    requires forall i :: 0 <= i < |items| ==> HoldsVal(fields[k], items[i])
    requires m[k] == Rep([]) && 0 < |items|
    requires EncodeArray(fields[k], items).Some? && |EncodeArray(fields[k], items).value| < TWO63
    ensures DecodeLoop(fields, m, EncodeArray(fields[k], items).value + t, seen)
         == if Short(EncodePacked(fields[k], items)) then DecodeLoop(fields, Store(fields, m, k, Rep(items)), t, seen)
            else None
  {
    hide DecodeLoop, EncodeTag, Store, EncodePacked, DecodePacked, EncodeVarint, DecodeVarint32, HoldsVal;
    var f := fields[k];
    var b := EncodePacked(f, items).value;
    assert EncodeArray(f, items).value + t == EncodeTag(WT_STRING, f.tag) + (EncodeString(b) + t);
    LoopField(fields, m, k, WT_STRING, EncodeString(b) + t, seen);
    PayloadRoundTrip(b, t);
    PackedRoundTrip(f, [], items);
    assert [] + items == items;
  }

  // ----- a slot, present or absent -----

  /** A proto3 singular value that is left out is the default one. */
  lemma {:induction false} ZeroIsDefault(f: Field, v: Val)
    requires FieldReady(f) && HoldsVal(f, v) && IsZero(f, v)
    requires f.htype.Singular? || f.ltype.Submessage?
    ensures CanonVal(f, v) == DefaultVal(f)
    decreases f, 0
  {
    if f.ltype.Submessage? {
      AllDefaultIsDefaults(f.sub, v.slots);
    }
  }

  lemma {:induction false} AllDefaultIsDefaults(fields: seq<Field>, m: seq<Slot>)
    requires WireReady(fields) && Holds(fields, m) && AllDefault(fields, m)
    ensures GoodFields(fields) && Canon(fields, m) == Defaults(fields)
    decreases fields, 0
  {
    ReadyIsGood(fields);
    forall i | 0 <= i < |fields|
      ensures CanonSlot(fields[i], m[i]) == DefaultSlot(fields[i])
    {
      FieldsReady(fields, i);
      assert HoldsSlot(fields[i], m[i]) && IsDefault(fields[i], m[i]);
      DefaultSlotIsDefault(fields[i], m[i]);
    }
  }

  lemma {:induction false} DefaultSlotIsDefault(f: Field, slot: Slot)
    requires FieldReady(f) && HoldsSlot(f, slot) && IsDefault(f, slot)
    ensures CanonSlot(f, slot) == DefaultSlot(f)
    decreases f, 1
  {
    if f.htype.Singular? {
      ZeroIsDefault(f, slot.v);
    }
  }

  /** The slot is written at all. */
  predicate Present(f: Field, slot: Slot)
    requires HoldsSlot(f, slot)
  {
    match f.htype
    case Required => true
    case Singular => !IsDefault(f, slot)
    case Optional => slot.has
    case Repeated => slot.items != []
    case Oneof(_) => slot.held.Some?
  }

  lemma AbsentSlot(f: Field, slot: Slot)
    requires FieldReady(f) && HoldsSlot(f, slot) && !Present(f, slot)
    ensures EncodeSlot(f, slot) == Some([]) && CanonSlot(f, slot) == DefaultSlot(f) && ReadableSlot(f, slot)
  {
    if f.htype.Singular? {
      DefaultSlotIsDefault(f, slot);
    }
  }

  lemma {:induction false} SlotRoundTrip(
      fields: seq<Field>, m: seq<Slot>, k: nat, slot: Slot, t: seq<byte>, seen: set<nat>)
    requires WireReady(fields) && GoodFields(fields) && Holds(fields, m) && k < |fields|
    requires FieldReady(fields[k]) && HoldsSlot(fields[k], slot) && m[k] == DefaultSlot(fields[k])
    requires Present(fields[k], slot) ==> UnionFree(fields, m, k)
    requires EncodeSlot(fields[k], slot).Some? && |EncodeSlot(fields[k], slot).value| < TWO63
    requires Holds(fields, m[k := CanonSlot(fields[k], slot)])
    ensures DecodeLoop(fields, m, EncodeSlot(fields[k], slot).value + t, seen)
         == if ReadableSlot(fields[k], slot)
            then DecodeLoop(fields, m[k := CanonSlot(fields[k], slot)], t, MarkSeen(fields, k, seen))
            else None
    decreases fields[k], 5
  {
    hide DecodeLoop, EncodeTagged, EncodeItems, EncodePacked, CanonVal, CanonItems, ReadableVal, HoldsVal, Store;
    hide OneMember, WireReady, FieldReady, DefaultVal;
    var f := fields[k];
    if !Present(f, slot) {
      AbsentSlot(f, slot);
      assert m[k := CanonSlot(f, slot)] == m;
      assert [] + t == t;
    } else if f.htype.Repeated? {
      ArrayRoundTrip(fields, m, k, slot.items, t, seen);
    } else {
      var v := if f.htype.Optional? || f.htype.Required? || f.htype.Singular? then slot.v else slot.held.value;
      TaggedRoundTrip(fields, m, k, v, t, seen);
      StoreAlone(fields, m, k, Received(f, v));
    }
  }

  lemma {:induction false} ArrayRoundTrip(
      fields: seq<Field>, m: seq<Slot>, k: nat, items: seq<Val>, t: seq<byte>, seen: set<nat>)
    requires WireReady(fields) && GoodFields(fields) && Holds(fields, m) && k < |fields|
    requires FieldReady(fields[k]) && fields[k].htype.Repeated? && m[k] == Rep([]) && items != []
    requires forall i :: 0 <= i < |items| ==> HoldsVal(fields[k], items[i])
    requires EncodeArray(fields[k], items).Some? && |EncodeArray(fields[k], items).value| < TWO63
    requires Holds(fields, m[k := Rep(CanonItems(fields[k], items))])
    ensures DecodeLoop(fields, m, EncodeArray(fields[k], items).value + t, seen)
         == if ReadableArray(fields[k], items)
            then DecodeLoop(fields, m[k := Rep(CanonItems(fields[k], items))], t, seen)
            else None
    decreases fields[k], 4
  {
    hide DecodeLoop, EncodeItems, EncodePacked;
    hide OneMember, WireReady, FieldReady;
    var f := fields[k];
    if f.ltype.Packable() {
      PackedSlotRoundTrip(fields, m, k, items, t, seen);
      assert CanonItems(f, items) == items;
      assert ReadableItems(f, items);
      assert Store(fields, m, k, Rep(items)) == m[k := Rep(items)];
    } else {
      assert [] + CanonItems(f, items) == CanonItems(f, items);
      ItemsRoundTrip(fields, m, k, [], items, t, seen);
    }
  }

  // ----- whole messages -----

  /** The struct after the first k fields were read. */
  function Partly(fields: seq<Field>, m: seq<Slot>, k: nat): (r: seq<Slot>)
    requires GoodFields(fields) && Holds(fields, m) && k <= |fields|
    ensures Holds(fields, r)
    ensures forall i :: 0 <= i < |fields| ==>
      r[i] == if i < k then CanonSlot(fields[i], m[i]) else DefaultSlot(fields[i])
  {
    seq(|fields|, i requires 0 <= i < |fields| =>
      if i < k then CanonSlot(fields[i], m[i]) else DefaultSlot(fields[i]))
  }

  function SeenUpTo(fields: seq<Field>, k: nat): set<nat>
    requires k <= |fields|
  {
    if k == 0 then {} else MarkSeen(fields, k - 1, SeenUpTo(fields, k - 1))
  }

  lemma {:induction false} SeenUpToTracks(fields: seq<Field>, k: nat)
    requires k <= |fields|
    ensures forall r: nat :: r < Min(RequiredBefore(fields, k), MAX_REQUIRED) ==> r in SeenUpTo(fields, k)
  {
    if k > 0 {
      SeenUpToTracks(fields, k - 1);
    }
  }

  lemma PartlyFree(fields: seq<Field>, m: seq<Slot>, k: nat)
    requires GoodFields(fields) && Holds(fields, m) && k < |fields|
    requires Present(fields[k], m[k])
    ensures UnionFree(fields, Partly(fields, m, k), k)
  {
    forall i | 0 <= i < |fields| && i != k && SameUnion(fields[k], fields[i])
      ensures Partly(fields, m, k)[i] == Union(None)
    {
      assert HoldsSlot(fields[i], m[i]);
      assert m[k] != Union(None) && OneMember(fields, m);
    }
  }

  lemma {:induction false} LoopRoundTrip(fields: seq<Field>, m: seq<Slot>, k: nat)
    requires WireReady(fields) && GoodFields(fields) && Holds(fields, m) && k <= |fields|
    requires EncodeFrom(fields, m, k).Some? && |EncodeFrom(fields, m, k).value| < TWO63
    ensures DecodeLoop(fields, Partly(fields, m, k), EncodeFrom(fields, m, k).value, SeenUpTo(fields, k))
         == if forall i :: k <= i < |fields| ==> ReadableSlot(fields[i], m[i])
            then Some(Loop(Canon(fields, m), [], SeenUpTo(fields, |fields|), false))
            else None
    decreases fields, 1, |fields| - k
  {
    hide EncodeSlot, ReadableSlot, CanonSlot, DefaultSlot, WireReady, HoldsSlot, Present, FieldReady, MarkSeen;
    hide Holds, GoodFields, Partly;
    if k == |fields| {
      PartlyAll(fields, m);
    } else {
      hide DecodeLoop;
      PartlyNext(fields, m, k);
      SlotRoundTrip(
        fields, Partly(fields, m, k), k, m[k], EncodeFrom(fields, m, k + 1).value, SeenUpTo(fields, k));
      if ReadableSlot(fields[k], m[k]) {
        LoopRoundTrip(fields, m, k + 1);
      }
    }
  }

  lemma PartlyAll(fields: seq<Field>, m: seq<Slot>)
    requires GoodFields(fields) && Holds(fields, m)
    ensures Partly(fields, m, |fields|) == Canon(fields, m)
  {
  }

  lemma PartlyNext(fields: seq<Field>, m: seq<Slot>, k: nat)
    requires WireReady(fields) && GoodFields(fields) && Holds(fields, m) && k < |fields|
    ensures
      var p := Partly(fields, m, k);
      FieldReady(fields[k]) && |m| == |fields| && HoldsSlot(fields[k], m[k])
      && p[k] == DefaultSlot(fields[k])
      && p[k := CanonSlot(fields[k], m[k])] == Partly(fields, m, k + 1)
      && (Present(fields[k], m[k]) ==> UnionFree(fields, p, k))
  {
    hide CanonSlot, DefaultSlot, WireReady, OneMember, Present;
    FieldsReady(fields, k);
    var p := Partly(fields, m, k);
    assert HoldsSlot(fields[k], m[k]);
    assert p[k := CanonSlot(fields[k], m[k])] == Partly(fields, m, k + 1);
    if Present(fields[k], m[k]) {
      PartlyFree(fields, m, k);
    }
  }

  /** Decoding an encoded submessage into a fresh one. */
  lemma {:induction false} MessageRoundTrip(fields: seq<Field>, m: seq<Slot>)
    requires WireReady(fields) && GoodFields(fields) && Holds(fields, m)
    requires Encode(fields, m).Some? && |Encode(fields, m).value| < TWO63
    ensures Decode(fields, Encode(fields, m).value)
         == if Readable(fields, m) then Some(Parsed(Canon(fields, m), [])) else None
    decreases fields, 2
  {
    hide DecodeLoop, EncodeFrom, CanonSlot, ReadableSlot, OneMember, WireReady, SeenUpTo, RequiredBefore;
    assert Partly(fields, m, 0) == Defaults(fields);
    assert SeenUpTo(fields, 0) == {} by { SeenUpToNone(fields); }
    LoopRoundTrip(fields, m, 0);
    SeenUpToTracks(fields, |fields|);
  }

  lemma SeenUpToNone(fields: seq<Field>)
    ensures SeenUpTo(fields, 0) == {}
  {
  }
}
