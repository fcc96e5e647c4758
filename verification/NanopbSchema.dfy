/** Field descriptors and message structs of nanopb, as values. A struct is the
    sequence of its field slots; a slot holds a field's data together with its
    has_, _count or which_ companion. */
module NanopbSchema {
  import opened Prelude

  datatype LType =
    | Varint | UVarint | SVarint | Fixed32 | Fixed64
    | Bytes | String | Submessage | FixedLengthBytes
  {
    /** PB_LTYPE_LAST_PACKABLE is FIXED64. */
    predicate Packable() {
      Varint? || UVarint? || SVarint? || Fixed32? || Fixed64?
    }
  }

  /** Singular is a proto3 field: PB_HTYPE_OPTIONAL with size_offset 0. The
      members of one C union share their which_ field, named by `union`. */
  datatype HType = Required | Optional | Singular | Repeated | Oneof(union: nat)

  /** One pb_field_t of a statically allocated field. dataOffset counts from
      the end of the previous field's data, sizeOffset from the field's own. */
  datatype Field = Field(
    tag: nat, ltype: LType, htype: HType, dataOffset: nat, sizeOffset: int, dataSize: nat, arraySize: nat,
    initial: Val, sub: seq<Field>)

  datatype Val = VInt(n: int) | VBytes(bytes: seq<byte>) | VMsg(slots: seq<Slot>)

  /** One: required or proto3 singular. Opt: optional with has_. Rep: the first
      _count items of an array. Union: the member's data while which_ names it. */
  datatype Slot = One(v: Val) | Opt(has: bool, v: Val) | Rep(items: seq<Val>) | Union(held: Option<Val>)

  /** offsetof(pb_bytes_array_t, bytes) with PB_FIELD_32BIT. */
  const BYTES_HEADER: nat := 4

  /** PB_MAX_REQUIRED_FIELDS. */
  const MAX_REQUIRED: nat := 64

  function ByteBound(size: nat): int {
    if size == 1 then 0x80 else if size == 2 then 0x8000 else if size == 4 then TWO31 else TWO63
  }

  predicate IntSize(size: nat) {
    size == 1 || size == 2 || size == 4 || size == 8
  }

  /** v is a value the field's memory cell can hold. A string cell holds its
      bytes up to the first NUL, which need not be there. */
  predicate HoldsScalar(f: Field, v: Val)
    requires !f.ltype.Submessage?
  {
    match f.ltype
    case Varint => v.VInt? && -ByteBound(f.dataSize) <= v.n < ByteBound(f.dataSize)
    case SVarint => v.VInt? && -ByteBound(f.dataSize) <= v.n < ByteBound(f.dataSize)
    case UVarint => v.VInt? && 0 <= v.n < 2 * ByteBound(f.dataSize)
    case Fixed32 => v.VInt? && 0 <= v.n < TWO32
    case Fixed64 => v.VInt? && 0 <= v.n < TWO64
    case Bytes => v.VBytes? && |v.bytes| < TWO32
    case String => v.VBytes? && |v.bytes| <= f.dataSize && 0 !in v.bytes
    case FixedLengthBytes => v.VBytes? && |v.bytes| == f.dataSize
  }

  predicate HoldsVal(f: Field, v: Val)
    decreases f, 0
  {
    if f.ltype.Submessage? then v.VMsg? && Holds(f.sub, v.slots) else HoldsScalar(f, v)
  }

  predicate HoldsSlot(f: Field, slot: Slot)
    decreases f, 1
  {
    match f.htype
    case Required => slot.One? && HoldsVal(f, slot.v)
    case Singular => slot.One? && HoldsVal(f, slot.v)
    case Optional => slot.Opt? && HoldsVal(f, slot.v)
    case Repeated => slot.Rep? && forall i :: 0 <= i < |slot.items| ==> HoldsVal(f, slot.items[i])
    case Oneof(_) => slot.Union? && (slot.held.Some? ==> HoldsVal(f, slot.held.value))
  }

  predicate SameUnion(f: Field, g: Field) {
    f.htype.Oneof? && f.htype == g.htype
  }

  /** A which_ field names one member of its union. */
  predicate OneMember(fields: seq<Field>, m: seq<Slot>)
    requires |m| == |fields|
  {
    forall i, j :: 0 <= i < |fields| && 0 <= j < |fields| && i != j && SameUnion(fields[i], fields[j]) ==>
      m[i] == Union(None) || m[j] == Union(None)
  }

  /** m is a struct of the message type `fields`. */
  predicate Holds(fields: seq<Field>, m: seq<Slot>)
    decreases fields, 0
  {
    && |m| == |fields|
    && (forall i :: 0 <= i < |fields| ==> HoldsSlot(fields[i], m[i]))
    && OneMember(fields, m)
  }

  /** The descriptor is one the generator emits: its numbers are pb_size_t,
      initial values fit their cells and integer cells have an integer size. */
  predicate GoodField(f: Field)
    decreases f, 0
  {
    && f.tag < TWO32 && f.dataSize < TWO32 && f.arraySize < TWO32
    && if f.ltype.Submessage? then GoodFields(f.sub)
       else
         && HoldsScalar(f, f.initial)
         && (f.ltype.Varint? || f.ltype.UVarint? || f.ltype.SVarint? ==> IntSize(f.dataSize))
  }

  predicate GoodFields(fields: seq<Field>)
    decreases fields, 0
  {
    forall i :: 0 <= i < |fields| ==> GoodField(fields[i])
  }

  // ----- defaults (pb_message_set_to_defaults) -----

  function DefaultVal(f: Field): (v: Val)
    requires GoodField(f)
    ensures HoldsVal(f, v)
    decreases f, 0
  {
    if f.ltype.Submessage? then VMsg(Defaults(f.sub)) else f.initial
  }

  function DefaultSlot(f: Field): (slot: Slot)
    requires GoodField(f)
    ensures HoldsSlot(f, slot)
    decreases f, 1
  {
    match f.htype
    case Required => One(DefaultVal(f))
    case Singular => One(DefaultVal(f))
    case Optional => Opt(false, DefaultVal(f))
    case Repeated => Rep([])
    case Oneof(_) => Union(None)
  }

  function Defaults(fields: seq<Field>): (m: seq<Slot>)
    requires GoodFields(fields)
    ensures Holds(fields, m)
    ensures forall i :: 0 <= i < |fields| ==> m[i] == DefaultSlot(fields[i])
    decreases fields, 0
  {
    seq(|fields|, i requires 0 <= i < |fields| => DefaultSlot(fields[i]))
  }

  // ----- required fields -----

  /** How many required fields stand before position k: the iterator's
      required_field_index there. */
  function RequiredBefore(fields: seq<Field>, k: nat): nat
    requires k <= |fields|
  {
    if k == 0 then 0
    else RequiredBefore(fields, k - 1) + (if fields[k - 1].htype.Required? then 1 else 0)
  }

  /** The numbers of the required fields the decoder keeps track of. */
  function Tracked(fields: seq<Field>): nat {
    Min(RequiredBefore(fields, |fields|), MAX_REQUIRED)
  }

  predicate RequiredSeen(fields: seq<Field>, seen: set<nat>) {
    forall r: nat :: r < Tracked(fields) ==> r in seen
  }

  /** What meeting field k adds to fields_seen. */
  function MarkSeen(fields: seq<Field>, k: nat, seen: set<nat>): set<nat>
    requires k < |fields|
  {
    if fields[k].htype.Required? && RequiredBefore(fields, k) < MAX_REQUIRED
    then seen + {RequiredBefore(fields, k)}
    else seen
  }

  // ----- looking a tag up, storing a slot -----

  /** The first field with the tag, as pb_field_iter_find finds it from the
      beginning of the list. */
  function FindFrom(fields: seq<Field>, tag: nat, k: nat): (r: Option<nat>)
    requires k <= |fields|
    ensures r.Some? ==> k <= r.value < |fields| && fields[r.value].tag == tag
    ensures r.Some? ==> forall i :: k <= i < r.value ==> fields[i].tag != tag
    ensures r.None? ==> forall i :: k <= i < |fields| ==> fields[i].tag != tag
    decreases |fields| - k
  {
    if k == |fields| then None
    else if fields[k].tag == tag then Some(k)
    else FindFrom(fields, tag, k + 1)
  }

  function Find(fields: seq<Field>, tag: nat): (r: Option<nat>)
    ensures r.Some? ==> r.value < |fields| && fields[r.value].tag == tag
    ensures r.Some? ==> forall i :: 0 <= i < r.value ==> fields[i].tag != tag
    ensures r.None? ==> forall i :: 0 <= i < |fields| ==> fields[i].tag != tag
  {
    FindFrom(fields, tag, 0)
  }

  lemma SlotFits(fields: seq<Field>, m: seq<Slot>, k: nat)
    requires GoodFields(fields) && Holds(fields, m) && k < |fields|
    ensures GoodField(fields[k]) && |m| == |fields| && HoldsSlot(fields[k], m[k])
  {
  }

  /** Writing field k; setting which_ to a union member drops the others. */
  function Store(fields: seq<Field>, m: seq<Slot>, k: nat, slot: Slot): (m': seq<Slot>)
    requires Holds(fields, m) && k < |fields| && HoldsSlot(fields[k], slot)
    ensures Holds(fields, m')
  {
    seq(|m|, i requires 0 <= i < |m| =>
      if i == k then slot
      else if SameUnion(fields[k], fields[i]) then Union(None)
      else m[i])
  }
}
