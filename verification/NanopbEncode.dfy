/** What pb_encode.c computes, on values: the bytes an encoder writes when the
    stream has room for them. None stands for `return false` on any stream. */
module NanopbEncode {
  import opened Prelude
  import opened NanopbVarint
  import opened NanopbSchema
  import opened NanopbDecode

  function Append(a: Option<seq<byte>>, b: Option<seq<byte>>): (r: Option<seq<byte>>)
    ensures r.Some? <==> a.Some? && b.Some?
    ensures r.Some? ==> r.value == a.value + b.value
  {
    if a.None? || b.None? then None else Some(a.value + b.value)
  }

  /** pb_encode_tag_for_field. */
  function WireType(t: LType): nat {
    if t.Varint? || t.UVarint? || t.SVarint? then WT_VARINT
    else if t.Fixed32? then WT_32BIT
    else if t.Fixed64? then WT_64BIT
    else WT_STRING
  }

  function EncodeTag(wire: nat, tag: nat): seq<byte> {
    EncodeVarint(8 * tag + wire)
  }

  /** pb_encode_string: a length, then the bytes. */
  function EncodeString(b: seq<byte>): seq<byte> {
    EncodeVarint(|b|) + b
  }

  /** The low `count` bytes of n, least significant first. */
  function ToBytes(n: nat, count: nat): (s: seq<byte>)
    ensures |s| == count
  {
    if count == 0 then [] else [n % 256] + ToBytes(n / 256, count - 1)
  }

  /** PB_ENCODERS[ltype] for everything but submessages. */
  function EncodeScalar(f: Field, v: Val): Option<seq<byte>>
    requires !f.ltype.Submessage? && HoldsScalar(f, v)
  {
    match f.ltype
    case Varint => if IntSize(f.dataSize) then Some(EncodeVarint(v.n % TWO64)) else None
    case UVarint => if IntSize(f.dataSize) then Some(EncodeVarint(v.n)) else None
    case SVarint => if IntSize(f.dataSize) then Some(EncodeVarint(ZigZag(v.n))) else None
    case Fixed32 => Some(ToBytes(v.n, 4))
    case Fixed64 => Some(ToBytes(v.n, 8))
    case Bytes => if |v.bytes| + BYTES_HEADER > f.dataSize then None else Some(EncodeString(v.bytes))
    case String => Some(EncodeString(v.bytes))
    case FixedLengthBytes => Some(EncodeString(v.bytes))
  }

  /** pb_check_proto3_default_value. */
  predicate IsDefault(f: Field, slot: Slot)
    requires HoldsSlot(f, slot)
    decreases f, 1
  {
    match f.htype
    case Required => false
    case Repeated => slot.items == []
    case Oneof(_) => slot.held.None?
    case Optional => !slot.has
    case Singular => IsZero(f, slot.v)
  }

  predicate IsZero(f: Field, v: Val)
    requires HoldsVal(f, v)
    decreases f, 0
  {
    match f.ltype
    case Bytes => v.bytes == []
    case String => v.bytes == []
    case FixedLengthBytes => f.dataSize == 0
    case Submessage => AllDefault(f.sub, v.slots)
    case _ => v.VInt? && v.n == 0
  }

  predicate AllDefault(fields: seq<Field>, m: seq<Slot>)
    requires Holds(fields, m)
    decreases fields, 0
  {
    forall i :: 0 <= i < |fields| ==> IsDefault(fields[i], m[i])
  }

  /** The items of a packed array, end to end. */
  function EncodePacked(f: Field, items: seq<Val>): Option<seq<byte>>
    requires f.ltype.Packable()
    requires forall i :: 0 <= i < |items| ==> HoldsVal(f, items[i])
  {
    if items == [] then Some([])
    else
      assert HoldsVal(f, items[0]);
      Append(EncodeScalar(f, items[0]), EncodePacked(f, items[1..]))
  }

  function EncodeVal(f: Field, v: Val): Option<seq<byte>>
    requires HoldsVal(f, v)
    decreases f, 0
  {
    if f.ltype.Submessage? then
      match EncodeFrom(f.sub, v.slots, 0)
      case None => None
      case Some(b) => Some(EncodeString(b))
    else EncodeScalar(f, v)
  }

  /** A field's tag and one value. */
  function EncodeTagged(f: Field, v: Val): Option<seq<byte>>
    requires HoldsVal(f, v)
    decreases f, 1
  {
    Append(Some(EncodeTag(WireType(f.ltype), f.tag)), EncodeVal(f, v))
  }

  /** The items of an array that cannot be packed, each with its tag. */
  function EncodeItems(f: Field, items: seq<Val>): Option<seq<byte>>
    requires forall i :: 0 <= i < |items| ==> HoldsVal(f, items[i])
    decreases f, 2, |items|
  {
    if items == [] then Some([])
    else Append(EncodeTagged(f, items[0]), EncodeItems(f, items[1..]))
  }

  /** encode_array. */
  function EncodeArray(f: Field, items: seq<Val>): Option<seq<byte>>
    requires forall i :: 0 <= i < |items| ==> HoldsVal(f, items[i])
    decreases f, 3
  {
    if items == [] then Some([])
    else if |items| > f.arraySize then None
    else if f.ltype.Packable() then
      match EncodePacked(f, items)
      case None => None
      case Some(b) => Some(EncodeTag(WT_STRING, f.tag) + EncodeString(b))
    else EncodeItems(f, items)
  }

  /** encode_basic_field. */
  function EncodeSlot(f: Field, slot: Slot): Option<seq<byte>>
    requires HoldsSlot(f, slot)
    decreases f, 4
  {
    match f.htype
    case Required => EncodeTagged(f, slot.v)
    case Singular => if IsDefault(f, slot) then Some([]) else EncodeTagged(f, slot.v)
    case Optional => if slot.has then EncodeTagged(f, slot.v) else Some([])
    case Repeated => EncodeArray(f, slot.items)
    case Oneof(_) => if slot.held.Some? then EncodeTagged(f, slot.held.value) else Some([])
  }

  /** The field loop of pb_encode from position k on. */
  function EncodeFrom(fields: seq<Field>, m: seq<Slot>, k: nat): Option<seq<byte>>
    requires Holds(fields, m) && k <= |fields|
    decreases fields, |fields| - k
  {
    if k == |fields| then Some([])
    else Append(EncodeSlot(fields[k], m[k]), EncodeFrom(fields, m, k + 1))
  }

  /** pb_encode. */
  function Encode(fields: seq<Field>, m: seq<Slot>): Option<seq<byte>>
    requires Holds(fields, m)
  {
    EncodeFrom(fields, m, 0)
  }
}
