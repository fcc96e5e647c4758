/** What pb_decode.c computes, on values: a stream is the sequence of its
    unread bytes, so a substream is a prefix of its parent. None stands for
    `return false`. */
module NanopbDecode {
  import opened Prelude
  import opened NanopbVarint
  import opened NanopbSchema

  const WT_VARINT: nat := 0
  const WT_64BIT: nat := 1
  const WT_STRING: nat := 2
  const WT_32BIT: nat := 5

  // ----- pieces of the wire format -----

  datatype TagRead = TagEnd(rest: seq<byte>) | TagError | TagOk(tag: nat, wire: nat, rest: seq<byte>)

  /** pb_decode_tag: a zero tag ends a message, as the end of the stream does. */
  function DecodeTag(s: seq<byte>): (r: TagRead)
    ensures r.TagOk? ==> |r.rest| < |s|
  {
    if s == [] then TagEnd([])
    else
      match DecodeVarint32(s)
      case None => TagError
      case Some(p) => if p.value == 0 then TagEnd(p.rest) else TagOk(p.value / 8, p.value % 8, p.rest)
  }

  /** pb_read into nowhere. */
  function Drop(s: seq<byte>, count: nat): (r: Option<seq<byte>>)
    ensures r.Some? <==> count <= |s|
    ensures r.Some? ==> r.value == s[count..]
  {
    if |s| < count then None else Some(s[count..])
  }

  /** pb_skip_varint, which has no length limit. */
  function SkipVarint(s: seq<byte>): (r: Option<seq<byte>>)
    ensures r.Some? ==> |r.value| < |s|
  {
    if s == [] then None else if s[0] >= 128 then SkipVarint(s[1..]) else Some(s[1..])
  }

  /** pb_make_string_substream: a length, then that many bytes. */
  function Substream(s: seq<byte>): (r: Option<Parsed<seq<byte>>>)
    ensures r.Some? ==> |r.value.rest| + |r.value.value| < |s|
  {
    match DecodeVarint32(s)
    case None => None
    case Some(p) =>
      if |p.rest| < p.value then None else Some(Parsed(p.rest[..p.value], p.rest[p.value..]))
  }

  function SkipField(wire: nat, s: seq<byte>): (r: Option<seq<byte>>)
    ensures r.Some? ==> |r.value| <= |s|
  {
    if wire == WT_VARINT then SkipVarint(s)
    else if wire == WT_64BIT then Drop(s, 8)
    else if wire == WT_STRING then
      match Substream(s)
      case None => None
      case Some(p) => Some(p.rest)
    else if wire == WT_32BIT then Drop(s, 4)
    else None
  }

  // ----- scalar values -----

  /** The low `size` bytes of u as a two's complement number. */
  function Signed(u: nat, size: nat): int
    requires IntSize(size)
  {
    var bound := ByteBound(size);
    var low := u % (2 * bound);
    if low < bound then low else low - 2 * bound
  }

  /** pb_dec_varint: fields of up to 32 bits see the value as an int32 first. */
  function DecodeInt(f: Field, u: nat): Option<Val> {
    if !IntSize(f.dataSize) then None
    else
      var svalue := if f.dataSize == 8 then Signed(u, 8) else Signed(u, 4);
      var clamped := Signed(svalue % TWO64, f.dataSize);
      if clamped != svalue then None else Some(VInt(svalue))
  }

  /** pb_dec_uvarint. */
  function DecodeUnsigned(f: Field, u: nat): Option<Val> {
    if !IntSize(f.dataSize) then None
    else if u % (2 * ByteBound(f.dataSize)) != u then None
    else Some(VInt(u))
  }

  /** pb_dec_svarint. */
  function DecodeZigZag(f: Field, u: nat): Option<Val>
    requires u < TWO64
  {
    if !IntSize(f.dataSize) then None
    else
      var value := UnZigZag(u);
      if Signed(value % TWO64, f.dataSize) != value then None else Some(VInt(value))
  }

  /** `count` bytes as a little-endian number. */
  function LittleEndian(s: seq<byte>): nat {
    if s == [] then 0 else s[0] + 256 * LittleEndian(s[1..])
  }

  /** The contents of a char array up to the first NUL. */
  function CString(s: seq<byte>): (r: seq<byte>)
    ensures 0 !in r && |r| <= |s|
    ensures 0 !in s ==> r == s
  {
    if s == [] || s[0] == 0 then [] else [s[0]] + CString(s[1..])
  }

  function Zeros(n: nat): (s: seq<byte>)
    ensures |s| == n && forall b :: b in s ==> b == 0
  {
    seq(n, _ => 0)
  }

  function FromVarint(f: Field, u: nat): Option<Val>
    requires u < TWO64
  {
    if f.ltype.Varint? then DecodeInt(f, u)
    else if f.ltype.UVarint? then DecodeUnsigned(f, u)
    else DecodeZigZag(f, u)
  }

  /** pb_dec_bytes, pb_dec_string and pb_dec_fixed_length_bytes, given the
      length prefix and what follows it. */
  function FromLength(f: Field, size: nat, s: seq<byte>): (r: Option<Parsed<Val>>)
    ensures r.Some? ==> |r.value.rest| <= |s|
  {
    if f.ltype.FixedLengthBytes? && size == 0 then Some(Parsed(VBytes(Zeros(f.dataSize)), s))
    else if f.ltype.FixedLengthBytes? && size != f.dataSize then None
    else if f.ltype.Bytes? && size + BYTES_HEADER > f.dataSize then None
    else if f.ltype.String? && size + 1 > f.dataSize then None
    else if |s| < size then None
    else Some(Parsed(VBytes(if f.ltype.String? then CString(s[..size]) else s[..size]), s[size..]))
  }

  function DecodeScalar(f: Field, s: seq<byte>): (r: Option<Parsed<Val>>)
    requires !f.ltype.Submessage?
    ensures r.Some? ==> |r.value.rest| < |s|
  {
    if f.ltype.Fixed32? then
      if |s| < 4 then None else Some(Parsed(VInt(LittleEndian(s[..4])), s[4..]))
    else if f.ltype.Fixed64? then
      if |s| < 8 then None else Some(Parsed(VInt(LittleEndian(s[..8])), s[8..]))
    else if f.ltype.Bytes? || f.ltype.String? || f.ltype.FixedLengthBytes? then
      match DecodeVarint32(s)
      case None => None
      case Some(p) => FromLength(f, p.value, p.rest)
    else
      match DecodeVarint64(s)
      case None => None
      case Some(p) =>
        DecodedVarintsFit(s);
        match FromVarint(f, p.value)
        case None => None
        case Some(v) => Some(Parsed(v, p.rest))
  }

  // ----- what a decoded scalar fits -----

  lemma {:induction false} LittleEndianBound(s: seq<byte>)
    requires |s| == 4 || |s| == 8
    ensures LittleEndian(s) < (if |s| == 4 then TWO32 else TWO64)
  {
    LittleEndianBelow(s);
    ShlEight(1, |s|);
  }

  lemma {:induction false} LittleEndianBelow(s: seq<byte>)
    ensures LittleEndian(s) < Shl(1, 8 * |s|)
  {
    if s != [] {
      LittleEndianBelow(s[1..]);
      ShlSeven(1, 8 * |s[1..]|);
    }
  }

  lemma ShlEight(c: nat, n: nat)
    requires n == 4 || n == 8
    ensures Shl(1, 8 * n) == if n == 4 then TWO32 else TWO64
  {
    if n == 4 {
      ShlWord32();
    } else {
      ShlWord64();
    }
  }

  /** The decoders never store a number their cell cannot hold, nor bytes past
      the end of one. */
  lemma DecodedScalarHolds(f: Field, s: seq<byte>)
    requires !f.ltype.Submessage? && DecodeScalar(f, s).Some?
    ensures HoldsScalar(f, DecodeScalar(f, s).value.value)
  {
    hide Shl, Varint64From, Varint32From;
    DecodedVarintsFit(s);
    match f.ltype {
      case Fixed32 => LittleEndianBound(s[..4]);
      case Fixed64 => LittleEndianBound(s[..8]);
      case _ =>
    }
  }

  // ----- whole messages -----

  function DecodePacked(f: Field, items: seq<Val>, s: seq<byte>): (r: Option<seq<Val>>)
    requires f.ltype.Packable()
    requires forall i :: 0 <= i < |items| ==> HoldsVal(f, items[i])
    ensures r.Some? ==> forall i :: 0 <= i < |r.value| ==> HoldsVal(f, r.value[i])
    decreases |s|
  {
    if s == [] then Some(items)
    else if |items| >= f.arraySize then None
    else
      match DecodeScalar(f, s)
      case None => None
      case Some(p) =>
        DecodedScalarHolds(f, s);
        DecodePacked(f, items + [p.value], p.rest)
  }

  /** PB_DECODERS[ltype]; `held` is what the destination held. */
  function DecodeVal(f: Field, held: Val, s: seq<byte>): (r: Option<Parsed<Val>>)
    requires GoodField(f) && HoldsVal(f, held)
    ensures r.Some? ==> HoldsVal(f, r.value.value) && |r.value.rest| < |s|
    decreases f, 0
  {
    if f.ltype.Submessage? then
      match Substream(s)
      case None => None
      case Some(p) =>
        match DecodeNoinit(f.sub, held.slots, p.value)
        case None => None
        case Some(sub) => Some(Parsed(VMsg(sub.value), p.rest))
    else
      match DecodeScalar(f, s)
      case None => None
      case Some(p) =>
        DecodedScalarHolds(f, s);
        Some(p)
  }

  /** decode_static_field on the slot of field f. */
  function DecodeSlot(f: Field, slot: Slot, wire: nat, s: seq<byte>): (r: Option<Parsed<Slot>>)
    requires GoodField(f) && HoldsSlot(f, slot)
    ensures r.Some? ==> HoldsSlot(f, r.value.value) && |r.value.rest| < |s|
    decreases f, 1
  {
    match f.htype
    case Required => AsOne(DecodeVal(f, slot.v, s))
    case Singular => AsOne(DecodeVal(f, slot.v, s))
    case Optional =>
      (match DecodeVal(f, slot.v, s)
       case None => None
       case Some(p) => Some(Parsed(Opt(true, p.value), p.rest)))
    case Repeated =>
      if wire == WT_STRING && f.ltype.Packable() then
        (match Substream(s)
         case None => None
         case Some(p) =>
           match DecodePacked(f, slot.items, p.value)
           case None => None
           case Some(items) => Some(Parsed(Rep(items), p.rest)))
      else if |slot.items| >= f.arraySize then None
      else
        (match DecodeVal(f, DefaultVal(f), s)
         case None => None
         case Some(p) => Some(Parsed(Rep(slot.items + [p.value]), p.rest)))
    case Oneof(_) =>
      (match DecodeVal(f, DefaultVal(f), s)
       case None => None
       case Some(p) => Some(Parsed(Union(Some(p.value)), p.rest)))
  }

  function AsOne(r: Option<Parsed<Val>>): Option<Parsed<Slot>> {
    match r
    case None => None
    case Some(p) => Some(Parsed(One(p.value), p.rest))
  }

  /** How the field loop of pb_decode_noinit ended: the struct, what is unread,
      the required fields met, and whether a zero tag stopped it. */
  datatype Loop = Loop(m: seq<Slot>, rest: seq<byte>, seen: set<nat>, terminated: bool)

  function DecodeLoop(fields: seq<Field>, m: seq<Slot>, s: seq<byte>, seen: set<nat>): (r: Option<Loop>)
    requires GoodFields(fields) && Holds(fields, m)
    ensures r.Some? ==> Holds(fields, r.value.m)
    ensures r.Some? && !r.value.terminated ==> r.value.rest == []
    decreases fields, 0, |s|
  {
    if s == [] then Some(Loop(m, s, seen, false))
    else
      match DecodeTag(s)
      case TagEnd(rest) => Some(Loop(m, rest, seen, true))
      case TagError => None
      case TagOk(tag, wire, rest) =>
        match Find(fields, tag)
        case None =>
          // Searching an empty list for field number 0 meets the list's
          // terminator, a "required varint" of size 0, which never decodes.
          if fields == [] && tag == 0 then None
          else
            (match SkipField(wire, rest)
             case None => None
             case Some(rest') => DecodeLoop(fields, m, rest', seen))
        case Some(k) =>
          match DecodeSlot(fields[k], m[k], wire, rest)
          case None => None
          case Some(p) =>
            DecodeLoop(fields, Store(fields, m, k, p.value), p.rest, MarkSeen(fields, k, seen))
  }

  /** pb_decode_noinit. */
  function DecodeNoinit(fields: seq<Field>, m: seq<Slot>, s: seq<byte>): (r: Option<Parsed<seq<Slot>>>)
    requires GoodFields(fields) && Holds(fields, m)
    ensures r.Some? ==> Holds(fields, r.value.value)
    decreases fields, 1
  {
    match DecodeLoop(fields, m, s, {})
    case None => None
    case Some(l) => if RequiredSeen(fields, l.seen) then Some(Parsed(l.m, l.rest)) else None
  }

  /** pb_decode: defaults first. */
  function Decode(fields: seq<Field>, s: seq<byte>): (r: Option<Parsed<seq<Slot>>>)
    requires GoodFields(fields)
    ensures r.Some? ==> Holds(fields, r.value.value)
  {
    DecodeNoinit(fields, Defaults(fields), s)
  }
}
