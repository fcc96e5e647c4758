/** What it means that a field occurs more than once, or fields occur in another
    order (Protocol Buffers Encoding, "Last One Wins", "Packed Repeated Fields",
    "Field Order"). */
module NanopbOccurrences {
  import opened Prelude
  import opened NanopbVarint
  import opened NanopbSchema
  import opened NanopbDecode
  import opened NanopbEncode
  import opened NanopbMerge

  // ----- one occurrence -----

  /** u is one whole occurrence of field k, decodable over m. */
  predicate Occurs(fields: seq<Field>, m: seq<Slot>, k: nat, u: seq<byte>)
    requires GoodFields(fields) && Holds(fields, m)
  {
    var tag := DecodeTag(u);
    && k < |fields| && tag.TagOk? && Find(fields, tag.tag) == Some(k)
    && (SlotFits(fields, m, k);
        var p := DecodeSlot(fields[k], m[k], tag.wire, tag.rest);
        p.Some? && p.value.rest == [])
  }

  /** What slot k holds after it. */
  function Given(fields: seq<Field>, m: seq<Slot>, k: nat, u: seq<byte>): (slot: Slot)
    requires GoodFields(fields) && Holds(fields, m) && Occurs(fields, m, k, u)
    ensures HoldsSlot(fields[k], slot)
  {
    SlotFits(fields, m, k);
    DecodeSlot(fields[k], m[k], DecodeTag(u).wire, DecodeTag(u).rest).value.value
  }

  lemma OccursFirst(fields: seq<Field>, m: seq<Slot>, k: nat, u: seq<byte>, t: seq<byte>, seen: set<nat>)
    requires GoodFields(fields) && Holds(fields, m) && Occurs(fields, m, k, u)
    ensures DecodeLoop(fields, m, u + t, seen)
         == DecodeLoop(fields, Store(fields, m, k, Given(fields, m, k, u)), t, MarkSeen(fields, k, seen))
  {
    hide DecodeTag, DecodeSlot, Find, Store, MarkSeen, Holds, GoodFields;
    var tag := DecodeTag(u);
    TagNeedsBytes(u);
    assert u + t != [];
    TagLocal(u, t);
    SlotFits(fields, m, k);
    SlotLocal(fields[k], m[k], tag.wire, tag.rest, t);
    assert [] + t == t;
  }

  lemma StoreAgain(fields: seq<Field>, m: seq<Slot>, j: nat, k: nat, x: Slot, y: Slot)
    requires Holds(fields, m) && j < |fields| && k < |fields|
    requires HoldsSlot(fields[j], x) && HoldsSlot(fields[k], y) && (j == k || SameUnion(fields[j], fields[k]))
    ensures Store(fields, Store(fields, m, j, x), k, y) == Store(fields, m, k, y)
  {
  }

  lemma StoreKeeps(fields: seq<Field>, m: seq<Slot>, j: nat, k: nat, x: Slot)
    requires Holds(fields, m) && j < |fields| && k < |fields| && HoldsSlot(fields[j], x)
    ensures Store(fields, m, j, x)[j] == x
    ensures j != k && !SameUnion(fields[j], fields[k]) ==> Store(fields, m, j, x)[k] == m[k]
  {
  }

  lemma StoreSwaps(fields: seq<Field>, m: seq<Slot>, j: nat, k: nat, x: Slot, y: Slot)
    requires Holds(fields, m) && j < |fields| && k < |fields| && j != k && !SameUnion(fields[j], fields[k])
    requires HoldsSlot(fields[j], x) && HoldsSlot(fields[k], y)
    ensures Store(fields, Store(fields, m, j, x), k, y) == Store(fields, Store(fields, m, k, y), j, x)
  {
  }

  lemma SeenSwaps(fields: seq<Field>, j: nat, k: nat, seen: set<nat>)
    requires j < |fields| && k < |fields|
    ensures MarkSeen(fields, k, MarkSeen(fields, j, seen)) == MarkSeen(fields, j, MarkSeen(fields, k, seen))
    ensures j == k ==> MarkSeen(fields, k, MarkSeen(fields, j, seen)) == MarkSeen(fields, k, seen)
    ensures SameUnion(fields[j], fields[k]) ==> MarkSeen(fields, j, seen) == seen
  {
  }

  // ----- order -----

  /** Fields may come in any order: occurrences of different fields, not of one
      union, may be exchanged. */
  lemma {:induction false} AnyOrder(
      fields: seq<Field>, m: seq<Slot>, j: nat, k: nat, u: seq<byte>, w: seq<byte>, t: seq<byte>, seen: set<nat>)
    requires GoodFields(fields) && Holds(fields, m) && Occurs(fields, m, j, u) && Occurs(fields, m, k, w)
    requires j != k && !SameUnion(fields[j], fields[k])
    ensures DecodeLoop(fields, m, u + w + t, seen) == DecodeLoop(fields, m, w + u + t, seen)
  {
    hide DecodeLoop, DecodeTag, DecodeSlot, Find, Store, MarkSeen, Holds, GoodFields;
    var x, y := Given(fields, m, j, u), Given(fields, m, k, w);
    StoreKeeps(fields, m, j, k, x);
    StoreKeeps(fields, m, k, j, y);
    assert u + w + t == u + (w + t) && w + u + t == w + (u + t);
    OccursFirst(fields, m, j, u, w + t, seen);
    OccursFirst(fields, m, k, w, u + t, seen);
    OccursFirst(fields, Store(fields, m, j, x), k, w, t, MarkSeen(fields, j, seen));
    OccursFirst(fields, Store(fields, m, k, y), j, u, t, MarkSeen(fields, k, seen));
    StoreSwaps(fields, m, j, k, x, y);
    SeenSwaps(fields, j, k, seen);
  }

  // ----- the last one wins -----

  /** Decoding this field does not look at what its slot holds. */
  predicate Replaces(f: Field) {
    f.htype.Oneof? || (!f.htype.Repeated? && !f.ltype.Submessage?)
  }

  lemma GivenAlone(f: Field, slot: Slot, slot': Slot, wire: nat, s: seq<byte>)
    requires GoodField(f) && HoldsSlot(f, slot) && HoldsSlot(f, slot') && Replaces(f)
    ensures DecodeSlot(f, slot, wire, s) == DecodeSlot(f, slot', wire, s)
  {
    hide DecodeScalar;
  }

  /** A scalar that occurs again, or a member of a oneof after any member of the
      same one, counts alone. */
  lemma {:induction false} LastOneWins(
      fields: seq<Field>, m: seq<Slot>, j: nat, k: nat, u: seq<byte>, w: seq<byte>, t: seq<byte>)
    requires GoodFields(fields) && Holds(fields, m) && Occurs(fields, m, j, u) && Occurs(fields, m, k, w)
    requires Replaces(fields[k]) && (j == k || SameUnion(fields[j], fields[k]))
    ensures DecodeNoinit(fields, m, u + w + t) == DecodeNoinit(fields, m, w + t)
  {
    hide DecodeLoop, DecodeTag, DecodeSlot, Find, Store, MarkSeen, Holds, GoodFields;
    var x, y := Given(fields, m, j, u), Given(fields, m, k, w);
    var m' := Store(fields, m, j, x);
    SlotFits(fields, m, k);
    SlotFits(fields, m', k);
    GivenAlone(fields[k], m[k], m'[k], DecodeTag(w).wire, DecodeTag(w).rest);
    assert u + w + t == u + (w + t);
    OccursFirst(fields, m, j, u, w + t, {});
    OccursFirst(fields, m', k, w, t, MarkSeen(fields, j, {}));
    OccursFirst(fields, m, k, w, t, {});
    StoreAgain(fields, m, j, k, x, y);
    SeenSwaps(fields, j, k, {});
  }

  /** The slot of a field that holds one value. */
  function Bearing(f: Field, v: Val): Slot {
    if f.htype.Oneof? then Union(Some(v)) else if f.htype.Optional? then Opt(true, v) else One(v)
  }

  /** And what it counts as. */
  lemma GivenScalar(f: Field, slot: Slot, wire: nat, s: seq<byte>)
    requires GoodField(f) && HoldsSlot(f, slot) && Replaces(f)
    ensures
      var p := DecodeVal(f, DefaultVal(f), s);
      DecodeSlot(f, slot, wire, s)
      == if p.None? then None else Some(Parsed(Bearing(f, p.value.value), p.value.rest))
  {
    hide DecodeScalar, DefaultVal;
  }

  // ----- submessages merge -----

  predicate Merges(f: Field) {
    f.ltype.Submessage? && (f.htype.Required? || f.htype.Optional? || f.htype.Singular?)
  }

  /** The tag is one the wire can carry, and it is field k's. */
  predicate Listed(fields: seq<Field>, k: nat) {
    k < |fields| && 1 <= fields[k].tag < 0x2000_0000 && Find(fields, fields[k].tag) == Some(k)
  }

  /** The submessage that slot k holds. */
  function SubOf(fields: seq<Field>, m: seq<Slot>, k: nat): (sub: seq<Slot>)
    requires GoodFields(fields) && Holds(fields, m) && k < |fields| && Merges(fields[k])
    ensures GoodFields(fields[k].sub) && Holds(fields[k].sub, sub)
    ensures (m[k].One? || m[k].Opt?) && m[k].v == VMsg(sub)
  {
    SlotFits(fields, m, k);
    m[k].v.slots
  }

  /** The items that slot k holds. */
  function ItemsOf(fields: seq<Field>, m: seq<Slot>, k: nat): (items: seq<Val>)
    requires GoodFields(fields) && Holds(fields, m) && k < |fields| && fields[k].htype.Repeated?
    ensures m[k] == Rep(items) && forall i :: 0 <= i < |items| ==> HoldsVal(fields[k], items[i])
  {
    SlotFits(fields, m, k);
    m[k].items
  }

  /** A length-delimited field on the wire. */
  function Delimited(f: Field, payload: seq<byte>): seq<byte> {
    EncodeTag(WT_STRING, f.tag) + EncodeString(payload)
  }

  lemma DelimitedTag(f: Field, payload: seq<byte>, t: seq<byte>)
    requires 1 <= f.tag < 0x2000_0000
    ensures DecodeTag(Delimited(f, payload) + t) == TagOk(f.tag, WT_STRING, EncodeString(payload) + t)
  {
    hide DecodeVarint32, EncodeVarint;
    assert Delimited(f, payload) + t == EncodeVarint(8 * f.tag + WT_STRING) + (EncodeString(payload) + t);
    Varint32RoundTrip(8 * f.tag + WT_STRING, EncodeString(payload) + t);
  }

  lemma LoopListed(fields: seq<Field>, m: seq<Slot>, k: nat, s: seq<byte>, wire: nat, rest: seq<byte>, seen: set<nat>)
    requires GoodFields(fields) && Holds(fields, m) && Listed(fields, k)
    requires DecodeTag(s) == TagOk(fields[k].tag, wire, rest)
    ensures GoodField(fields[k]) && |m| == |fields| && HoldsSlot(fields[k], m[k])
    ensures
      var p := DecodeSlot(fields[k], m[k], wire, rest);
      DecodeLoop(fields, m, s, seen)
      == if p.None? then None
         else DecodeLoop(fields, Store(fields, m, k, p.value.value), p.value.rest, MarkSeen(fields, k, seen))
  {
    SlotFits(fields, m, k);
    TagNeedsBytes(s);
    hide DecodeTag, DecodeSlot, Find, Store, MarkSeen, Holds, GoodFields;
  }

  lemma {:induction false} SlotOver(f: Field, slot: Slot, a: seq<byte>, t: seq<byte>)
    requires GoodField(f) && HoldsSlot(f, slot) && Merges(f) && |a| < TWO32
    ensures (slot.One? || slot.Opt?) && slot.v.VMsg? && GoodFields(f.sub) && Holds(f.sub, slot.v.slots)
    ensures
      var sub := DecodeNoinit(f.sub, slot.v.slots, a);
      DecodeSlot(f, slot, WT_STRING, EncodeString(a) + t)
      == if sub.None? then None else Some(Parsed(Bearing(f, VMsg(sub.value.value)), t))
  {
    hide DecodeNoinit, Holds, GoodFields, Substream;
    SubstreamOf(a, t);
  }

  /** One occurrence of a submessage is decoded over what its slot holds. */
  lemma {:induction false} SubmessageOver(
      fields: seq<Field>, m: seq<Slot>, k: nat, a: seq<byte>, t: seq<byte>, seen: set<nat>)
    requires GoodFields(fields) && Holds(fields, m) && Listed(fields, k) && Merges(fields[k]) && |a| < TWO32
    ensures
      var f := fields[k];
      var sub := DecodeNoinit(f.sub, SubOf(fields, m, k), a);
      DecodeLoop(fields, m, Delimited(f, a) + t, seen)
      == if sub.None? then None
         else DecodeLoop(fields, Store(fields, m, k, Bearing(f, VMsg(sub.value.value))), t, MarkSeen(fields, k, seen))
  {
    hide DecodeTag, DecodeLoop, DecodeSlot, DecodeNoinit, Find, Store, MarkSeen, Holds, GoodFields, Delimited;
    var f := fields[k];
    DelimitedTag(f, a, t);
    LoopListed(fields, m, k, Delimited(f, a) + t, WT_STRING, EncodeString(a) + t, seen);
    SlotOver(f, m[k], a, t);
  }

  /** Two occurrences of a submessage count as one with both payloads end to
      end, from whatever the struct held; if the second one alone is refused
      (it need not repeat the required fields), the message is. */
  lemma {:induction false} SubmessagesMerge(
      fields: seq<Field>, m: seq<Slot>, k: nat, a: seq<byte>, b: seq<byte>, t: seq<byte>)
    requires GoodFields(fields) && Holds(fields, m) && Listed(fields, k) && Merges(fields[k]) && |a + b| < TWO32
    requires ReadsAll(fields[k].sub, SubOf(fields, m, k), a)
    requires DecodeNoinit(fields[k].sub, SubOf(fields, m, k), a).Some?
    ensures
      var f := fields[k];
      var first := DecodeNoinit(f.sub, SubOf(fields, m, k), a).value.value;
      DecodeNoinit(fields, m, Delimited(f, a) + Delimited(f, b) + t)
      == if DecodeNoinit(f.sub, first, b).None? then None
         else DecodeNoinit(fields, m, Delimited(f, a + b) + t)
  {
    hide DecodeLoop, DecodeNoinit, Store, MarkSeen, Holds, GoodFields, ReadsAll, Delimited;
    SlotFits(fields, m, k);
    var f := fields[k];
    var first := DecodeNoinit(f.sub, SubOf(fields, m, k), a).value.value;
    var x := Bearing(f, VMsg(first));
    assert Delimited(f, a) + Delimited(f, b) + t == Delimited(f, a) + (Delimited(f, b) + t);
    SubmessageOver(fields, m, k, a, Delimited(f, b) + t, {});
    var m' := Store(fields, m, k, x);
    StoreKeeps(fields, m, k, k, x);
    SubmessageOver(fields, m', k, b, t, MarkSeen(fields, k, {}));
    SubmessageOver(fields, m, k, a + b, t, {});
    SeenSwaps(fields, k, k, {});
    DecodeConcatenation(f.sub, SubOf(fields, m, k), a, b);
    NoinitIs(fields, m, Delimited(f, a) + Delimited(f, b) + t);
    NoinitIs(fields, m, Delimited(f, a + b) + t);
    if DecodeNoinit(f.sub, first, b).Some? {
      StoreAgain(fields, m, k, k, x, Bearing(f, VMsg(DecodeNoinit(f.sub, first, b).value.value)));
    }
  }

  lemma NoinitIs(fields: seq<Field>, m: seq<Slot>, s: seq<byte>)
    requires GoodFields(fields) && Holds(fields, m)
    ensures DecodeNoinit(fields, m, s)
         == match DecodeLoop(fields, m, s, {})
            case None => None
            case Some(l) => if RequiredSeen(fields, l.seen) then Some(Parsed(l.m, l.rest)) else None
  {
  }

  // ----- arrays append -----

  /** The numbers that follow each other in s, however many. */
  function Numbers(f: Field, s: seq<byte>): (r: Option<seq<Val>>)
    requires f.ltype.Packable()
    decreases |s|
  {
    if s == [] then Some([])
    else
      match DecodeScalar(f, s)
      case None => None
      case Some(p) =>
        match Numbers(f, p.rest)
        case None => None
        case Some(more) => Some([p.value] + more)
  }

  /** A packed payload appends all its numbers exactly if there is room. */
  lemma {:induction false} PackedAppends(f: Field, items: seq<Val>, s: seq<byte>)
    requires f.ltype.Packable() && |items| <= f.arraySize
    requires forall i :: 0 <= i < |items| ==> HoldsVal(f, items[i])
    ensures
      var more := Numbers(f, s);
      DecodePacked(f, items, s)
      == if more.Some? && |items| + |more.value| <= f.arraySize then Some(items + more.value) else None
    decreases |s|
  {
    hide DecodeScalar, HoldsScalar;
    if s == [] {
      assert items + [] == items;
    } else if DecodeScalar(f, s).Some? {
      var p := DecodeScalar(f, s).value;
      DecodedScalarHolds(f, s);
      if |items| < f.arraySize {
        PackedAppends(f, items + [p.value], p.rest);
        if Numbers(f, p.rest).Some? {
          assert items + [p.value] + Numbers(f, p.rest).value == items + ([p.value] + Numbers(f, p.rest).value);
        }
      }
    }
  }

  /** The bytes of exactly one number. */
  predicate OneNumber(f: Field, e: seq<byte>)
    requires f.ltype.Packable()
  {
    DecodeScalar(f, e).Some? && DecodeScalar(f, e).value.rest == []
  }

  function Flat(es: seq<seq<byte>>): seq<byte> {
    if es == [] then [] else es[0] + Flat(es[1..])
  }

  /** The numbers as unpacked fields. */
  function Singles(f: Field, es: seq<seq<byte>>): seq<byte> {
    if es == [] then [] else EncodeTag(WireType(f.ltype), f.tag) + es[0] + Singles(f, es[1..])
  }

  /** A packed array and the same numbers one by one mean the same, for every
      numeric type and whatever the array held. */
  lemma {:induction false} UnpackedIsPacked(
      fields: seq<Field>, m: seq<Slot>, k: nat, es: seq<seq<byte>>, t: seq<byte>, seen: set<nat>)
    requires GoodFields(fields) && Holds(fields, m) && Listed(fields, k)
    requires fields[k].htype.Repeated? && fields[k].ltype.Packable()
    requires forall i :: 0 <= i < |es| ==> OneNumber(fields[k], es[i])
    ensures
      var items := DecodePacked(fields[k], ItemsOf(fields, m, k), Flat(es));
      DecodeLoop(fields, m, Singles(fields[k], es) + t, seen)
      == if items.None? then None else DecodeLoop(fields, Store(fields, m, k, Rep(items.value)), t, seen)
    decreases |es|
  {
    hide DecodeTag, DecodeLoop, DecodeScalar, Find, Store, Holds, HoldsScalar, GoodFields, EncodeTag;
    var f := fields[k];
    SlotFits(fields, m, k);
    if es == [] {
      StoreSame(fields, m, k);
      assert [] + t == t;
    } else {
      var tag, e, rest := EncodeTag(WireType(f.ltype), f.tag), es[0], es[1..];
      assert OneNumber(f, e);
      assert Singles(f, es) + t == tag + (e + (Singles(f, rest) + t));
      SingleTag(f, e + (Singles(f, rest) + t));
      LoopListed(fields, m, k, Singles(f, es) + t, WireType(f.ltype), e + (Singles(f, rest) + t), seen);
      ScalarLocal(f, e, Singles(f, rest) + t);
      ScalarLocal(f, e, Flat(rest));
      NumberNeedsBytes(f, e + Flat(rest));
      assert [] + (Singles(f, rest) + t) == Singles(f, rest) + t && [] + Flat(rest) == Flat(rest);
      if |m[k].items| < f.arraySize {
        var v := DecodeScalar(f, e).value.value;
        DecodedScalarHolds(f, e);
        var slot := Rep(m[k].items + [v]);
        StoreKeeps(fields, m, k, k, slot);
        UnpackedIsPacked(fields, Store(fields, m, k, slot), k, rest, t, seen);
        var more := DecodePacked(f, slot.items, Flat(rest));
        if more.Some? {
          StoreAgain(fields, m, k, k, slot, Rep(more.value));
        }
      }
    }
  }

  lemma StoreSame(fields: seq<Field>, m: seq<Slot>, k: nat)
    requires Holds(fields, m) && k < |fields| && fields[k].htype.Repeated?
    ensures HoldsSlot(fields[k], m[k]) && m[k].Rep? && Store(fields, m, k, Rep(m[k].items)) == m
  {
  }

  lemma NumberNeedsBytes(f: Field, s: seq<byte>)
    requires f.ltype.Packable() && DecodeScalar(f, s).Some?
    ensures s != []
  {
  }

  lemma SingleTag(f: Field, t: seq<byte>)
    requires 1 <= f.tag < 0x2000_0000 && f.ltype.Packable()
    ensures DecodeTag(EncodeTag(WireType(f.ltype), f.tag) + t) == TagOk(f.tag, WireType(f.ltype), t)
    ensures WireType(f.ltype) != WT_STRING
  {
    hide DecodeVarint32, EncodeVarint;
    Varint32RoundTrip(8 * f.tag + WireType(f.ltype), t);
  }

  /** Both forms, side by side. */
  lemma {:induction false} PackedOrNot(
      fields: seq<Field>, m: seq<Slot>, k: nat, es: seq<seq<byte>>, t: seq<byte>)
    requires GoodFields(fields) && Holds(fields, m) && Listed(fields, k)
    requires fields[k].htype.Repeated? && fields[k].ltype.Packable() && |Flat(es)| < TWO32
    requires forall i :: 0 <= i < |es| ==> OneNumber(fields[k], es[i])
    ensures DecodeNoinit(fields, m, Delimited(fields[k], Flat(es)) + t)
         == DecodeNoinit(fields, m, Singles(fields[k], es) + t)
  {
    hide DecodeTag, DecodeLoop, DecodePacked, Find, Store, Holds, GoodFields, Substream, OneNumber, Singles, Flat;
    hide Delimited;
    var f, s := fields[k], Flat(es);
    UnpackedIsPacked(fields, m, k, es, t, {});
    DelimitedTag(f, s, t);
    LoopListed(fields, m, k, Delimited(f, s) + t, WT_STRING, EncodeString(s) + t, {});
    SubstreamOf(s, t);
  }

  /** An item of any other type is appended if there is room, decoded afresh. */
  lemma ItemAppends(f: Field, slot: Slot, wire: nat, s: seq<byte>)
    requires GoodField(f) && HoldsSlot(f, slot) && f.htype.Repeated? && (!f.ltype.Packable() || wire != WT_STRING)
    ensures DecodeSlot(f, slot, wire, s).Some? <==>
              |slot.items| < f.arraySize && DecodeVal(f, DefaultVal(f), s).Some?
    ensures DecodeSlot(f, slot, wire, s).Some? ==>
              var p := DecodeVal(f, DefaultVal(f), s).value;
              DecodeSlot(f, slot, wire, s) == Some(Parsed(Rep(slot.items + [p.value]), p.rest))
  {
    hide DecodeVal, DefaultVal;
  }
}
