/** Concatenation is merging, and unknown fields leave no trace. Both rest on
    one fact: a decoder that succeeds never looks past what it consumed. */
module NanopbMerge {
  import opened Prelude
  import opened NanopbVarint
  import opened NanopbSchema
  import opened NanopbDecode
  import opened NanopbEncode

  // ----- decoders read a prefix -----

  function Extend<T>(r: Option<Parsed<T>>, t: seq<byte>): Option<Parsed<T>> {
    match r
    case None => None
    case Some(p) => Some(Parsed(p.value, p.rest + t))
  }

  lemma TagLocal(s: seq<byte>, t: seq<byte>)
    requires DecodeTag(s).TagOk?
    ensures DecodeTag(s + t) == DecodeTag(s).(rest := DecodeTag(s).rest + t)
  {
    hide DecodeVarint32;
    DecodeVarint32Local(s, t);
    assert s + t != [];
  }

  lemma SubstreamLocal(s: seq<byte>, t: seq<byte>)
    requires Substream(s).Some?
    ensures Substream(s + t) == Extend(Substream(s), t)
  {
    hide DecodeVarint32;
    DecodeVarint32Local(s, t);
    var p := DecodeVarint32(s).value;
    assert (p.rest + t)[..p.value] == p.rest[..p.value];
    assert (p.rest + t)[p.value..] == p.rest[p.value..] + t;
  }

  lemma {:induction false} SkipVarintLocal(s: seq<byte>, t: seq<byte>)
    requires SkipVarint(s).Some?
    ensures SkipVarint(s + t) == Some(SkipVarint(s).value + t)
  {
    assert (s + t)[0] == s[0] && (s + t)[1..] == s[1..] + t;
    if s[0] >= 128 {
      SkipVarintLocal(s[1..], t);
    }
  }

  lemma SkipLocal(wire: nat, s: seq<byte>, t: seq<byte>)
    requires SkipField(wire, s).Some?
    ensures SkipField(wire, s + t) == Some(SkipField(wire, s).value + t)
  {
    hide SkipVarint, Substream;
    if wire == WT_VARINT {
      SkipVarintLocal(s, t);
    } else if wire == WT_STRING {
      SubstreamLocal(s, t);
    } else {
      var n := if wire == WT_64BIT then 8 else 4;
      assert (s + t)[n..] == s[n..] + t;
    }
  }

  lemma ScalarLocal(f: Field, s: seq<byte>, t: seq<byte>)
    requires !f.ltype.Submessage? && DecodeScalar(f, s).Some?
    ensures DecodeScalar(f, s + t) == Extend(DecodeScalar(f, s), t)
  {
    hide DecodeVarint32, Varint64From, LittleEndian, FromVarint;
    if f.ltype.Fixed32? || f.ltype.Fixed64? {
      var n := if f.ltype.Fixed32? then 4 else 8;
      assert (s + t)[..n] == s[..n] && (s + t)[n..] == s[n..] + t;
    } else if f.ltype.Bytes? || f.ltype.String? || f.ltype.FixedLengthBytes? {
      DecodeVarint32Local(s, t);
      var p := DecodeVarint32(s).value;
      if p.value <= |p.rest| {
        assert (p.rest + t)[..p.value] == p.rest[..p.value];
        assert (p.rest + t)[p.value..] == p.rest[p.value..] + t;
      }
    } else {
      Varint64Local(s, 0, 0, t);
    }
  }

  lemma ValLocal(f: Field, held: Val, s: seq<byte>, t: seq<byte>)
    requires GoodField(f) && HoldsVal(f, held) && DecodeVal(f, held, s).Some?
    ensures DecodeVal(f, held, s + t) == Extend(DecodeVal(f, held, s), t)
  {
    hide Substream, DecodeNoinit, DecodeScalar;
    if f.ltype.Submessage? {
      SubstreamLocal(s, t);
    } else {
      ScalarLocal(f, s, t);
    }
  }

  lemma SlotLocal(f: Field, slot: Slot, wire: nat, s: seq<byte>, t: seq<byte>)
    requires GoodField(f) && HoldsSlot(f, slot) && DecodeSlot(f, slot, wire, s).Some?
    ensures DecodeSlot(f, slot, wire, s + t) == Extend(DecodeSlot(f, slot, wire, s), t)
  {
    hide Substream, DecodeVal, DecodePacked, DefaultVal;
    if f.htype.Repeated? {
      if wire == WT_STRING && f.ltype.Packable() {
        SubstreamLocal(s, t);
      } else {
        ValLocal(f, DefaultVal(f), s, t);
      }
    } else if f.htype.Oneof? {
      ValLocal(f, DefaultVal(f), s, t);
    } else {
      ValLocal(f, slot.v, s, t);
    }
  }

  // ----- the field loop over a concatenation -----

  /** a is read to its end: no zero tag stops the loop before. */
  predicate ReadsAll(fields: seq<Field>, m: seq<Slot>, a: seq<byte>)
    requires GoodFields(fields) && Holds(fields, m)
  {
    DecodeLoop(fields, m, a, {}).Some? && !DecodeLoop(fields, m, a, {}).value.terminated
  }

  lemma {:induction false} LoopConcat(fields: seq<Field>, m: seq<Slot>, a: seq<byte>, b: seq<byte>, seen: set<nat>)
    requires GoodFields(fields) && Holds(fields, m)
    requires DecodeLoop(fields, m, a, seen).Some? && !DecodeLoop(fields, m, a, seen).value.terminated
    ensures
      var l := DecodeLoop(fields, m, a, seen).value;
      DecodeLoop(fields, m, a + b, seen) == DecodeLoop(fields, l.m, b, l.seen)
    decreases |a|
  {
    hide DecodeTag, DecodeSlot, SkipField, Find, Store, MarkSeen, Holds, GoodFields;
    if a == [] {
      assert a + b == b;
    } else {
      var tag := DecodeTag(a);
      TagLocal(a, b);
      assert a + b != [];
      match Find(fields, tag.tag) {
        case None =>
          SkipLocal(tag.wire, tag.rest, b);
          LoopConcat(fields, m, SkipField(tag.wire, tag.rest).value, b, seen);
        case Some(k) =>
          SlotFits(fields, m, k);
          SlotLocal(fields[k], m[k], tag.wire, tag.rest, b);
          var p := DecodeSlot(fields[k], m[k], tag.wire, tag.rest).value;
          LoopConcat(fields, Store(fields, m, k, p.value), p.rest, b, MarkSeen(fields, k, seen));
      }
    }
  }

  lemma ZeroByteEnds(b: seq<byte>)
    ensures DecodeTag([0] + b) == TagEnd(b)
  {
    hide DecodeVarint32;
    assert EncodeVarint(0) == [0];
    Varint32RoundTrip(0, b);
  }

  /** A zero byte at a field boundary ends the message, and what follows it is
      left unread, whatever it is. */
  lemma ZeroEndsMessage(fields: seq<Field>, m: seq<Slot>, a: seq<byte>, b: seq<byte>)
    requires GoodFields(fields) && Holds(fields, m) && ReadsAll(fields, m, a)
    ensures DecodeNoinit(fields, m, a + ([0] + b))
         == match DecodeNoinit(fields, m, a)
            case None => None
            case Some(p) => Some(p.(rest := b))
  {
    hide DecodeTag, DecodeSlot, SkipField, Find, Store, MarkSeen, Holds, GoodFields;
    LoopConcat(fields, m, a, [0] + b, {});
    ZeroByteEnds(b);
  }

  /** The required fields met earlier only add to those met later. */
  lemma {:induction false} LoopSeen(fields: seq<Field>, m: seq<Slot>, s: seq<byte>, seen: set<nat>, more: set<nat>)
    requires GoodFields(fields) && Holds(fields, m)
    ensures DecodeLoop(fields, m, s, seen + more)
         == match DecodeLoop(fields, m, s, more)
            case None => None
            case Some(l) => Some(l.(seen := seen + l.seen))
    decreases |s|
  {
    hide DecodeTag, DecodeSlot, SkipField, Find, Store, Holds, GoodFields;
    if s != [] && DecodeTag(s).TagOk? {
      var tag := DecodeTag(s);
      match Find(fields, tag.tag) {
        case None =>
          if !(fields == [] && tag.tag == 0) && SkipField(tag.wire, tag.rest).Some? {
            LoopSeen(fields, m, SkipField(tag.wire, tag.rest).value, seen, more);
          }
        case Some(k) =>
          SlotFits(fields, m, k);
          if DecodeSlot(fields[k], m[k], tag.wire, tag.rest).Some? {
            var p := DecodeSlot(fields[k], m[k], tag.wire, tag.rest).value;
            assert MarkSeen(fields, k, seen + more) == seen + MarkSeen(fields, k, more);
            LoopSeen(fields, Store(fields, m, k, p.value), p.rest, seen, MarkSeen(fields, k, more));
          }
      }
    }
  }

  /** Decoding a concatenation without re-initialising is decoding the parts
      in turn. The second part need not repeat the required fields. */
  lemma {:induction false} DecodeConcatenation(fields: seq<Field>, m: seq<Slot>, a: seq<byte>, b: seq<byte>)
    requires GoodFields(fields) && Holds(fields, m)
    requires ReadsAll(fields, m, a) && DecodeNoinit(fields, m, a).Some?
    ensures
      var m1 := DecodeNoinit(fields, m, a).value.value;
      DecodeNoinit(fields, m, a + b)
      == match DecodeLoop(fields, m1, b, {})
         case None => None
         case Some(l) => Some(Parsed(l.m, l.rest))
    ensures
      var m1 := DecodeNoinit(fields, m, a).value.value;
      DecodeNoinit(fields, m1, b).Some? ==> DecodeNoinit(fields, m, a + b) == DecodeNoinit(fields, m1, b)
  {
    hide DecodeLoop, Holds, GoodFields;
    var l := DecodeLoop(fields, m, a, {}).value;
    LoopConcat(fields, m, a, b, {});
    LoopSeen(fields, l.m, b, l.seen, {});
    assert l.seen + {} == l.seen;
  }

  /** A submessage field met twice holds what one occurrence with the two
      payloads end to end would have given it. */
  lemma {:induction false} SubmessageMerge(f: Field, held: Val, a: seq<byte>, b: seq<byte>, t: seq<byte>)
    requires GoodField(f) && f.ltype.Submessage? && HoldsVal(f, held) && |a + b| < TWO32
    requires DecodeNoinit(f.sub, held.slots, a).Some? && ReadsAll(f.sub, held.slots, a)
    ensures
      var first := DecodeVal(f, held, EncodeString(a) + t);
      first == Some(Parsed(VMsg(DecodeNoinit(f.sub, held.slots, a).value.value), t))
      && (DecodeVal(f, first.value.value, EncodeString(b) + t).Some? ==>
            DecodeVal(f, held, EncodeString(a + b) + t)
            == DecodeVal(f, first.value.value, EncodeString(b) + t))
  {
    hide DecodeNoinit, DecodeLoop, Holds, GoodFields, ReadsAll;
    SubstreamOf(a, t);
    SubstreamOf(b, t);
    SubstreamOf(a + b, t);
    DecodeConcatenation(f.sub, held.slots, a, b);
  }

  lemma SubstreamOf(b: seq<byte>, t: seq<byte>)
    requires |b| < TWO32
    ensures Substream(EncodeString(b) + t) == Some(Parsed(b, t))
  {
    hide EncodeVarint, DecodeVarint32;
    assert EncodeString(b) + t == EncodeVarint(|b|) + (b + t);
    Varint32RoundTrip(|b|, b + t);
    assert (b + t)[..|b|] == b && (b + t)[|b|..] == t;
  }

  // ----- unknown fields -----

  /** u is a run of well-formed fields whose tags `fields` does not list. */
  predicate Unknown(fields: seq<Field>, u: seq<byte>)
    decreases |u|
  {
    u == [] ||
    (var tag := DecodeTag(u);
     && tag.TagOk?
     && Find(fields, tag.tag).None?
     && (fields != [] || tag.tag != 0)
     && SkipField(tag.wire, tag.rest).Some?
     && Unknown(fields, SkipField(tag.wire, tag.rest).value))
  }

  lemma {:induction false} LoopSkipsUnknown(
      fields: seq<Field>, m: seq<Slot>, u: seq<byte>, b: seq<byte>, seen: set<nat>)
    requires GoodFields(fields) && Holds(fields, m) && Unknown(fields, u)
    ensures DecodeLoop(fields, m, u + b, seen) == DecodeLoop(fields, m, b, seen)
    decreases |u|
  {
    if u == [] {
      assert u + b == b;
    } else {
      hide DecodeTag, DecodeSlot, SkipField, Find, Store, Holds, GoodFields;
      var tag := DecodeTag(u);
      TagLocal(u, b);
      SkipLocal(tag.wire, tag.rest, b);
      assert u + b != [];
      LoopSkipsUnknown(fields, m, SkipField(tag.wire, tag.rest).value, b, seen);
    }
  }

  /** Inserting unknown fields at a field boundary changes nothing, whether or
      not the message decodes. */
  lemma UnknownFieldsIgnored(fields: seq<Field>, m: seq<Slot>, a: seq<byte>, u: seq<byte>, b: seq<byte>)
    requires GoodFields(fields) && Holds(fields, m)
    requires ReadsAll(fields, m, a) && Unknown(fields, u)
    ensures DecodeNoinit(fields, m, a + u + b) == DecodeNoinit(fields, m, a + b)
  {
    hide DecodeLoop, Unknown, Holds, GoodFields;
    var l := DecodeLoop(fields, m, a, {}).value;
    assert a + u + b == a + (u + b);
    LoopConcat(fields, m, a, u + b, {});
    LoopConcat(fields, m, a, b, {});
    LoopSkipsUnknown(fields, l.m, u, b, l.seen);
  }

  /** A message type without fields fails on field number 0, whatever follows:
      there the search stops at the list's terminator, whose tag is 0 too. With
      fields, none numbered 0, it is skipped like any unlisted field. */
  lemma FieldZero(fields: seq<Field>, m: seq<Slot>, s: seq<byte>, seen: set<nat>)
    requires GoodFields(fields) && Holds(fields, m)
    requires forall i :: 0 <= i < |fields| ==> fields[i].tag != 0
    requires DecodeTag(s).TagOk? && DecodeTag(s).tag == 0
    ensures fields == [] ==> DecodeLoop(fields, m, s, seen) == None
    ensures
      var tag := DecodeTag(s);
      var skipped := SkipField(tag.wire, tag.rest);
      skipped.Some? ==>
        (DecodeLoop(fields, m, s, seen).Some? <==>
          fields != [] && DecodeLoop(fields, m, skipped.value, seen).Some?)
  {
    hide DecodeTag, DecodeSlot, SkipField, Holds, GoodFields;
    assert s != [] by {
      TagNeedsBytes(s);
    }
    assert Find(fields, 0).None?;
  }

  lemma TagNeedsBytes(s: seq<byte>)
    requires DecodeTag(s).TagOk?
    ensures s != []
  {
  }

  /** So a field numbered 0, inserted at a field boundary, changes nothing
      exactly if there are fields or the message does not decode anyway. */
  lemma FieldZeroInserted(fields: seq<Field>, m: seq<Slot>, a: seq<byte>, u: seq<byte>, b: seq<byte>)
    requires GoodFields(fields) && Holds(fields, m) && ReadsAll(fields, m, a)
    requires forall i :: 0 <= i < |fields| ==> fields[i].tag != 0
    requires DecodeTag(u).TagOk? && DecodeTag(u).tag == 0
    requires SkipField(DecodeTag(u).wire, DecodeTag(u).rest) == Some([])
    ensures DecodeNoinit(fields, m, a + u + b) == DecodeNoinit(fields, m, a + b)
       <==> fields != [] || DecodeNoinit(fields, m, a + b).None?
  {
    hide DecodeTag, SkipField, DecodeLoop, Holds, GoodFields;
    if fields != [] {
      assert Find(fields, 0).None?;
      UnknownFieldsIgnored(fields, m, a, u, b);
    } else {
      var l := DecodeLoop(fields, m, a, {}).value;
      assert a + u + b == a + (u + b);
      LoopConcat(fields, m, a, u + b, {});
      TagLocal(u, b);
      FieldZero(fields, l.m, u + b, l.seen);
    }
  }
}
