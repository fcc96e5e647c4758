/** pb_decode.c as it runs: streams advance, substreams open and close, and the
    field loop drives the cyclic iterator and the fields_seen bitmap. Every
    method is proved to compute what NanopbDecode says. */
module NanopbDecoder {
  import opened Prelude
  import opened NanopbVarint
  import opened NanopbSchema
  import opened NanopbDecode
  import opened NanopbIStream
  import opened NanopbIterator
  import opened NanopbRoundTrip

  /** A value read from `before` leaves `after`, or reading fails as specified. */
  ghost predicate ReadsScalar(f: Field, before: seq<byte>, ok: bool, v: Val, after: seq<byte>)
    requires !f.ltype.Submessage?
  {
    if ok then DecodeScalar(f, before) == Some(Parsed(v, after)) else DecodeScalar(f, before).None?
  }

  /** pb_dec_varint, pb_dec_uvarint and pb_dec_svarint. */
  method DecVarint(stream: IStream, f: Field) returns (ok: bool, v: Val)
    requires stream.Valid() && (f.ltype.Varint? || f.ltype.UVarint? || f.ltype.SVarint?)
    modifies stream
    ensures stream.Valid() && stream.End() == old(stream.End())
    ensures ReadsScalar(f, old(stream.Rest()), ok, v, stream.Rest())
  {
    hide Varint64From, FromVarint;
    v := VInt(0);
    DecodedVarintsFit(stream.Rest());
    var value;
    ok, value := stream.ReadVarint64();
    if !ok {
      return;
    }
    match FromVarint(f, value) {
      case None => return false, v;
      case Some(w) => return true, w;
    }
  }

  /** Four bytes shifted together, as pb_decode_fixed32 does. */
  function Join(b0: int, b1: int, b2: int, b3: int): int {
    b0 + 0x100 * b1 + 0x1_0000 * b2 + 0x100_0000 * b3
  }

  lemma LittleEndianFour(s: seq<byte>)
    requires |s| == 4
    ensures LittleEndian(s) == Join(s[0], s[1], s[2], s[3])
  {
    assert LittleEndian(s[3..]) == s[3];
    assert s[2..][1..] == s[3..] && s[1..][1..] == s[2..];
    assert LittleEndian(s[2..]) == s[2] + 256 * LittleEndian(s[3..]);
    assert LittleEndian(s[1..]) == s[1] + 256 * LittleEndian(s[2..]);
  }

  lemma LittleEndianEight(s: seq<byte>)
    requires |s| == 8
    ensures LittleEndian(s) == LittleEndian(s[..4]) + TWO32 * LittleEndian(s[4..])
  {
    LittleEndianSplit(s, 1);
    LittleEndianSplit(s[1..], 1);
    LittleEndianSplit(s[2..], 1);
    LittleEndianSplit(s[3..], 1);
    assert s[1..][1..] == s[2..] && s[2..][1..] == s[3..] && s[3..][1..] == s[4..];
    LittleEndianFour(s[..4]);
  }

  lemma LittleEndianSplit(s: seq<byte>, n: nat)
    requires n == 1 <= |s|
    ensures LittleEndian(s) == s[0] + 256 * LittleEndian(s[1..])
  {
  }

  /** pb_dec_fixed32 and pb_dec_fixed64. */
  method DecFixed(stream: IStream, f: Field) returns (ok: bool, v: Val)
    requires stream.Valid() && (f.ltype.Fixed32? || f.ltype.Fixed64?)
    modifies stream
    ensures stream.Valid() && stream.End() == old(stream.End())
    ensures ReadsScalar(f, old(stream.Rest()), ok, v, stream.Rest())
  {
    hide LittleEndian;
    v := VInt(0);
    var b;
    if f.ltype.Fixed32? {
      ok, b := stream.Read(4);
      if ok {
        LittleEndianFour(b);
        v := VInt(Join(b[0], b[1], b[2], b[3]));
      }
    } else {
      ok, b := stream.Read(8);
      if ok {
        LittleEndianEight(b);
        LittleEndianFour(b[..4]);
        LittleEndianFour(b[4..]);
        v := VInt(Join(b[0], b[1], b[2], b[3]) + TWO32 * Join(b[4], b[5], b[6], b[7]));
      }
    }
  }

  /** pb_dec_bytes, pb_dec_string and pb_dec_fixed_length_bytes. */
  method DecLength(stream: IStream, f: Field) returns (ok: bool, v: Val)
    requires stream.Valid() && (f.ltype.Bytes? || f.ltype.String? || f.ltype.FixedLengthBytes?)
    modifies stream
    ensures stream.Valid() && stream.End() == old(stream.End())
    ensures ReadsScalar(f, old(stream.Rest()), ok, v, stream.Rest())
  {
    hide DecodeVarint32;
    v := VBytes([]);
    var size, eof, data;
    ok, size, eof := stream.ReadVarint32();
    if !ok {
      return;
    }
    if f.ltype.FixedLengthBytes? {
      if size == 0 {
        return true, VBytes(Zeros(f.dataSize));
      }
      if size != f.dataSize {
        return false, v;
      }
    } else {
      var allocSize := size + if f.ltype.Bytes? then BYTES_HEADER else 1;
      if allocSize > f.dataSize {
        return false, v;
      }
    }
    ok, data := stream.Read(size);
    if ok {
      v := VBytes(if f.ltype.String? then CString(data) else data);
    }
  }

  method DecScalar(stream: IStream, f: Field) returns (ok: bool, v: Val)
    requires stream.Valid() && !f.ltype.Submessage?
    modifies stream
    ensures stream.Valid() && stream.End() == old(stream.End())
    ensures ReadsScalar(f, old(stream.Rest()), ok, v, stream.Rest())
  {
    if f.ltype.Fixed32? || f.ltype.Fixed64? {
      ok, v := DecFixed(stream, f);
    } else if f.ltype.Bytes? || f.ltype.String? || f.ltype.FixedLengthBytes? {
      ok, v := DecLength(stream, f);
    } else {
      ok, v := DecVarint(stream, f);
    }
  }

  /** The packed branch of decode_static_field: items until the substream or
      the array is full; bytes left over are an error. */
  method DecPacked(stream: IStream, f: Field, done: seq<Val>) returns (ok: bool, items: seq<Val>)
    requires stream.Valid() && f.ltype.Packable() && forall i :: 0 <= i < |done| ==> HoldsVal(f, done[i])
    modifies stream
    ensures stream.Valid() && stream.End() <= old(stream.End())
    ensures
      var sub := Substream(old(stream.Rest()));
      if ok then
        sub.Some? && stream.End() == old(stream.End()) && stream.Rest() == sub.value.rest
        && DecodePacked(f, done, sub.value.value) == Some(items)
      else sub.None? || DecodePacked(f, done, sub.value.value).None?
  {
    hide HoldsVal, DecodeScalar, Substream;
    items := done;
    var sub;
    ok, sub := stream.MakeSubstream();
    if !ok {
      return;
    }
    ghost var all, left := sub.Rest(), stream.bytesLeft;
    var status := true;
    while sub.bytesLeft > 0 && |items| < f.arraySize
      invariant sub.Valid() && sub.End() + stream.bytesLeft == old(stream.End())
      invariant stream.Valid() && sub.source == stream.source && stream.bytesLeft == left
      invariant stream.End() <= old(stream.End())
      invariant forall i :: 0 <= i < |items| ==> HoldsVal(f, items[i])
      invariant DecodePacked(f, done, all) == DecodePacked(f, items, sub.Rest())
      decreases sub.bytesLeft
    {
      var v;
      DecodedScalarIsVal(f, sub.Rest());
      ghost var before := sub.Rest();
      status, v := DecScalar(sub, f);
      if !status {
        assert DecodePacked(f, items, before).None?;
        break;
      }
      items := items + [v];
    }
    if sub.bytesLeft != 0 {
      assert DecodePacked(f, done, all).None?;
      return false, items;
    }
    assert status ==> sub.Rest() == [];
    stream.CloseSubstream(sub);
    return status, items;
  }

  lemma {:induction false} DecodedScalarIsVal(f: Field, s: seq<byte>)
    requires !f.ltype.Submessage?
    ensures DecodeScalar(f, s).Some? ==> HoldsVal(f, DecodeScalar(f, s).value.value)
  {
    if DecodeScalar(f, s).Some? {
      DecodedScalarHolds(f, s);
    }
  }

  // ----- the fields_seen bitmap -----

  /** A 32-bit word as the set of its one bits. */
  type Word = set<nat>

  const ALL_BITS: Word := set i: nat | 0 <= i < 32

  function ShiftRight(w: Word, n: nat): Word {
    set i | i in ALL_BITS && i + n in w
  }

  /** The bits of both words, numbered 0 to 63. */
  ghost predicate IsBitmap(words: seq<Word>, seen: set<nat>) {
    && |words| == 2
    && words[0] <= ALL_BITS && words[1] <= ALL_BITS
    && forall r: nat :: r in seen <==> r < 64 && r % 32 in words[r / 32]
  }

  /** The last part of pb_decode_noinit: whole words, then the remaining bits. */
  method CheckSeen(words: seq<Word>, count: nat, ghost seen: set<nat>) returns (ok: bool)
    requires IsBitmap(words, seen) && count <= 64
    requires forall r :: r in seen ==> r < count
    ensures ok <==> forall r: nat :: r < count ==> r in seen
  {
    if count > 0 {
      var i := 0;
      while i < count / 32
        invariant 0 <= i <= count / 32
        invariant forall r: nat :: r < 32 * i ==> r in seen
      {
        if words[i] != ALL_BITS {
          var missing: nat :| missing in ALL_BITS && missing !in words[i];
          assert (32 * i + missing) % 32 == missing && (32 * i + missing) / 32 == i;
          assert 32 * i + missing !in seen;
          return false;
        }
        assert forall r: nat :: 32 * i <= r < 32 * i + 32 ==> r % 32 in words[r / 32];
        i := i + 1;
      }
      if count % 32 != 0 {
        if words[count / 32] != ShiftRight(ALL_BITS, 32 - count % 32) {
          RemainingBits(words, count, seen);
          return false;
        }
        RemainingBits(words, count, seen);
      }
    }
    return true;
  }

  lemma RemainingBits(words: seq<Word>, count: nat, seen: set<nat>)
    requires IsBitmap(words, seen) && count < 64 && count % 32 != 0
    requires forall r :: r in seen ==> r < count
    ensures words[count / 32] == ShiftRight(ALL_BITS, 32 - count % 32)
       <==> forall r: nat :: count - count % 32 <= r < count ==> r in seen
  {
    var w := words[count / 32];
    var mask := ShiftRight(ALL_BITS, 32 - count % 32);
    var base := count - count % 32;
    assert forall i: nat :: i in mask <==> i < count % 32;
    forall i: nat | i < 32
      ensures i in w <==> base + i in seen
    {
      assert (base + i) % 32 == i && (base + i) / 32 == count / 32;
    }
    assert forall i :: i in w ==> i in mask;
    if w == mask {
      forall r: nat | base <= r < count
        ensures r in seen
      {
        assert r - base in w;
      }
    }
    if forall r: nat :: base <= r < count ==> r in seen {
      assert forall i: nat :: i in mask ==> base + i in seen;
      assert w == mask;
    }
  }

  // ----- defaults -----

  /** pb_message_set_to_defaults: the iterator once around. */
  method SetToDefaults(fields: seq<Field>) returns (m: seq<Slot>)
    requires GoodFields(fields) && Tagged(fields)
    ensures m == Defaults(fields)
  {
    hide DefaultSlot;
    m := [];
    var iter := new FieldIter(fields, 0);
    if fields == [] {
      return;
    }
    var more := true;
    while more
      invariant iter.Valid() && iter.start == fields
      invariant if more then iter.pos == |m| else |m| == |fields|
      invariant forall i :: 0 <= i < |m| ==> m[i] == DefaultSlot(fields[i])
      decreases |fields| - |m|
    {
      m := m + [DefaultSlot(fields[iter.pos])];
      more := iter.Next();
    }
  }

  // ----- one field, whole messages -----

  /** What a decoder method delivers, against the value-level decoder. */
  ghost predicate Delivers<T>(spec: Option<Parsed<T>>, ok: bool, v: T, after: seq<byte>) {
    if ok then spec == Some(Parsed(v, after)) else spec.None?
  }

  /** PB_DECODERS[ltype]. */
  method DecVal(stream: IStream, f: Field, held: Val) returns (ok: bool, v: Val)
    requires stream.Valid() && FieldReady(f) && HoldsVal(f, held)
    modifies stream
    ensures stream.Valid() && stream.End() <= old(stream.End())
    ensures ok ==> stream.End() == old(stream.End())
    ensures Delivers(DecodeVal(f, held, old(stream.Rest())), ok, v, stream.Rest())
    decreases f, 1
  {
    if f.ltype.Submessage? {
      ok, v := DecSubmessage(stream, f, held);
    } else {
      hide DecodeScalar;
      ok, v := DecScalar(stream, f);
    }
  }

  /** pb_dec_submessage into `held`; array items come with their defaults. */
  method DecSubmessage(stream: IStream, f: Field, held: Val) returns (ok: bool, v: Val)
    requires stream.Valid() && FieldReady(f) && f.ltype.Submessage? && HoldsVal(f, held)
    modifies stream
    ensures stream.Valid() && stream.End() <= old(stream.End())
    ensures ok ==> stream.End() == old(stream.End())
    ensures Delivers(DecodeVal(f, held, old(stream.Rest())), ok, v, stream.Rest())
    decreases f, 0
  {
    hide DecodeNoinit, Substream, WireReady, Holds, GoodFields;
    v := held;
    var sub;
    ok, sub := stream.MakeSubstream();
    if !ok {
      return;
    }
    ghost var left, end := stream.bytesLeft, sub.End();
    var status, m := PbDecodeNoinit(sub, f.sub, held.slots);
    stream.CloseSubstream(sub);
    return status, VMsg(m);
  }

  /** decode_static_field. */
  method DecSlot(stream: IStream, f: Field, slot: Slot, wire: nat) returns (ok: bool, slot': Slot)
    requires stream.Valid() && FieldReady(f) && HoldsSlot(f, slot)
    modifies stream
    ensures stream.Valid() && stream.End() <= old(stream.End())
    ensures ok ==> stream.End() == old(stream.End())
    ensures Delivers(DecodeSlot(f, slot, wire, old(stream.Rest())), ok, slot', stream.Rest())
    decreases f, 2
  {
    assert GoodField(f);
    hide DecodeVal, DecodePacked, Substream, DefaultVal, HoldsVal, FieldReady, GoodField;
    slot' := slot;
    var v;
    match f.htype {
      case Required =>
        ok, v := DecVal(stream, f, slot.v);
        slot' := One(v);
      case Singular =>
        ok, v := DecVal(stream, f, slot.v);
        slot' := One(v);
      case Optional =>
        ok, v := DecVal(stream, f, slot.v);
        slot' := Opt(true, v);
      case Repeated =>
        if wire == WT_STRING && f.ltype.Packable() {
          var items;
          ok, items := DecPacked(stream, f, slot.items);
          slot' := Rep(items);
        } else {
          if |slot.items| >= f.arraySize {
            return false, slot;
          }
          ok, v := DecVal(stream, f, DefaultVal(f));
          slot' := Rep(slot.items + [v]);
        }
      case Oneof(_) =>
        ok, v := DecVal(stream, f, DefaultVal(f));
        slot' := Union(Some(v));
    }
  }

  lemma ReadyTags(fields: seq<Field>)
    requires WireReady(fields)
    ensures Tagged(fields) && DistinctTags(fields)
  {
    forall i | 0 <= i < |fields|
      ensures fields[i].tag != 0
    {
      FieldsReady(fields, i);
    }
  }

  datatype Turn = Goes | Stops | Fails

  /** Setting bit r of the two words. */
  function SetBit(words: seq<Word>, r: nat): seq<Word>
    requires |words| == 2 && r < 64
  {
    words[r / 32 := words[r / 32] + {r % 32}]
  }

  lemma SetBitMarks(words: seq<Word>, seen: set<nat>, r: nat)
    requires IsBitmap(words, seen) && r < 64
    ensures |words| == 2 && IsBitmap(SetBit(words, r), seen + {r})
  {
    var words' := SetBit(words, r);
    forall q: nat
      ensures q in seen + {r} <==> q < 64 && q % 32 in words'[q / 32]
    {
      if q < 64 && q / 32 == r / 32 && q % 32 == r % 32 {
        assert q == r;
      }
    }
  }

  /** One turn of the field loop of pb_decode_noinit. */
  method FieldTurn(
      stream: IStream, fields: seq<Field>, iter: FieldIter, m: seq<Slot>, words: seq<Word>, ghost seen: set<nat>)
    returns (turn: Turn, m': seq<Slot>, words': seq<Word>, ghost seen': set<nat>)
    requires stream.Valid() && stream.bytesLeft != 0 && WireReady(fields) && GoodFields(fields) && Holds(fields, m)
    requires iter.Valid() && iter.start == fields
    requires IsBitmap(words, seen) && forall r :: r in seen ==> r < Tracked(fields)
    modifies stream, iter
    ensures stream.Valid() && stream.End() <= old(stream.End())
    ensures iter.Valid()
    ensures !turn.Fails? ==> stream.End() == old(stream.End()) && Holds(fields, m')
    ensures turn.Goes? ==> stream.bytesLeft < old(stream.bytesLeft)
    ensures IsBitmap(words', seen') && forall r :: r in seen' ==> r < Tracked(fields)
    ensures turn.Fails? ==> DecodeLoop(fields, m, old(stream.Rest()), seen).None?
    ensures turn.Stops? ==>
      DecodeLoop(fields, m, old(stream.Rest()), seen) == Some(Loop(m', stream.Rest(), seen', true))
    ensures turn.Goes? ==>
      DecodeLoop(fields, m, old(stream.Rest()), seen) == DecodeLoop(fields, m', stream.Rest(), seen')
    decreases fields, 0
  {
    hide DecodeSlot, DecodeTag, SkipField, Store, Holds, GoodFields, WireReady, RequiredBefore, IsBitmap;
    m', words', seen' := m, words, seen;
    ReadyTags(fields);
    ghost var s := stream.Rest();
    assert s != [];
    var ok, tag, wire, eof := stream.ReadTag();
    if !ok {
      return if eof then Stops else Fails, m, words, seen;
    }
    var found := iter.Find(tag);
    FindIs(fields, tag, iter.pos, found);
    if !found {
      ok := stream.PassField(wire);
      return if ok then Goes else Fails, m, words, seen;
    }
    if fields == [] {
      // The terminator's decoder refuses a varint of size 0.
      return Fails, m, words, seen;
    }
    var k := iter.pos;
    FieldsReady(fields, k);
    ReadyIsGood(fields);
    SlotFits(fields, m, k);
    if fields[k].htype.Required? && iter.requiredFieldIndex < MAX_REQUIRED {
      SetBitMarks(words, seen, iter.requiredFieldIndex);
      RequiredTracked(fields, k);
      words' := SetBit(words, iter.requiredFieldIndex);
    }
    seen' := MarkSeen(fields, k, seen);
    var slot;
    ok, slot := DecSlot(stream, fields[k], m[k], wire);
    if !ok {
      return Fails, m, words', seen';
    }
    m' := Store(fields, m, k, slot);
    return Goes, m', words', seen';
  }

  /** Wherever the iterator stopped, that is where the list search stops. */
  lemma FindIs(fields: seq<Field>, tag: nat, pos: nat, found: bool)
    requires Tagged(fields) && DistinctTags(fields)
    requires fields == [] ==> (found <==> tag == 0)
    requires fields != [] ==> (found <==> exists i :: 0 <= i < |fields| && fields[i].tag == tag)
    requires found && fields != [] ==> pos < |fields| && fields[pos].tag == tag
    ensures fields != [] ==> Find(fields, tag) == if found then Some(pos) else None
    ensures fields == [] ==> Find(fields, tag) == None
  {
  }

  lemma {:induction false} RequiredMonotone(fields: seq<Field>, j: nat, k: nat)
    requires j <= k <= |fields|
    ensures RequiredBefore(fields, j) <= RequiredBefore(fields, k)
    decreases k
  {
    if j < k {
      RequiredMonotone(fields, j, k - 1);
    }
  }

  lemma RequiredTracked(fields: seq<Field>, k: nat)
    requires k < |fields| && fields[k].htype.Required? && RequiredBefore(fields, k) < MAX_REQUIRED
    ensures RequiredBefore(fields, k) < Tracked(fields)
  {
    RequiredMonotone(fields, k + 1, |fields|);
  }

  /** Counts the required fields by walking the iterator to the end, then
      checks fields_seen. */
  method CheckRequired(iter: FieldIter, words: seq<Word>, ghost seen: set<nat>) returns (ok: bool)
    requires iter.Valid() && IsBitmap(words, seen) && forall r :: r in seen ==> r < Tracked(iter.start)
    modifies iter
    ensures ok <==> RequiredSeen(iter.start, seen)
  {
    hide IsBitmap;
    var count := iter.requiredFieldIndex;
    var lastRequired := iter.start == [] || iter.start[iter.pos].htype.Required?;
    ghost var at := iter.pos;
    var more := iter.Next();
    while more
      invariant iter.Valid()
      invariant if more then iter.pos == at + 1 < |iter.start| else at + 1 >= |iter.start| && iter.pos == 0
      invariant iter.start != [] ==> at < |iter.start|
      invariant iter.start != [] ==>
                  count == RequiredBefore(iter.start, at) && lastRequired == iter.start[at].htype.Required?
      invariant iter.start == [] ==> count == 0
      decreases |iter.start| - at
    {
      count := iter.requiredFieldIndex;
      lastRequired := iter.start[iter.pos].htype.Required?;
      at := iter.pos;
      more := iter.Next();
    }
    // The terminator of an empty list reads as a required field of tag 0.
    if lastRequired && iter.start != [] {
      count := count + 1;
    }
    if count > MAX_REQUIRED {
      count := MAX_REQUIRED;
    }
    assert count == Tracked(iter.start);
    ok := CheckSeen(words, count, seen);
  }

  /** pb_decode_noinit. */
  method PbDecodeNoinit(stream: IStream, fields: seq<Field>, dest: seq<Slot>) returns (ok: bool, m: seq<Slot>)
    requires stream.Valid() && WireReady(fields) && GoodFields(fields) && Holds(fields, dest)
    modifies stream
    ensures stream.Valid() && stream.End() <= old(stream.End())
    ensures ok ==> stream.End() == old(stream.End())
    ensures Delivers(DecodeNoinit(fields, dest, old(stream.Rest())), ok, m, stream.Rest())
    decreases fields, 1
  {
    hide Holds, GoodFields, WireReady, IsBitmap, Tracked, RequiredSeen;
    m := dest;
    var words: seq<Word> := [{}, {}];
    ghost var seen: set<nat> := {};
    ghost var all := stream.Rest();
    ReadyTags(fields);
    assert IsBitmap(words, seen) by { NoBits(); }
    var iter := new FieldIter(fields, 0);
    var turn := Goes;
    while stream.bytesLeft != 0
      invariant stream.Valid() && stream.End() == old(stream.End())
      invariant iter.Valid() && iter.start == fields && fresh(iter) && Holds(fields, m)
      invariant IsBitmap(words, seen) && forall r :: r in seen ==> r < Tracked(fields)
      invariant DecodeLoop(fields, dest, all, {}) == DecodeLoop(fields, m, stream.Rest(), seen)
      decreases stream.bytesLeft
    {
      hide DecodeLoop;
      turn, m, words, seen := FieldTurn(stream, fields, iter, m, words, seen);
      if turn.Fails? {
        return false, m;
      }
      if turn.Stops? {
        break;
      }
    }
    ok := CheckRequired(iter, words, seen);
  }

  lemma NoBits()
    ensures IsBitmap([{}, {}], {})
  {
  }

  /** pb_decode: whatever the struct held, it starts from the defaults. */
  method PbDecode(stream: IStream, fields: seq<Field>) returns (ok: bool, m: seq<Slot>)
    requires stream.Valid() && WireReady(fields) && GoodFields(fields)
    modifies stream
    ensures stream.Valid()
    ensures Delivers(Decode(fields, old(stream.Rest())), ok, m, stream.Rest())
  {
    hide DecodeNoinit, WireReady, GoodFields, Defaults;
    ReadyTags(fields);
    m := SetToDefaults(fields);
    ok, m := PbDecodeNoinit(stream, fields, m);
  }
}
