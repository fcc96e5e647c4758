/** pb_encode.c as it runs: a stream either counts bytes or writes them into a
    bounded buffer, and submessages and packed arrays are encoded twice, first
    to learn their size. Every method is proved to emit what NanopbEncode says,
    on both kinds of stream. */
module NanopbEncoder {
  import opened Prelude
  import opened NanopbVarint
  import opened NanopbSchema
  import opened NanopbDecode
  import opened NanopbEncode
  import opened NanopbIterator

  /** pb_ostream_t. Without a callback the stream only counts. */
  class OStream {
    const callback: bool
    const buf: array<byte>
    const maxSize: nat
    var state: nat
    var bytesWritten: nat

    ghost predicate Valid()
      reads this
    {
      && state <= buf.Length
      && (callback ==> bytesWritten <= maxSize && state + (maxSize - bytesWritten) <= buf.Length)
    }

    /** The first buffer index this stream may not write. */
    ghost function Limit(): int
      reads this
    {
      if callback then state + (maxSize - bytesWritten) else state
    }

    /** What lies before the write position. */
    ghost function Out(): seq<byte>
      reads this, buf
      requires Valid()
    {
      buf[..state]
    }

    /** Nothing at or past the limit changed, and the limit stayed. */
    twostate predicate Kept()
      reads this, buf
      requires old(Valid())
    {
      && Valid()
      && Limit() == old(Limit())
      && forall i :: Limit() <= i < buf.Length ==> buf[i] == old(buf[i])
    }

    /** pb_ostream_from_buffer. */
    constructor (buf: array<byte>, size: nat)
      requires size <= buf.Length
      ensures Valid() && callback && this.buf == buf && maxSize == size && state == bytesWritten == 0
    {
      this.callback := true;
      this.buf := buf;
      this.maxSize := size;
      state, bytesWritten := 0, 0;
    }

    /** PB_OSTREAM_SIZING. */
    constructor Sizing()
      ensures Valid() && !callback && state == bytesWritten == 0 && fresh(buf)
    {
      callback := false;
      buf := new byte[0];
      maxSize := 0;
      state, bytesWritten := 0, 0;
    }

    /** The substream of pb_encode_submessage: same place, `size` bytes. */
    constructor Within(parent: OStream, size: nat)
      requires parent.Valid() && parent.callback && parent.bytesWritten + size <= parent.maxSize
      ensures Valid() && callback && buf == parent.buf && maxSize == size
      ensures state == parent.state && bytesWritten == 0
    {
      callback := true;
      buf := parent.buf;
      maxSize := size;
      state, bytesWritten := parent.state, 0;
    }

    /** pb_write. */
    method Write(data: seq<byte>) returns (ok: bool)
      requires Valid()
      modifies this, buf
      ensures Kept()
      ensures Emitted(callback, maxSize, old(Out()), old(bytesWritten), Some(data), ok, Out(), bytesWritten)
    {
      if callback {
        if bytesWritten + |data| > maxSize {
          return false;
        }
        ghost var before := buf[..];
        var at := state;
        state := at + |data|;
        var i := 0;
        while i < |data|
          invariant 0 <= i <= |data| && state == at + |data| <= buf.Length
          invariant buf[..at] == before[..at] && buf[at..at + i] == data[..i]
          invariant forall j :: at + |data| <= j < buf.Length ==> buf[j] == before[j]
          modifies buf
        {
          buf[at + i] := data[i];
          i := i + 1;
          assert buf[at..at + i] == buf[at..at + i - 1] + [data[i - 1]];
        }
        assert buf[..state] == buf[..at] + buf[at..at + |data|];
      }
      bytesWritten := bytesWritten + |data|;
      return true;
    }

    /** Sizing streams skip what they would have written. */
    method Count(size: nat) returns (ok: bool)
      requires Valid() && !callback
      modifies this
      ensures Valid() && ok && bytesWritten == old(bytesWritten) + size && state == old(state)
    {
      bytesWritten := bytesWritten + size;
      return true;
    }
  }

  /** Encoding `spec` succeeds when it is defined and fits, and then puts out
      its bytes and nothing else; `n` and `n'` count bytes before and after. */
  ghost predicate Emitted(
      callback: bool, maxSize: nat, out: seq<byte>, n: nat, spec: Option<seq<byte>>,
      ok: bool, out': seq<byte>, n': nat)
  {
    && (ok <==> spec.Some? && (callback ==> n + |spec.value| <= maxSize))
    && (ok ==> n' == n + |spec.value| && out' == if callback then out + spec.value else out)
  }

  /** One more part of `total`, after `done` was put out. */
  lemma EmittedStep(
      callback: bool, maxSize: nat, total: Option<seq<byte>>, rest: Option<seq<byte>>, out: seq<byte>, n: nat,
      done: seq<byte>, out': seq<byte>, n': nat, part: Option<seq<byte>>, ok: bool, out'': seq<byte>, n'': nat)
    requires total == Append(Some(done), Append(part, rest))
    requires Emitted(callback, maxSize, out, n, Some(done), true, out', n')
    requires Emitted(callback, maxSize, out', n', part, ok, out'', n'')
    ensures !ok ==> Emitted(callback, maxSize, out, n, total, false, out'', n'')
    ensures ok ==>
      && part.Some?
      && Emitted(callback, maxSize, out, n, Some(done + part.value), true, out'', n'')
      && total == Append(Some(done + part.value), rest)
  {
    if ok {
      assert out + (done + part.value) == out + done + part.value;
      if rest.Some? {
        assert done + (part.value + rest.value) == done + part.value + rest.value;
      }
    }
  }

  lemma EmittedNothing(callback: bool, maxSize: nat, out: seq<byte>, n: nat)
    requires callback ==> n <= maxSize
    ensures Emitted(callback, maxSize, out, n, Some([]), true, out, n)
  {
    assert out + [] == out;
  }

  lemma AppendNil(a: Option<seq<byte>>)
    ensures Append(Some([]), a) == a == Append(a, Some([]))
  {
    if a.Some? {
      assert [] + a.value == a.value == a.value + [];
    }
  }

  // ----- numbers -----

  /** pb_encode_varint. */
  method WriteVarint(stream: OStream, v: nat) returns (ok: bool)
    requires stream.Valid() && v < TWO64
    modifies stream, stream.buf
    ensures stream.Kept()
    ensures Emitted(stream.callback, stream.maxSize, old(stream.Out()), old(stream.bytesWritten),
                    Some(EncodeVarint(v)), ok, stream.Out(), stream.bytesWritten)
  {
    if v <= 0x7F {
      ok := stream.Write([v]);
      return;
    }
    var buffer := VarintDigits(v);
    ok := stream.Write(buffer);
  }

  /** What the digit loop still owes: `done` holds the low digits of v, each with its top bit set, `value` the rest. */
  ghost predicate Digits(v: nat, done: seq<byte>, value: nat) {
    if value > 0 then EncodeVarint(v) == done + EncodeVarint(value)
    else
      var last := |done| - 1;
      |done| > 0 && done[last] >= 128 && EncodeVarint(v) == done[..last] + [done[last] - 128]
  }

  lemma DigitsStep(v: nat, done: seq<byte>, value: nat)
    requires v < TWO64 && value > 0 && Digits(v, done, value)
    ensures |done| < 10 && Digits(v, done + [value % 128 + 128], value / 128)
  {
    EncodeVarintTenBytes(v);
    assert |EncodeVarint(v)| == |done| + |EncodeVarint(value)|;
    var digit: byte := value % 128 + 128;
    var done' := done + [digit];
    assert done'[..|done|] == done;
    if value >= 128 {
      assert EncodeVarint(value) == [digit] + EncodeVarint(value / 128);
      assert done + ([digit] + EncodeVarint(value / 128)) == done' + EncodeVarint(value / 128);
    } else {
      assert EncodeVarint(value) == [digit - 128];
    }
  }

  lemma DigitsStart(v: nat)
    requires v > 0
    ensures Digits(v, [], v)
  {
    assert [] + EncodeVarint(v) == EncodeVarint(v);
  }

  lemma DigitsDone(v: nat, done: seq<byte>)
    requires Digits(v, done, 0)
    ensures |done| > 0 && done[|done| - 1] >= 128
    ensures EncodeVarint(v) == done[..|done| - 1] + [done[|done| - 1] - 128]
  {
  }

  /** The digit loop of pb_encode_varint in its ten-byte buffer. */
  method VarintDigits(v: nat) returns (digits: seq<byte>)
    requires 0x7F < v < TWO64
    ensures digits == EncodeVarint(v)
  {
    hide EncodeVarint, Digits;
    var buffer := new byte[10];
    var i: nat := 0;
    var value := v;
    DigitsStart(v);
    ghost var done: seq<byte> := [];
    while value != 0
      invariant i <= 10 && buffer[..i] == done && Digits(v, done, value)
      decreases value
    {
      DigitsStep(v, done, value);
      buffer[i] := value % 128 + 128;
      done := done + [buffer[i]];
      value := value / 128;
      i := i + 1;
    }
    DigitsDone(v, done);
    assert buffer[i - 1] == done[i - 1] && buffer[..i - 1] == done[..i - 1];
    buffer[i - 1] := buffer[i - 1] - 128;
    digits := buffer[..i];
    assert digits == done[..i - 1] + [done[i - 1] - 128];
  }

  /** pb_encode_string. */
  method WriteString(stream: OStream, b: seq<byte>) returns (ok: bool)
    requires stream.Valid() && |b| < TWO64
    modifies stream, stream.buf
    ensures stream.Kept()
    ensures Emitted(stream.callback, stream.maxSize, old(stream.Out()), old(stream.bytesWritten),
                    Some(EncodeString(b)), ok, stream.Out(), stream.bytesWritten)
  {
    hide EncodeVarint, Emitted;
    ghost var out, n, size := stream.Out(), stream.bytesWritten, EncodeVarint(|b|);
    ghost var total := Some(EncodeString(b));
    EmittedNothing(stream.callback, stream.maxSize, out, n);
    AppendNil(Some(b));
    AppendNil(Append(Some(size), Some(b)));
    assert total == Append(Some(size), Some(b));
    ok := WriteVarint(stream, |b|);
    ghost var out', n' := stream.Out(), stream.bytesWritten;
    EmittedStep(stream.callback, stream.maxSize, total, Some(b), out, n, [], out, n, Some(size), ok, out', n');
    if !ok {
      return;
    }
    assert [] + size == size;
    ok := stream.Write(b);
    EmittedStep(stream.callback, stream.maxSize, total, Some([]), out, n, size, out', n', Some(b), ok,
                stream.Out(), stream.bytesWritten);
    AppendNil(total);
  }

  // ----- values -----

  lemma ToBytesStep(n: nat, count: nat)
    ensures ToBytes(n, count + 1) == [n % 256] + ToBytes(n / 256, count)
  {
  }

  /** The four stores pb_enc_fixed32 makes, low byte first, and what they leave. */
  lemma ToBytesMore(n: nat, count: nat)
    ensures ToBytes(n, count + 4)
         == [n % 256, n / 256 % 256, n / 256 / 256 % 256, n / 256 / 256 / 256 % 256]
          + ToBytes(n / 256 / 256 / 256 / 256, count)
  {
    hide ToBytes;
    var n1 := n / 256;
    var n2 := n1 / 256;
    var n3 := n2 / 256;
    ToBytesStep(n, count + 3);
    ToBytesStep(n1, count + 2);
    ToBytesStep(n2, count + 1);
    ToBytesStep(n3, count);
    var rest := ToBytes(n3 / 256, count);
    assert [n % 256] + ([n1 % 256] + ([n2 % 256] + ([n3 % 256] + rest)))
        == [n % 256, n1 % 256, n2 % 256, n3 % 256] + rest;
  }

  lemma ToBytesFour(n: nat)
    ensures ToBytes(n, 4) == [n % 256, n / 256 % 256, n / 256 / 256 % 256, n / 256 / 256 / 256 % 256]
  {
    hide ToBytes;
    ToBytesMore(n, 0);
  }

  lemma ToBytesEight(n: nat)
    ensures ToBytes(n, 8) == ToBytes(n, 4) + ToBytes(n / 256 / 256 / 256 / 256, 4)
  {
    hide ToBytes;
    ToBytesMore(n, 4);
    ToBytesFour(n);
  }

  /** PB_ENCODERS[ltype] for everything but submessages. */
  method EncScalar(stream: OStream, f: Field, v: Val) returns (ok: bool)
    requires stream.Valid() && GoodField(f) && !f.ltype.Submessage? && HoldsScalar(f, v)
    modifies stream, stream.buf
    ensures stream.Kept()
    ensures Emitted(stream.callback, stream.maxSize, old(stream.Out()), old(stream.bytesWritten),
                    EncodeScalar(f, v), ok, stream.Out(), stream.bytesWritten)
  {
    hide EncodeVarint, EncodeString, ToBytes;
    match f.ltype {
      case Varint => ok := WriteVarint(stream, v.n % TWO64);
      case UVarint => ok := WriteVarint(stream, v.n);
      case SVarint =>
        ZigZagRoundTrip(v.n);
        ok := WriteVarint(stream, ZigZag(v.n));
      case Fixed32 =>
        var n := v.n;
        ToBytesFour(n);
        ok := stream.Write([n % 256, n / 256 % 256, n / 256 / 256 % 256, n / 256 / 256 / 256 % 256]);
      case Fixed64 =>
        var n, top := v.n, v.n / 256 / 256 / 256 / 256;
        ToBytesFour(n);
        ToBytesFour(top);
        ToBytesEight(n);
        ok := stream.Write([n % 256, n / 256 % 256, n / 256 / 256 % 256, n / 256 / 256 / 256 % 256]
                         + [top % 256, top / 256 % 256, top / 256 / 256 % 256, top / 256 / 256 / 256 % 256]);
      case Bytes =>
        if |v.bytes| + BYTES_HEADER > f.dataSize {
          return false;
        }
        ok := WriteString(stream, v.bytes);
      case String => ok := WriteString(stream, v.bytes);
      case FixedLengthBytes => ok := WriteString(stream, v.bytes);
    }
  }

  /** The item loop of a packed array. */
  method WritePacked(stream: OStream, f: Field, items: seq<Val>) returns (ok: bool)
    requires stream.Valid() && GoodField(f) && f.ltype.Packable()
    requires forall i :: 0 <= i < |items| ==> HoldsVal(f, items[i])
    modifies stream, stream.buf
    ensures stream.Kept()
    ensures Emitted(stream.callback, stream.maxSize, old(stream.Out()), old(stream.bytesWritten),
                    EncodePacked(f, items), ok, stream.Out(), stream.bytesWritten)
  {
    hide EncodeScalar, HoldsScalar, GoodField;
    ghost var out, n, done := stream.Out(), stream.bytesWritten, [];
    var i := 0;
    EmittedNothing(stream.callback, stream.maxSize, out, n);
    assert items[0..] == items;
    AppendNil(EncodePacked(f, items));
    while i < |items|
      invariant 0 <= i <= |items| && stream.Kept()
      invariant EncodePacked(f, items) == Append(Some(done), EncodePacked(f, items[i..]))
      invariant Emitted(stream.callback, stream.maxSize, out, n, Some(done), true, stream.Out(), stream.bytesWritten)
    {
      hide Emitted;
      assert HoldsVal(f, items[i]);
      assert items[i..][0] == items[i] && items[i..][1..] == items[i + 1..];
      ghost var out', n', e := stream.Out(), stream.bytesWritten, EncodeScalar(f, items[i]);
      ok := EncScalar(stream, f, items[i]);
      EmittedStep(stream.callback, stream.maxSize, EncodePacked(f, items), EncodePacked(f, items[i + 1..]),
                  out, n, done, out', n', e, ok, stream.Out(), stream.bytesWritten);
      if !ok {
        return;
      }
      done := done + e.value;
      i := i + 1;
    }
    AppendNil(Some(done));
    return true;
  }

  // ----- arrays, submessages, whole messages -----

  /** Lengths that size_t arithmetic can hold. */
  predicate Sized(e: Option<seq<byte>>) {
    e.Some? ==> |e.value| < TWO64
  }

  /** Every length prefix that encoding m computes is a 64-bit number. */
  predicate LengthsFit(fields: seq<Field>, m: seq<Slot>)
    requires Holds(fields, m)
    decreases fields, 0
  {
    forall i :: 0 <= i < |fields| ==> SlotLengthsFit(fields[i], m[i])
  }

  predicate SlotLengthsFit(f: Field, slot: Slot)
    requires HoldsSlot(f, slot)
    decreases f, 2
  {
    match f.htype
    case Required => ValLengthsFit(f, slot.v)
    case Singular => ValLengthsFit(f, slot.v)
    case Optional => ValLengthsFit(f, slot.v)
    case Repeated => ItemLengthsFit(f, slot.items)
    case Oneof(_) => slot.held.Some? ==> ValLengthsFit(f, slot.held.value)
  }

  predicate ItemLengthsFit(f: Field, items: seq<Val>)
    requires forall i :: 0 <= i < |items| ==> HoldsVal(f, items[i])
    decreases f, 1
  {
    && (f.ltype.Packable() ==> Sized(EncodePacked(f, items)))
    && forall i :: 0 <= i < |items| ==> ValLengthsFit(f, items[i])
  }

  predicate ValLengthsFit(f: Field, v: Val)
    requires HoldsVal(f, v)
    decreases f, 0
  {
    f.ltype.Submessage? ==> Sized(Encode(f.sub, v.slots)) && LengthsFit(f.sub, v.slots)
  }

  /** PB_ENCODERS[ltype]. */
  method EncVal(stream: OStream, f: Field, v: Val) returns (ok: bool)
    requires stream.Valid() && GoodField(f) && TaggedField(f) && HoldsVal(f, v) && ValLengthsFit(f, v)
    modifies stream, stream.buf
    ensures stream.Kept()
    ensures Emitted(stream.callback, stream.maxSize, old(stream.Out()), old(stream.bytesWritten),
                    EncodeVal(f, v), ok, stream.Out(), stream.bytesWritten)
    decreases f, 0
  {
    if f.ltype.Submessage? {
      ok := EncodeSubmessage(stream, f.sub, v.slots);
    } else {
      hide EncodeScalar;
      ok := EncScalar(stream, f, v);
    }
  }

  /** Every field list in the descriptor ends at its terminator, not before. */
  predicate TaggedField(f: Field)
    decreases f, 0
  {
    f.ltype.Submessage? ==> TaggedAll(f.sub)
  }

  predicate TaggedAll(fields: seq<Field>)
    decreases fields, 0
  {
    Tagged(fields) && forall i :: 0 <= i < |fields| ==> TaggedField(fields[i])
  }

  /** A tag and one value. */
  method EncTagged(stream: OStream, f: Field, v: Val) returns (ok: bool)
    requires stream.Valid() && GoodField(f) && TaggedField(f) && HoldsVal(f, v) && ValLengthsFit(f, v)
    modifies stream, stream.buf
    ensures stream.Kept()
    ensures Emitted(stream.callback, stream.maxSize, old(stream.Out()), old(stream.bytesWritten),
                    EncodeTagged(f, v), ok, stream.Out(), stream.bytesWritten)
    decreases f, 1
  {
    assert f.tag < TWO32;
    hide EncodeVarint, Emitted, EncodeVal, GoodField, HoldsVal, TaggedField, ValLengthsFit;
    ghost var out, n, e := stream.Out(), stream.bytesWritten, EncodeVal(f, v);
    ghost var tag := EncodeTag(WireType(f.ltype), f.tag);
    assert WireType(f.ltype) < 8;
    EmittedNothing(stream.callback, stream.maxSize, out, n);
    AppendNil(EncodeTagged(f, v));
    ok := WriteVarint(stream, 8 * f.tag + WireType(f.ltype));
    ghost var out', n' := stream.Out(), stream.bytesWritten;
    EmittedStep(stream.callback, stream.maxSize, EncodeTagged(f, v), e, out, n, [], out, n, Some(tag), ok, out', n');
    if !ok {
      return;
    }
    assert [] + tag == tag;
    ok := EncVal(stream, f, v);
    AppendNil(e);
    EmittedStep(stream.callback, stream.maxSize, EncodeTagged(f, v), Some([]), out, n, tag, out', n', e, ok,
                stream.Out(), stream.bytesWritten);
    if ok {
      AppendNil(Some(tag + e.value));
    }
  }

  /** The item loop of an array that cannot be packed. */
  method EncItems(stream: OStream, f: Field, items: seq<Val>) returns (ok: bool)
    requires stream.Valid() && GoodField(f) && TaggedField(f) && forall i :: 0 <= i < |items| ==> HoldsVal(f, items[i])
    requires forall i :: 0 <= i < |items| ==> ValLengthsFit(f, items[i])
    modifies stream, stream.buf
    ensures stream.Kept()
    ensures Emitted(stream.callback, stream.maxSize, old(stream.Out()), old(stream.bytesWritten),
                    EncodeItems(f, items), ok, stream.Out(), stream.bytesWritten)
    decreases f, 2
  {
    hide EncodeTagged, HoldsVal, GoodField, TaggedField, ValLengthsFit;
    ghost var out, n, done := stream.Out(), stream.bytesWritten, [];
    var i := 0;
    EmittedNothing(stream.callback, stream.maxSize, out, n);
    assert items[0..] == items;
    AppendNil(EncodeItems(f, items));
    while i < |items|
      invariant 0 <= i <= |items| && stream.Kept()
      invariant EncodeItems(f, items) == Append(Some(done), EncodeItems(f, items[i..]))
      invariant Emitted(stream.callback, stream.maxSize, out, n, Some(done), true, stream.Out(), stream.bytesWritten)
    {
      hide Emitted;
      assert items[i..][0] == items[i] && items[i..][1..] == items[i + 1..];
      ghost var out', n', e := stream.Out(), stream.bytesWritten, EncodeTagged(f, items[i]);
      ok := EncTagged(stream, f, items[i]);
      EmittedStep(stream.callback, stream.maxSize, EncodeItems(f, items), EncodeItems(f, items[i + 1..]),
                  out, n, done, out', n', e, ok, stream.Out(), stream.bytesWritten);
      if !ok {
        return;
      }
      done := done + e.value;
      i := i + 1;
    }
    AppendNil(Some(done));
    return true;
  }

  lemma {:induction false} PackedFixedLength(f: Field, items: seq<Val>)
    requires f.ltype.Fixed32? || f.ltype.Fixed64?
    requires forall i :: 0 <= i < |items| ==> HoldsVal(f, items[i])
    ensures EncodePacked(f, items).Some?
    ensures |EncodePacked(f, items).value| == (if f.ltype.Fixed32? then 4 else 8) * |items|
  {
    if items != [] {
      assert HoldsVal(f, items[0]);
      PackedFixedLength(f, items[1..]);
    }
  }

  /** The size of a packed array: a multiplication, or a sizing stream. */
  method PackedSize(f: Field, items: seq<Val>) returns (ok: bool, size: nat)
    requires GoodField(f) && f.ltype.Packable() && forall i :: 0 <= i < |items| ==> HoldsVal(f, items[i])
    ensures ok <==> EncodePacked(f, items).Some?
    ensures ok ==> size == |EncodePacked(f, items).value|
  {
    hide EncodePacked, GoodField, HoldsVal;
    if f.ltype.Fixed32? {
      PackedFixedLength(f, items);
      return true, 4 * |items|;
    }
    if f.ltype.Fixed64? {
      PackedFixedLength(f, items);
      return true, 8 * |items|;
    }
    var sizestream := new OStream.Sizing();
    ok := WritePacked(sizestream, f, items);
    size := sizestream.bytesWritten;
  }

  /** A length, then the bytes; a sizing stream only counts the latter. */
  method EncPackedArray(stream: OStream, f: Field, items: seq<Val>) returns (ok: bool)
    requires stream.Valid() && GoodField(f) && f.ltype.Packable()
    requires forall i :: 0 <= i < |items| ==> HoldsVal(f, items[i])
    requires Sized(EncodePacked(f, items))
    modifies stream, stream.buf
    ensures stream.Kept()
    ensures
      var b := EncodePacked(f, items);
      Emitted(stream.callback, stream.maxSize, old(stream.Out()), old(stream.bytesWritten),
              Append(Some(EncodeTag(WT_STRING, f.tag)), if b.Some? then Some(EncodeString(b.value)) else None),
              ok, stream.Out(), stream.bytesWritten)
  {
    assert f.tag < TWO32;
    hide EncodeVarint, Emitted, EncodePacked, GoodField, HoldsVal;
    ghost var out, n, b := stream.Out(), stream.bytesWritten, EncodePacked(f, items);
    ghost var tag := EncodeTag(WT_STRING, f.tag);
    ghost var rest := if b.Some? then Some(EncodeString(b.value)) else None;
    ghost var total := Append(Some(tag), rest);
    EmittedNothing(stream.callback, stream.maxSize, out, n);
    AppendNil(total);
    assert [] + tag == tag;
    ok := WriteVarint(stream, 8 * f.tag + WT_STRING);
    ghost var out', n' := stream.Out(), stream.bytesWritten;
    EmittedStep(stream.callback, stream.maxSize, total, rest, out, n, [], out, n, Some(tag), ok, out', n');
    if !ok {
      return;
    }
    var size;
    ok, size := PackedSize(f, items);
    if !ok {
      EmittedUndefined(stream.callback, stream.maxSize, out, n, total, out', n');
      return;
    }
    AppendNil(rest);
    ok := WriteBlock(stream, f, items, size);
    EmittedStep(stream.callback, stream.maxSize, total, Some([]), out, n, tag, out', n', rest, ok,
                stream.Out(), stream.bytesWritten);
    if ok {
      AppendNil(Some(tag + rest.value));
    }
  }

  lemma EmittedUndefined(
      callback: bool, maxSize: nat, out: seq<byte>, n: nat, total: Option<seq<byte>>, out': seq<byte>, n': nat)
    requires total.None?
    ensures Emitted(callback, maxSize, out, n, total, false, out', n')
  {
  }

  /** The length prefix of a packed array and its items. */
  method WriteBlock(stream: OStream, f: Field, items: seq<Val>, size: nat) returns (ok: bool)
    requires stream.Valid() && GoodField(f) && f.ltype.Packable()
    requires forall i :: 0 <= i < |items| ==> HoldsVal(f, items[i])
    requires EncodePacked(f, items).Some? && size == |EncodePacked(f, items).value| < TWO64
    modifies stream, stream.buf
    ensures stream.Kept()
    ensures Emitted(stream.callback, stream.maxSize, old(stream.Out()), old(stream.bytesWritten),
                    Some(EncodeString(EncodePacked(f, items).value)), ok, stream.Out(), stream.bytesWritten)
  {
    hide EncodeVarint, EncodePacked, GoodField, HoldsVal;
    ghost var out, n, b := stream.Out(), stream.bytesWritten, EncodePacked(f, items).value;
    ghost var total, prefix := Some(EncodeString(b)), EncodeVarint(size);
    EmittedNothing(stream.callback, stream.maxSize, out, n);
    AppendNil(total);
    AppendNil(Some(b));
    assert total == Append(Some(prefix), Some(b)) && [] + prefix == prefix;
    ok := WriteVarint(stream, size);
    ghost var out', n' := stream.Out(), stream.bytesWritten;
    EmittedStep(stream.callback, stream.maxSize, total, Some(b), out, n, [], out, n, Some(prefix), ok, out', n');
    if !ok {
      return;
    }
    if !stream.callback {
      ok := stream.Count(size);
    } else {
      ok := WritePacked(stream, f, items);
    }
    EmittedStep(stream.callback, stream.maxSize, total, Some([]), out, n, prefix, out', n', Some(b), ok,
                stream.Out(), stream.bytesWritten);
    AppendNil(total);
  }

  /** encode_array. */
  method EncArray(stream: OStream, f: Field, items: seq<Val>) returns (ok: bool)
    requires stream.Valid() && GoodField(f) && TaggedField(f) && forall i :: 0 <= i < |items| ==> HoldsVal(f, items[i])
    requires ItemLengthsFit(f, items)
    modifies stream, stream.buf
    ensures stream.Kept()
    ensures Emitted(stream.callback, stream.maxSize, old(stream.Out()), old(stream.bytesWritten),
                    EncodeArray(f, items), ok, stream.Out(), stream.bytesWritten)
    decreases f, 3
  {
    hide EncodeItems, EncodePacked, EncodeTag, EncodeString, GoodField, HoldsVal, TaggedField, ValLengthsFit;
    if items == [] {
      EmittedNothing(stream.callback, stream.maxSize, stream.Out(), stream.bytesWritten);
      return true;
    }
    if |items| > f.arraySize {
      return false;
    }
    if f.ltype.Packable() {
      ok := EncPackedArray(stream, f, items);
    } else {
      ok := EncItems(stream, f, items);
    }
  }

  /** encode_basic_field. */
  method EncSlot(stream: OStream, f: Field, slot: Slot) returns (ok: bool)
    requires stream.Valid() && GoodField(f) && TaggedField(f) && HoldsSlot(f, slot) && SlotLengthsFit(f, slot)
    modifies stream, stream.buf
    ensures stream.Kept()
    ensures Emitted(stream.callback, stream.maxSize, old(stream.Out()), old(stream.bytesWritten),
                    EncodeSlot(f, slot), ok, stream.Out(), stream.bytesWritten)
    decreases f, 4
  {
    hide EncodeTagged, EncodeArray, GoodField, HoldsVal, TaggedField, ValLengthsFit, ItemLengthsFit, Emitted;
    EmittedNothing(stream.callback, stream.maxSize, stream.Out(), stream.bytesWritten);
    ok := true;
    match f.htype {
      case Required => ok := EncTagged(stream, f, slot.v);
      case Singular =>
        if !IsDefault(f, slot) {
          ok := EncTagged(stream, f, slot.v);
        }
      case Optional =>
        if slot.has {
          ok := EncTagged(stream, f, slot.v);
        }
      case Repeated => ok := EncArray(stream, f, slot.items);
      case Oneof(_) =>
        if slot.held.Some? {
          ok := EncTagged(stream, f, slot.held.value);
        }
    }
  }

  lemma SlotEncodable(fields: seq<Field>, m: seq<Slot>, k: nat)
    requires GoodFields(fields) && TaggedAll(fields) && Holds(fields, m) && LengthsFit(fields, m) && k < |fields|
    ensures GoodField(fields[k]) && TaggedField(fields[k]) && |m| == |fields| && HoldsSlot(fields[k], m[k])
    ensures SlotLengthsFit(fields[k], m[k])
  {
  }

  /** pb_encode: the iterator once around. On any stream it succeeds exactly
      when the message can be encoded and fits, and puts out its encoding. */
  method PbEncode(stream: OStream, fields: seq<Field>, m: seq<Slot>) returns (ok: bool)
    requires stream.Valid() && GoodFields(fields) && TaggedAll(fields) && Holds(fields, m) && LengthsFit(fields, m)
    modifies stream, stream.buf
    ensures stream.Kept()
    ensures Emitted(stream.callback, stream.maxSize, old(stream.Out()), old(stream.bytesWritten),
                    Encode(fields, m), ok, stream.Out(), stream.bytesWritten)
    decreases fields, 1
  {
    assert Tagged(fields);
    hide EncodeSlot, GoodFields, TaggedAll, Holds, LengthsFit;
    ghost var out, n, done := stream.Out(), stream.bytesWritten, [];
    EmittedNothing(stream.callback, stream.maxSize, out, n);
    AppendNil(Encode(fields, m));
    var iter := new FieldIter(fields, 0);
    if fields == [] {
      return true;
    }
    var more := true;
    ghost var k: nat := 0;
    while more
      invariant iter.Valid() && iter.start == fields && fresh(iter) && stream.Kept() && k <= |fields|
      invariant if more then iter.pos == k < |fields| else k == |fields|
      invariant EncodeFrom(fields, m, 0) == Append(Some(done), EncodeFrom(fields, m, k))
      invariant Emitted(stream.callback, stream.maxSize, out, n, Some(done), true, stream.Out(), stream.bytesWritten)
      decreases |fields| - k
    {
      hide Emitted;
      SlotEncodable(fields, m, k);
      ghost var out', n', e := stream.Out(), stream.bytesWritten, EncodeSlot(fields[k], m[k]);
      ok := EncSlot(stream, fields[iter.pos], m[iter.pos]);
      EmittedStep(stream.callback, stream.maxSize, Encode(fields, m), EncodeFrom(fields, m, k + 1),
                  out, n, done, out', n', e, ok, stream.Out(), stream.bytesWritten);
      if !ok {
        return;
      }
      done := done + e.value;
      k := k + 1;
      more := iter.Next();
    }
    AppendNil(Some(done));
    return true;
  }

  /** pb_encode_submessage: a sizing run, the length, then the writing run in a
      substream of exactly that size. The second run never differs. */
  method EncodeSubmessage(stream: OStream, fields: seq<Field>, m: seq<Slot>) returns (ok: bool)
    requires stream.Valid() && GoodFields(fields) && TaggedAll(fields) && Holds(fields, m) && LengthsFit(fields, m)
    requires Sized(Encode(fields, m))
    modifies stream, stream.buf
    ensures stream.Kept()
    ensures
      var b := Encode(fields, m);
      Emitted(stream.callback, stream.maxSize, old(stream.Out()), old(stream.bytesWritten),
              if b.Some? then Some(EncodeString(b.value)) else None, ok, stream.Out(), stream.bytesWritten)
    decreases fields, 3
  {
    hide Encode, EncodeVarint, GoodFields, TaggedAll, Holds, LengthsFit;
    ghost var out, n := stream.Out(), stream.bytesWritten;
    var substream := new OStream.Sizing();
    ok := PbEncode(substream, fields, m);
    if !ok {
      return;
    }
    var size := substream.bytesWritten;
    ghost var b := Encode(fields, m).value;
    ghost var total, prefix := Some(EncodeString(b)), EncodeVarint(size);
    EmittedNothing(stream.callback, stream.maxSize, out, n);
    AppendNil(total);
    AppendNil(Some(b));
    assert total == Append(Some(prefix), Some(b)) && [] + prefix == prefix;
    ok := WriteVarint(stream, size);
    ghost var out', n' := stream.Out(), stream.bytesWritten;
    EmittedStep(stream.callback, stream.maxSize, total, Some(b), out, n, [], out, n, Some(prefix), ok, out', n');
    if !ok {
      return;
    }
    ok := WriteBody(stream, fields, m, size);
    EmittedStep(stream.callback, stream.maxSize, total, Some([]), out, n, prefix, out', n', Some(b), ok,
                stream.Out(), stream.bytesWritten);
    AppendNil(total);
  }

  /** The second half of pb_encode_submessage, after the length. */
  method WriteBody(stream: OStream, fields: seq<Field>, m: seq<Slot>, size: nat) returns (ok: bool)
    requires stream.Valid() && GoodFields(fields) && TaggedAll(fields) && Holds(fields, m) && LengthsFit(fields, m)
    requires Encode(fields, m).Some? && size == |Encode(fields, m).value|
    modifies stream, stream.buf
    ensures stream.Kept()
    ensures Emitted(stream.callback, stream.maxSize, old(stream.Out()), old(stream.bytesWritten),
                    Encode(fields, m), ok, stream.Out(), stream.bytesWritten)
    decreases fields, 2
  {
    hide Encode, GoodFields, TaggedAll, Holds, LengthsFit;
    if !stream.callback {
      ok := stream.Count(size);
      return;
    }
    if stream.bytesWritten + size > stream.maxSize {
      return false;
    }
    var substream := new OStream.Within(stream, size);
    var status := PbEncode(substream, fields, m);
    stream.bytesWritten := stream.bytesWritten + substream.bytesWritten;
    stream.state := substream.state;
    if substream.bytesWritten != size {
      // "submsg size changed"
      assert false;
    }
    return status;
  }

  /** pb_get_encoded_size. */
  method GetEncodedSize(fields: seq<Field>, m: seq<Slot>) returns (ok: bool, size: nat)
    requires GoodFields(fields) && TaggedAll(fields) && Holds(fields, m) && LengthsFit(fields, m)
    ensures ok <==> Encode(fields, m).Some?
    ensures ok ==> size == |Encode(fields, m).value|
  {
    hide Encode, GoodFields, TaggedAll, Holds, LengthsFit;
    var stream := new OStream.Sizing();
    ok := PbEncode(stream, fields, m);
    size := stream.bytesWritten;
  }

  /** Encoding into a buffer succeeds exactly when the computed size fits; then
      the buffer starts with the encoding, and in any case nothing past the
      size given for it is written. */
  method EncodeIntoBuffer(buf: array<byte>, size: nat, fields: seq<Field>, m: seq<Slot>)
    returns (ok: bool, needed: nat)
    requires size <= buf.Length
    requires GoodFields(fields) && TaggedAll(fields) && Holds(fields, m) && LengthsFit(fields, m)
    modifies buf
    ensures ok <==> Encode(fields, m).Some? && needed <= size
    ensures Encode(fields, m).Some? ==> needed == |Encode(fields, m).value|
    ensures ok ==> buf[..needed] == Encode(fields, m).value
    ensures forall i :: size <= i < buf.Length ==> buf[i] == old(buf[i])
  {
    hide Encode, GoodFields, TaggedAll, Holds, LengthsFit;
    var sizeOk;
    sizeOk, needed := GetEncodedSize(fields, m);
    var stream := new OStream(buf, size);
    ok := PbEncode(stream, fields, m);
    if ok {
      assert buf[..needed] == stream.Out();
    }
  }
}
