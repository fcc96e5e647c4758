/** The input stream of pb_decode.c and its byte-level decoders, as they run:
    `state` and `bytesLeft` advance on every read. */
module NanopbIStream {
  import opened Prelude
  import opened NanopbVarint
  import opened NanopbDecode

  class IStream {
    const source: seq<byte>
    var state: nat
    var bytesLeft: nat

    ghost predicate Valid()
      reads this
    {
      state + bytesLeft <= |source|
    }

    /** The unread bytes this stream may still read. */
    ghost function Rest(): seq<byte>
      reads this
      requires Valid()
    {
      source[state..state + bytesLeft]
    }

    /** Where this stream ends in the source; reading never moves it. */
    ghost function End(): nat
      reads this
    {
      state + bytesLeft
    }

    /** pb_istream_from_buffer. */
    constructor (buf: seq<byte>)
      ensures Valid() && source == buf && Rest() == buf && state == 0
    {
      source := buf;
      state := 0;
      bytesLeft := |buf|;
    }

    /** The struct copy in pb_make_string_substream, cut to `size` bytes. */
    constructor Prefix(parent: IStream, size: nat)
      requires parent.Valid() && size <= parent.bytesLeft
      ensures Valid() && source == parent.source && state == parent.state && bytesLeft == size
    {
      source := parent.source;
      state := parent.state;
      bytesLeft := size;
    }

    /** pb_read of a buffer stream. */
    method Read(count: nat) returns (ok: bool, data: seq<byte>)
      requires Valid()
      modifies this
      ensures Valid() && End() == old(End())
      ensures ok <==> count <= old(bytesLeft)
      ensures ok ==> data == old(Rest())[..count] && Rest() == old(Rest())[count..]
      ensures !ok ==> data == [] && state == old(state)
    {
      if bytesLeft < count {
        return false, [];
      }
      data := source[state..state + count];
      state := state + count;
      bytesLeft := bytesLeft - count;
      return true, data;
    }

    /** pb_readbyte. */
    method ReadByte() returns (ok: bool, b: byte)
      requires Valid()
      modifies this
      ensures Valid() && End() == old(End())
      ensures ok <==> old(Rest()) != []
      ensures ok ==> b == old(Rest())[0] && Rest() == old(Rest())[1..]
      ensures !ok ==> state == old(state)
    {
      if bytesLeft == 0 {
        return false, 0;
      }
      b := source[state];
      state := state + 1;
      bytesLeft := bytesLeft - 1;
      return true, b;
    }

    /** pb_decode_varint32_eof. */
    method ReadVarint32() returns (ok: bool, value: nat, eof: bool)
      requires Valid()
      modifies this
      ensures Valid() && End() == old(End())
      ensures ok <==> DecodeVarint32(old(Rest())).Some?
      ensures ok ==> DecodeVarint32(old(Rest())) == Some(Parsed(value, Rest()))
      ensures eof <==> old(Rest()) == []
      ensures eof ==> state == old(state)
    {
      value, eof := 0, false;
      var b;
      ok, b := ReadByte();
      if !ok {
        return false, 0, bytesLeft == 0;
      }
      if b < 128 {
        return true, b, false;
      }
      var bitpos: byte := 7;
      var result: nat := b % 128;
      ghost var all := Rest();
      while true
        invariant Valid() && End() == old(End())
        invariant Varint32From(all, 7, old(Rest())[0] % 128) == Varint32From(Rest(), bitpos, result)
        decreases bytesLeft
      {
        ok, b := ReadByte();
        if !ok {
          return;
        }
        if bitpos >= 32 {
          var signExtension := if bitpos < 63 then 0xFF else 0x01;
          if b % 128 != 0 && (result / TWO31 == 0 || b != signExtension) {
            return false, 0, false;
          }
        } else {
          result := Or(result, Shl(b % 128, bitpos) % TWO32);
        }
        bitpos := (bitpos + 7) % 256;
        if b < 128 {
          break;
        }
      }
      if bitpos == 35 && (b / 16) % 8 != 0 {
        return false, 0, false;
      }
      return true, result, false;
    }

    /** pb_decode_varint. */
    method ReadVarint64() returns (ok: bool, value: nat)
      requires Valid()
      modifies this
      ensures Valid() && End() == old(End())
      ensures ok <==> DecodeVarint64(old(Rest())).Some?
      ensures ok ==> DecodeVarint64(old(Rest())) == Some(Parsed(value, Rest()))
    {
      value := 0;
      var bitpos: nat := 0;
      var result: nat := 0;
      while true
        invariant Valid() && End() == old(End())
        invariant DecodeVarint64(old(Rest())) == Varint64From(Rest(), bitpos, result)
        decreases bytesLeft
      {
        if bitpos >= 64 {
          return false, 0;
        }
        var b;
        ok, b := ReadByte();
        if !ok {
          return;
        }
        result := Or(result, Shl(b % 128, bitpos) % TWO64);
        bitpos := bitpos + 7;
        if b < 128 {
          break;
        }
      }
      return true, result;
    }

    /** pb_skip_varint. */
    method PassVarint() returns (ok: bool)
      requires Valid()
      modifies this
      ensures Valid() && End() == old(End())
      ensures ok <==> SkipVarint(old(Rest())).Some?
      ensures ok ==> SkipVarint(old(Rest())) == Some(Rest())
    {
      while true
        invariant Valid() && End() == old(End())
        invariant SkipVarint(old(Rest())) == SkipVarint(Rest())
        decreases bytesLeft
      {
        var data;
        ok, data := Read(1);
        if !ok {
          return;
        }
        if data[0] < 128 {
          break;
        }
      }
      return true;
    }

    /** pb_decode_tag: eof also for a zero tag. */
    method ReadTag() returns (ok: bool, tag: nat, wire: nat, eof: bool)
      requires Valid()
      modifies this
      ensures Valid() && End() == old(End())
      ensures ok <==> DecodeTag(old(Rest())).TagOk?
      ensures ok ==> DecodeTag(old(Rest())) == TagOk(tag, wire, Rest()) && !eof
      ensures !ok ==> (eof <==> DecodeTag(old(Rest())).TagEnd?)
      ensures !ok && eof ==> DecodeTag(old(Rest())) == TagEnd(Rest())
    {
      hide DecodeVarint32;
      tag, wire := 0, 0;
      var temp;
      ok, temp, eof := ReadVarint32();
      if !ok {
        assert eof ==> DecodeTag([]) == TagEnd([]);
        return;
      }
      if temp == 0 {
        return false, 0, 0, true;
      }
      return true, temp / 8, temp % 8, false;
    }

    /** pb_make_string_substream. The parent gives the bytes up at once, but
        its position moves only when the substream is closed. */
    method MakeSubstream() returns (ok: bool, sub: IStream)
      requires Valid()
      modifies this
      ensures Valid() && End() <= old(End())
      ensures ok <==> Substream(old(Rest())).Some?
      ensures ok ==> fresh(sub) && sub.Valid() && sub.source == source && sub.End() + bytesLeft == old(End())
      ensures ok ==> Substream(old(Rest())) == Some(Parsed(sub.Rest(), source[sub.End()..sub.End() + bytesLeft]))
      ensures !ok ==> sub == this && End() == old(End())
    {
      hide DecodeVarint32;
      sub := this;
      var size, eof;
      ok, size, eof := ReadVarint32();
      if !ok {
        return;
      }
      if bytesLeft < size {
        return false, this;
      }
      sub := new IStream.Prefix(this, size);
      ghost var rest := Rest();
      assert rest[..size] == sub.Rest();
      bytesLeft := bytesLeft - size;
      assert rest[size..] == source[sub.End()..sub.End() + bytesLeft];
      return true, sub;
    }

    /** pb_close_string_substream: passes what the substream left unread. */
    method CloseSubstream(sub: IStream)
      requires Valid() && sub.Valid() && sub != this && sub.source == source
      requires sub.End() + bytesLeft <= |source|
      modifies this, sub
      ensures Valid() && bytesLeft == old(bytesLeft) && state == old(sub.End())
      ensures Rest() == source[old(sub.End())..old(sub.End()) + bytesLeft]
    {
      if sub.bytesLeft != 0 {
        var ok, data := sub.Read(sub.bytesLeft);
      }
      state := sub.state;
    }

    /** pb_skip_field. */
    method PassField(wire: nat) returns (ok: bool)
      requires Valid()
      modifies this
      ensures Valid() && End() == old(End())
      ensures ok <==> SkipField(wire, old(Rest())).Some?
      ensures ok ==> SkipField(wire, old(Rest())) == Some(Rest())
    {
      hide DecodeVarint32, SkipVarint;
      var data;
      if wire == WT_VARINT {
        ok := PassVarint();
      } else if wire == WT_64BIT {
        ok, data := Read(8);
      } else if wire == WT_STRING {
        // pb_skip_string: the length, then that many bytes.
        var length, eof;
        ok, length, eof := ReadVarint32();
        if ok {
          ok, data := Read(length);
        }
      } else if wire == WT_32BIT {
        ok, data := Read(4);
      } else {
        ok := false;
      }
    }
  }
}
