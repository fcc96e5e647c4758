/** The buffers behind TLS handshake messages as the code runs them: the pending
    flight with its offset (s3_both.cc), and hs_buf. What sealing or opening a
    record comes to is an input. */
module TlsStreams {
  import opened Prelude
  import opened TlsFraming

  const CHANGE_CIPHER_SPEC: byte := 20
  const ALERT: byte := 21
  const HANDSHAKE: byte := 22

  /** A sealed record: its type, what was sealed, and the bytes it became. */
  datatype Sealed = Sealed(kind: byte, payload: seq<byte>, wire: seq<byte>)

  function WireOf(rs: seq<Sealed>): seq<byte> {
    if rs == [] then [] else WireOf(rs[..|rs| - 1]) + rs[|rs| - 1].wire
  }

  lemma WireAppend(rs: seq<Sealed>, r: Sealed)
    ensures WireOf(rs + [r]) == WireOf(rs) + r.wire
  {
    assert (rs + [r])[..|rs|] == rs;
  }

  function Payloads(rs: seq<Sealed>): seq<seq<byte>> {
    if rs == [] then [] else [rs[0].payload] + Payloads(rs[1..])
  }

  lemma {:induction false} PayloadsAppend(rs: seq<Sealed>, r: Sealed)
    ensures Payloads(rs + [r]) == Payloads(rs) + [r.payload]
  {
    if rs == [] {
      assert rs + [r] == [r] && [r][1..] == [];
    } else {
      assert (rs + [r])[0] == rs[0] && (rs + [r])[1..] == rs[1..] + [r];
      PayloadsAppend(rs[1..], r);
    }
  }

  /** What the AEAD makes of a payload; None: it refuses. */
  type Sealing = seq<byte> -> Option<seq<byte>>

  /** It seals the payload within its overhead. */
  predicate Seals(seal: Sealing, payload: seq<byte>, overhead: nat) {
    seal(payload).Some? && |seal(payload).value| <= |payload| + overhead
  }

  /** tls_seal_record */
  method SealRecord(kind: byte, payload: seq<byte>, overhead: nat, seal: Sealing) returns (ok: bool, r: Sealed)
    ensures ok <==> Seals(seal, payload, overhead)
    ensures ok ==> r == Sealed(kind, payload, seal(payload).value)
  {
    var wire := seal(payload);
    r := Sealed(kind, payload, if wire.Some? then wire.value else []);
    ok := wire.Some? && |wire.value| <= |payload| + overhead;
  }

  predicate AllHandshake(rs: seq<Sealed>) {
    forall r :: r in rs ==> r.kind == HANDSHAKE
  }

  /** The chunks still to be sealed. */
  function Left(more: bool, rest: seq<byte>, max: nat): seq<seq<byte>>
    requires max > 0
  {
    if more then Chunks(rest, max) else []
  }

  lemma NoPayloads(chunks: seq<seq<byte>>)
    ensures Payloads([]) + chunks == chunks
  {
    assert Payloads([]) == [];
  }

  lemma OneMoreChunk(done: seq<Sealed>, r: Sealed, rest: seq<byte>, max: nat)
    requires max > 0 && r.kind == HANDSHAKE && r.payload == rest[..Min(|rest|, max)] && AllHandshake(done)
    ensures
      var after := rest[Min(|rest|, max)..];
      Payloads(done + [r]) + Left(after != [], after, max) == Payloads(done) + Left(true, rest, max)
    ensures AllHandshake(done + [r])
  {
    PayloadsAppend(done, r);
    var after := rest[Min(|rest|, max)..];
    if |rest| <= max {
      assert rest[..|rest|] == rest;
      assert Payloads(done) + [rest] == Payloads(done) + [rest] + [];
    } else {
      assert Payloads(done) + ([rest[..max]] + Chunks(after, max))
          == Payloads(done) + [rest[..max]] + Chunks(after, max);
    }
  }

  /** All the chunks are sealed, each in its turn. */
  predicate SealsAll(seals: nat -> Sealing, chunks: seq<seq<byte>>, overhead: nat) {
    forall j: nat :: j < |chunks| ==> Seals(seals(j), chunks[j], overhead)
  }

  /** What a turn of ssl3_add_message's loop seals is the next chunk. */
  lemma NextChunk(chunks: seq<seq<byte>>, i: nat, rest: seq<byte>, max: nat)
    requires max > 0 && i <= |chunks| && chunks[i..] == Chunks(rest, max)
    ensures i < |chunks| && chunks[i] == rest[..Min(|rest|, max)]
    ensures
      var after := rest[Min(|rest|, max)..];
      chunks[i + 1..] == Left(after != [], after, max)
  {
    assert Chunks(rest, max) != [];
    assert chunks[i] == Chunks(rest, max)[0] && chunks[i + 1..] == Chunks(rest, max)[1..];
    if |rest| <= max {
      assert rest[..|rest|] == rest;
    }
  }

  /** How many of `left` bytes a transport that answers so takes, and whether
      all of them. */
  function Written(bio: seq<int>, left: nat): (w: (nat, bool))
    ensures w.0 <= left && (w.1 <==> w.0 == left)
    ensures (forall i :: 0 <= i < |bio| ==> bio[i] > 0) && |bio| >= left ==> w.1
    ensures bio != [] && bio[0] >= left > 0 ==> w.1
    ensures bio != [] && bio[0] <= 0 < left ==> w.0 == 0
  {
    if left == 0 then (0, true)
    else if bio == [] || bio[0] <= 0 then (0, false)
    else
      var n := Min(bio[0], left);
      var (taken, all) := Written(bio[1..], left - n);
      (n + taken, all)
  }

  lemma WrittenNext(bio: seq<int>, i: nat, left: nat)
    requires left > 0
    ensures i == |bio| ==> Written(bio[i..], left) == (0, false)
    ensures i < |bio| ==>
              Written(bio[i..], left)
              == if bio[i] <= 0 then (0, false)
                 else
                   var n := Min(bio[i], left);
                   (n + Written(bio[i + 1..], left - n).0, Written(bio[i + 1..], left - n).1)
    requires i <= |bio|
  {
    if i < |bio| {
      assert bio[i..][0] == bio[i] && bio[i..][1..] == bio[i + 1..];
    }
  }

  class FlightBuffer {
    /** pending_flight (None: NULL) and pending_flight_offset */
    var pending: Option<seq<byte>>
    var offset: nat
    const overhead: nat
    /** The records in it; the bytes given to the transport, and those of them
        that belong to earlier flights. */
    ghost var records: seq<Sealed>
    ghost var out: seq<byte>
    ghost var before: seq<byte>

    ghost function Bytes(): seq<byte>
      reads this`pending
    {
      if pending.Some? then pending.value else []
    }

    /** Every byte of the flight up to the offset went out, once. */
    ghost predicate Valid()
      reads this
    {
      Bytes() == WireOf(records) && offset <= |Bytes()| && out == before + Bytes()[..offset]
    }

    constructor (overhead: nat)
      ensures Valid() && records == [] && out == [] && offset == 0 && this.overhead == overhead
    {
      pending, offset := None, 0;
      this.overhead := overhead;
      records, out, before := [], [], [];
    }

    /** add_record_to_flight; never while the flight is being written. */
    method AddRecord(kind: byte, payload: seq<byte>, seal: Sealing) returns (ok: bool)
      requires Valid() && offset == 0
      modifies this`pending, this`records
      ensures Valid()
      ensures ok <==> Seals(seal, payload, overhead)
      ensures records == old(records) + if ok then [Sealed(kind, payload, seal(payload).value)] else []
    {
      if pending.None? {
        pending := Some([]);
      }
      var r;
      ok, r := SealRecord(kind, payload, overhead, seal);
      if !ok {
        assert records + [] == records;
        return false;
      }
      WireAppend(records, r);
      records := records + [r];
      pending := Some(pending.value + r.wire);
    }

    /** ssl3_add_message, the records: full chunks, then the rest. */
    method AddMessage(msg: seq<byte>, maxSendFragment: nat, seals: nat -> Sealing) returns (ok: bool)
      requires Valid() && offset == 0 && maxSendFragment > 0
      modifies this`pending, this`records
      ensures Valid()
      ensures old(records) <= records
      ensures ok ==> Payloads(records[|old(records)|..]) == Chunks(msg, maxSendFragment)
      ensures ok <==> SealsAll(seals, Chunks(msg, maxSendFragment), overhead)
      ensures AllHandshake(records[|old(records)|..])
    {
      hide Chunks, WireOf, Payloads;
      ghost var chunks := Chunks(msg, maxSendFragment);
      assert chunks[0..] == chunks;
      var rest := msg;
      ghost var n := |records|;
      var more, i := true, 0;
      NoPayloads(Chunks(msg, maxSendFragment));
      assert records[n..] == [];
      while more
        invariant Valid() && offset == 0 && n == |old(records)| && old(records) <= records
        invariant AllHandshake(records[n..]) && i >= 0
        invariant Payloads(records[n..]) + Left(more, rest, maxSendFragment) == chunks
        invariant i <= |chunks| && chunks[i..] == Left(more, rest, maxSendFragment)
        invariant forall j: nat :: j < i ==> Seals(seals(j), chunks[j], overhead)
        decreases more, |rest|
      {
        ghost var already := records;
        var size := Min(|rest|, maxSendFragment);
        var chunk := rest[..size];
        NextChunk(chunks, i, rest, maxSendFragment);
        ok := AddRecord(HANDSHAKE, chunk, seals(i));
        if !ok {
          assert records == already;
          return false;
        }
        i := i + 1;
        assert records == already + [records[|already|]];
        OneMoreChunk(already[n..], records[|already|], rest, maxSendFragment);
        assert records[n..] == already[n..] + [records[|already|]];
        rest := rest[size..];
        more := rest != [];
      }
      assert Payloads(records[n..]) + [] == Payloads(records[n..]);
      ok := true;
    }

    /** ssl3_add_change_cipher_spec */
    method AddChangeCipherSpec(seal: Sealing) returns (ok: bool)
      requires Valid() && offset == 0
      modifies this`pending, this`records
      ensures Valid() && (ok <==> Seals(seal, [1], overhead))
      ensures records == old(records) + if ok then [Sealed(CHANGE_CIPHER_SPEC, [1], seal([1]).value)] else []
    {
      ok := AddRecord(CHANGE_CIPHER_SPEC, [1], seal);
    }

    /** ssl3_flush_flight. `ready` says whether the connection may write and its
        write buffer is empty, `bio` what the transport makes of each write (not
        positive: not now), `drained` whether it flushed. A refused flush is
        resumed at the very byte, and a finished flight is gone. It is refused
        only if the connection is not ready, a write is, the answers run out
        before the bytes do, or the transport does not flush. */
    method Flush(ready: bool, bio: seq<int>, drained: bool) returns (ret: int)
      requires Valid()
      modifies this
      ensures Valid()
      ensures ret > 0 ==> pending == None && offset == 0 && records == [] && out == old(before) + old(Bytes()) == before
      ensures ret <= 0 ==> pending == old(pending) && records == old(records) && before == old(before)
      ensures ret <= 0 ==> old(offset) <= offset
      ensures old(pending) == None ==> ret == 1
      ensures ret == 1 || ret == -1 || (ret <= 0 && ret in bio)
      ensures old(pending).Some? ==>
                var w := Written(bio, |old(Bytes())| - old(offset));
                && (ret > 0 <==> ready && w.1 && drained)
                && (ret <= 0 ==> offset == old(offset) + if ready then w.0 else 0)
    {
      hide Written, WireOf, Valid;
      if pending.None? {
        NothingPending();
        return 1;
      }
      Within();
      assert bio[0..] == bio;
      if !ready {
        return -1;
      }
      var i := 0;
      while offset < |pending.value|
        invariant Valid() && pending.Some? && pending == old(pending) && offset <= |pending.value|
        invariant records == old(records) && before == old(before)
        invariant old(offset) <= offset && 0 <= i <= |bio|
        invariant
          var rest, whole := Written(bio[i..], |pending.value| - offset), Written(bio, |pending.value| - old(offset));
          whole == (offset - old(offset) + rest.0, rest.1)
      {
        WrittenNext(bio, i, |pending.value| - offset);
        if i == |bio| {
          return -1;
        }
        var n := bio[i];
        i := i + 1;
        if n <= 0 {
          return n;
        }
        Hand(Min(n, |pending.value| - offset));
      }
      if !drained {
        return -1;
      }
      Drop();
      ret := 1;
    }

    lemma Within()
      requires Valid()
      ensures offset <= |Bytes()|
    {
    }

    /** The transport takes the next n bytes. */
    method Hand(n: nat)
      requires Valid() && pending.Some? && offset + n <= |pending.value|
      modifies this`offset, this`out
      ensures Valid() && offset == old(offset) + n
    {
      assert pending.value[..offset] + pending.value[offset..offset + n] == pending.value[..offset + n];
      out := out + pending.value[offset..offset + n];
      offset := offset + n;
    }

    /** All of the flight is out. */
    method Drop()
      requires Valid() && pending.Some? && offset == |pending.value|
      modifies this`pending, this`offset, this`records, this`before
      ensures Valid() && pending == None && offset == 0 && records == []
      ensures out == old(before) + old(Bytes()) == before
    {
      assert pending.value[..offset] == pending.value;
      pending, offset := None, 0;
      records, before := [], out;
    }

    /** No flight, no records: a flush has nothing to do. */
    method NothingPending()
      requires Valid() && pending == None
      modifies this`records, this`before
      ensures Valid() && records == [] && before == old(before) + old(Bytes()) == out
    {
      records := [];
      assert out == before + [][..0] == before;
    }
  }

  // ----- reading -----

  /** The alert that is sent; none if the other side sent a fatal one. */
  datatype AlertCode =
    | InternalError | IllegalParameter | UnexpectedMessage | RecordOverflow | BadRecordMac | DecodeError | Nothing

  const WARNING: byte := 1
  const FATAL: byte := 2
  const CLOSE_NOTIFY: byte := 0
  const MAX_WARNINGS: nat := 4

  /** A record as it opens; None: it does not. */
  datatype Record = Record(kind: byte, payload: seq<byte>)

  datatype Opened = Success | Discard | Closed | Failed(alert: AlertCode)

  class MessageReader {
    /** hs_buf (None: NULL), has_message and empty_record_count */
    var hsBuf: Option<seq<byte>>
    var hasMessage: bool
    var emptyCount: nat
    /** warning_alert_count, and read_shutdown after a close_notify */
    var warnings: nat
    var closed: bool

    constructor ()
      ensures Buffered() == [] && !hasMessage && emptyCount == 0 && warnings == 0 && !closed
    {
      hsBuf, hasMessage, emptyCount, warnings, closed := None, false, 0, 0, false;
    }

    function Buffered(): seq<byte>
      reads this`hsBuf
    {
      if hsBuf.Some? then hsBuf.value else []
    }

    /** ssl3_get_message: the message at the front, if it is all there. */
    method GetMessage() returns (m: Option<Msg>)
      modifies this`hasMessage
      ensures m == (match ParseMessage(Buffered()) case Complete(msg, _) => Some(msg) case Needs(_) => None)
      ensures hasMessage == (old(hasMessage) || m.Some?)
    {
      var p := ParseMessage(Buffered());
      if p.Needs? {
        return None;
      }
      if !hasMessage {
        hasMessage := true;
      }
      m := Some(p.m);
    }

    /** ssl3_next_message; outside the handshake an empty buffer is released. */
    method NextMessage(inInit: bool)
      requires ParseMessage(Buffered()).Complete?
      modifies this`hsBuf, this`hasMessage
      ensures old(Buffered()) == ParseMessage(old(Buffered())).raw + Buffered() && !hasMessage
      ensures hsBuf.None? <==> !inInit && Buffered() == []
    {
      var p := ParseMessage(Buffered());
      RawOfParsed(Buffered());
      hsBuf := Some(hsBuf.value[|p.raw|..]);
      hasMessage := false;
      if !inInit && hsBuf.value == [] {
        hsBuf := None;
      }
    }

    /** tls_can_accept_handshake_data */
    method CanAcceptHandshakeData(maxLen: nat) returns (alert: Option<AlertCode>)
      ensures alert.None? <==> CanAccept(Buffered(), maxLen)
      ensures alert.Some? ==>
                alert.value == if ParseMessage(Buffered()).Complete? then InternalError else IllegalParameter
    {
      var p := ParseMessage(Buffered());
      if p.Complete? {
        return Some(InternalError);
      }
      if p.bytes > HEADER + maxLen {
        return Some(IllegalParameter);
      }
      alert := None;
    }

    /** tls_has_unprocessed_handshake_data: more than the current message. */
    method HasUnprocessedHandshakeData() returns (more: bool)
      ensures more <==>
                var p := ParseMessage(Buffered());
                |Buffered()| > if hasMessage && p.Complete? then |p.raw| else 0
    {
      var msgLen := 0;
      if hasMessage {
        var p := ParseMessage(Buffered());
        if p.Complete? {
          msgLen := |p.raw|;
        }
      }
      more := hsBuf.Some? && |hsBuf.value| > msgLen;
    }

    /** ssl_process_alert, up to TLS 1.2: close_notify ends the reading, four
        warnings in a row are let pass, and anything else fails. */
    method ProcessAlert(payload: seq<byte>) returns (r: Opened)
      modifies this`warnings, this`closed
      ensures r.Closed? <==> payload == [1, 0]
      ensures r.Discard? <==> |payload| == 2 && payload[0] == 1 && payload[1] != 0 && old(warnings) < 4
      ensures r.Failed? ==>
                r.alert == if |payload| != 2 then DecodeError
                           else if payload[0] == 1 then UnexpectedMessage
                           else if payload[0] == 2 then Nothing
                           else IllegalParameter
      ensures !r.Success? && closed == (old(closed) || r.Closed?)
      ensures warnings == old(warnings) + if |payload| == 2 && payload[0] == 1 && payload[1] != 0 then 1 else 0
    {
      if |payload| != 2 {
        return Failed(DecodeError);
      }
      if payload[0] == WARNING {
        if payload[1] == CLOSE_NOTIFY {
          closed := true;
          return Closed;
        }
        warnings := warnings + 1;
        if warnings > MAX_WARNINGS {
          return Failed(UnexpectedMessage);
        }
        return Discard;
      }
      return Failed(if payload[0] == FATAL then Nothing else IllegalParameter);
    }

    /** The record is one the record layer hands on: it opened, is not too long,
        and not one empty record too many. */
    predicate Fits(record: Option<Record>)
      reads this`emptyCount
    {
      record.Some? && RecordFits(emptyCount, record.value.payload)
    }

    /** ssl3_open_handshake with tls_open_record, past the first record of a
        server: only a handshake record that may be taken is appended, whole. */
    method OpenHandshake(record: Option<Record>, maxLen: nat) returns (r: Opened)
      modifies this`hsBuf, this`emptyCount, this`warnings, this`closed
      ensures r.Success? <==>
                && !old(closed) && CanAccept(old(Buffered()), maxLen)
                && old(Fits(record)) && record.value.kind == HANDSHAKE
      ensures r.Success? ==> Buffered() == old(Buffered()) + record.value.payload && warnings == 0
      ensures !r.Success? ==> Buffered() == old(Buffered())
      ensures r.Success? ==> emptyCount == Empties(old(emptyCount), record.value.payload)
      ensures old(closed) ==> r == Closed
      ensures !old(closed) && !CanAccept(old(Buffered()), maxLen) ==>
                r == Failed(if ParseMessage(old(Buffered())).Complete? then InternalError else IllegalParameter)
      ensures !old(closed) && CanAccept(old(Buffered()), maxLen) ==>
                if record.None? then r == Failed(BadRecordMac)
                else if |record.value.payload| > MAX_PLAIN then r == Failed(RecordOverflow)
                else if !old(Fits(record)) then r == Failed(UnexpectedMessage)
                else if record.value.kind == ALERT then
                  && (r.Closed? <==> record.value.payload == [1, 0])
                  && (r.Discard? <==>
                        var alert := record.value.payload;
                        |alert| == 2 && alert[0] == 1 && alert[1] != 0 && old(warnings) < 4)
                else r.Success? || r == Failed(UnexpectedMessage)
      ensures closed == (old(closed) || r.Closed?)
    {
      if hsBuf.None? {
        hsBuf := Some([]);
      }
      if closed {
        return Closed;
      }
      var refused := CanAcceptHandshakeData(maxLen);
      if refused.Some? {
        return Failed(refused.value);
      }
      if record.None? {
        return Failed(BadRecordMac);
      }
      var payload := record.value.payload;
      if |payload| > MAX_PLAIN {
        return Failed(RecordOverflow);
      }
      if payload == [] {
        emptyCount := emptyCount + 1;
        if emptyCount > MAX_EMPTY {
          return Failed(UnexpectedMessage);
        }
      } else {
        emptyCount := 0;
      }
      if record.value.kind == ALERT {
        r := ProcessAlert(payload);
        return;
      }
      warnings := 0;
      if record.value.kind != HANDSHAKE {
        return Failed(UnexpectedMessage);
      }
      hsBuf := Some(hsBuf.value + payload);
      r := Success;
    }

    /** The handshake's use of them: open a record when no message is there, take
        every message that is. */
    method ReadAll(payloads: seq<seq<byte>>, maxLen: nat) returns (ms: Option<seq<Msg>>)
      modifies this
      ensures
        var d := Deliver(old(Buffered()), old(emptyCount), payloads, maxLen);
        if old(closed) && payloads != [] then ms == None
        else if d.Some? then ms == Some(d.value.0) && Buffered() == d.value.1
        else ms == None
    {
      var taken: seq<Msg> := [];
      var i := 0;
      ghost var start, count := Buffered(), emptyCount;
      PrependNothing(Deliver(start, count, payloads, maxLen));
      assert payloads[0..] == payloads;
      while i < |payloads|
        invariant 0 <= i <= |payloads| && closed == old(closed) && (closed ==> i == 0)
        invariant Deliver(start, count, payloads, maxLen)
               == Prepend(taken, Deliver(Buffered(), emptyCount, payloads[i..], maxLen))
      {
        ghost var buf, c := Buffered(), emptyCount;
        var result := OpenHandshake(Some(Record(HANDSHAKE, payloads[i])), maxLen);
        assert payloads[i..][0] == payloads[i] && payloads[i..][1..] == payloads[i + 1..];
        if !result.Success? {
          return None;
        }
        ghost var all := Drain(Buffered());
        var drained := DrainBuffer();
        PrependTwice(taken, drained, Deliver(Buffered(), emptyCount, payloads[i + 1..], maxLen));
        taken := taken + drained;
        i := i + 1;
      }
      assert payloads[i..] == [];
      assert taken + [] == taken;
      ms := Some(taken);
    }

    /** Takes every complete message. */
    method DrainBuffer() returns (ms: seq<Msg>)
      modifies this`hsBuf, this`hasMessage
      ensures (ms, Buffered()) == Drain(old(Buffered()))
    {
      hide ParseMessage, Drain;
      ms := [];
      var next := GetMessage();
      ghost var start := Drain(Buffered());
      assert [] + start.0 == start.0;
      while next.Some?
        invariant next == (match ParseMessage(Buffered()) case Complete(m, _) => Some(m) case Needs(_) => None)
        invariant Drain(old(Buffered())) == (ms + Drain(Buffered()).0, Drain(Buffered()).1)
        decreases |Buffered()|
      {
        ghost var buf := Buffered();
        NextMessage(true);
        DrainOne(buf, Buffered());
        assert ms + ([next.value] + Drain(Buffered()).0) == ms + [next.value] + Drain(Buffered()).0;
        ms := ms + [next.value];
        next := GetMessage();
      }
      DrainNothing(Buffered());
      assert ms + [] == ms;
    }
  }

  lemma DrainOne(buf: seq<byte>, rest: seq<byte>)
    requires ParseMessage(buf).Complete? && buf == ParseMessage(buf).raw + rest
    ensures Drain(buf) == ([ParseMessage(buf).m] + Drain(rest).0, Drain(rest).1) && |rest| < |buf|
  {
    assert buf[|ParseMessage(buf).raw|..] == rest;
  }

  lemma DrainNothing(buf: seq<byte>)
    requires ParseMessage(buf).Needs?
    ensures Drain(buf) == ([], buf)
  {
  }

  function Prepend(ms: seq<Msg>, d: Option<(seq<Msg>, seq<byte>)>): Option<(seq<Msg>, seq<byte>)> {
    if d.None? then None else Some((ms + d.value.0, d.value.1))
  }

  lemma PrependNothing(d: Option<(seq<Msg>, seq<byte>)>)
    ensures Prepend([], d) == d
  {
    if d.Some? {
      assert [] + d.value.0 == d.value.0;
    }
  }

  lemma PrependTwice(a: seq<Msg>, b: seq<Msg>, d: Option<(seq<Msg>, seq<byte>)>)
    ensures Prepend(a, Prepend(b, d)) == Prepend(a + b, d)
  {
    if d.Some? {
      assert a + (b + d.value.0) == a + b + d.value.0;
    }
  }
}
