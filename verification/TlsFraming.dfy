/** Handshake messages cut into TLS records and put together again (s3_both.cc,
    tls_record.cc; RFC 5246 section 6.2.1), as values. */
module TlsFraming {
  import opened Prelude
  import D = DtlsMessage

  /** SSL3_HM_HEADER_LENGTH, SSL3_RT_MAX_PLAIN_LENGTH, kMaxEmptyRecords. */
  const HEADER: nat := 4
  const MAX_PLAIN: nat := 16384
  const MAX_EMPTY: nat := 32

  datatype Msg = Msg(kind: byte, body: seq<byte>)

  predicate Fits(m: Msg) {
    |m.body| < D.TWO24
  }

  /** What ssl3_init_message and ssl3_finish_message build. */
  function Raw(m: Msg): (s: seq<byte>)
    requires Fits(m)
    ensures |s| == HEADER + |m.body|
  {
    [m.kind] + D.U24(|m.body|) + m.body
  }

  predicate AllFit(ms: seq<Msg>) {
    forall m :: m in ms ==> Fits(m)
  }

  /** The messages, one after the other. */
  function Stream(ms: seq<Msg>): seq<byte>
    requires AllFit(ms)
  {
    if ms == [] then [] else Raw(ms[0]) + Stream(ms[1..])
  }

  function Flatten(parts: seq<seq<byte>>): seq<byte> {
    if parts == [] then [] else parts[0] + Flatten(parts[1..])
  }

  lemma {:induction false} FlattenAppend(a: seq<seq<byte>>, b: seq<seq<byte>>)
    ensures Flatten(a + b) == Flatten(a) + Flatten(b)
  {
    if a == [] {
      assert a + b == b;
    } else {
      FlattenAppend(a[1..], b);
      assert (a + b)[0] == a[0] && (a + b)[1..] == a[1..] + b;
    }
  }

  // ----- cutting -----

  /** ssl3_add_message's records: full ones, then the rest; at least one. */
  function Chunks(s: seq<byte>, max: nat): (parts: seq<seq<byte>>)
    requires max > 0
    decreases |s|
  {
    if |s| <= max then [s] else [s[..max]] + Chunks(s[max..], max)
  }

  /** Nothing lost or repeated, nothing too long, nothing empty but an empty
      message, and all but the last full. */
  lemma {:induction false} ChunksPartition(s: seq<byte>, max: nat)
    requires max > 0
    ensures Flatten(Chunks(s, max)) == s && |Chunks(s, max)| >= 1
    ensures forall p :: p in Chunks(s, max) ==> |p| <= max && (s != [] ==> p != [])
    ensures forall i :: 0 <= i < |Chunks(s, max)| - 1 ==> |Chunks(s, max)[i]| == max
    decreases |s|
  {
    if |s| <= max {
      assert Chunks(s, max) == [s] && [s][1..] == [];
    } else {
      ChunksPartition(s[max..], max);
      assert s[..max] + s[max..] == s;
      assert Chunks(s, max)[1..] == Chunks(s[max..], max);
    }
  }

  // ----- parsing -----

  datatype Parsed = Complete(m: Msg, raw: seq<byte>) | Needs(bytes: nat)

  /** parse_message */
  function ParseMessage(buf: seq<byte>): (p: Parsed)
    ensures p.Complete? ==> |p.raw| <= |buf| && HEADER <= |p.raw|
  {
    if |buf| < HEADER then Needs(HEADER)
    else
      var len := D.FromU24(buf[1..4]);
      if |buf| < HEADER + len then Needs(HEADER + len)
      else Complete(Msg(buf[0], buf[HEADER..HEADER + len]), buf[..HEADER + len])
  }

  lemma ParseRaw(m: Msg, rest: seq<byte>)
    requires Fits(m)
    ensures ParseMessage(Raw(m) + rest) == Complete(m, Raw(m))
  {
    var buf := Raw(m) + rest;
    assert buf[1..4] == D.U24(|m.body|);
    assert D.FromU24(D.U24(|m.body|)) == |m.body|;
    assert buf[HEADER..HEADER + |m.body|] == m.body && buf[..HEADER + |m.body|] == Raw(m);
  }

  lemma U24OfBytes(s: seq<byte>)
    requires |s| == 3
    ensures D.U24(D.FromU24(s)) == s
  {
  }

  /** What is parsed is what stands at the front. */
  lemma RawOfParsed(buf: seq<byte>)
    requires ParseMessage(buf).Complete?
    ensures Fits(ParseMessage(buf).m) && Raw(ParseMessage(buf).m) == ParseMessage(buf).raw
    ensures ParseMessage(buf).raw <= buf
  {
    hide D.U24, D.FromU24;
    var len := D.FromU24(buf[1..4]);
    U24OfBytes(buf[1..4]);
    assert buf[..4 + len] == [buf[0]] + buf[1..4] + buf[4..4 + len];
  }

  /** More bytes do not change a message that is complete. */
  lemma ParseMore(buf: seq<byte>, more: seq<byte>)
    requires ParseMessage(buf).Complete?
    ensures ParseMessage(buf + more) == ParseMessage(buf)
  {
    RawOfParsed(buf);
    var p := ParseMessage(buf);
    var rest := buf[|p.raw|..] + more;
    assert buf + more == p.raw + rest;
    ParseRaw(p.m, rest);
  }

  /** Every complete message, and what is left. */
  function Drain(buf: seq<byte>): (r: (seq<Msg>, seq<byte>))
    ensures ParseMessage(r.1).Needs?
    decreases |buf|
  {
    match ParseMessage(buf)
    case Needs(_) => ([], buf)
    case Complete(m, raw) =>
      var (ms, rest) := Drain(buf[|raw|..]);
      ([m] + ms, rest)
  }

  /** Draining early and again later gives the same as draining once. */
  lemma {:induction false} DrainMore(buf: seq<byte>, more: seq<byte>)
    ensures Drain(buf + more)
         == (Drain(buf).0 + Drain(Drain(buf).1 + more).0, Drain(Drain(buf).1 + more).1)
    decreases |buf|
  {
    hide ParseMessage;
    match ParseMessage(buf)
    case Needs(_) =>
      assert [] + Drain(buf + more).0 == Drain(buf + more).0;
    case Complete(m, raw) =>
      ParseMore(buf, more);
      DrainMore(buf[|raw|..], more);
      assert (buf + more)[|raw|..] == buf[|raw|..] + more;
      var r := Drain(buf[|raw|..]);
      var last := Drain(r.1 + more).0;
      assert [m] + r.0 + last == [m] + (r.0 + last);
  }

  lemma {:induction false} DrainStream(ms: seq<Msg>)
    requires AllFit(ms)
    ensures Drain(Stream(ms)) == (ms, [])
    decreases |ms|
  {
    if ms != [] {
      ParseRaw(ms[0], Stream(ms[1..]));
      DrainStream(ms[1..]);
      assert [ms[0]] + ms[1..] == ms;
      assert Stream(ms)[|Raw(ms[0])|..] == Stream(ms[1..]);
    }
  }

  // ----- receiving, record by record -----

  /** tls_can_accept_handshake_data: not while a message waits to be taken, nor
      for a message that is too long. */
  predicate CanAccept(buf: seq<byte>, maxLen: nat) {
    ParseMessage(buf).Needs? && ParseMessage(buf).bytes <= HEADER + maxLen
  }

  /** How many empty records in a row, this one included. */
  function Empties(count: nat, payload: seq<byte>): nat {
    if payload == [] then count + 1 else 0
  }

  predicate RecordFits(count: nat, payload: seq<byte>) {
    |payload| <= MAX_PLAIN && Empties(count, payload) <= MAX_EMPTY
  }

  /** The messages handed out when each handshake record is opened and all its
      messages are taken before the next; None if a record is refused. */
  function Deliver(buf: seq<byte>, count: nat, payloads: seq<seq<byte>>, maxLen: nat): Option<(seq<Msg>, seq<byte>)>
    decreases |payloads|
  {
    if payloads == [] then Some(([], buf))
    else if !CanAccept(buf, maxLen) || !RecordFits(count, payloads[0]) then None
    else
      var (ms, rest) := Drain(buf + payloads[0]);
      match Deliver(rest, Empties(count, payloads[0]), payloads[1..], maxLen)
      case None => None
      case Some(more) => Some((ms + more.0, more.1))
  }

  predicate AllRecordsFit(count: nat, payloads: seq<seq<byte>>)
    decreases |payloads|
  {
    payloads == [] || (RecordFits(count, payloads[0]) && AllRecordsFit(Empties(count, payloads[0]), payloads[1..]))
  }

  /** A message of at most this length never needs more than its header and it. */
  predicate NotTooLong(buf: seq<byte>, maxLen: nat)
    decreases |buf|
  {
    match ParseMessage(buf)
    case Needs(n) => n <= HEADER + maxLen
    case Complete(m, raw) => |m.body| <= maxLen && NotTooLong(buf[|raw|..], maxLen)
  }

  lemma {:induction false} StreamNotTooLong(ms: seq<Msg>, maxLen: nat)
    requires AllFit(ms) && forall m :: m in ms ==> |m.body| <= maxLen
    ensures NotTooLong(Stream(ms), maxLen)
    decreases |ms|
  {
    if ms != [] {
      ParseRaw(ms[0], Stream(ms[1..]));
      StreamNotTooLong(ms[1..], maxLen);
      assert Stream(ms)[|Raw(ms[0])|..] == Stream(ms[1..]);
    }
  }

  /** What is missing of the front message is known, and bounded, early. */
  lemma NeedsEarly(buf: seq<byte>, more: seq<byte>, maxLen: nat)
    requires NotTooLong(buf + more, maxLen) && ParseMessage(buf).Needs?
    ensures ParseMessage(buf).bytes <= HEADER + maxLen
  {
    if |buf| >= HEADER {
      assert (buf + more)[1..4] == buf[1..4];
    }
  }

  lemma {:induction false} DrainNotTooLong(buf: seq<byte>, more: seq<byte>, maxLen: nat)
    requires NotTooLong(buf + more, maxLen)
    ensures NotTooLong(Drain(buf).1 + more, maxLen)
    decreases |buf|
  {
    if ParseMessage(buf).Complete? {
      var raw := ParseMessage(buf).raw;
      ParseMore(buf, more);
      assert (buf + more)[|raw|..] == buf[|raw|..] + more;
      DrainNotTooLong(buf[|raw|..], more, maxLen);
    }
  }

  /** However a stream is cut into records: no record is refused, and the
      messages handed out are those of the whole stream. */
  lemma {:induction false} DeliverIsDrain(buf: seq<byte>, count: nat, payloads: seq<seq<byte>>, maxLen: nat)
    requires AllRecordsFit(count, payloads) && ParseMessage(buf).Needs?
    requires NotTooLong(buf + Flatten(payloads), maxLen)
    ensures Deliver(buf, count, payloads, maxLen) == Some(Drain(buf + Flatten(payloads)))
    decreases |payloads|
  {
    if payloads == [] {
      assert buf + [] == buf;
    } else {
      var first, rest := payloads[0], Flatten(payloads[1..]);
      NeedsEarly(buf, Flatten(payloads), maxLen);
      assert buf + Flatten(payloads) == (buf + first) + rest;
      DrainMore(buf + first, rest);
      DrainNotTooLong(buf + first, rest, maxLen);
      DeliverIsDrain(Drain(buf + first).1, Empties(count, first), payloads[1..], maxLen);
    }
  }

  /** max_send_fragment */
  type Limit = n: int | 0 < n <= MAX_PLAIN witness 512

  /** The records of several messages, each cut by ssl3_add_message; the limit
      may change in between. */
  function Cut(ms: seq<Msg>, limits: seq<Limit>): seq<seq<byte>>
    requires AllFit(ms) && |limits| == |ms|
  {
    if ms == [] then [] else Chunks(Raw(ms[0]), limits[0]) + Cut(ms[1..], limits[1..])
  }

  lemma {:induction false} CutIsStream(ms: seq<Msg>, limits: seq<Limit>)
    requires AllFit(ms) && |limits| == |ms|
    ensures Flatten(Cut(ms, limits)) == Stream(ms)
    ensures forall p :: p in Cut(ms, limits) ==> p != [] && |p| <= MAX_PLAIN
    decreases |ms|
  {
    if ms != [] {
      CutIsStream(ms[1..], limits[1..]);
      ChunksPartition(Raw(ms[0]), limits[0]);
      FlattenAppend(Chunks(Raw(ms[0]), limits[0]), Cut(ms[1..], limits[1..]));
    }
  }

  lemma {:induction false} NonemptyFit(count: nat, payloads: seq<seq<byte>>)
    requires forall p :: p in payloads ==> p != [] && |p| <= MAX_PLAIN
    ensures AllRecordsFit(count, payloads)
    decreases |payloads|
  {
    if payloads != [] {
      NonemptyFit(0, payloads[1..]);
    }
  }

  /** From ssl3_add_message to ssl3_get_message: exactly the messages added. */
  lemma FramingRoundTrip(ms: seq<Msg>, limits: seq<Limit>, maxLen: nat)
    requires AllFit(ms) && |limits| == |ms|
    requires forall m :: m in ms ==> |m.body| <= maxLen
    ensures Deliver([], 0, Cut(ms, limits), maxLen) == Some((ms, []))
  {
    AnySplitDelivers(ms, Cut(ms, limits), maxLen) by {
      CutIsStream(ms, limits);
      NonemptyFit(0, Cut(ms, limits));
    }
  }

  /** The same for any other way of cutting the stream into records. */
  lemma AnySplitDelivers(ms: seq<Msg>, payloads: seq<seq<byte>>, maxLen: nat)
    requires AllFit(ms) && Flatten(payloads) == Stream(ms) && AllRecordsFit(0, payloads)
    requires forall m :: m in ms ==> |m.body| <= maxLen
    ensures Deliver([], 0, payloads, maxLen) == Some((ms, []))
  {
    StreamNotTooLong(ms, maxLen);
    assert [] + Stream(ms) == Stream(ms);
    DeliverIsDrain([], 0, payloads, maxLen);
    DrainStream(ms);
  }
}
