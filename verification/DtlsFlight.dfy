/** A flight and the ways of cutting it into records. A position says how many
    messages are written and how far into the next one the cut is. */
module DtlsFlight {
  import opened Prelude
  import opened DtlsMessage

  /** DTLS_OUTGOING_MESSAGE: a whole serialized message, or ChangeCipherSpec. */
  datatype Outgoing = Outgoing(data: seq<byte>, epoch: nat, isCcs: bool)

  /** The parsed message, if the data is one fragment that is all of it. */
  function Whole(o: Outgoing): (m: Option<Message>)
    ensures m.Some? ==> Sendable(m.value)
  {
    match ParseFragment(o.data)
    case Bad => None
    case Good(h, body, rest) =>
      if h.fragOff == 0 && h.fragLen == h.msgLen && rest == [] then Some(Message(h.kind, h.sequence, body)) else None
  }

  predicate WellFormed(flight: seq<Outgoing>) {
    forall k :: 0 <= k < |flight| ==> flight[k].isCcs || Whole(flight[k]).Some?
  }

  datatype Pos = Pos(written: nat, offset: nat)

  const START := Pos(0, 0)

  /** Bytes of the body of message k; ChangeCipherSpec has none. */
  function BodyAt(flight: seq<Outgoing>, k: nat): seq<byte>
    requires WellFormed(flight) && k < |flight|
  {
    if flight[k].isCcs then [] else Whole(flight[k]).value.body
  }

  /** Positions seal_next_packet stops at: never in the middle of nothing. */
  predicate At(flight: seq<Outgoing>, p: Pos)
    requires WellFormed(flight)
  {
    && p.written <= |flight|
    && (p.written == |flight| ==> p.offset == 0)
    && (p.written < |flight| ==> p.offset == 0 || p.offset < |BodyAt(flight, p.written)|)
  }

  datatype Record = Record(isCcs: bool, epoch: nat, payload: seq<byte>, length: nat)

  /** The fragment of message k from `off` on with n bytes. */
  function Fragment(m: Message, off: nat, n: nat): seq<byte>
    requires Sendable(m) && off + n <= |m.body|
  {
    HeaderBytes(Header(m.kind, |m.body|, m.sequence, off, n)) + m.body[off..off + n]
  }

  /** How many body bytes a handshake record carries. */
  function Carried(r: Record): int {
    |r.payload| - HEADER_LENGTH
  }

  /** The record continues the flight at p. */
  predicate Continues(flight: seq<Outgoing>, p: Pos, r: Record)
    requires WellFormed(flight) && At(flight, p)
  {
    && p.written < |flight|
    && r.isCcs == flight[p.written].isCcs
    && r.epoch == flight[p.written].epoch
    && if r.isCcs then r.payload == [1]
       else
         var m := Whole(flight[p.written]).value;
         var left := |m.body| - p.offset;
         && 0 <= Carried(r) <= left
         && (Carried(r) > 0 || left == 0)
         && r.payload == Fragment(m, p.offset, Carried(r))
  }

  function After(flight: seq<Outgoing>, p: Pos, r: Record): (q: Pos)
    requires WellFormed(flight) && At(flight, p) && Continues(flight, p, r)
    ensures At(flight, q)
  {
    if r.isCcs || p.offset + Carried(r) == |BodyAt(flight, p.written)| then Pos(p.written + 1, 0)
    else Pos(p.written, p.offset + Carried(r))
  }

  /** The records lead through the flight from p to q. */
  predicate Path(flight: seq<Outgoing>, p: Pos, rs: seq<Record>, q: Pos)
    requires WellFormed(flight) && At(flight, p)
    decreases |rs|
  {
    if rs == [] then p == q
    else Continues(flight, p, rs[0]) && Path(flight, After(flight, p, rs[0]), rs[1..], q)
  }

  lemma {:induction false} PathAt(flight: seq<Outgoing>, p: Pos, rs: seq<Record>, q: Pos)
    requires WellFormed(flight) && At(flight, p) && Path(flight, p, rs, q)
    ensures At(flight, q)
    decreases |rs|
  {
    if rs != [] {
      PathAt(flight, After(flight, p, rs[0]), rs[1..], q);
    }
  }

  lemma {:induction false} PathThen(flight: seq<Outgoing>, p: Pos, rs: seq<Record>, q: Pos, more: seq<Record>, z: Pos)
    requires WellFormed(flight) && At(flight, p) && Path(flight, p, rs, q)
    requires At(flight, q) && Path(flight, q, more, z)
    ensures Path(flight, p, rs + more, z)
    decreases |rs|
  {
    if rs == [] {
      assert rs + more == more;
    } else {
      hide Continues, At, After, WellFormed;
      assert (rs + more)[0] == rs[0] && (rs + more)[1..] == rs[1..] + more;
      PathThen(flight, After(flight, p, rs[0]), rs[1..], q, more, z);
    }
  }

  /** What is left to write: whole messages, then bytes of the current one. */
  function MessagesLeft(flight: seq<Outgoing>, p: Pos): int {
    |flight| - p.written
  }

  function BytesLeft(flight: seq<Outgoing>, p: Pos): int
    requires WellFormed(flight) && At(flight, p)
  {
    if p.written < |flight| then |BodyAt(flight, p.written)| - p.offset else 0
  }

  /** As many records as the rest can take at most: one a byte, and one a
      message. */
  function RecordsLeft(flight: seq<Outgoing>, p: Pos): int
    requires WellFormed(flight) && At(flight, p)
    decreases |flight| - p.written
  {
    if p.written == |flight| then 0
    else |BodyAt(flight, p.written)| + 1 - p.offset + RecordsLeft(flight, Pos(p.written + 1, 0))
  }

  /** Every record takes at least one of them. */
  lemma RecordTakesOne(flight: seq<Outgoing>, p: Pos, r: Record)
    requires WellFormed(flight) && At(flight, p) && Continues(flight, p, r)
    ensures RecordsLeft(flight, After(flight, p, r)) + 1 <= RecordsLeft(flight, p)
  {
    hide WellFormed, Whole, HeaderBytes;
  }

  lemma {:induction false} RecordsLeftPositive(flight: seq<Outgoing>, p: Pos)
    requires WellFormed(flight) && At(flight, p)
    ensures RecordsLeft(flight, p) >= |flight| - p.written
    decreases |flight| - p.written
  {
    if p.written < |flight| {
      RecordsLeftPositive(flight, Pos(p.written + 1, 0));
    }
  }

  lemma {:induction false} PathTakes(flight: seq<Outgoing>, p: Pos, rs: seq<Record>, q: Pos)
    requires WellFormed(flight) && At(flight, p) && Path(flight, p, rs, q)
    ensures At(flight, q) && RecordsLeft(flight, q) + |rs| <= RecordsLeft(flight, p)
    decreases |rs|
  {
    hide WellFormed, Whole, Continues, After, At, RecordsLeft;
    if rs != [] {
      RecordTakesOne(flight, p, rs[0]);
      PathTakes(flight, After(flight, p, rs[0]), rs[1..], q);
    }
  }

  predicate Less(flight: seq<Outgoing>, q: Pos, p: Pos)
    requires WellFormed(flight) && At(flight, p) && At(flight, q)
  {
    || MessagesLeft(flight, q) < MessagesLeft(flight, p)
    || (MessagesLeft(flight, q) == MessagesLeft(flight, p) && BytesLeft(flight, q) < BytesLeft(flight, p))
  }

  /** Every nonempty packet makes progress. */
  lemma {:induction false} PathProgress(flight: seq<Outgoing>, p: Pos, rs: seq<Record>, q: Pos)
    requires WellFormed(flight) && At(flight, p) && Path(flight, p, rs, q)
    ensures At(flight, q) && 0 <= MessagesLeft(flight, q) && 0 <= BytesLeft(flight, q)
    ensures if rs == [] then p == q else Less(flight, q, p)
    decreases |rs|
  {
    if rs != [] {
      PathProgress(flight, After(flight, p, rs[0]), rs[1..], q);
    }
  }

  // ----- the fragments of a message partition its body -----

  /** The body bytes that the records on the path carry for message k. */
  function CarriedFor(flight: seq<Outgoing>, p: Pos, rs: seq<Record>, q: Pos, k: nat): seq<byte>
    requires WellFormed(flight) && At(flight, p) && Path(flight, p, rs, q)
    decreases |rs|
  {
    if rs == [] then []
    else
      (if p.written == k && !rs[0].isCcs then rs[0].payload[HEADER_LENGTH..] else [])
      + CarriedFor(flight, After(flight, p, rs[0]), rs[1..], q, k)
  }

  /** How many records on the path belong to message k. */
  function CountFor(flight: seq<Outgoing>, p: Pos, rs: seq<Record>, q: Pos, k: nat): nat
    requires WellFormed(flight) && At(flight, p) && Path(flight, p, rs, q)
    decreases |rs|
  {
    if rs == [] then 0
    else (if p.written == k then 1 else 0) + CountFor(flight, After(flight, p, rs[0]), rs[1..], q, k)
  }

  /** How much of message k is written at p. */
  function WrittenOf(flight: seq<Outgoing>, p: Pos, k: nat): (n: nat)
    requires WellFormed(flight) && At(flight, p) && k < |flight|
    ensures n <= |BodyAt(flight, k)|
  {
    if k < p.written then |BodyAt(flight, k)| else if k == p.written then p.offset else 0
  }

  /** What one record carries for message k is the next slice of its body. */
  lemma StepCarries(flight: seq<Outgoing>, p: Pos, r: Record, k: nat)
    requires WellFormed(flight) && At(flight, p) && Continues(flight, p, r) && k < |flight|
    ensures WrittenOf(flight, p, k) <= WrittenOf(flight, After(flight, p, r), k)
    ensures (if p.written == k && !r.isCcs then r.payload[HEADER_LENGTH..] else [])
         == BodyAt(flight, k)[WrittenOf(flight, p, k)..WrittenOf(flight, After(flight, p, r), k)]
  {
    hide WellFormed, Whole, HeaderBytes;
  }

  lemma SlicesJoin(body: seq<byte>, a: nat, b: nat, c: nat)
    requires a <= b <= c <= |body|
    ensures body[a..b] + body[b..c] == body[a..c]
  {
  }

  /** Consecutive slices of the body, from where p stands to where q does. */
  lemma {:induction false} FragmentsPartition(flight: seq<Outgoing>, p: Pos, rs: seq<Record>, q: Pos, k: nat)
    requires WellFormed(flight) && At(flight, p) && Path(flight, p, rs, q) && k < |flight|
    ensures At(flight, q) && WrittenOf(flight, p, k) <= WrittenOf(flight, q, k)
    ensures CarriedFor(flight, p, rs, q, k)
         == BodyAt(flight, k)[WrittenOf(flight, p, k)..WrittenOf(flight, q, k)]
    decreases |rs|
  {
    hide WellFormed, At, Continues, After, BodyAt, WrittenOf;
    if rs != [] {
      var mid := After(flight, p, rs[0]);
      FragmentsPartition(flight, mid, rs[1..], q, k);
      StepCarries(flight, p, rs[0], k);
      SlicesJoin(BodyAt(flight, k), WrittenOf(flight, p, k), WrittenOf(flight, mid, k), WrittenOf(flight, q, k));
    }
  }

  /** A whole flight carries every message body exactly once and gives each
      message a record, and an empty one only one. */
  lemma WholeFlight(flight: seq<Outgoing>, rs: seq<Record>, k: nat)
    requires WellFormed(flight) && Path(flight, START, rs, Pos(|flight|, 0)) && k < |flight|
    ensures CarriedFor(flight, START, rs, Pos(|flight|, 0), k) == BodyAt(flight, k)
    ensures CountFor(flight, START, rs, Pos(|flight|, 0), k) >= 1
    ensures BodyAt(flight, k) == [] ==> CountFor(flight, START, rs, Pos(|flight|, 0), k) == 1
  {
    FragmentsPartition(flight, START, rs, Pos(|flight|, 0), k);
    CountIs(flight, START, rs, Pos(|flight|, 0), k);
  }

  lemma {:induction false} CountIs(flight: seq<Outgoing>, p: Pos, rs: seq<Record>, q: Pos, k: nat)
    requires WellFormed(flight) && At(flight, p) && Path(flight, p, rs, q) && k < |flight|
    ensures p.written <= k < q.written ==> CountFor(flight, p, rs, q, k) >= 1
    ensures k < p.written || q.written < k ==> CountFor(flight, p, rs, q, k) == 0
    ensures BodyAt(flight, k) == [] && p.written <= k < q.written ==> CountFor(flight, p, rs, q, k) == 1
    decreases |rs|
  {
    hide WellFormed, Whole, HeaderBytes;
    PathProgress(flight, p, rs, q);
    if rs != [] {
      CountIs(flight, After(flight, p, rs[0]), rs[1..], q, k);
    }
  }

  // ----- the message before cutting -----

  /** What init_message and finish_message build parses back whole. */
  lemma RawIsWhole(m: Message, epoch: nat)
    requires Sendable(m)
    ensures Whole(Outgoing(RawBytes(m), epoch, false)) == Some(m)
  {
    hide HeaderBytes, ParseFragment;
    assert RawBytes(m) == HeaderBytes(WholeHeader(m)) + m.body + [];
    FragmentRoundTrip(WholeHeader(m), m.body, []);
  }
}
