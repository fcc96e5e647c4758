/** What the receiving side of d1_both.cc does, on values: a ring of seven
    partly reassembled messages in front of the next one to deliver. */
module DtlsReceive {
  import opened Prelude
  import opened DtlsMessage

  /** SSL_MAX_HANDSHAKE_FLIGHT. */
  const FLIGHT: nat := 7

  /** Record types. */
  const CHANGE_CIPHER_SPEC: byte := 20
  const HANDSHAKE: byte := 22
  const APPLICATION_DATA: byte := 23

  /** SSL3_MT_FINISHED */
  const FINISHED: byte := 20

  datatype Alert = UnexpectedMessage | IllegalParameter | DecodeError | InternalError

  /** hm_fragment: the bytes of the body received so far. */
  datatype Partial = Partial(kind: byte, sequence: nat, msgLen: nat, body: map<nat, byte>)

  predicate IsIndex(i: int) {
    0 <= i
  }

  function Positions(from: nat, to: nat): set<nat> {
    set i: nat | from <= i < to && IsIndex(i)
  }

  predicate Complete(p: Partial) {
    p.body.Keys == Positions(0, p.msgLen)
  }

  /** The receiving part of DTLS1_STATE. */
  datatype Rx = Rx(readSeq: nat, epoch: nat, slots: seq<Option<Partial>>)

  /** Each occupied slot holds a message of the window, at its own index. */
  predicate RingInv(rx: Rx) {
    && |rx.slots| == FLIGHT
    && rx.readSeq < 0x1_0000
    && forall i :: 0 <= i < FLIGHT && rx.slots[i].Some? ==>
         var p := rx.slots[i].value;
         && rx.readSeq <= p.sequence < rx.readSeq + FLIGHT
         && p.sequence < 0x1_0000 && p.msgLen < TWO24
         && p.sequence % FLIGHT == i
         && p.body.Keys <= Positions(0, p.msgLen)
  }

  lemma RingLength(rx: Rx)
    requires RingInv(rx)
    ensures |rx.slots| == FLIGHT
  {
  }

  /** bytes `body` laid down from `off` on. */
  function Placed(off: nat, body: seq<byte>): map<nat, byte> {
    map i: nat | off <= i < off + |body| && IsIndex(i) :: body[i - off]
  }

  datatype Verdict = Next(rx: Rx) | Refuse(alert: Alert)

  /** The message of the window that a fragment belongs to, new or old
      (dtls1_get_incoming_message). */
  function Incoming(rx: Rx, h: Header): (r: Option<Partial>)
    requires RingInv(rx) && rx.readSeq <= h.sequence < rx.readSeq + FLIGHT
    ensures r.Some? ==> r.value.kind == h.kind && r.value.msgLen == h.msgLen && r.value.sequence == h.sequence
  {
    match rx.slots[h.sequence % FLIGHT]
    case None => Some(Partial(h.kind, h.sequence, h.msgLen, map[]))
    case Some(p) =>
      // The slot's message is this one, not one seven further on.
      assert p.sequence == h.sequence;
      if p.kind != h.kind || p.msgLen != h.msgLen then None else Some(p)
  }

  /** One turn of the fragment loop of dtls1_open_handshake. */
  function Accept(rx: Rx, h: Header, body: seq<byte>, maxLen: nat): (v: Verdict)
    requires RingInv(rx) && Fits(h) && |body| == h.fragLen
    ensures v.Next? ==> RingInv(v.rx) && v.rx.readSeq == rx.readSeq && v.rx.epoch == rx.epoch
  {
    if h.fragOff > h.msgLen || h.fragOff + h.fragLen > h.msgLen || h.msgLen > maxLen then Refuse(IllegalParameter)
    else if rx.epoch == 1 && h.sequence != rx.readSeq then Refuse(UnexpectedMessage)
    else if h.sequence < rx.readSeq || h.sequence > rx.readSeq + FLIGHT then Next(rx)
    else if h.sequence - rx.readSeq >= FLIGHT then Refuse(InternalError)
    else
      match Incoming(rx, h)
      case None => Refuse(IllegalParameter)
      case Some(p) =>
        var p' := if Complete(p) then p else p.(body := p.body + Placed(h.fragOff, body));
        Next(rx.(slots := rx.slots[h.sequence % FLIGHT := Some(p')]))
  }

  /** State after a record, and the alert that ended it, if any. */
  datatype Received = Received(rx: Rx, alert: Option<Alert>)

  /** The fragment loop over a whole handshake record. */
  function Receive(rx: Rx, record: seq<byte>, maxLen: nat): (r: Received)
    requires RingInv(rx)
    ensures RingInv(r.rx) && r.rx.readSeq == rx.readSeq && r.rx.epoch == rx.epoch
    decreases |record|
  {
    if record == [] then Received(rx, None)
    else
      match ParseFragment(record)
      case Bad => Received(rx, Some(DecodeError))
      case Good(h, body, rest) =>
        match Accept(rx, h, body, maxLen)
        case Refuse(alert) => Received(rx, Some(alert))
        case Next(rx') => Receive(rx', rest, maxLen)
  }

  lemma ParseLocal(s: seq<byte>, t: seq<byte>)
    requires ParseFragment(s).Good?
    ensures
      var p := ParseFragment(s);
      ParseFragment(s + t) == Good(p.header, p.body, p.rest + t)
  {
    var p := ParseFragment(s);
    var n := HEADER_LENGTH + p.header.fragLen;
    assert (s + t)[1..4] == s[1..4] && (s + t)[4..6] == s[4..6];
    assert (s + t)[6..9] == s[6..9] && (s + t)[9..12] == s[9..12];
    assert (s + t)[HEADER_LENGTH..n] == s[HEADER_LENGTH..n] && (s + t)[n..] == s[n..] + t;
  }

  /** A record is read to its end, fragment by fragment: what follows fragments
      that raise no alert is read as a record of its own. */
  lemma {:induction false} ReceiveConcat(rx: Rx, a: seq<byte>, b: seq<byte>, maxLen: nat)
    requires RingInv(rx) && Receive(rx, a, maxLen).alert.None?
    ensures Receive(rx, a + b, maxLen) == Receive(Receive(rx, a, maxLen).rx, b, maxLen)
    decreases |a|
  {
    hide RingInv, Accept, ParseFragment;
    if a == [] {
      assert a + b == b;
    } else {
      var p := ParseFragment(a);
      ParseLocal(a, b);
      ReceiveConcat(Accept(rx, p.header, p.body, maxLen).rx, p.rest, b, maxLen);
    }
  }

  /** Stray bytes at the end of a record, too few for a header, are an error. */
  lemma StrayBytes(rx: Rx, a: seq<byte>, b: seq<byte>, maxLen: nat)
    requires RingInv(rx) && Receive(rx, a, maxLen).alert.None? && 0 < |b| < HEADER_LENGTH
    ensures Receive(rx, a + b, maxLen) == Received(Receive(rx, a, maxLen).rx, Some(DecodeError))
  {
    ReceiveConcat(rx, a, b, maxLen);
  }

  function BodyOf(p: Partial): (s: seq<byte>)
    requires Complete(p)
    ensures |s| == p.msgLen && forall i :: 0 <= i < p.msgLen ==> s[i] == p.body[i]
  {
    seq(p.msgLen, i requires 0 <= i < p.msgLen => assert i in Positions(0, p.msgLen); p.body[i])
  }

  /** dtls1_get_message: the current message, once all of it is there. */
  function Current(rx: Rx): (r: Option<Message>)
    requires RingInv(rx)
    ensures r.Some? ==> Sendable(r.value) && r.value.sequence % FLIGHT == rx.readSeq % FLIGHT
  {
    match rx.slots[rx.readSeq % FLIGHT]
    case None => None
    case Some(p) => if Complete(p) then Some(Message(p.kind, p.sequence, BodyOf(p))) else None
  }

  /** dtls1_next_message. The 16-bit sequence number wraps. */
  function Advance(rx: Rx): (rx': Rx)
    requires RingInv(rx) && Current(rx).Some?
    ensures RingInv(rx')
  {
    rx.(slots := rx.slots[rx.readSeq % FLIGHT := None], readSeq := (rx.readSeq + 1) % 0x1_0000)
  }

  datatype AppOutcome = Data(bytes: seq<byte>) | Dropped(retransmit: bool) | AppFailed(alert: Option<Alert>)

  /** dtls1_open_app_data, which reads once the handshake is over: a Finished
      that comes again asks for our last flight, unless that was sent too often. */
  function OpenAppData(readSeq: nat, kind: byte, payload: seq<byte>, sendsLeft: bool): AppOutcome {
    if kind == HANDSHAKE then
      match ParseFragment(payload)
      case Bad => AppFailed(Some(DecodeError))
      case Good(h, _, _) =>
        if h.kind == FINISHED && h.sequence == readSeq - 1 then
          if h.fragOff == 0 then (if sendsLeft then Dropped(true) else AppFailed(None)) else Dropped(false)
        else AppFailed(Some(UnexpectedMessage))
    else if kind != APPLICATION_DATA then AppFailed(Some(UnexpectedMessage))
    else if payload == [] then Dropped(false)
    else Data(payload)
  }

  /** What is read once the handshake is over: data, and the other side's
      Finished, whose first fragment, and no other, asks for our last flight. */
  lemma OpenAppDataExactly(readSeq: nat, kind: byte, payload: seq<byte>, sendsLeft: bool)
    ensures
      var o := OpenAppData(readSeq, kind, payload, sendsLeft);
      var again := kind == 22 && ParseFragment(payload).Good?
                   && ParseFragment(payload).header.kind == 20
                   && ParseFragment(payload).header.sequence + 1 == readSeq;
      var first := again && ParseFragment(payload).header.fragOff == 0;
      && (o == Dropped(true) <==> first && sendsLeft)
      && (o == AppFailed(None) <==> first && !sendsLeft)
      && (o == Dropped(false) <==> (again && !first) || (kind == 23 && payload == []))
      && (o.Data? <==> kind == 23 && payload != [])
      && (o.Data? ==> o.bytes == payload)
      && (o.AppFailed? && o.alert.Some? ==>
            o.alert.value == if kind == 22 && ParseFragment(payload).Bad? then DecodeError else UnexpectedMessage)
  {
    hide ParseFragment;
  }

  lemma CurrentIsNext(rx: Rx)
    requires RingInv(rx) && Current(rx).Some?
    ensures Current(rx).value.sequence == rx.readSeq
  {
  }

  /** A fragment is refused as an internal error exactly when it is the one
      just past the window: the loop lets it through, the ring does not. */
  lemma RefusedAtWindowEnd(rx: Rx, h: Header, body: seq<byte>, maxLen: nat)
    requires RingInv(rx) && Fits(h) && |body| == h.fragLen
    ensures
      Accept(rx, h, body, maxLen) == Refuse(InternalError) <==>
        h.sequence == rx.readSeq + FLIGHT && rx.epoch != 1 && h.fragOff + h.fragLen <= h.msgLen <= maxLen
  {
  }

  // ----- any fragment, from anyone -----

  /** The header makes no sense by itself: the fragment is not within its
      message, or that is longer than allowed. */
  predicate Senseless(h: Header, maxLen: nat) {
    h.fragOff + h.fragLen > h.msgLen || h.msgLen > maxLen
  }

  /** The message is one of the seven from the next one on, and may be read. */
  predicate InWindow(rx: Rx, h: Header) {
    if rx.epoch == 1 then h.sequence == rx.readSeq else rx.readSeq <= h.sequence <= rx.readSeq + 6
  }

  /** Its fragments so far were of another message. */
  predicate Mismatched(rx: Rx, h: Header)
    requires RingInv(rx)
  {
    var there := rx.slots[h.sequence % 7];
    there.Some? && (there.value.kind != h.kind || there.value.msgLen != h.msgLen)
  }

  /** Which fragments are refused, and how; all others of the window join their
      message, and the rest is ignored. */
  lemma AcceptExactly(rx: Rx, h: Header, body: seq<byte>, maxLen: nat)
    requires RingInv(rx) && Fits(h) && |body| == h.fragLen
    ensures
      var v := Accept(rx, h, body, maxLen);
      && (v.Refuse? <==>
            || Senseless(h, maxLen)
            || (rx.epoch == 1 && h.sequence != rx.readSeq)
            || (rx.epoch != 1 && h.sequence == rx.readSeq + 7)
            || (InWindow(rx, h) && Mismatched(rx, h)))
      && (v.Refuse? ==>
            v.alert == if Senseless(h, maxLen) || (InWindow(rx, h) && Mismatched(rx, h)) then IllegalParameter
                       else if rx.epoch == 1 then UnexpectedMessage
                       else InternalError)
      && (v.Next? && !InWindow(rx, h) ==> v.rx == rx)
  {
  }

  /** What joining its message means: the header is noted, the bytes carried are
      there, those there before stay where none are carried, a complete message
      is left alone, and so is every other one. */
  lemma AcceptJoins(rx: Rx, h: Header, body: seq<byte>, maxLen: nat)
    requires RingInv(rx) && Fits(h) && |body| == h.fragLen && InWindow(rx, h)
    requires Accept(rx, h, body, maxLen).Next?
    ensures
      var i, after := h.sequence % 7, Accept(rx, h, body, maxLen).rx;
      && after.slots[i].Some?
      && (forall j :: 0 <= j < 7 && j != i ==> after.slots[j] == rx.slots[j])
      && var before, p := rx.slots[i], after.slots[i].value;
         && p.kind == h.kind && p.sequence == h.sequence && p.msgLen == h.msgLen
         && (before.Some? && Complete(before.value) ==> p == before.value)
         && forall n: nat {:trigger n in p.body.Keys} ::
              var held := before.Some? && n in before.value.body.Keys;
              && (n in p.body.Keys <==> held || h.fragOff <= n < h.fragOff + h.fragLen)
              && (h.fragOff <= n < h.fragOff + h.fragLen && !(before.Some? && Complete(before.value)) ==>
                    p.body[n] == body[n - h.fragOff])
              && (held && !(h.fragOff <= n < h.fragOff + h.fragLen) ==> p.body[n] == before.value.body[n])
  {
  }

  /** Nothing that was received is lost: the message of a slot stays, with its
      bytes, and a complete one as it is. */
  predicate Keeps(before: Option<Partial>, after: Option<Partial>) {
    before.Some? ==>
      && after.Some? && after.value.kind == before.value.kind && after.value.sequence == before.value.sequence
      && after.value.msgLen == before.value.msgLen && before.value.body.Keys <= after.value.body.Keys
      && (Complete(before.value) ==> after == before)
  }

  /** Whatever a record is, good or bad. */
  lemma {:induction false} ReceiveKeeps(rx: Rx, record: seq<byte>, maxLen: nat, i: nat)
    requires RingInv(rx) && i < 7
    ensures Keeps(rx.slots[i], Receive(rx, record, maxLen).rx.slots[i])
    decreases |record|
  {
    hide ParseFragment;
    if record != [] && ParseFragment(record).Good? {
      var p := ParseFragment(record);
      var v := Accept(rx, p.header, p.body, maxLen);
      if v.Next? {
        AcceptKeeps(rx, p.header, p.body, maxLen, i);
        hide RingInv, Accept, Complete;
        ReceiveKeeps(v.rx, p.rest, maxLen, i);
      }
    }
  }

  lemma AcceptKeeps(rx: Rx, h: Header, body: seq<byte>, maxLen: nat, i: nat)
    requires RingInv(rx) && Fits(h) && |body| == h.fragLen && i < 7
    requires Accept(rx, h, body, maxLen).Next?
    ensures Keeps(rx.slots[i], Accept(rx, h, body, maxLen).rx.slots[i])
  {
    AcceptExactly(rx, h, body, maxLen);
    if InWindow(rx, h) {
      AcceptJoins(rx, h, body, maxLen);
    }
  }
}
