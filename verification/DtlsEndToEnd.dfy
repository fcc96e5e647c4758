/** Sender, network and receiver together (RFC 6347 sections 4.2.3 and 4.2.6).
    The network may lose, repeat, delay and reorder records; the sender may cut
    the flight anew at any time; the reader may change keys within the flight. */
module DtlsEndToEnd {
  import opened Prelude
  import opened DtlsMessage
  import opened DtlsReceive
  import opened DtlsFlight

  /** Messages of one flight, numbered from the receiver's next one on. */
  predicate Numbered(ms: seq<Message>, base: nat) {
    && base + |ms| < 0x1_0000
    && forall k :: 0 <= k < |ms| ==> Sendable(ms[k]) && ms[k].sequence == base + k
  }

  // ----- the sender emits honest records -----

  /** The flight queues these messages, and possibly ChangeCipherSpecs. */
  ghost predicate Queues(flight: seq<Outgoing>, ms: seq<Message>) {
    && WellFormed(flight)
    && forall i :: 0 <= i < |flight| && !flight[i].isCcs ==> Whole(flight[i]).value in ms
  }

  /** A record as the network carries it: the epoch it was sealed in, and
      whether it is a ChangeCipherSpec. */
  datatype Packet = Packet(epoch: nat, isCcs: bool, payload: seq<byte>)

  function PacketOf(r: Record): Packet {
    Packet(r.epoch, r.isCcs, r.payload)
  }

  /** Part of the message in one entry of the flight. */
  datatype Part = Part(entry: nat, off: nat, n: nat)

  predicate IsPart(flight: seq<Outgoing>, epoch: nat, x: Part)
    requires WellFormed(flight)
  {
    && x.entry < |flight| && !flight[x.entry].isCcs && flight[x.entry].epoch == epoch
    && x.off + x.n <= |BodyAt(flight, x.entry)|
  }

  predicate AreParts(flight: seq<Outgoing>, epoch: nat, xs: seq<Part>)
    requires WellFormed(flight)
  {
    forall i :: 0 <= i < |xs| ==> IsPart(flight, epoch, xs[i])
  }

  /** The fragments, one after the other. */
  function Fragments(flight: seq<Outgoing>, epoch: nat, xs: seq<Part>): seq<byte>
    requires WellFormed(flight) && AreParts(flight, epoch, xs)
  {
    if xs == [] then []
    else
      assert IsPart(flight, epoch, xs[0]);
      Fragment(Whole(flight[xs[0].entry]).value, xs[0].off, xs[0].n) + Fragments(flight, epoch, xs[1..])
  }

  predicate Holds(flight: seq<Outgoing>, p: Packet, xs: seq<Part>)
    requires WellFormed(flight)
  {
    xs != [] && AreParts(flight, p.epoch, xs) && p.payload == Fragments(flight, p.epoch, xs)
  }

  /** A record of the flight: a ChangeCipherSpec, or one or more fragments of
      messages of its epoch (this code sends one a record, others more). */
  ghost predicate Honest(flight: seq<Outgoing>, p: Packet)
    requires WellFormed(flight)
  {
    if p.isCcs then p.payload == [1] && exists i :: 0 <= i < |flight| && flight[i].isCcs && flight[i].epoch == p.epoch
    else exists xs :: Holds(flight, p, xs)
  }

  lemma OnePart(flight: seq<Outgoing>, epoch: nat, x: Part)
    requires WellFormed(flight) && IsPart(flight, epoch, x)
    ensures AreParts(flight, epoch, [x])
    ensures Fragments(flight, epoch, [x]) == Fragment(Whole(flight[x.entry]).value, x.off, x.n)
  {
    hide Whole, Fragment;
    var one := Fragment(Whole(flight[x.entry]).value, x.off, x.n);
    assert [x][1..] == [] && one + [] == one;
  }

  lemma {:induction false} PathIsHonest(flight: seq<Outgoing>, p: Pos, rs: seq<Record>, q: Pos, j: nat)
    requires WellFormed(flight) && At(flight, p) && Path(flight, p, rs, q) && j < |rs|
    ensures Honest(flight, PacketOf(rs[j]))
    decreases |rs|
  {
    hide WellFormed, Whole, At, HeaderBytes, Sendable;
    if j == 0 {
      if !rs[0].isCcs {
        var x := Part(p.written, p.offset, Carried(rs[0]));
        OnePart(flight, rs[0].epoch, x);
        assert Holds(flight, PacketOf(rs[0]), [x]);
      }
    } else {
      PathIsHonest(flight, After(flight, p, rs[0]), rs[1..], q, j - 1);
    }
  }

  predicate CarriesAt(flight: seq<Outgoing>, m: Message, epoch: nat, f: nat) {
    f < |flight| && !flight[f].isCcs && flight[f].epoch == epoch && Whole(flight[f]) == Some(m)
  }

  /** The message is queued in the flight, under this epoch. */
  ghost predicate QueuedIn(flight: seq<Outgoing>, m: Message, epoch: nat) {
    exists f: nat :: CarriesAt(flight, m, epoch, f)
  }

  /** Each part of it is of a message of its epoch. */
  lemma PartIsOfMessage(flight: seq<Outgoing>, ms: seq<Message>, epoch: nat, x: Part) returns (k: nat)
    requires Queues(flight, ms) && IsPart(flight, epoch, x)
    ensures k < |ms| && Whole(flight[x.entry]) == Some(ms[k]) && x.off + x.n <= |ms[k].body|
    ensures QueuedIn(flight, ms[k], epoch)
  {
    var m := Whole(flight[x.entry]).value;
    k :| k < |ms| && ms[k] == m;
    assert CarriesAt(flight, m, epoch, x.entry);
  }

  // ----- the receiver -----

  /** What the receiver holds of message k agrees with it. */
  predicate AgreesWith(p: Partial, m: Message) {
    && p.kind == m.kind && p.msgLen == |m.body|
    && forall i :: i in p.body ==> i < |m.body| && p.body[i] == m.body[i]
  }

  /** Every slot holds part of the message with its number. */
  predicate Faithful(rx: Rx, ms: seq<Message>, base: nat)
    requires RingInv(rx)
  {
    && base <= rx.readSeq <= base + |ms|
    && forall i :: 0 <= i < FLIGHT && rx.slots[i].Some? ==>
         var p := rx.slots[i].value;
         p.sequence < base + |ms| && AgreesWith(p, ms[p.sequence - base])
  }

  function FragmentHeader(m: Message, off: nat, n: nat): Header {
    Header(m.kind, |m.body|, m.sequence, off, n)
  }

  lemma {:induction false} PartParses(m: Message, off: nat, n: nat, rest: seq<byte>)
    requires Sendable(m) && off + n <= |m.body|
    ensures ParseFragment(Fragment(m, off, n) + rest)
              == Parse.Good(FragmentHeader(m, off, n), m.body[off..off + n], rest)
    ensures Fragment(m, off, n) + rest != []
  {
    hide HeaderBytes, ParseFragment;
    var h := FragmentHeader(m, off, n);
    FragmentRoundTrip(h, m.body[off..off + n], rest);
  }

  /** The receiver's loop, one fragment further. */
  lemma {:induction false} ReceivePart(rx: Rx, m: Message, off: nat, n: nat, rest: seq<byte>, maxLen: nat)
    requires RingInv(rx) && Sendable(m) && off + n <= |m.body|
    ensures
      var v := Accept(rx, FragmentHeader(m, off, n), m.body[off..off + n], maxLen);
      Receive(rx, Fragment(m, off, n) + rest, maxLen)
      == if v.Refuse? then Received(rx, Some(v.alert)) else Receive(v.rx, rest, maxLen)
  {
    hide Fragment, Accept, ParseFragment, RingInv;
    PartParses(m, off, n, rest);
  }

  /** The record starts with a fragment of the message of this number. */
  predicate IsFor(record: seq<byte>, next: int) {
    var parse := ParseFragment(record);
    parse.Good? && parse.header.sequence == next
  }

  /** All its fragments are. */
  predicate AllFor(record: seq<byte>, next: int)
    decreases |record|
  {
    record == [] || (IsFor(record, next) && AllFor(ParseFragment(record).rest, next))
  }

  /** As long as the flight fits the window an honest fragment keeps the ring
      faithful, and it is refused exactly if the reader is in epoch 1 and
      expects another message. */
  lemma {:induction false} AcceptKeepsFaithful(
      rx: Rx, ms: seq<Message>, base: nat, k: nat, off: nat, n: nat, maxLen: nat)
    requires RingInv(rx) && Numbered(ms, base) && Faithful(rx, ms, base) && |ms| <= FLIGHT
    requires k < |ms| && off + n <= |ms[k].body| <= maxLen
    ensures
      var v := Accept(rx, FragmentHeader(ms[k], off, n), ms[k].body[off..off + n], maxLen);
      && (v.Next? ==> Faithful(v.rx, ms, base))
      && (v.Refuse? <==> rx.epoch == 1 && ms[k].sequence != rx.readSeq)
  {
    var m := ms[k];
    var h := FragmentHeader(m, off, n);
    var body := m.body[off..off + n];
    if h.sequence >= rx.readSeq {
      IncomingAgrees(rx, ms, base, k, h);
      var p := Incoming(rx, h).value;
      assert forall i :: i in Placed(off, body) ==> i < |m.body| && Placed(off, body)[i] == m.body[i];
    }
  }

  lemma IncomingAgrees(rx: Rx, ms: seq<Message>, base: nat, k: nat, h: Header)
    requires RingInv(rx) && Numbered(ms, base) && Faithful(rx, ms, base) && k < |ms|
    requires h.kind == ms[k].kind && h.msgLen == |ms[k].body| && h.sequence == ms[k].sequence
    requires rx.readSeq <= h.sequence < rx.readSeq + FLIGHT
    ensures Incoming(rx, h).Some? && AgreesWith(Incoming(rx, h).value, ms[k])
  {
  }

  /** Bytes from..to of message k have arrived. */
  predicate Has(rx: Rx, base: nat, k: nat, from: nat, to: nat)
    requires RingInv(rx)
  {
    var slot := rx.slots[(base + k) % FLIGHT];
    slot.Some? && slot.value.sequence == base + k && Positions(from, to) <= slot.value.body.Keys
  }

  /** The range lies in the fragment, or is empty. */
  predicate Within(from: nat, to: nat, off: nat, n: nat) {
    from >= to || (off <= from && to <= off + n)
  }

  /** What one honest fragment adds to the ring: its own bytes, if it is not
      refused or of the past; and what was there stays. */
  lemma AcceptAdds(
      rx: Rx, ms: seq<Message>, base: nat, k: nat, off: nat, n: nat, maxLen: nat, j: nat, from: nat, to: nat)
    requires RingInv(rx) && Numbered(ms, base) && Faithful(rx, ms, base)
    requires k < |ms| <= FLIGHT && off + n <= |ms[k].body| <= maxLen && j < |ms|
    ensures
      var v := Accept(rx, FragmentHeader(ms[k], off, n), ms[k].body[off..off + n], maxLen);
      v.Next? ==>
        && (Has(rx, base, j, from, to) ==> Has(v.rx, base, j, from, to))
        && (j == k && ms[k].sequence >= rx.readSeq && Within(from, to, off, n) ==> Has(v.rx, base, j, from, to))
  {
    var m := ms[k];
    if m.sequence >= rx.readSeq {
      IncomingAgrees(rx, ms, base, k, FragmentHeader(m, off, n));
      var p := Incoming(rx, FragmentHeader(m, off, n)).value;
      assert Complete(p) ==> Positions(off, off + n) <= p.body.Keys;
    }
  }

  /** And nothing else. */
  lemma AcceptAddsOnly(
      rx: Rx, ms: seq<Message>, base: nat, k: nat, off: nat, n: nat, maxLen: nat, j: nat, from: nat, to: nat)
    requires RingInv(rx) && Numbered(ms, base) && Faithful(rx, ms, base) && to <= from + 1
    requires k < |ms| <= FLIGHT && off + n <= |ms[k].body| <= maxLen && j < |ms|
    ensures
      var v := Accept(rx, FragmentHeader(ms[k], off, n), ms[k].body[off..off + n], maxLen);
      v.Next? && Has(v.rx, base, j, from, to) && !Has(rx, base, j, from, to) ==> j == k && Within(from, to, off, n)
  {
    var m := ms[k];
    var h := FragmentHeader(m, off, n);
    var v := Accept(rx, h, m.body[off..off + n], maxLen);
    if v.Next? && m.sequence >= rx.readSeq && j == k && from < to && Has(v.rx, base, j, from, to) {
      assert from in Positions(from, to) && forall i :: i in Positions(from, to) ==> i == from;
      IncomingAgrees(rx, ms, base, k, h);
      assert from !in Placed(off, m.body[off..off + n]) ==> from in Incoming(rx, h).value.body.Keys;
    }
  }

  // ----- whole runs -----

  /** Where everything stands: the sender's position, every record it ever put
      on the network, the receiver's ring, whether a ChangeCipherSpec is noted,
      what was handed to the handshake (header and all), and whether the
      receiver ever raised an alert. */
  datatype System =
    System(at: Pos, net: set<Packet>, rx: Rx, ccs: bool, delivered: seq<seq<byte>>, alerted: bool)

  /** Packets go out (a refused write is no event: it changes nothing), or in
      some other cut, several fragments a record; a retransmission starts over,
      the network delivers any record it ever saw,
      to the handshake or, once that is over, to the application's reads; the
      handshake takes a complete message, or reads with new keys. */
  datatype Event =
    | Send(rs: seq<Record>, to: Pos)
    | Pack(packet: Packet)
    | Rewind
    | Deliver(packet: Packet)
    | DeliverLate(packet: Packet)
    | Take
    | NewKeys

  predicate Sound(s: System, flight: seq<Outgoing>) {
    WellFormed(flight) && At(flight, s.at) && RingInv(s.rx)
  }

  function Packets(rs: seq<Record>): set<Packet> {
    set r | r in rs :: PacketOf(r)
  }

  predicate NothingKept(rx: Rx) {
    forall slot :: slot in rx.slots ==> slot == None
  }

  /** dtls1_set_read_state refuses to leave anything of the old epoch behind;
      the ChangeCipherSpec was read just before. */
  ghost predicate Enabled(s: System, flight: seq<Outgoing>, e: Event)
    requires Sound(s, flight)
  {
    match e
    case Send(rs, to) => Path(flight, s.at, rs, to)
    case Pack(packet) => Honest(flight, packet)
    case Rewind => true
    case Deliver(packet) => packet in s.net
    case DeliverLate(packet) => packet in s.net
    case Take => Current(s.rx).Some?
    case NewKeys => s.ccs && NothingKept(s.rx)
  }

  function NextEpoch(epoch: nat): nat {
    (epoch + 1) % 0x1_0000
  }

  /** dtls_open_record and dtls1_open_handshake: records of other epochs are
      dropped, and only epoch 0 has no cipher. */
  function Hear(s: System, p: Packet, maxLen: nat): (t: System)
    requires RingInv(s.rx)
    ensures RingInv(t.rx)
  {
    if p.epoch != s.rx.epoch then s
    else if !p.isCcs then
      var r := Receive(s.rx, p.payload, maxLen);
      s.(rx := r.rx, alerted := s.alerted || r.alert.Some?)
    else if s.rx.epoch == 0 && p.payload == [1] then s.(ccs := true)
    else s.(alerted := true)
  }

  /** dtls_open_record and dtls1_open_app_data. */
  function HearLate(s: System, p: Packet): System {
    if p.epoch != s.rx.epoch then s
    else
      var o := OpenAppData(s.rx.readSeq, if p.isCcs then CHANGE_CIPHER_SPEC else HANDSHAKE, p.payload, true);
      s.(alerted := s.alerted || (o.AppFailed? && o.alert.Some?))
  }

  ghost function Step(s: System, flight: seq<Outgoing>, maxLen: nat, e: Event): (t: System)
    requires Sound(s, flight) && Enabled(s, flight, e)
    ensures Sound(t, flight)
  {
    match e
    case Send(rs, to) =>
      PathAt(flight, s.at, rs, to);
      s.(at := to, net := s.net + Packets(rs))
    case Pack(packet) => s.(net := s.net + {packet})
    case Rewind => s.(at := START)
    case Deliver(packet) => Hear(s, packet, maxLen)
    case DeliverLate(packet) => HearLate(s, packet)
    case Take =>
      s.(delivered := s.delivered + [RawBytes(Current(s.rx).value)], rx := Advance(s.rx))
    case NewKeys => s.(ccs := false, rx := s.rx.(epoch := NextEpoch(s.rx.epoch)))
  }

  /** The events lead from s to t. */
  ghost predicate Reaches(s: System, flight: seq<Outgoing>, maxLen: nat, events: seq<Event>, t: System)
    requires Sound(s, flight)
    decreases |events|
  {
    if events == [] then s == t
    else Enabled(s, flight, events[0]) && Reaches(Step(s, flight, maxLen, events[0]), flight, maxLen, events[1..], t)
  }

  // ----- what can be told from the events alone -----

  /** The reader's epoch and the number it expects, as the run goes on. */
  function EpochAfter(epoch: nat, e: Event): nat {
    if e.NewKeys? then NextEpoch(epoch) else epoch
  }

  function NumberAfter(next: nat, e: Event): nat {
    if e.Take? then next + 1 else next
  }

  /** A packet that a reader at this epoch and number objects to: in epoch 1 a
      record with a fragment of any message but the one expected, and a
      ChangeCipherSpec once there is a cipher. */
  predicate Disturbs(epoch: nat, next: nat, p: Packet) {
    p.epoch == epoch && if p.isCcs then epoch != 0 else epoch == 1 && !AllFor(p.payload, next)
  }

  /** After the handshake: anything of this epoch but the message just taken,
      if that is a Finished. */
  predicate DisturbsLate(epoch: nat, next: nat, p: Packet) {
    p.epoch == epoch && (p.isCcs || !(IsFor(p.payload, next - 1) && ParseFragment(p.payload).header.kind == FINISHED))
  }

  predicate Objects(epoch: nat, next: nat, e: Event) {
    || (e.Deliver? && Disturbs(epoch, next, e.packet))
    || (e.DeliverLate? && DisturbsLate(epoch, next, e.packet))
  }

  predicate OutOfTurn(epoch: nat, next: nat, events: seq<Event>)
    decreases |events|
  {
    events != [] &&
    (|| Objects(epoch, next, events[0])
     || OutOfTurn(EpochAfter(epoch, events[0]), NumberAfter(next, events[0]), events[1..]))
  }

  // ----- safety -----

  predicate Kept(rx: Rx, base: nat, k: nat)
    requires RingInv(rx)
  {
    Has(rx, base, k, 0, 0)
  }

  /** What the ring holds was sealed in the reader's epoch. */
  ghost predicate KeptOfEpoch(rx: Rx, flight: seq<Outgoing>, ms: seq<Message>, base: nat)
    requires RingInv(rx)
  {
    forall k: nat :: k < |ms| && Kept(rx, base, k) ==> QueuedIn(flight, ms[k], rx.epoch)
  }

  /** The receiver has handed over exactly the first messages, byte for byte,
      and everything in flight is honest. */
  ghost predicate Good(s: System, flight: seq<Outgoing>, ms: seq<Message>, base: nat) {
    && Sound(s, flight) && Queues(flight, ms) && Numbered(ms, base)
    && Faithful(s.rx, ms, base) && KeptOfEpoch(s.rx, flight, ms, base)
    && (forall p :: p in s.net ==> Honest(flight, p))
    && s.rx.readSeq == base + |s.delivered|
    && (forall i :: 0 <= i < |s.delivered| ==> s.delivered[i] == RawBytes(ms[i]))
  }

  /** Every message fits the receiver's limits. */
  predicate Fitting(ms: seq<Message>, maxLen: nat) {
    |ms| <= FLIGHT && forall m :: m in ms ==> |m.body| <= maxLen
  }

  lemma SendIsGood(s: System, flight: seq<Outgoing>, ms: seq<Message>, base: nat, rs: seq<Record>, to: Pos, maxLen: nat)
    requires Good(s, flight, ms, base) && Enabled(s, flight, Send(rs, to))
    ensures Good(Step(s, flight, maxLen, Send(rs, to)), flight, ms, base)
  {
    hide WellFormed, At, RingInv, Numbered, Faithful, Honest, RawBytes, PacketOf, KeptOfEpoch;
    var t := Step(s, flight, maxLen, Send(rs, to));
    forall p | p in t.net
      ensures Honest(flight, p)
    {
      if p !in s.net {
        var r :| r in rs && PacketOf(r) == p;
        var j: nat :| j < |rs| && rs[j] == r;
        PathIsHonest(flight, s.at, rs, to, j);
      }
    }
  }

  /** One honest fragment of the reader's epoch. */
  lemma AcceptIsFaithful(
      rx: Rx, flight: seq<Outgoing>, ms: seq<Message>, base: nat, k: nat, off: nat, n: nat, maxLen: nat)
    requires RingInv(rx) && Numbered(ms, base) && Faithful(rx, ms, base) && Fitting(ms, maxLen)
    requires k < |ms| && off + n <= |ms[k].body| && QueuedIn(flight, ms[k], rx.epoch)
    requires KeptOfEpoch(rx, flight, ms, base)
    ensures
      var v := Accept(rx, FragmentHeader(ms[k], off, n), ms[k].body[off..off + n], maxLen);
      && (v.Next? ==> Faithful(v.rx, ms, base) && KeptOfEpoch(v.rx, flight, ms, base))
      && (v.Refuse? <==> rx.epoch == 1 && ms[k].sequence != rx.readSeq)
  {
    hide RingInv, Faithful, Accept, Has, QueuedIn;
    assert ms[k] in ms;
    AcceptKeepsFaithful(rx, ms, base, k, off, n, maxLen);
    var v := Accept(rx, FragmentHeader(ms[k], off, n), ms[k].body[off..off + n], maxLen);
    if v.Next? {
      forall j: nat | j < |ms| && Kept(v.rx, base, j)
        ensures QueuedIn(flight, ms[j], rx.epoch)
      {
        AcceptAddsOnly(rx, ms, base, k, off, n, maxLen, j, 0, 0);
      }
    }
  }

  /** An honest record of the reader's epoch, fragment by fragment. */
  lemma {:induction false} ReceiveIsFaithful(
      rx: Rx, flight: seq<Outgoing>, ms: seq<Message>, base: nat, xs: seq<Part>, maxLen: nat)
    requires RingInv(rx) && Numbered(ms, base) && Faithful(rx, ms, base) && Fitting(ms, maxLen)
    requires Queues(flight, ms) && AreParts(flight, rx.epoch, xs) && KeptOfEpoch(rx, flight, ms, base)
    ensures
      var record := Fragments(flight, rx.epoch, xs);
      var r := Receive(rx, record, maxLen);
      && Faithful(r.rx, ms, base) && KeptOfEpoch(r.rx, flight, ms, base)
      && (r.alert.Some? <==> rx.epoch == 1 && !AllFor(record, rx.readSeq))
    decreases |xs|
  {
    hide RingInv, Faithful, Accept, Fragment, ParseFragment, KeptOfEpoch, Whole;
    if xs != [] {
      var x, rest := xs[0], Fragments(flight, rx.epoch, xs[1..]);
      assert IsPart(flight, rx.epoch, x);
      var k := PartIsOfMessage(flight, ms, rx.epoch, x);
      PartParses(ms[k], x.off, x.n, rest);
      ReceivePart(rx, ms[k], x.off, x.n, rest, maxLen);
      AcceptIsFaithful(rx, flight, ms, base, k, x.off, x.n, maxLen);
      var v := Accept(rx, FragmentHeader(ms[k], x.off, x.n), ms[k].body[x.off..x.off + x.n], maxLen);
      if v.Next? {
        ReceiveIsFaithful(v.rx, flight, ms, base, xs[1..], maxLen);
      }
    }
  }

  lemma DeliverIsGood(s: System, flight: seq<Outgoing>, ms: seq<Message>, base: nat, p: Packet, maxLen: nat)
    requires Good(s, flight, ms, base) && p in s.net && Fitting(ms, maxLen)
    ensures
      var t := Hear(s, p, maxLen);
      && Good(t, flight, ms, base) && t.rx.epoch == s.rx.epoch && t.delivered == s.delivered
      && (t.alerted <==> s.alerted || Disturbs(s.rx.epoch, s.rx.readSeq, p))
  {
    hide WellFormed, At, RawBytes, Receive, Faithful, RingInv, KeptOfEpoch, Numbered, AllFor, Queues;
    assert Honest(flight, p);
    if p.epoch == s.rx.epoch && !p.isCcs {
      var xs: seq<Part> :| Holds(flight, p, xs);
      ReceiveIsFaithful(s.rx, flight, ms, base, xs, maxLen);
    }
  }

  lemma CurrentIsMessage(rx: Rx, ms: seq<Message>, base: nat)
    requires RingInv(rx) && Numbered(ms, base) && Faithful(rx, ms, base) && Current(rx).Some?
    ensures rx.readSeq < base + |ms| && Current(rx) == Some(ms[rx.readSeq - base])
  {
    var p := rx.slots[rx.readSeq % FLIGHT].value;
    assert p.sequence == rx.readSeq;
    var m := ms[rx.readSeq - base];
    assert AgreesWith(p, m);
    forall i | 0 <= i < |m.body|
      ensures BodyOf(p)[i] == m.body[i]
    {
      assert i in Positions(0, p.msgLen);
    }
    assert BodyOf(p) == m.body;
  }

  /** Taking a message leaves the others as they were. */
  lemma AdvanceIsFaithful(rx: Rx, ms: seq<Message>, base: nat)
    requires RingInv(rx) && Numbered(ms, base) && Faithful(rx, ms, base) && Current(rx).Some?
    ensures rx.readSeq < base + |ms|
    ensures
      var rx' := Advance(rx);
      Faithful(rx', ms, base) && rx'.readSeq == rx.readSeq + 1 && rx'.epoch == rx.epoch
  {
    CurrentIsMessage(rx, ms, base);
  }

  lemma AdvanceKeepsOnly(rx: Rx, base: nat, k: nat, from: nat, to: nat)
    requires RingInv(rx) && Current(rx).Some? && Has(Advance(rx), base, k, from, to)
    ensures Has(rx, base, k, from, to)
  {
  }

  lemma AdvanceOfEpoch(rx: Rx, flight: seq<Outgoing>, ms: seq<Message>, base: nat)
    requires RingInv(rx) && KeptOfEpoch(rx, flight, ms, base) && Current(rx).Some?
    ensures Advance(rx).epoch == rx.epoch && KeptOfEpoch(Advance(rx), flight, ms, base)
  {
    hide RingInv, Has, QueuedIn, Current;
    var rx' := Advance(rx);
    forall k: nat | k < |ms| && Kept(rx', base, k)
      ensures QueuedIn(flight, ms[k], rx'.epoch)
    {
      AdvanceKeepsOnly(rx, base, k, 0, 0);
      assert Kept(rx, base, k);
    }
  }

  /** The message taken is the next one, byte for byte. */
  lemma TakeIsGood(s: System, flight: seq<Outgoing>, ms: seq<Message>, base: nat, maxLen: nat)
    requires Good(s, flight, ms, base) && Enabled(s, flight, Take)
    ensures
      var t := Step(s, flight, maxLen, Take);
      Good(t, flight, ms, base) && t.rx.epoch == s.rx.epoch
    ensures |s.delivered| < |ms|
  {
    hide WellFormed, At, RawBytes, Honest, Faithful, KeptOfEpoch, RingInv, Current, Advance, Queues;
    var n := |s.delivered|;
    CurrentIsMessage(s.rx, ms, base);
    AdvanceIsFaithful(s.rx, ms, base);
    AdvanceOfEpoch(s.rx, flight, ms, base);
    assert Step(s, flight, maxLen, Take).delivered[n] == RawBytes(ms[n]);
  }

  lemma NewKeysIsGood(s: System, flight: seq<Outgoing>, ms: seq<Message>, base: nat, maxLen: nat)
    requires Good(s, flight, ms, base) && Enabled(s, flight, NewKeys)
    ensures Good(Step(s, flight, maxLen, NewKeys), flight, ms, base)
  {
    hide WellFormed, At, RawBytes, Honest, QueuedIn, Numbered;
    var rx := Step(s, flight, maxLen, NewKeys).rx;
    forall k: nat | k < |ms|
      ensures !Kept(rx, base, k)
    {
      assert rx.slots[(base + k) % FLIGHT] in s.rx.slots;
    }
  }

  lemma LateIsGood(s: System, flight: seq<Outgoing>, ms: seq<Message>, base: nat, p: Packet)
    requires Good(s, flight, ms, base)
    ensures
      var t := HearLate(s, p);
      && Good(t, flight, ms, base) && t.rx == s.rx
      && (t.alerted <==> s.alerted || DisturbsLate(s.rx.epoch, s.rx.readSeq, p))
  {
    hide WellFormed, At, RawBytes, Faithful, RingInv, KeptOfEpoch, Numbered, Queues, Honest;
  }

  /** What every event keeps, and what it does to the reader. */
  lemma StepIsGood(s: System, flight: seq<Outgoing>, ms: seq<Message>, base: nat, maxLen: nat, e: Event)
    requires Good(s, flight, ms, base) && Fitting(ms, maxLen) && Enabled(s, flight, e)
    ensures
      var t := Step(s, flight, maxLen, e);
      && Good(t, flight, ms, base)
      && t.rx.epoch == EpochAfter(s.rx.epoch, e) && t.rx.readSeq == NumberAfter(s.rx.readSeq, e)
      && (t.alerted <==> s.alerted || Objects(s.rx.epoch, s.rx.readSeq, e))
  {
    hide Faithful, KeptOfEpoch, Receive, Current, Advance, RingInv, WellFormed, At, Numbered, Queues, Disturbs;
    hide Honest, RawBytes, NothingKept, Path, HearLate, DisturbsLate;
    match e {
      case Send(rs, to) => SendIsGood(s, flight, ms, base, rs, to, maxLen);
      case Pack(p) =>
      case Rewind =>
      case Deliver(p) => DeliverIsGood(s, flight, ms, base, p, maxLen);
      case DeliverLate(p) => LateIsGood(s, flight, ms, base, p);
      case Take => TakeIsGood(s, flight, ms, base, maxLen);
      case NewKeys => NewKeysIsGood(s, flight, ms, base, maxLen);
    }
  }

  /** A run begins with an empty ring at the first message's number. */
  lemma Begins(rx: Rx, flight: seq<Outgoing>, ms: seq<Message>, base: nat)
    requires Queues(flight, ms) && Numbered(ms, base)
    requires |rx.slots| == FLIGHT && rx.readSeq == base && NothingKept(rx)
    ensures Good(System(START, {}, rx, false, [], false), flight, ms, base)
  {
    assert forall i :: 0 <= i < FLIGHT ==> rx.slots[i] in rx.slots;
  }

  lemma GoodIsSound(s: System, flight: seq<Outgoing>, ms: seq<Message>, base: nat)
    requires Good(s, flight, ms, base)
    ensures Sound(s, flight)
  {
  }

  /** Under any loss, repetition, delay and reordering, whatever the cuts,
      retransmissions and key changes: only the sender's messages, in order,
      each once, byte for byte as hashed. There is an alert exactly if some
      packet came out of turn. */
  lemma {:induction false} DeliveredInOrder(
      s: System, flight: seq<Outgoing>, ms: seq<Message>, base: nat, maxLen: nat, events: seq<Event>, t: System)
    requires Good(s, flight, ms, base) && Reaches(s, flight, maxLen, events, t) && Fitting(ms, maxLen)
    ensures Good(t, flight, ms, base)
    ensures t.alerted <==> s.alerted || OutOfTurn(s.rx.epoch, s.rx.readSeq, events)
    decreases |events|
  {
    hide Good, Enabled, Step, Disturbs, WellFormed, At, RingInv, Fitting;
    if events != [] {
      GoodIsSound(s, flight, ms, base);
      StepIsGood(s, flight, ms, base, maxLen, events[0]);
      DeliveredInOrder(Step(s, flight, maxLen, events[0]), flight, ms, base, maxLen, events[1..], t);
    }
  }

  /** In epoch 0 nothing that the handshake reads can come out of turn. */
  lemma {:induction false} EpochZeroIsQuiet(next: nat, events: seq<Event>)
    requires forall e :: e in events ==> !e.NewKeys? && !e.DeliverLate?
    ensures !OutOfTurn(0, next, events)
    decreases |events|
  {
    if events != [] {
      EpochZeroIsQuiet(NumberAfter(next, events[0]), events[1..]);
    }
  }

  // ----- epoch 1 -----

  lemma HeldMessage(rx: Rx, ms: seq<Message>, base: nat, i: nat) returns (k: nat)
    requires RingInv(rx) && Faithful(rx, ms, base) && i < FLIGHT && rx.slots[i].Some?
    ensures k < |ms| && rx.readSeq <= base + k && Kept(rx, base, k)
  {
    k := rx.slots[i].value.sequence - base;
  }

  /** Once everything sealed in the reader's epoch is handed over nothing is
      left in the ring, so the keys may change as soon as the ChangeCipherSpec
      is there. */
  lemma {:induction false} KeysMayChange(s: System, flight: seq<Outgoing>, ms: seq<Message>, base: nat)
    requires Good(s, flight, ms, base)
    requires forall k: nat :: k < |ms| && QueuedIn(flight, ms[k], s.rx.epoch) ==> k < |s.delivered|
    ensures Enabled(s, flight, NewKeys) <==> s.ccs
  {
    hide WellFormed, At, Honest, RawBytes, QueuedIn, RingInv, Faithful, Kept;
    RingLength(s.rx);
    forall slot | slot in s.rx.slots
      ensures slot == None
    {
      var i: nat :| i < FLIGHT && s.rx.slots[i] == slot;
      if slot.Some? {
        var k := HeldMessage(s.rx, ms, base, i);
        assert false;
      }
    }
  }

  /** Once every message is handed over the ring is empty again, at the number
      the other side's next flight begins with. */
  lemma {:induction false} Ends(s: System, flight: seq<Outgoing>, ms: seq<Message>, base: nat)
    requires Good(s, flight, ms, base) && |s.delivered| == |ms|
    ensures NothingKept(s.rx) && s.rx.readSeq == base + |ms|
  {
    forall slot | slot in s.rx.slots
      ensures slot == None
    {
      var i :| 0 <= i < FLIGHT && s.rx.slots[i] == slot;
    }
  }

  /** The flight queues nothing else in epoch 1 than its last message. */
  predicate FinishedAlone(flight: seq<Outgoing>, ms: seq<Message>) {
    |ms| > 0 && forall i :: 0 <= i < |flight| && flight[i].epoch == 1 ==>
                  !flight[i].isCcs && Whole(flight[i]) == Some(ms[|ms| - 1])
  }

  /** Something of epoch 1 is delivered after the message was taken. */
  predicate SpokenAgain(events: seq<Event>, taken: bool)
    decreases |events|
  {
    events != [] &&
    (|| (taken && events[0].Deliver? && events[0].packet.epoch == 1)
     || SpokenAgain(events[1..], taken || events[0].Take?))
  }

  lemma FinishedIsLast(flight: seq<Outgoing>, ms: seq<Message>, base: nat, p: Packet, next: nat)
    requires Queues(flight, ms) && Numbered(ms, base) && FinishedAlone(flight, ms) && Honest(flight, p)
    requires p.epoch == 1
    ensures Disturbs(1, next, p) <==> next != base + |ms| - 1
    ensures ms[|ms| - 1].kind == FINISHED ==> (DisturbsLate(1, next, p) <==> next != base + |ms|)
  {
    hide ParseFragment, Fragment, Whole, AllFor;
    NoCcsBeside(flight, ms, p);
    var xs: seq<Part> :| Holds(flight, p, xs);
    var m := ms[|ms| - 1];
    AllOfLast(flight, ms, base, xs, next);
    assert IsPart(flight, 1, xs[0]);
    PartParses(m, xs[0].off, xs[0].n, Fragments(flight, 1, xs[1..]));
  }

  lemma NoCcsBeside(flight: seq<Outgoing>, ms: seq<Message>, p: Packet)
    requires WellFormed(flight) && FinishedAlone(flight, ms) && Honest(flight, p) && p.epoch == 1
    ensures !p.isCcs
  {
  }

  lemma {:induction false} AllOfLast(flight: seq<Outgoing>, ms: seq<Message>, base: nat, xs: seq<Part>, next: nat)
    requires Queues(flight, ms) && Numbered(ms, base) && FinishedAlone(flight, ms) && AreParts(flight, 1, xs)
    ensures AllFor(Fragments(flight, 1, xs), next) <==> xs == [] || next == base + |ms| - 1
    decreases |xs|
  {
    hide ParseFragment, Fragment, Whole;
    if xs != [] {
      assert IsPart(flight, 1, xs[0]);
      PartParses(ms[|ms| - 1], xs[0].off, xs[0].n, Fragments(flight, 1, xs[1..]));
      AllOfLast(flight, ms, base, xs[1..], next);
    }
  }

  /** Once only the Finished is expected, in epoch 1, the reader raises an alert
      exactly if dtls1_open_handshake is called again with a record of it after
      it was taken. (Neither side's machine does that: see HonestIsQuiet.) */
  lemma {:induction false} EpochOneRefuses(
      s: System, flight: seq<Outgoing>, ms: seq<Message>, base: nat, maxLen: nat, events: seq<Event>, t: System)
    requires Good(s, flight, ms, base) && Reaches(s, flight, maxLen, events, t) && Fitting(ms, maxLen)
    requires s.rx.epoch == 1 && FinishedAlone(flight, ms) && |s.delivered| >= |ms| - 1
    requires forall e :: e in events ==> !e.NewKeys? && !e.DeliverLate?
    ensures t.alerted <==> s.alerted || SpokenAgain(events, |s.delivered| == |ms|)
    decreases |events|
  {
    hide Enabled, Step, Disturbs, WellFormed, RingInv, Fitting, FinishedAlone, Faithful, KeptOfEpoch, Numbered;
    hide Queues, RawBytes, Honest;
    if events != [] {
      var e := events[0];
      GoodIsSound(s, flight, ms, base);
      StepIsGood(s, flight, ms, base, maxLen, e);
      Bounded(s, flight, ms, base);
      Bounded(Step(s, flight, maxLen, e), flight, ms, base);
      if e.Deliver? {
        EnabledIsSent(s, flight, e);
        InOtherEpoch(s.rx.readSeq, e.packet);
        if e.packet.epoch == 1 {
          FinishedIsLast(flight, ms, base, e.packet, s.rx.readSeq);
        }
      }
      EpochOneRefuses(Step(s, flight, maxLen, e), flight, ms, base, maxLen, events[1..], t);
    }
  }

  lemma Bounded(s: System, flight: seq<Outgoing>, ms: seq<Message>, base: nat)
    requires Good(s, flight, ms, base)
    ensures |s.delivered| <= |ms|
  {
  }

  lemma EnabledIsSent(s: System, flight: seq<Outgoing>, e: Event)
    requires Sound(s, flight) && Enabled(s, flight, e) && e.Deliver?
    ensures e.packet in s.net
  {
  }

  // ----- an honest handshake -----

  /** What the handshake machines make of the transport: records go to the
      handshake until its last message, numbered `last`, is taken, and to the
      application's reads after that; the keys change just before it. */
  predicate Orderly(epoch: nat, next: nat, last: nat, events: seq<Event>)
    decreases |events|
  {
    events != [] ==>
      && (events[0].Deliver? ==> next <= last)
      && (events[0].DeliverLate? ==> next > last && epoch == 1)
      && (events[0].NewKeys? ==> next == last && epoch == 0)
      && Orderly(EpochAfter(epoch, events[0]), NumberAfter(next, events[0]), last, events[1..])
  }

  /** In an orderly run a packet of the flight is never objected to. */
  lemma OrderlyIsQuiet(s: System, flight: seq<Outgoing>, ms: seq<Message>, base: nat, e: Event)
    requires Good(s, flight, ms, base) && FinishedAlone(flight, ms) && ms[|ms| - 1].kind == FINISHED
    requires s.rx.epoch == 0 || (s.rx.epoch == 1 && |s.delivered| >= |ms| - 1)
    requires Enabled(s, flight, e) && Orderly(s.rx.epoch, s.rx.readSeq, base + |ms| - 1, [e])
    ensures !Objects(s.rx.epoch, s.rx.readSeq, e)
  {
    hide WellFormed, RingInv, FinishedAlone, Faithful, KeptOfEpoch, Queues, RawBytes, Path, NothingKept, AllFor;
    Bounded(s, flight, ms, base);
    if (e.Deliver? || e.DeliverLate?) && e.packet.epoch == 1 && s.rx.epoch == 1 {
      FinishedIsLast(flight, ms, base, e.packet, s.rx.readSeq);
    }
  }

  /** So an honest peer's flight raises no alert, whatever the network does to
      it, a Finished that comes again after the handshake included. */
  lemma {:induction false} HonestIsQuiet(
      s: System, flight: seq<Outgoing>, ms: seq<Message>, base: nat, maxLen: nat, events: seq<Event>, t: System)
    requires Good(s, flight, ms, base) && Reaches(s, flight, maxLen, events, t) && Fitting(ms, maxLen)
    requires FinishedAlone(flight, ms) && ms[|ms| - 1].kind == FINISHED
    requires s.rx.epoch == 0 || (s.rx.epoch == 1 && |s.delivered| >= |ms| - 1)
    requires Orderly(s.rx.epoch, s.rx.readSeq, base + |ms| - 1, events)
    ensures Good(t, flight, ms, base) && t.alerted == s.alerted
    decreases |events|
  {
    hide Enabled, Step, Objects, WellFormed, RingInv, Fitting, FinishedAlone, Faithful, KeptOfEpoch, Numbered, Queues;
    hide RawBytes, Honest;
    if events != [] {
      var e := events[0];
      GoodIsSound(s, flight, ms, base);
      StepIsGood(s, flight, ms, base, maxLen, e);
      OrderlyIsQuiet(s, flight, ms, base, e);
      Bounded(s, flight, ms, base);
      HonestIsQuiet(Step(s, flight, maxLen, e), flight, ms, base, maxLen, events[1..], t);
    }
  }

  lemma InOtherEpoch(next: nat, p: Packet)
    ensures p.epoch != 1 ==> !Disturbs(1, next, p)
  {
  }

  // ----- a flight that arrives is delivered -----

  /** The record is not of a message that is refused at its time. */
  predicate Listens(epoch: nat, next: nat, p: Packet) {
    p.epoch == epoch && (epoch != 1 || AllFor(p.payload, next))
  }

  /** The packet is delivered at such a moment of the run. */
  predicate Heard(epoch: nat, next: nat, events: seq<Event>, p: Packet)
    decreases |events|
  {
    events != [] &&
    (|| (events[0] == Deliver(p) && Listens(epoch, next, p))
     || Heard(EpochAfter(epoch, events[0]), NumberAfter(next, events[0]), events[1..], p))
  }

  /** Some fragment of the record is of message k and covers the range, and none
      up to it is refused. */
  predicate Covers(epoch: nat, next: nat, ms: seq<Message>, k: nat, from: nat, to: nat, record: seq<byte>)
    requires k < |ms|
    decreases |record|
  {
    record != [] &&
    var parse := ParseFragment(record);
    && parse.Good? && (epoch == 1 ==> parse.header.sequence == next)
    && (|| (parse.header.sequence == ms[k].sequence && Within(from, to, parse.header.fragOff, parse.header.fragLen))
        || Covers(epoch, next, ms, k, from, to, parse.rest))
  }

  /** The event delivers the range at a moment when it is not refused. */
  predicate Adds(epoch: nat, next: nat, e: Event, ms: seq<Message>, k: nat, from: nat, to: nat)
    requires k < |ms|
  {
    && e.Deliver? && !e.packet.isCcs && e.packet.epoch == epoch
    && Covers(epoch, next, ms, k, from, to, e.packet.payload)
  }

  predicate HeardPart(epoch: nat, next: nat, events: seq<Event>, ms: seq<Message>, k: nat, from: nat, to: nat)
    requires k < |ms|
    decreases |events|
  {
    events != [] &&
    (|| Adds(epoch, next, events[0], ms, k, from, to)
     || HeardPart(EpochAfter(epoch, events[0]), NumberAfter(next, events[0]), events[1..], ms, k, from, to))
  }

  predicate HeardByte(epoch: nat, next: nat, events: seq<Event>, ms: seq<Message>, k: nat, i: nat)
    requires k < |ms|
  {
    HeardPart(epoch, next, events, ms, k, i, i + 1)
  }

  /** Every byte of message k was heard, and something of it if it is empty. */
  predicate HeardWhole(epoch: nat, next: nat, events: seq<Event>, ms: seq<Message>, k: nat)
    requires k < |ms|
  {
    && HeardPart(epoch, next, events, ms, k, 0, 0)
    && forall i: nat :: i < |ms[k].body| ==> HeardByte(epoch, next, events, ms, k, i)
  }

  /** The range is in the ring, or was handed over. */
  predicate Got(s: System, base: nat, k: nat, from: nat, to: nat)
    requires RingInv(s.rx)
  {
    k < |s.delivered| || Has(s.rx, base, k, from, to)
  }

  /** One fragment adds exactly what it covers. */
  lemma AcceptAddsExactly(
      rx: Rx, ms: seq<Message>, base: nat, j: nat, off: nat, n: nat, maxLen: nat, k: nat, from: nat, to: nat)
    requires RingInv(rx) && Numbered(ms, base) && Faithful(rx, ms, base) && Fitting(ms, maxLen)
    requires j < |ms| && off + n <= |ms[j].body| && k < |ms| && to <= from + 1 && base + k >= rx.readSeq
    ensures
      var v := Accept(rx, FragmentHeader(ms[j], off, n), ms[j].body[off..off + n], maxLen);
      && (v.Refuse? <==> rx.epoch == 1 && ms[j].sequence != rx.readSeq)
      && (v.Next? ==> Faithful(v.rx, ms, base))
      && (v.Next? ==>
            (Has(v.rx, base, k, from, to) <==>
               Has(rx, base, k, from, to) || (ms[j].sequence == ms[k].sequence && Within(from, to, off, n))))
  {
    hide RingInv, Faithful, Accept, Has, Within;
    assert ms[j] in ms;
    AcceptKeepsFaithful(rx, ms, base, j, off, n, maxLen);
    AcceptAdds(rx, ms, base, j, off, n, maxLen, k, from, to);
    AcceptAddsOnly(rx, ms, base, j, off, n, maxLen, k, from, to);
  }

  /** So does a record, fragment by fragment. */
  lemma {:induction false} ReceiveAdds(
      rx: Rx, flight: seq<Outgoing>, ms: seq<Message>, base: nat, xs: seq<Part>, maxLen: nat,
      k: nat, from: nat, to: nat)
    requires RingInv(rx) && Numbered(ms, base) && Faithful(rx, ms, base) && Fitting(ms, maxLen)
    requires Queues(flight, ms) && AreParts(flight, rx.epoch, xs)
    requires k < |ms| && to <= from + 1 && base + k >= rx.readSeq
    ensures
      var record := Fragments(flight, rx.epoch, xs);
      Has(Receive(rx, record, maxLen).rx, base, k, from, to)
      <==> Has(rx, base, k, from, to) || Covers(rx.epoch, rx.readSeq, ms, k, from, to, record)
    decreases |xs|
  {
    hide RingInv, Faithful, Accept, Has, Fragment, ParseFragment, Whole, Within;
    if xs != [] {
      var x, rest := xs[0], Fragments(flight, rx.epoch, xs[1..]);
      assert IsPart(flight, rx.epoch, x);
      var j := PartIsOfMessage(flight, ms, rx.epoch, x);
      PartParses(ms[j], x.off, x.n, rest);
      ReceivePart(rx, ms[j], x.off, x.n, rest, maxLen);
      AcceptAddsExactly(rx, ms, base, j, x.off, x.n, maxLen, k, from, to);
      var v := Accept(rx, FragmentHeader(ms[j], x.off, x.n), ms[j].body[x.off..x.off + x.n], maxLen);
      if v.Next? {
        ReceiveAdds(v.rx, flight, ms, base, xs[1..], maxLen, k, from, to);
      }
    }
  }

  lemma DeliverAdds(
      s: System, flight: seq<Outgoing>, ms: seq<Message>, base: nat, p: Packet, maxLen: nat, k: nat, from: nat, to: nat)
    requires Good(s, flight, ms, base) && p in s.net && Fitting(ms, maxLen) && k < |ms| && to <= from + 1
    ensures Got(Hear(s, p, maxLen), base, k, from, to)
       <==> || Got(s, base, k, from, to)
            || (k >= |s.delivered| && Adds(s.rx.epoch, s.rx.readSeq, Deliver(p), ms, k, from, to))
  {
    hide WellFormed, At, RawBytes, Receive, Faithful, RingInv, KeptOfEpoch, Numbered, Covers, Has, Queues;
    assert Honest(flight, p);
    if p.epoch == s.rx.epoch && !p.isCcs && k >= |s.delivered| {
      var xs: seq<Part> :| Holds(flight, p, xs);
      ReceiveAdds(s.rx, flight, ms, base, xs, maxLen, k, from, to);
    }
  }

  lemma TakeAdds(
      s: System, flight: seq<Outgoing>, ms: seq<Message>, base: nat, maxLen: nat, k: nat, from: nat, to: nat)
    requires Good(s, flight, ms, base) && Enabled(s, flight, Take) && Fitting(ms, maxLen)
    requires k < |ms| && from <= to <= |ms[k].body|
    ensures Got(Step(s, flight, maxLen, Take), base, k, from, to) <==> Got(s, base, k, from, to)
  {
    hide WellFormed, At, HeaderBytes, RawBytes, Honest, QueuedIn, KeptOfEpoch;
    CurrentIsMessage(s.rx, ms, base);
    if k == |s.delivered| {
      var p := s.rx.slots[s.rx.readSeq % FLIGHT].value;
      assert p.msgLen == |ms[k].body| && Positions(from, to) <= Positions(0, p.msgLen);
    }
  }

  /** One event: what is there afterwards was there before or is delivered now. */
  lemma StepAdds(
      s: System, flight: seq<Outgoing>, ms: seq<Message>, base: nat, maxLen: nat, e: Event, k: nat, from: nat, to: nat)
    requires Good(s, flight, ms, base) && Fitting(ms, maxLen) && Enabled(s, flight, e)
    requires k < |ms| && from <= to <= from + 1 && to <= |ms[k].body|
    ensures Got(Step(s, flight, maxLen, e), base, k, from, to)
       <==> Got(s, base, k, from, to) || (k >= |s.delivered| && Adds(s.rx.epoch, s.rx.readSeq, e, ms, k, from, to))
  {
    hide Good, Faithful, Receive, Current, Advance, WellFormed, At, Path, NothingKept, Listens, Covers;
    match e {
      case Send(rs, to) =>
      case Pack(p) =>
      case Rewind =>
      case Deliver(p) => DeliverAdds(s, flight, ms, base, p, maxLen, k, from, to);
      case DeliverLate(p) =>
      case Take => TakeAdds(s, flight, ms, base, maxLen, k, from, to);
      case NewKeys =>
    }
  }

  /** A range is there exactly if it was, or if a packet brought it in time. */
  lemma {:induction false} GotExactly(
      s: System, flight: seq<Outgoing>, ms: seq<Message>, base: nat, maxLen: nat, events: seq<Event>, t: System,
      k: nat, from: nat, to: nat)
    requires Good(s, flight, ms, base) && Reaches(s, flight, maxLen, events, t) && Fitting(ms, maxLen)
    requires k < |ms| && from <= to <= from + 1 && to <= |ms[k].body|
    ensures Good(t, flight, ms, base)
    ensures Got(t, base, k, from, to)
       <==> Got(s, base, k, from, to) || HeardPart(s.rx.epoch, s.rx.readSeq, events, ms, k, from, to)
    decreases |events|
  {
    hide Good, Enabled, Step, WellFormed, At, RingInv, Fitting, Has, Adds;
    GoodIsSound(s, flight, ms, base);
    if events != [] {
      StepIsGood(s, flight, ms, base, maxLen, events[0]);
      StepAdds(s, flight, ms, base, maxLen, events[0], k, from, to);
      GotExactly(Step(s, flight, maxLen, events[0]), flight, ms, base, maxLen, events[1..], t, k, from, to);
    }
  }

  /** Message k is all there. */
  predicate Arrived(rx: Rx, ms: seq<Message>, base: nat, k: nat)
    requires RingInv(rx) && k < |ms|
  {
    var slot := rx.slots[(base + k) % FLIGHT];
    slot.Some? && slot.value.sequence == base + k && Complete(slot.value)
  }

  /** All there, one byte after the other. */
  lemma ArrivedBytewise(rx: Rx, ms: seq<Message>, base: nat, k: nat)
    requires RingInv(rx) && Faithful(rx, ms, base) && k < |ms| && rx.readSeq <= base + k
    ensures Arrived(rx, ms, base, k)
       <==> Has(rx, base, k, 0, 0) && forall i: nat :: i < |ms[k].body| ==> HasByte(rx, base, k, i)
  {
    if Has(rx, base, k, 0, 0) {
      var p := rx.slots[(base + k) % FLIGHT].value;
      assert AgreesWith(p, ms[k]);
      if Complete(p) {
        forall i: nat | i < |ms[k].body|
          ensures HasByte(rx, base, k, i)
        {
          assert Positions(i, i + 1) <= Positions(0, p.msgLen);
        }
      } else if forall i: nat :: i < |ms[k].body| ==> HasByte(rx, base, k, i) {
        forall i | i in Positions(0, p.msgLen)
          ensures i in p.body.Keys
        {
          assert HasByte(rx, base, k, i) && i in Positions(i, i + 1);
        }
      }
    }
  }

  predicate HasByte(rx: Rx, base: nat, k: nat, i: nat)
    requires RingInv(rx)
  {
    Has(rx, base, k, i, i + 1)
  }

  /** Whatever else happened, from an empty ring on: a message was handed over
      or is complete exactly if every byte of it was delivered in time. */
  lemma FlightArrives(
      s: System, flight: seq<Outgoing>, ms: seq<Message>, base: nat, maxLen: nat, events: seq<Event>, t: System, k: nat)
    requires Good(s, flight, ms, base) && Reaches(s, flight, maxLen, events, t) && Fitting(ms, maxLen)
    requires NothingKept(s.rx) && s.delivered == [] && k < |ms|
    ensures Good(t, flight, ms, base)
    ensures k < |t.delivered| || Arrived(t.rx, ms, base, k)
       <==> HeardWhole(s.rx.epoch, s.rx.readSeq, events, ms, k)
  {
    hide Enabled, Step, WellFormed, At, RingInv, Fitting, HeardPart, Faithful, Reaches, Honest, RawBytes, KeptOfEpoch;
    hide Has, Arrived;
    NothingGot(s, base, k);
    GotExactly(s, flight, ms, base, maxLen, events, t, k, 0, 0);
    if k < |t.delivered| {
      forall i: nat | i < |ms[k].body|
        ensures HeardByte(s.rx.epoch, s.rx.readSeq, events, ms, k, i)
      {
        GotExactly(s, flight, ms, base, maxLen, events, t, k, i, i + 1);
      }
    } else {
      forall i: nat | i < |ms[k].body|
        ensures HasByte(t.rx, base, k, i) <==> HeardByte(s.rx.epoch, s.rx.readSeq, events, ms, k, i)
      {
        GotExactly(s, flight, ms, base, maxLen, events, t, k, i, i + 1);
      }
      ArrivedBytewise(t.rx, ms, base, k);
    }
  }

  lemma NothingGot(s: System, base: nat, k: nat)
    requires RingInv(s.rx) && NothingKept(s.rx) && s.delivered == []
    ensures forall from: nat, to: nat :: !Got(s, base, k, from, to)
  {
    assert s.rx.slots[(base + k) % FLIGHT] in s.rx.slots;
  }

  // ----- and taken -----

  function TakeAll(rx: Rx, n: nat): (raws: Option<seq<seq<byte>>>)
    requires RingInv(rx)
    decreases n
  {
    if n == 0 then Some([])
    else if Current(rx).None? then None
    else
      match TakeAll(Advance(rx), n - 1)
      case None => None
      case Some(rest) => Some([RawBytes(Current(rx).value)] + rest)
  }

  /** What the handshake hashes: the messages from k on, headers and all. */
  function Raws(ms: seq<Message>, k: nat): seq<seq<byte>>
    requires k <= |ms| && forall j :: 0 <= j < |ms| ==> Sendable(ms[j])
    decreases |ms| - k
  {
    if k == |ms| then [] else [RawBytes(ms[k])] + Raws(ms, k + 1)
  }

  lemma {:induction false} TakeArrived(rx: Rx, ms: seq<Message>, base: nat, k: nat)
    requires RingInv(rx) && Numbered(ms, base) && Faithful(rx, ms, base) && |ms| <= FLIGHT
    requires k <= |ms| && rx.readSeq == base + k
    requires forall j: nat :: k <= j < |ms| ==> Arrived(rx, ms, base, j)
    ensures TakeAll(rx, |ms| - k) == Some(Raws(ms, k))
    decreases |ms| - k
  {
    hide RawBytes, Complete;
    if k < |ms| {
      assert Arrived(rx, ms, base, k);
      CurrentIsMessage(rx, ms, base);
      var rx' := Advance(rx);
      forall j: nat | k + 1 <= j < |ms|
        ensures Arrived(rx', ms, base, j)
      {
        assert Arrived(rx, ms, base, j);
      }
      TakeArrived(rx', ms, base, k + 1);
    }
  }

  /** What is handed over, and the rest, are the flight. */
  lemma {:induction false} DeliveredAndRest(ms: seq<Message>, delivered: seq<seq<byte>>)
    requires |delivered| <= |ms| && forall j :: 0 <= j < |ms| ==> Sendable(ms[j])
    requires forall i :: 0 <= i < |delivered| ==> delivered[i] == RawBytes(ms[i])
    ensures delivered + Raws(ms, |delivered|) == Raws(ms, 0)
    decreases |delivered|
  {
    hide RawBytes;
    if delivered == [] {
      assert delivered + Raws(ms, 0) == Raws(ms, 0);
    } else {
      var n: nat := |delivered| - 1;
      var rest := Raws(ms, n + 1);
      DeliveredAndRest(ms, delivered[..n]);
      assert delivered == delivered[..n] + [RawBytes(ms[n])];
      assert delivered[..n] + [RawBytes(ms[n])] + rest == delivered[..n] + ([RawBytes(ms[n])] + rest);
    }
  }

  /** Once all of a flight was delivered in time, in any order, repeated and
      mixed with anything else the sender sent, what was handed over and what
      can be taken now is the whole flight, in order. */
  lemma FlightDelivered(
      s: System, flight: seq<Outgoing>, ms: seq<Message>, base: nat, maxLen: nat, events: seq<Event>, t: System)
    requires Good(s, flight, ms, base) && Reaches(s, flight, maxLen, events, t) && Fitting(ms, maxLen)
    requires NothingKept(s.rx) && s.delivered == []
    requires forall k: nat :: k < |ms| ==> HeardWhole(s.rx.epoch, s.rx.readSeq, events, ms, k)
    ensures Good(t, flight, ms, base) && |t.delivered| <= |ms|
    ensures TakeAll(t.rx, |ms| - |t.delivered|).Some?
    ensures t.delivered + TakeAll(t.rx, |ms| - |t.delivered|).value == Raws(ms, 0)
  {
    hide Reaches, HeardWhole, WellFormed, At, RingInv, Arrived, KeptOfEpoch, Honest, RawBytes, Fitting, TakeAll, Raws;
    DeliveredInOrder(s, flight, ms, base, maxLen, events, t);
    var k := |t.delivered|;
    forall j: nat | k <= j < |ms|
      ensures Arrived(t.rx, ms, base, j)
    {
      FlightArrives(s, flight, ms, base, maxLen, events, t, j);
    }
    FewMessages(ms, maxLen);
    TakeArrived(t.rx, ms, base, k);
    DeliveredAndRest(ms, t.delivered);
  }

  lemma FewMessages(ms: seq<Message>, maxLen: nat)
    requires Fitting(ms, maxLen)
    ensures |ms| <= FLIGHT
  {
  }

  /** Some record on the path covers byte i of message k. */
  lemma {:induction false} SomeRecordCovers(
      flight: seq<Outgoing>, p: Pos, rs: seq<Record>, q: Pos, k: nat, i: nat) returns (j: nat, off: nat)
    requires WellFormed(flight) && At(flight, p) && Path(flight, p, rs, q) && At(flight, q)
    requires k < |flight| && !flight[k].isCcs && WrittenOf(flight, p, k) <= i < WrittenOf(flight, q, k)
    ensures j < |rs| && !rs[j].isCcs && 0 <= Carried(rs[j]) && off <= i < off + Carried(rs[j]) <= |BodyAt(flight, k)|
    ensures rs[j].payload == Fragment(Whole(flight[k]).value, off, Carried(rs[j]))
    decreases |rs|
  {
    hide WellFormed, Whole, HeaderBytes;
    var mid := After(flight, p, rs[0]);
    if p.written == k && i < p.offset + Carried(rs[0]) {
      j, off := 0, p.offset;
    } else {
      j, off := SomeRecordCovers(flight, mid, rs[1..], q, k, i);
      j := j + 1;
    }
  }

  /** Some record on the path belongs to message k. */
  lemma {:induction false} SomeRecordOf(
      flight: seq<Outgoing>, p: Pos, rs: seq<Record>, q: Pos, k: nat) returns (j: nat, off: nat)
    requires WellFormed(flight) && At(flight, p) && Path(flight, p, rs, q)
    requires k < |flight| && !flight[k].isCcs && p.written <= k < q.written
    ensures j < |rs| && !rs[j].isCcs && 0 <= Carried(rs[j]) && off + Carried(rs[j]) <= |BodyAt(flight, k)|
    ensures rs[j].payload == Fragment(Whole(flight[k]).value, off, Carried(rs[j]))
    decreases |rs|
  {
    hide WellFormed, Whole, HeaderBytes;
    if p.written == k {
      j, off := 0, p.offset;
    } else {
      j, off := SomeRecordOf(flight, After(flight, p, rs[0]), rs[1..], q, k);
      j := j + 1;
    }
  }

  /** The record is one fragment of message k, which covers the range. */
  predicate CoversAlone(ms: seq<Message>, k: nat, from: nat, to: nat, record: seq<byte>)
    requires k < |ms|
  {
    var parse := ParseFragment(record);
    && parse.Good? && parse.header.sequence == ms[k].sequence
    && Within(from, to, parse.header.fragOff, parse.header.fragLen)
  }

  lemma {:induction false} HeardCovers(
      epoch: nat, next: nat, events: seq<Event>, p: Packet, ms: seq<Message>, k: nat, from: nat, to: nat)
    requires Heard(epoch, next, events, p) && !p.isCcs && k < |ms| && CoversAlone(ms, k, from, to, p.payload)
    ensures HeardPart(epoch, next, events, ms, k, from, to)
    decreases |events|
  {
    hide ParseFragment;
    if events[0] == Deliver(p) && Listens(epoch, next, p) {
      assert p.payload != [] by {
        ParsesNothing();
      }
    } else {
      HeardCovers(
        EpochAfter(epoch, events[0]), NumberAfter(next, events[0]), events[1..], p, ms, k, from, to);
    }
  }

  lemma ParsesNothing()
    ensures ParseFragment([]).Bad?
  {
  }

  lemma FragmentCovers(ms: seq<Message>, k: nat, off: nat, n: nat, from: nat, to: nat)
    requires k < |ms| && Sendable(ms[k]) && off + n <= |ms[k].body| && Within(from, to, off, n)
    ensures CoversAlone(ms, k, from, to, Fragment(ms[k], off, n))
  {
    hide Fragment, ParseFragment;
    PartParses(ms[k], off, n, []);
    assert Fragment(ms[k], off, n) + [] == Fragment(ms[k], off, n);
  }

  /** One whole pass over the flight, at any MTUs, is enough for every message
      it queues if each of its records is delivered in time. */
  lemma {:induction false} OnePassSuffices(
      flight: seq<Outgoing>, rs: seq<Record>, ms: seq<Message>, base: nat, epoch: nat, next: nat, events: seq<Event>,
      f: nat, k: nat)
    requires WellFormed(flight) && Path(flight, START, rs, Pos(|flight|, 0)) && Numbered(ms, base)
    requires forall j :: 0 <= j < |rs| && !rs[j].isCcs ==> Heard(epoch, next, events, PacketOf(rs[j]))
    requires k < |ms| && f < |flight| && !flight[f].isCcs && Whole(flight[f]) == Some(ms[k])
    ensures HeardWhole(epoch, next, events, ms, k)
  {
    hide WellFormed, Whole, Path, Heard, HeardPart, CoversAlone, Fragment;
    var end := Pos(|flight|, 0);
    var j, off := SomeRecordOf(flight, START, rs, end, f);
    FragmentCovers(ms, k, off, Carried(rs[j]), 0, 0);
    HeardCovers(epoch, next, events, PacketOf(rs[j]), ms, k, 0, 0);
    forall i: nat | i < |ms[k].body|
      ensures HeardByte(epoch, next, events, ms, k, i)
    {
      var j', off' := SomeRecordCovers(flight, START, rs, end, f, i);
      FragmentCovers(ms, k, off', Carried(rs[j']), i, i + 1);
      HeardCovers(epoch, next, events, PacketOf(rs[j']), ms, k, i, i + 1);
    }
  }
}
