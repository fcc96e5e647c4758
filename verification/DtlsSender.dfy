/** The sending side of DTLS1_STATE as it runs: queueing a flight, cutting it
    into records and packets, resuming after a refused write, and rewinding to
    retransmit. What the AEAD does with each record and what the transport does
    with each packet are inputs. */
module DtlsSender {
  import opened Prelude
  import opened DtlsMessage
  import opened DtlsReceive
  import opened DtlsFlight
  import E = DtlsEpochs

  /** DTLS1_RT_HEADER_LENGTH. */
  const RECORD_HEADER: nat := 13

  /** ExplicitNonceLen and the largest tag of a cipher context. */
  datatype Aead = Aead(nonceLen: nat, tagMax: nat)
  {
    function MaxOverhead(): nat {
      nonceLen + tagMax
    }
  }

  datatype Sealed = SealError | NoProgress | SealPartial(r: Record) | SealSuccess(r: Record)

  datatype Packet = TooSmall | Failed | Filled(rs: seq<Record>)

  datatype FlightResult = FlightSent | FlightRefused | FlightFailed

  function TotalLength(rs: seq<Record>): nat {
    if rs == [] then 0 else rs[0].length + TotalLength(rs[1..])
  }

  lemma {:induction false} TotalLengthAppend(rs: seq<Record>, r: Record)
    ensures TotalLength(rs + [r]) == TotalLength(rs) + r.length
  {
    if rs == [] {
      assert rs + [r] == [r] && [r][1..] == [];
    } else {
      assert (rs + [r])[0] == rs[0] && (rs + [r])[1..] == rs[1..] + [r];
      TotalLengthAppend(rs[1..], r);
    }
  }

  function Flatten(packets: seq<seq<Record>>): seq<Record> {
    if packets == [] then [] else packets[0] + Flatten(packets[1..])
  }

  lemma {:induction false} FlattenAppend(packets: seq<seq<Record>>, rs: seq<Record>)
    ensures Flatten(packets + [rs]) == Flatten(packets) + rs
  {
    if packets == [] {
      assert packets + [rs] == [rs] && [rs][1..] == [];
      assert Flatten([rs]) == rs + [] == rs && [] + rs == rs;
    } else {
      assert (packets + [rs])[0] == packets[0] && (packets + [rs])[1..] == packets[1..] + [rs];
      FlattenAppend(packets[1..], rs);
      assert packets[0] + (Flatten(packets[1..]) + rs) == packets[0] + Flatten(packets[1..]) + rs;
    }
  }

  /** What the AEAD does with one record: refuses it, or makes it longer. */
  datatype Seal = Seal(refuses: bool, growth: nat)

  /** An AEAD with the given bounds seals a record if it wants to and can. */
  predicate Seals(aead: Aead, seal: Seal, inLen: int, maxOut: int) {
    !seal.refuses && seal.growth <= aead.MaxOverhead() && inLen + seal.growth <= maxOut
  }

  class Sender {
    var flight: seq<Outgoing>
    var written: nat
    var offset: nat
    var flightComplete: bool
    var flightHasReply: bool
    var handshakeWriteSeq: nat
    var epoch: nat
    var writeSequence: nat
    var lastWriteSequence: nat
    var aead: Aead
    var lastAead: Aead
    var transcript: seq<byte>
    /** Every seal and cipher change of this connection. */
    ghost var events: seq<E.Event>

    ghost function Position(): Pos
      reads this`written, this`offset
    {
      Pos(written, offset)
    }

    ghost predicate Valid()
      reads this
    {
      && |flight| <= FLIGHT && WellFormed(flight) && At(flight, Position())
      && handshakeWriteSeq < 0x1_0000
      && Counting()
    }

    /** The counters are those of the run. */
    ghost predicate Counting()
      reads this`epoch, this`writeSequence, this`lastWriteSequence, this`events
    {
      var side := E.Run(events);
      epoch == E.Epoch(side) && writeSequence == side.next && lastWriteSequence == side.lastNext
    }

    constructor (aead: Aead)
      ensures Valid() && flight == [] && Position() == START && !flightComplete && events == []
      ensures transcript == [] && handshakeWriteSeq == 0
    {
      flight, written, offset, flightComplete, flightHasReply := [], 0, 0, false, false;
      handshakeWriteSeq, epoch, writeSequence, lastWriteSequence := 0, 0, 0, 0;
      this.aead, lastAead := aead, aead;
      transcript := [];
      events := [];
    }

    // ----- queueing -----

    /** dtls_clear_outgoing_messages. */
    method ClearFlight()
      requires Valid()
      modifies this`flight, this`written, this`offset, this`flightComplete, this`flightHasReply
      ensures Valid() && flight == [] && Position() == START && !flightComplete && !flightHasReply
    {
      flight, written, offset, flightComplete, flightHasReply := [], 0, 0, false, false;
    }

    /** add_outgoing: begins a new flight if the last one was flushed, hashes
        what is not ChangeCipherSpec, and keeps the epoch it belongs to. */
    method AddOutgoing(isCcs: bool, data: seq<byte>) returns (ok: bool)
      requires Valid() && (isCcs || Whole(Outgoing(data, epoch, false)).Some?)
      modifies this
      ensures Valid() && events == old(events) && aead == old(aead) && lastAead == old(lastAead) && !flightComplete
      ensures
        var before := if old(flightComplete) then [] else old(flight);
        if ok then
          && flight == before + [Outgoing(data, epoch, isCcs)]
          && transcript == old(transcript) + (if isCcs then [] else data)
          && handshakeWriteSeq == (old(handshakeWriteSeq) + if isCcs then 0 else 1) % 0x1_0000
          && Position() == if old(flightComplete) then START else old(Position())
        else
          |before| == FLIGHT && flight == before && transcript == old(transcript)
          && handshakeWriteSeq == old(handshakeWriteSeq)
      ensures !ok ==> |flight| == FLIGHT
    {
      hide Whole;
      if flightComplete {
        ClearFlight();
      }
      if |flight| >= FLIGHT {
        return false;
      }
      if !isCcs {
        transcript := transcript + data;
        handshakeWriteSeq := (handshakeWriteSeq + 1) % 0x1_0000;
      }
      flight := flight + [Outgoing(data, epoch, isCcs)];
      return true;
    }

    /** dtls1_init_message and dtls1_finish_message: the length goes in as the
        fragment length first and is copied over the message length. */
    method BuildMessage(kind: byte, body: seq<byte>) returns (ok: bool, msg: seq<byte>)
      requires Valid()
      ensures ok <==> |body| < TWO24
      ensures ok ==> msg == RawBytes(Message(kind, handshakeWriteSeq, body))
    {
      if |body| >= TWO24 {
        return false, [];
      }
      msg := [kind] + U24(0) + U16(handshakeWriteSeq) + U24(0) + U24(|body|) + body;
      msg := msg[..1] + msg[HEADER_LENGTH - 3..HEADER_LENGTH] + msg[4..];
      ok := true;
      assert msg[1..4] == U24(|body|);
      assert msg == [kind] + U24(|body|) + U16(handshakeWriteSeq) + U24(0) + U24(|body|) + body;
    }

    /** ssl_add_message_cbb over DTLS: the message hashed is the one queued. */
    method AddMessage(kind: byte, body: seq<byte>) returns (ok: bool)
      requires Valid()
      modifies this
      ensures Valid() && events == old(events)
      ensures
        var m := Message(kind, old(handshakeWriteSeq), body);
        var before := if old(flightComplete) then [] else old(flight);
        if ok then
          && Sendable(m) && flight == before + [Outgoing(RawBytes(m), epoch, false)]
          && transcript == old(transcript) + RawBytes(m)
          && handshakeWriteSeq == (m.sequence + 1) % 0x1_0000
        else
          && (|body| >= TWO24 || (|before| == FLIGHT && flight == before))
          && transcript == old(transcript) && handshakeWriteSeq == m.sequence
    {
      hide Whole, HeaderBytes;
      var msg;
      ok, msg := BuildMessage(kind, body);
      if ok {
        RawIsWhole(Message(kind, handshakeWriteSeq, body), epoch);
        ok := AddOutgoing(false, msg);
      }
    }

    // ----- sealing -----

    /** The cipher context of an epoch, and its counter. */
    function Context(previous: bool): Aead
      reads this`aead, this`lastAead
    {
      if previous then lastAead else aead
    }

    function Counter(previous: bool): nat
      reads this
    {
      if previous then lastWriteSequence else writeSequence
    }

    /** Sealing a payload of that length works, and its number is not the
        counter's last. */
    predicate Sealable(previous: bool, len: int, maxOut: int, seal: Seal)
      reads this
    {
      && Seals(Context(previous), seal, len, maxOut - RECORD_HEADER)
      && E.Increment(Counter(previous)) != 0 && len + seal.growth < 0x1_0000
    }

    /** dtls_seal_record. A counter that wraps fails the call, but the number
        it used is spent. */
    method SealRecord(isCcs: bool, payload: seq<byte>, previous: bool, maxOut: nat, seal: Seal)
      returns (ok: bool, r: Record)
      requires Valid() && (previous ==> epoch >= 1)
      modifies this`writeSequence, this`lastWriteSequence, this`events
      ensures Valid()
      ensures if Seals(Context(previous), seal, |payload|, maxOut - RECORD_HEADER)
              then events == old(events) + [E.Seal(previous, true)] else !ok && events == old(events)
      ensures ok <==> old(Sealable(previous, |payload|, maxOut, seal))
      ensures ok ==> events == old(events) + [E.Seal(previous, true)]
      ensures writeSequence == old(writeSequence) || writeSequence == E.Increment(old(writeSequence))
      ensures lastWriteSequence == old(lastWriteSequence) || lastWriteSequence == E.Increment(old(lastWriteSequence))
      ensures writeSequence == old(writeSequence) || lastWriteSequence == old(lastWriteSequence)
      ensures ok ==> r == Record(isCcs, if previous then epoch - 1 else epoch, payload,
                                 RECORD_HEADER + |payload| + seal.growth)
      ensures ok ==> r.length <= maxOut
    {
      hide WellFormed, At;
      r := Record(isCcs, if previous then epoch - 1 else epoch, payload, 0);
      if maxOut < RECORD_HEADER || !Seals(Context(previous), seal, |payload|, maxOut - RECORD_HEADER) {
        return false, r;
      }
      var cipherLen := |payload| + seal.growth;
      E.RunMore(events, E.Seal(previous, true));
      events := events + [E.Seal(previous, true)];
      var next;
      if previous {
        lastWriteSequence := E.Increment(lastWriteSequence);
        next := lastWriteSequence;
      } else {
        writeSequence := E.Increment(writeSequence);
        next := writeSequence;
      }
      if next == 0 {
        return false, r;
      }
      if cipherLen >= 0x1_0000 {
        return false, r;
      }
      return true, r.(length := RECORD_HEADER + cipherLen);
    }

    /** dtls1_set_write_state. */
    method SetWriteState(next: Aead)
      requires Valid()
      modifies this`epoch, this`writeSequence, this`lastWriteSequence, this`aead, this`lastAead, this`events
      ensures Valid() && events == old(events) + [E.Change]
      ensures lastAead == old(aead) && aead == next
    {
      epoch := (epoch + 1) % E.EPOCHS;
      lastWriteSequence, writeSequence := writeSequence, 0;
      lastAead, aead := aead, next;
      E.RunMore(events, E.Change);
      events := events + [E.Change];
    }

    /** The epoch a queued message goes out under, if it is still live. */
    function UsesPrevious(o: Outgoing): bool
      reads this`epoch
    {
      epoch >= 1 && o.epoch == epoch - 1
    }

    predicate Live(o: Outgoing)
      reads this`epoch
    {
      UsesPrevious(o) || o.epoch == epoch
    }

    /** dtls_max_seal_overhead */
    function Overhead(o: Outgoing): nat
      reads this`epoch, this`aead, this`lastAead
    {
      RECORD_HEADER + Context(UsesPrevious(o)).MaxOverhead()
    }

    /** Room the next record needs before it makes progress. */
    function Room(o: Outgoing): nat
      reads this`epoch, this`aead, this`lastAead
    {
      Overhead(o) + if o.isCcs then 1 else HEADER_LENGTH + 1
    }

    /** Length of the next record's payload: all that is left of the message,
        or all there is room for. */
    function NextPayload(o: Outgoing, left: int, maxOut: int): int
      reads this`epoch, this`aead, this`lastAead
    {
      if o.isCcs then 1
      else HEADER_LENGTH + if left <= maxOut - HEADER_LENGTH - Overhead(o) then left
                           else maxOut - HEADER_LENGTH - Overhead(o)
    }

    /** Neither cipher context refuses such a record. */
    predicate Obliging(seal: Seal)
      reads this`aead, this`lastAead
    {
      !seal.refuses && seal.growth <= aead.MaxOverhead() && seal.growth <= lastAead.MaxOverhead()
    }

    /** Nothing stands in the way of sealing: no refusal, no record too long, no
        message of a dead epoch, no counter near its end. */
    ghost predicate Clear(p: Pos, seals: nat -> Seal, maxOut: nat)
      requires WellFormed(flight) && At(flight, p)
      reads this
    {
      && (forall n: nat :: Obliging(seals(n))) && maxOut < 0x1_0000
      && (forall k :: p.written <= k < |flight| ==> Live(flight[k]))
      && writeSequence + RecordsLeft(flight, p) < E.SEQUENCES
      && lastWriteSequence + RecordsLeft(flight, p) < E.SEQUENCES
    }

    /** Every message from there on could begin a packet. */
    ghost predicate Roomy(p: Pos, mtu: nat)
      reads this`flight, this`epoch, this`aead, this`lastAead
    {
      forall k :: p.written <= k < |flight| ==> Room(flight[k]) <= mtu
    }

    /** The next message can be sealed, whichever of its bytes are left. */
    predicate Open(maxOut: int, seal: Seal)
      requires written < |flight|
      reads this
    {
      && Obliging(seal) && Live(flight[written]) && maxOut < 0x1_0000
      && writeSequence + 1 < E.SEQUENCES && lastWriteSequence + 1 < E.SEQUENCES
    }

    lemma OpenSeals(left: nat, maxOut: nat, seal: Seal)
      requires written < |flight| && Open(maxOut, seal)
      ensures Live(flight[written])
      ensures Room(flight[written]) <= maxOut ==>
                Sealable(UsesPrevious(flight[written]), NextPayload(flight[written], left, maxOut), maxOut, seal)
    {
    }

    /** seal_next_message. */
    method SealNextMessage(maxOut: nat, seal: Seal) returns (sealed: Sealed)
      requires Valid() && written < |flight|
      modifies this`offset, this`writeSequence, this`lastWriteSequence, this`events
      ensures Counting() && E.OnlySeals(old(events), events)
      ensures sealed.NoProgress? <==> Live(flight[written]) && maxOut < Room(flight[written])
      ensures
        var o := flight[written];
        var payload := NextPayload(o, |BodyAt(flight, written)| - old(offset), maxOut);
        && (sealed.SealError? <==>
              || !Live(o)
              || (Room(o) <= maxOut && !old(Sealable(UsesPrevious(o), payload, maxOut, seal))))
        && (sealed.SealPartial? || sealed.SealSuccess? ==>
              && Continues(flight, old(Position()), sealed.r)
              && |sealed.r.payload| == payload && sealed.r.length == RECORD_HEADER + payload + seal.growth
              && (sealed.SealSuccess? <==> payload == if o.isCcs then 1
                                                      else HEADER_LENGTH + |BodyAt(flight, written)| - old(offset))
              && After(flight, old(Position()), sealed.r)
                 == (if sealed.SealSuccess? then Pos(written + 1, offset) else Pos(written, offset))
              && events == old(events) + [E.Seal(UsesPrevious(o), true)])
      ensures match sealed
              case SealError => offset == old(offset)
              case NoProgress =>
                && offset == old(offset) && events == old(events)
                && writeSequence == old(writeSequence) && lastWriteSequence == old(lastWriteSequence)
              case SealPartial(r) =>
                offset > 0 && r.length <= maxOut && |r.payload| == maxOut - Overhead(flight[written])
              case SealSuccess(r) => offset == 0 && r.length <= maxOut
      ensures writeSequence <= old(writeSequence) + 1 && lastWriteSequence <= old(lastWriteSequence) + 1
    {
      hide Seals, Sealable, E.Run, E.OnlySeals;
      E.SealsNone(events);
      var o := flight[written];
      var previous := UsesPrevious(o);
      if !Live(o) {
        return SealError;
      }
      if o.isCcs {
        if maxOut < Room(o) {
          return NoProgress;
        }
        hide Whole;
        var ok, r := SealRecord(true, [1], previous, maxOut, seal);
        assert old(events) + [] == old(events);
        E.SealsMore(old(events), old(events), events);
        return if ok then SealSuccess(r) else SealError;
      }
      sealed := SealFragment(o, Whole(o).value, previous, maxOut, seal);
    }

    /** The handshake half of seal_next_message. */
    method SealFragment(o: Outgoing, m: Message, previous: bool, maxOut: nat, seal: Seal) returns (sealed: Sealed)
      requires Valid() && written < |flight| && o == flight[written] && !o.isCcs && Whole(o) == Some(m)
      requires previous == UsesPrevious(o) && Live(o)
      modifies this`offset, this`writeSequence, this`lastWriteSequence, this`events
      ensures Counting() && E.OnlySeals(old(events), events)
      ensures sealed.NoProgress? <==> maxOut < Room(o)
      ensures
        var left := |m.body| - old(offset);
        var room := maxOut - HEADER_LENGTH - Overhead(o);
        var carried := if left <= room then left else room;
        && (sealed.SealError? <==>
              maxOut >= Room(o) && !old(Sealable(previous, HEADER_LENGTH + carried, maxOut, seal)))
        && (sealed.SealPartial? || sealed.SealSuccess? ==>
              && Continues(flight, old(Position()), sealed.r)
              && Carried(sealed.r) == carried
              && sealed.r.length == RECORD_HEADER + HEADER_LENGTH + carried + seal.growth
              && (sealed.SealSuccess? <==> carried == left)
              && After(flight, old(Position()), sealed.r)
                 == (if sealed.SealSuccess? then Pos(written + 1, offset) else Pos(written, offset))
              && events == old(events) + [E.Seal(previous, true)])
      ensures match sealed
              case SealError => offset == old(offset)
              case NoProgress =>
                && offset == old(offset) && events == old(events)
                && writeSequence == old(writeSequence) && lastWriteSequence == old(lastWriteSequence)
              case SealPartial(r) => offset > 0 && r.length <= maxOut
              case SealSuccess(r) => offset == 0 && r.length <= maxOut
      ensures writeSequence <= old(writeSequence) + 1 && lastWriteSequence <= old(lastWriteSequence) + 1
    {
      hide Whole, HeaderBytes, Seals, Sealable, E.Run, E.OnlySeals;
      E.SealsNone(events);
      var overhead := RECORD_HEADER + Context(previous).MaxOverhead();
      var prefix := RECORD_HEADER + Context(previous).nonceLen;
      if maxOut < HEADER_LENGTH + 1 + overhead || maxOut < prefix {
        return NoProgress;
      }
      var left := |m.body| - offset;
      var todo := if left > maxOut - HEADER_LENGTH - overhead then maxOut - HEADER_LENGTH - overhead else left;
      // The fragment fits between the prefix and the end of the packet.
      assert HEADER_LENGTH + todo <= maxOut - prefix;
      var ok, r := SealRecord(false, Fragment(m, offset, todo), previous, maxOut, seal);
      assert old(events) + [] == old(events);
      E.SealsMore(old(events), old(events), events);
      if !ok {
        return SealError;
      }
      if todo == left {
        offset := 0;
        return SealSuccess(r);
      }
      offset := offset + todo;
      return SealPartial(r);
    }

    /** No more would have fitted: the last record is part of a message and
        fills the packet, or the next message does not begin in it. */
    ghost predicate Full(rs: seq<Record>, q: Pos, maxOut: int)
      requires rs != []
      reads this`flight, this`epoch, this`aead, this`lastAead
    {
      q.written < |flight| ==>
        var o, last := flight[q.written], |rs| - 1;
        if q.offset > 0 then
          rs[last].length <= maxOut - TotalLength(rs[..last])
          && Carried(rs[last]) == maxOut - TotalLength(rs[..last]) - HEADER_LENGTH - Overhead(o)
        else Live(o) && maxOut - TotalLength(rs) < Room(o)
    }

    lemma FullAtNext(rs: seq<Record>, q: Pos, maxOut: int)
      requires rs != [] && q.offset == 0
      requires q.written < |flight| ==>
                 Live(flight[q.written]) && maxOut - TotalLength(rs) < Room(flight[q.written])
      ensures Full(rs, q, maxOut)
    {
    }

    lemma FullOfPartial(rs: seq<Record>, r: Record, q: Pos, maxOut: int)
      requires q.written < |flight| && q.offset > 0 && r.length <= maxOut - TotalLength(rs)
      requires |r.payload| == maxOut - TotalLength(rs) - Overhead(flight[q.written])
      ensures Full(rs + [r], q, maxOut)
    {
      assert (rs + [r])[..|rs|] == rs;
    }

    /** The packets lead from stop to stop, each as full as it can be. */
    ghost predicate Legs(p: Pos, packets: seq<seq<Record>>, stops: seq<Pos>, mtu: nat)
      requires WellFormed(flight)
      reads this`flight, this`epoch, this`aead, this`lastAead
    {
      && |stops| == |packets| + 1 && stops[0] == p
      && forall i :: 0 <= i < |packets| ==> Leg(stops[i], packets[i], stops[i + 1], mtu)
    }

    lemma LegsMore(p: Pos, packets: seq<seq<Record>>, stops: seq<Pos>, rs: seq<Record>, q: Pos, mtu: nat)
      requires WellFormed(flight) && Legs(p, packets, stops, mtu) && Leg(stops[|packets|], rs, q, mtu)
      ensures Legs(p, packets + [rs], stops + [q], mtu)
    {
      hide Leg;
    }

    ghost predicate Leg(p: Pos, rs: seq<Record>, q: Pos, mtu: nat)
      requires WellFormed(flight)
      reads this`flight, this`epoch, this`aead, this`lastAead
    {
      && rs != [] && TotalLength(rs) <= mtu
      && At(flight, p) && Path(flight, p, rs, q)
      && |rs| == q.written - p.written + (if q.offset > 0 then 1 else 0)
      && Full(rs, q, mtu)
    }

    /** Nothing stands in the way of the whole flight from there on. */
    ghost predicate Unhindered(p: Pos, seals: nat -> nat -> Seal, mtu: nat)
      requires WellFormed(flight) && At(flight, p)
      reads this
    {
      (forall i: nat :: Clear(p, seals(i), mtu)) && Roomy(p, mtu)
    }

    lemma OneMoreRecord(p0: Pos, rs: seq<Record>, p: Pos, r: Record)
      requires WellFormed(flight) && At(flight, p0) && Path(flight, p0, rs, p)
      requires At(flight, p) && Continues(flight, p, r)
      ensures At(flight, After(flight, p, r)) && Path(flight, p0, rs + [r], After(flight, p, r))
      ensures TotalLength(rs + [r]) == TotalLength(rs) + r.length
    {
      hide WellFormed, At, Path, Continues, After, TotalLength;
      Extend(flight, p0, rs, p, r);
      TotalLengthAppend(rs, r);
    }

    /** One turn of seal_next_packet's loop, after `rs` of the packet. */
    method PacketTurn(rs: seq<Record>, room: nat, seal: Seal, ghost p0: Pos, ghost maxOut: nat)
      returns (sealed: Sealed)
      requires Valid() && written < |flight| && TotalLength(rs) + room == maxOut && (rs != [] ==> offset == 0)
      requires At(flight, p0) && Path(flight, p0, rs, Position())
      modifies this`written, this`offset, this`writeSequence, this`lastWriteSequence, this`events
      ensures Valid() && E.OnlySeals(old(events), events)
      ensures sealed.NoProgress? <==> old(Live(flight[written]) && room < Room(flight[written]))
      ensures sealed.SealError? ==> !old(Open(room, seal))
      ensures match sealed
              case SealError => Position() == old(Position())
              case NoProgress =>
                && Position() == old(Position()) && (rs != [] ==> Full(rs, Position(), maxOut))
                && writeSequence == old(writeSequence) && lastWriteSequence == old(lastWriteSequence)
              case SealPartial(r) =>
                && Path(flight, p0, rs + [r], Position()) && TotalLength(rs + [r]) <= maxOut
                && written == old(written) && offset > 0 && Full(rs + [r], Position(), maxOut)
              case SealSuccess(r) =>
                && Path(flight, p0, rs + [r], Position()) && TotalLength(rs + [r]) + room - r.length == maxOut
                && written == old(written) + 1 && offset == 0 && r.length <= room
      ensures writeSequence <= old(writeSequence) + 1 && lastWriteSequence <= old(lastWriteSequence) + 1
    {
      hide Whole, Continues, After, At, WellFormed, BodyAt, E.Run, E.OnlySeals;
      hide Seals, Sealable, Room, Live, UsesPrevious, NextPayload, Overhead, Full, TotalLength, Path, Carried;
      hide Open, Counting;
      ghost var p := Position();
      OffsetFits(flight, p);
      if Open(room, seal) {
        OpenSeals(|BodyAt(flight, written)| - offset, room, seal);
      }
      sealed := SealNextMessage(room, seal);
      match sealed {
        case SealError =>
        case NoProgress =>
          if rs != [] {
            FullAtNext(rs, p, maxOut);
          }
        case SealPartial(r) =>
          OneMoreRecord(p0, rs, p, r);
          FullOfPartial(rs, r, Position(), maxOut);
        case SealSuccess(r) =>
          OneMoreRecord(p0, rs, p, r);
          written := written + 1;
      }
    }

    /** seal_next_packet: as many records as fit, one a message. */
    method SealNextPacket(maxOut: nat, seals: nat -> Seal) returns (packet: Packet)
      requires Valid() && written < |flight|
      modifies this`written, this`offset, this`writeSequence, this`lastWriteSequence, this`events
      ensures Valid() && E.OnlySeals(old(events), events)
      ensures packet.TooSmall? <==> old(Live(flight[written]) && maxOut < Room(flight[written]))
      ensures packet.TooSmall? ==> Position() == old(Position())
      ensures packet.Failed? ==> !old(Clear(Position(), seals, maxOut))
      ensures packet.Filled? ==>
        && Leg(old(Position()), packet.rs, Position(), maxOut)
        && Path(flight, old(Position()), packet.rs, Position())
        && Less(flight, Position(), old(Position()))
        && writeSequence <= old(writeSequence) + |packet.rs|
        && lastWriteSequence <= old(lastWriteSequence) + |packet.rs|
    {
      hide Whole, Continues, After, At, WellFormed, BodyAt, RecordsLeft, Less, E.Run, E.OnlySeals;
      hide Room, Live, UsesPrevious, Overhead, Full;
      E.SealsNone(events);
      var rs: seq<Record> := [];
      var room: int := maxOut;
      ghost var p0 := Position();
      while written < |flight|
        invariant Valid() && TotalLength(rs) + room == maxOut && room >= 0 && E.OnlySeals(old(events), events)
        invariant Path(flight, p0, rs, Position())
        invariant |rs| == written - p0.written && (rs != [] ==> offset == 0)
        invariant rs == [] ==> Position() == p0
        invariant rs != [] ==> !old(Live(flight[written]) && maxOut < Room(flight[written]))
        invariant writeSequence <= old(writeSequence) + |rs| && lastWriteSequence <= old(lastWriteSequence) + |rs|
        decreases |flight| - written
      {
        ghost var sofar := events;
        PathTakes(flight, p0, rs, Position());
        RecordsLeftPositive(flight, Position());
        var sealed := PacketTurn(rs, room, seals(|rs|), p0, maxOut);
        E.SealsThen(old(events), sofar, events);
        match sealed {
          case SealError => return Failed;
          case NoProgress => break;
          case SealPartial(r) =>
            rs := rs + [r];
            break;
          case SealSuccess(r) =>
            rs := rs + [r];
            room := room - r.length;
        }
      }
      if rs == [] {
        return TooSmall;
      }
      if written == |flight| {
        FullAtNext(rs, Position(), maxOut);
      }
      PathProgress(flight, p0, rs, Position());
      return Filled(rs);
    }

    /** send_flight: packets until the flight is out, the transport refuses one
        or sealing fails. `packets` are those the transport took, and `stops`
        where they begin and end. After a refusal the position is where those
        packets lead, so the refused content is what goes out next. What
        happens to packet i is `seals(i)` and `accepts(i)`. */
    method SendFlight(mtu: nat, seals: nat -> nat -> Seal, accepts: nat -> bool, flushes: bool)
      returns (result: FlightResult, packets: seq<seq<Record>>, ghost stops: seq<Pos>)
      requires Valid()
      modifies this`written, this`offset, this`writeSequence, this`lastWriteSequence, this`events
      ensures Valid() && E.OnlySeals(old(events), events)
      ensures Legs(old(Position()), packets, stops, mtu) && At(flight, stops[|packets|])
      ensures Path(flight, old(Position()), Flatten(packets), stops[|packets|])
      ensures !result.FlightFailed? ==> Position() == stops[|packets|]
      ensures forall i :: 0 <= i < |packets| ==> accepts(i)
      ensures result.FlightSent? ==> written == |flight| && flushes
      ensures result.FlightRefused? ==> if written == |flight| then !flushes else !accepts(|packets|)
      ensures old(Unhindered(Position(), seals, mtu)) ==> !result.FlightFailed?
    {
      hide Whole, WellFormed, At, Path, Leg, RecordsLeft, Flatten, E.Run, E.OnlySeals;
      hide Live, Room, Obliging;
      E.SealsNone(events);
      packets := [];
      stops := [Position()];
      FlattenNil();
      PathNil(flight, Position());
      while written < |flight|
        invariant Valid() && E.OnlySeals(old(events), events)
        invariant Legs(old(Position()), packets, stops, mtu) && Position() == stops[|packets|]
        invariant Path(flight, old(Position()), Flatten(packets), Position())
        invariant forall i :: 0 <= i < |packets| ==> accepts(i)
        invariant old(written) <= written
        invariant writeSequence <= old(writeSequence) + |Flatten(packets)|
        invariant lastWriteSequence <= old(lastWriteSequence) + |Flatten(packets)|
        decreases MessagesLeft(flight, Position()), BytesLeft(flight, Position())
      {
        var oldWritten, oldOffset := written, offset;
        LeftIsNatural(flight, Position());
        ghost var sofar := events;
        PathTakes(flight, old(Position()), Flatten(packets), Position());
        assert old(Unhindered(Position(), seals, mtu) ==> Clear(Position(), seals(|packets|), mtu));
        var packet := SealNextPacket(mtu, seals(|packets|));
        E.SealsThen(old(events), sofar, events);
        if !packet.Filled? {
          return FlightFailed, packets, stops;
        }
        if !accepts(|packets|) {
          written, offset := oldWritten, oldOffset;
          return FlightRefused, packets, stops;
        }
        FlattenAppend(packets, packet.rs);
        PathThen(flight, old(Position()), Flatten(packets), stops[|packets|], packet.rs, Position());
        LegsMore(old(Position()), packets, stops, packet.rs, Position(), mtu);
        packets, stops := packets + [packet.rs], stops + [Position()];
        LeftIsNatural(flight, Position());
      }
      LeftIsNatural(flight, Position());
      return if flushes then FlightSent else FlightRefused, packets, stops;
    }

    /** dtls1_flush_flight: the flight is complete from now on. */
    method FlushFlight(mtu: nat, seals: nat -> nat -> Seal, accepts: nat -> bool, flushes: bool)
      returns (result: FlightResult, packets: seq<seq<Record>>, ghost stops: seq<Pos>)
      requires Valid()
      modifies this`flightComplete, this`written, this`offset, this`writeSequence, this`lastWriteSequence, this`events
      ensures Valid() && flightComplete && E.OnlySeals(old(events), events)
      ensures Legs(old(Position()), packets, stops, mtu) && At(flight, stops[|packets|])
      ensures Path(flight, old(Position()), Flatten(packets), stops[|packets|])
      ensures !result.FlightFailed? ==> Position() == stops[|packets|]
      ensures forall i :: 0 <= i < |packets| ==> accepts(i)
      ensures result.FlightSent? ==> written == |flight| && flushes
      ensures result.FlightRefused? ==> if written == |flight| then !flushes else !accepts(|packets|)
      ensures old(Unhindered(Position(), seals, mtu)) ==> !result.FlightFailed?
    {
      hide WellFormed, At, Path, RecordsLeft, Flatten, Leg, E.Run, E.OnlySeals;
      flightComplete := true;
      result, packets, stops := SendFlight(mtu, seals, accepts, flushes);
    }

    /** dtls1_retransmit_outgoing_messages: from the start, at any MTU. A
        retransmission that ends well carries the whole flight again. */
    method Retransmit(mtu: nat, seals: nat -> nat -> Seal, accepts: nat -> bool, flushes: bool)
      returns (result: FlightResult, packets: seq<seq<Record>>, ghost stops: seq<Pos>)
      requires Valid()
      modifies this`written, this`offset, this`writeSequence, this`lastWriteSequence, this`events
      ensures Valid() && At(flight, START) && E.OnlySeals(old(events), events)
      ensures Legs(START, packets, stops, mtu) && At(flight, stops[|packets|])
      ensures Path(flight, START, Flatten(packets), stops[|packets|])
      ensures !result.FlightFailed? ==> Position() == stops[|packets|]
      ensures forall i :: 0 <= i < |packets| ==> accepts(i)
      ensures result.FlightSent? ==> stops[|packets|] == Pos(|flight|, 0) && flushes
      ensures result.FlightRefused? ==> if written == |flight| then !flushes else !accepts(|packets|)
      ensures old(Unhindered(START, seals, mtu)) ==> !result.FlightFailed?
    {
      hide WellFormed, At, Path, RecordsLeft, Flatten, Leg, E.Run, E.OnlySeals;
      StartIsAt(flight);
      written, offset := 0, 0;
      result, packets, stops := SendFlight(mtu, seals, accepts, flushes);
      EndIsWhole(flight, stops[|packets|]);
    }
  }

  /** Whatever a sender did: before the 16-bit epoch wraps, no epoch and number
      were sealed twice exactly if nothing was sealed past a counter's wrap. */
  lemma SenderIsFresh(sender: Sender)
    requires sender.Valid() && E.Changes(sender.events) < E.EPOCHS
    ensures (forall pair :: E.Uses(E.FRESH, sender.events, pair) <= 1) <==>
            !E.SealsPastWrap(E.FRESH, false, false, sender.events)
  {
    E.FreshExactly(sender.events);
  }

  lemma StartIsAt(flight: seq<Outgoing>)
    requires WellFormed(flight)
    ensures At(flight, START)
  {
  }

  lemma OffsetFits(flight: seq<Outgoing>, p: Pos)
    requires WellFormed(flight) && At(flight, p) && p.written < |flight|
    ensures p.offset <= |BodyAt(flight, p.written)|
  {
  }

  lemma EndIsWhole(flight: seq<Outgoing>, p: Pos)
    requires WellFormed(flight) && At(flight, p)
    ensures p.written == |flight| ==> p == Pos(|flight|, 0)
  {
  }

  lemma FlattenNil()
    ensures Flatten([]) == []
  {
  }

  lemma PathNil(flight: seq<Outgoing>, p: Pos)
    requires WellFormed(flight) && At(flight, p)
    ensures Path(flight, p, [], p)
  {
  }

  lemma LeftIsNatural(flight: seq<Outgoing>, p: Pos)
    requires WellFormed(flight) && At(flight, p)
    ensures MessagesLeft(flight, p) >= 0 && BytesLeft(flight, p) >= 0
  {
  }

  lemma Extend(flight: seq<Outgoing>, p: Pos, rs: seq<Record>, q: Pos, r: Record)
    requires WellFormed(flight) && At(flight, p) && Path(flight, p, rs, q) && At(flight, q) && Continues(flight, q, r)
    ensures Path(flight, p, rs + [r], After(flight, q, r))
  {
    hide WellFormed, At, Continues, After;
    assert [r][1..] == [];
    PathThen(flight, p, rs, q, [r], After(flight, q, r));
  }
}
