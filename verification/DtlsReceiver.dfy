/** The receiving side of DTLS1_STATE as it runs: a ring of fragment objects
    that records fill in place. */
module DtlsReceiver {
  import opened Prelude
  import opened DtlsMessage
  import opened DtlsReceive
  import opened DtlsReassembly

  /** `frag` is the object for `slot`, made of objects in `owned`. */
  ghost predicate Represents(frag: HmFragment?, slot: Option<Partial>, owned: set<object>)
    reads owned
  {
    if frag == null then slot == None
    else frag in owned && frag.Repr() <= owned && frag.Valid() && slot == Some(frag.View())
  }

  datatype Outcome = Success | Discard | Failed(alert: Alert)

  class Receiver {
    const incoming: array<HmFragment?>
    var readSeq: nat
    var epoch: nat
    var hasMessage: bool
    var hasChangeCipherSpec: bool
    ghost var slots: seq<Option<Partial>>
    ghost var owned: seq<set<object>>
    ghost var Repr: set<object>

    /** The ring as a value. */
    ghost function View(): Rx
      reads this
    {
      Rx(readSeq, epoch, slots)
    }

    /** The objects of different slots are different. */
    ghost predicate Separate()
      reads this
    {
      && |owned| == FLIGHT
      && (forall i :: 0 <= i < FLIGHT ==> owned[i] <= Repr && this !in owned[i] && incoming !in owned[i])
      && (forall i, j :: 0 <= i < j < FLIGHT ==> owned[i] !! owned[j])
    }

    ghost predicate Valid()
      reads this, Repr
    {
      && this in Repr && incoming in Repr && incoming.Length == FLIGHT
      && Separate()
      && RingInv(View())
      && (forall i :: 0 <= i < FLIGHT ==> Represents(incoming[i], slots[i], owned[i]))
    }

    constructor ()
      ensures Valid() && fresh(Repr)
      ensures View() == Rx(0, 0, seq(FLIGHT, _ => None)) && !hasMessage && !hasChangeCipherSpec
    {
      incoming := new HmFragment?[FLIGHT](_ => null);
      readSeq, epoch, hasMessage, hasChangeCipherSpec := 0, 0, false, false;
      slots := seq(FLIGHT, _ => None);
      owned := seq(FLIGHT, _ => {});
      Repr := {this, incoming};
    }

    /** dtls1_is_current_message_complete. */
    method CurrentComplete() returns (complete: bool)
      requires Valid()
      ensures complete <==> Current(View()).Some?
    {
      var i := readSeq % FLIGHT;
      assert Represents(incoming[i], slots[i], owned[i]);
      var frag := incoming[i];
      if frag != null {
        frag.FreedWhenComplete();
      }
      complete := frag != null && frag.reassembly == null;
    }

    /** dtls1_get_incoming_message. */
    method IncomingMessage(h: Header) returns (alert: Option<Alert>, frag: HmFragment?)
      requires Valid() && Fits(h)
      modifies this`slots, this`owned, this`Repr, incoming
      ensures Valid() && fresh(Repr - old(Repr))
      ensures alert == Some(InternalError) <==> !(readSeq <= h.sequence < readSeq + FLIGHT)
      ensures alert == Some(IllegalParameter) <==>
                readSeq <= h.sequence < readSeq + FLIGHT && Incoming(old(View()), h).None?
      ensures alert.None? || alert == Some(InternalError) || alert == Some(IllegalParameter)
      ensures alert.None? ==> frag != null && frag == incoming[h.sequence % FLIGHT]
      ensures alert.None? ==> slots == old(slots)[h.sequence % FLIGHT := Incoming(old(View()), h)]
      ensures alert.Some? ==> slots == old(slots)
    {
      hide RingInv;
      if h.sequence < readSeq || h.sequence - readSeq >= FLIGHT {
        return Some(InternalError), null;
      }
      assert |slots| == FLIGHT && Incoming(View(), h) == Incoming(View(), h) by { RingLength(View()); }
      var idx := h.sequence % FLIGHT;
      assert Represents(incoming[idx], slots[idx], owned[idx]);
      frag := incoming[idx];
      if frag != null {
        if frag.kind != h.kind || frag.msgLen != h.msgLen {
          return Some(IllegalParameter), null;
        }
        assert slots == slots[idx := slots[idx]];
        return None, frag;
      }
      frag := new HmFragment(h);
      InsertKeepsRing(View(), h);
      incoming[idx] := frag;
      slots := slots[idx := Some(frag.View())];
      owned := owned[idx := frag.Repr()];
      Repr := Repr + frag.Repr();
      alert := None;
    }

    /** One turn of the fragment loop of dtls1_open_handshake. */
    method AcceptFragment(h: Header, body: seq<byte>, maxLen: nat) returns (alert: Option<Alert>)
      requires Valid() && Fits(h) && |body| == h.fragLen
      modifies Repr
      ensures Valid() && fresh(Repr - old(Repr))
      ensures hasMessage == old(hasMessage) && hasChangeCipherSpec == old(hasChangeCipherSpec)
      ensures
        match Accept(old(View()), h, body, maxLen)
        case Next(rx) => alert == None && View() == rx
        case Refuse(a) => alert == Some(a) && View() == old(View())
    {
      hide RingInv;
      RingLength(View());
      if h.fragOff > h.msgLen || h.fragOff + h.fragLen > h.msgLen || h.msgLen > maxLen {
        return Some(IllegalParameter);
      }
      if epoch == 1 && h.sequence != readSeq {
        return Some(UnexpectedMessage);
      }
      if h.sequence < readSeq || h.sequence > readSeq + FLIGHT {
        return None;
      }
      var frag;
      alert, frag := IncomingMessage(h);
      if frag == null || alert.Some? {
        return;
      }
      RingLength(View());
      assert Represents(incoming[h.sequence % FLIGHT], slots[h.sequence % FLIGHT], owned[h.sequence % FLIGHT]);
      Fill(frag, h, body);
    }

    /** Copies the body into the message, unless it is complete. */
    method Fill(frag: HmFragment, h: Header, body: seq<byte>)
      requires Valid() && readSeq <= h.sequence < readSeq + FLIGHT
      requires frag == incoming[h.sequence % FLIGHT] && frag.msgLen == h.msgLen
      requires h.fragOff + |body| <= h.msgLen
      requires h.sequence % FLIGHT < |slots| && slots[h.sequence % FLIGHT].Some?
      modifies this`slots, Repr - {this, incoming}
      ensures Valid()
      ensures
        var p := old(slots[h.sequence % FLIGHT]).value;
        slots == old(slots)[h.sequence % FLIGHT :=
          Some(if Complete(p) then p else p.(body := p.body + Placed(h.fragOff, body)))]
    {
      hide RingInv, Complete;
      RingLength(View());
      var idx := h.sequence % FLIGHT;
      assert Represents(incoming[idx], slots[idx], owned[idx]);
      PlaceKeepsRing(View(), idx, h.fragOff, body);
      frag.Place(h.fragOff, body);
      slots := slots[idx := Some(frag.View())];
    }

    /** The fragment loop of dtls1_open_handshake over a handshake record. */
    method ReadFragments(record: seq<byte>, maxLen: nat) returns (alert: Option<Alert>)
      requires Valid()
      modifies Repr
      ensures Valid() && fresh(Repr - old(Repr))
      ensures hasMessage == old(hasMessage) && hasChangeCipherSpec == old(hasChangeCipherSpec)
      ensures Receive(old(View()), record, maxLen) == Received(View(), alert)
    {
      hide RingInv, Represents, ParseFragment, Accept;
      var rest := record;
      while rest != []
        invariant Valid() && fresh(Repr - old(Repr))
        invariant hasMessage == old(hasMessage) && hasChangeCipherSpec == old(hasChangeCipherSpec)
        invariant Receive(old(View()), record, maxLen) == Receive(View(), rest, maxLen)
        decreases |rest|
      {
        match ParseFragment(rest) {
          case Bad => return Some(DecodeError);
          case Good(h, body, rest') =>
            alert := AcceptFragment(h, body, maxLen);
            if alert.Some? {
              return;
            }
            rest := rest';
        }
      }
      return None;
    }

    /** dtls1_open_handshake, on a record that opened: application data between
        ChangeCipherSpec and Finished is dropped, an unencrypted
        ChangeCipherSpec is noted, and handshake records are read. */
    method OpenHandshake(kind: byte, payload: seq<byte>, nullCipher: bool, maxLen: nat) returns (o: Outcome)
      requires Valid()
      modifies Repr
      ensures Valid() && fresh(Repr - old(Repr)) && hasMessage == old(hasMessage)
      ensures kind == HANDSHAKE ==>
                Received(View(), if o.Failed? then Some(o.alert) else None) == Receive(old(View()), payload, maxLen)
                && !o.Discard?
      ensures kind != HANDSHAKE ==> View() == old(View())
      ensures kind != HANDSHAKE ==>
                o == if kind == APPLICATION_DATA then (if nullCipher then Failed(UnexpectedMessage) else Discard)
                     else if kind != CHANGE_CIPHER_SPEC || !nullCipher then Failed(UnexpectedMessage)
                     else if payload != [1] then Failed(IllegalParameter)
                     else Success
      ensures hasChangeCipherSpec == (old(hasChangeCipherSpec) || (kind == CHANGE_CIPHER_SPEC && o.Success?))
    {
      if kind == APPLICATION_DATA {
        return if nullCipher then Failed(UnexpectedMessage) else Discard;
      } else if kind == CHANGE_CIPHER_SPEC {
        if !nullCipher {
          return Failed(UnexpectedMessage);
        }
        if |payload| != 1 || payload[0] != 1 {
          return Failed(IllegalParameter);
        }
        hasChangeCipherSpec := true;
        return Success;
      } else if kind != HANDSHAKE {
        return Failed(UnexpectedMessage);
      }
      var alert := ReadFragments(payload, maxLen);
      o := if alert.Some? then Failed(alert.value) else Success;
    }

    /** dtls1_open_change_cipher_spec: with a noted ChangeCipherSpec nothing is
        read; otherwise any record of the handshake is. */
    method OpenChangeCipherSpec(kind: byte, payload: seq<byte>, nullCipher: bool, maxLen: nat) returns (o: Outcome)
      requires Valid()
      modifies Repr
      ensures Valid() && fresh(Repr - old(Repr)) && hasMessage == old(hasMessage)
      ensures !hasChangeCipherSpec
      ensures old(hasChangeCipherSpec) ==> o.Success? && View() == old(View())
      ensures !old(hasChangeCipherSpec) && kind == HANDSHAKE ==>
                var r := Receive(old(View()), payload, maxLen);
                View() == r.rx && o == if r.alert.Some? then Failed(r.alert.value) else Discard
      ensures !old(hasChangeCipherSpec) && kind != HANDSHAKE ==>
                && View() == old(View())
                && o == if kind == APPLICATION_DATA then (if nullCipher then Failed(UnexpectedMessage) else Discard)
                        else if kind != CHANGE_CIPHER_SPEC || !nullCipher then Failed(UnexpectedMessage)
                        else if payload != [1] then Failed(IllegalParameter)
                        else Success
    {
      if !hasChangeCipherSpec {
        o := OpenHandshake(kind, payload, nullCipher, maxLen);
        if o.Failed? || o.Discard? {
          return;
        }
      }
      if !hasChangeCipherSpec {
        return Discard;
      }
      hasChangeCipherSpec := false;
      o := Success;
    }

    /** dtls1_get_message: the first message of the ring, header and all. */
    method GetMessage() returns (raw: Option<seq<byte>>)
      requires Valid()
      modifies this`hasMessage
      ensures Valid()
      ensures
        match Current(View())
        case None => raw == None && hasMessage == old(hasMessage)
        case Some(m) => raw == Some(RawBytes(m)) && hasMessage
    {
      hide RingInv, HeaderBytes;
      var complete := CurrentComplete();
      if !complete {
        return None;
      }
      var i := readSeq % FLIGHT;
      RingLength(View());
      assert Represents(incoming[i], slots[i], owned[i]);
      var frag := incoming[i];
      hasMessage := true;
      raw := Some(frag.data[..]);
      assert frag.data[..] == frag.data[..HEADER_LENGTH] + frag.data[HEADER_LENGTH..];
      assert frag.data[HEADER_LENGTH..] == BodyOf(frag.View());
    }

    /** dtls1_next_message. */
    method NextMessage()
      requires Valid() && hasMessage && Current(View()).Some?
      modifies this, incoming
      ensures Valid() && Repr == old(Repr)
      ensures View() == Advance(old(View())) && !hasMessage && hasChangeCipherSpec == old(hasChangeCipherSpec)
    {
      hide RingInv;
      ghost var rx := View();
      RingLength(rx);
      assert RingInv(Advance(rx));
      var i := readSeq % FLIGHT;
      incoming[i] := null;
      slots := slots[i := None];
      owned := owned[i := {}];
      readSeq := (readSeq + 1) % 0x1_0000;
      hasMessage := false;
    }

    /** dtls_has_unprocessed_handshake_data */
    method HasUnprocessedData() returns (leftover: bool)
      requires Valid() && (hasMessage ==> Current(View()).Some?)
      ensures leftover <==>
                || hasChangeCipherSpec
                || exists i :: 0 <= i < FLIGHT && slots[i].Some? && !(hasMessage && i == readSeq % FLIGHT)
    {
      if hasChangeCipherSpec {
        return true;
      }
      hide RingInv;
      RingLength(View());
      var current := readSeq % FLIGHT;
      var i := 0;
      while i < FLIGHT
        invariant 0 <= i <= FLIGHT
        invariant forall j :: 0 <= j < i ==> slots[j].None? || (hasMessage && j == current)
      {
        assert Represents(incoming[i], slots[i], owned[i]);
        if !(hasMessage && i == current) && incoming[i] != null {
          return true;
        }
        i := i + 1;
      }
      return false;
    }

    /** dtls1_set_read_state: refused while anything of the old epoch is left. */
    method SetReadState() returns (ok: bool)
      requires Valid() && (hasMessage ==> Current(View()).Some?)
      modifies this`epoch
      ensures Valid()
      ensures ok <==>
                && !hasChangeCipherSpec
                && forall i :: 0 <= i < FLIGHT && slots[i].Some? ==> hasMessage && i == readSeq % FLIGHT
      ensures View() == if ok then old(View()).(epoch := (old(epoch) + 1) % 0x1_0000) else old(View())
    {
      hide RingInv;
      var leftover := HasUnprocessedData();
      if leftover {
        return false;
      }
      ghost var rx := View();
      assert RingInv(rx.(epoch := (epoch + 1) % 0x1_0000)) by {
        EpochKeepsRing(rx, (epoch + 1) % 0x1_0000);
      }
      epoch := (epoch + 1) % 0x1_0000;
      ok := true;
    }
  }

  lemma PlaceKeepsRing(rx: Rx, i: nat, off: nat, body: seq<byte>)
    requires RingInv(rx) && i < FLIGHT && rx.slots[i].Some? && off + |body| <= rx.slots[i].value.msgLen
    ensures
      var p := rx.slots[i].value;
      RingInv(rx.(slots := rx.slots[i := Some(if Complete(p) then p else p.(body := p.body + Placed(off, body)))]))
  {
  }

  lemma EpochKeepsRing(rx: Rx, epoch: nat)
    requires RingInv(rx)
    ensures RingInv(rx.(epoch := epoch))
  {
  }

  lemma InsertKeepsRing(rx: Rx, h: Header)
    requires RingInv(rx) && Fits(h) && rx.readSeq <= h.sequence < rx.readSeq + FLIGHT
    ensures RingInv(rx.(slots := rx.slots[h.sequence % FLIGHT := Some(Partial(h.kind, h.sequence, h.msgLen, map[]))]))
  {
  }
}
