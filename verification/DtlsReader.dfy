/** The record layer and the handshake's receiver as they run together
    (dtls_open_record under dtls1_open_handshake and the calls around it). Each
    call is proved to be the reader's part of an event of DtlsEndToEnd. */
module DtlsReader {
  import opened Prelude
  import opened DtlsMessage
  import opened DtlsReceive
  import opened DtlsReceiver
  import opened DtlsReplay
  import N = DtlsEndToEnd

  /** What an event makes of the reader. */
  ghost predicate Same(receiver: Receiver, s: N.System)
    reads receiver
  {
    receiver.View() == s.rx && receiver.hasChangeCipherSpec == s.ccs
  }

  class Reader {
    const records: RecordReader
    const receiver: Receiver

    /** Both count the same epochs. */
    ghost predicate Valid()
      reads this, records, records.bitmap, receiver, receiver.Repr
    {
      && records.Valid() && receiver.Valid() && records.epoch == receiver.epoch
      && records !in receiver.Repr && records.bitmap !in receiver.Repr && this !in receiver.Repr
    }

    constructor ()
      ensures Valid() && fresh(records) && fresh(records.bitmap) && fresh(receiver.Repr)
      ensures receiver.View() == Rx(0, 0, seq(FLIGHT, _ => None))
    {
      records := new RecordReader();
      receiver := new Receiver();
    }

    /** dtls1_open_handshake on a whole record: one that the record layer drops
        changes nothing; any other is heard as in Hear. */
    method OpenHandshake(s: nat, opens: bool, legal: bool, kind: byte, payload: seq<byte>, maxLen: nat)
      returns (o: Outcome)
      requires Valid() && (kind == HANDSHAKE || kind == CHANGE_CIPHER_SPEC)
      modifies records, records.bitmap, receiver.Repr
      ensures Valid() && fresh(receiver.Repr - old(receiver.Repr)) && receiver.hasMessage == old(receiver.hasMessage)
      ensures records.side == DtlsReplay.Step(old(records.side), Arrives(s, opens, legal))
      ensures
        if Accepts(old(records.side), Arrives(s, opens, legal)) then
          forall before: N.System | old(Same(receiver, before)) ::
            var after := N.Hear(before, N.Packet(EpochOf(s), kind == CHANGE_CIPHER_SPEC, payload), maxLen);
            Same(receiver, after) && after.alerted == (before.alerted || o.Failed?)
        else o == Discard && receiver.View() == old(receiver.View())
             && receiver.hasChangeCipherSpec == old(receiver.hasChangeCipherSpec)
    {
      hide RingInv, Receive, Describes, Discarded;
      var accepted := records.OpenRecord(s, opens, legal);
      if !accepted {
        return Discard;
      }
      o := receiver.OpenHandshake(kind, payload, records.epoch == 0, maxLen);
    }

    /** dtls1_open_app_data, likewise, once the handshake is over. */
    method OpenAppRecord(s: nat, opens: bool, legal: bool, kind: byte, payload: seq<byte>, sendsLeft: bool)
      returns (o: AppOutcome)
      requires Valid() && (kind == HANDSHAKE || kind == CHANGE_CIPHER_SPEC)
      modifies records, records.bitmap
      ensures Valid() && records.side == DtlsReplay.Step(old(records.side), Arrives(s, opens, legal))
      ensures
        if Accepts(old(records.side), Arrives(s, opens, legal)) then
          forall before: N.System | old(Same(receiver, before)) ::
            var after := N.HearLate(before, N.Packet(EpochOf(s), kind == CHANGE_CIPHER_SPEC, payload));
            Same(receiver, after) && after.alerted == (before.alerted || (o.AppFailed? && o.alert.Some?))
        else o == Dropped(false)
    {
      hide RingInv, Describes, Discarded;
      var accepted := records.OpenRecord(s, opens, legal);
      if !accepted {
        return Dropped(false);
      }
      o := OpenAppData(receiver.readSeq, kind, payload, sendsLeft);
    }

    /** dtls1_get_message and dtls1_next_message: the event Take. */
    method TakeMessage() returns (raw: Option<seq<byte>>)
      requires Valid() && !receiver.hasMessage
      modifies receiver, receiver.incoming
      ensures Valid() && !receiver.hasMessage && receiver.hasChangeCipherSpec == old(receiver.hasChangeCipherSpec)
      ensures
        var rx := old(receiver.View());
        match Current(rx)
        case None => raw == None && receiver.View() == rx
        case Some(m) => raw == Some(RawBytes(m)) && receiver.View() == Advance(rx)
    {
      hide RingInv, HeaderBytes, Current;
      raw := receiver.GetMessage();
      if raw.Some? {
        receiver.NextMessage();
      }
    }

    /** dtls1_open_change_cipher_spec on the noted ChangeCipherSpec, then
        dtls1_set_read_state: the event NewKeys, exactly if it is enabled. */
    method ChangeKeys() returns (ok: bool)
      requires Valid() && !receiver.hasMessage && receiver.hasChangeCipherSpec
      modifies records, records.bitmap, receiver.Repr
      ensures ok <==> N.NothingKept(old(receiver.View()))
      ensures ok ==> Valid() && !receiver.hasChangeCipherSpec
      ensures ok ==> receiver.View() == old(receiver.View()).(epoch := N.NextEpoch(old(receiver.epoch)))
      ensures ok ==> records.side == DtlsReplay.Step(old(records.side), NewEpoch)
    {
      hide RingInv, Describes, Discarded;
      RingLength(receiver.View());
      var o := receiver.OpenChangeCipherSpec(CHANGE_CIPHER_SPEC, [1], false, 0);
      ghost var slots := receiver.View().slots;
      assert forall i :: 0 <= i < FLIGHT ==> slots[i] in slots;
      ok := receiver.SetReadState();
      if ok {
        records.SetReadState();
      }
    }
  }
}
