/** hm_fragment: a handshake message being put together in place. The bitmask
    says which bytes have arrived and is given up once all have. */
module DtlsReassembly {
  import opened Prelude
  import opened DtlsBits
  import opened DtlsMessage
  import opened DtlsReceive

  /** The mask has a bit for every byte and none past the end. */
  predicate MaskFits(mask: seq<bv8>, msgLen: nat) {
    && |mask| == (msgLen + 7) / 8
    && forall i: nat :: msgLen <= i < 8 * |mask| ==> !Marked(mask, i)
  }

  predicate AllMarked(mask: seq<bv8>, msgLen: nat)
    requires msgLen <= 8 * |mask|
  {
    forall i: nat :: i < msgLen ==> Marked(mask, i)
  }

  function MarkedSet(mask: seq<bv8>, msgLen: nat): set<nat>
    requires msgLen <= 8 * |mask|
  {
    set i: nat | 0 <= i < msgLen && Marked(mask, i)
  }

  class HmFragment {
    const kind: byte
    const sequence: nat
    const msgLen: nat
    const data: array<byte>
    var reassembly: array?<bv8>

    ghost function Repr(): set<object>
      reads this
    {
      {this, data} + if reassembly == null then {} else {reassembly}
    }

    ghost predicate Valid()
      reads this, data, reassembly
    {
      && msgLen < TWO24 && sequence < 0x1_0000
      && data.Length == HEADER_LENGTH + msgLen
      && data[..HEADER_LENGTH] == HeaderBytes(Header(kind, msgLen, sequence, 0, msgLen))
      && (reassembly != null ==> data as object != reassembly as object)
      && (reassembly != null ==> MaskFits(reassembly[..], msgLen) && !AllMarked(reassembly[..], msgLen))
    }

    /** The positions that have arrived. */
    ghost function Covered(): set<nat>
      reads this, data, reassembly
      requires Valid()
    {
      if reassembly == null then Positions(0, msgLen) else MarkedSet(reassembly[..], msgLen)
    }

    /** This fragment as a value. */
    ghost function View(): (p: Partial)
      reads this, data, reassembly
      requires Valid()
    {
      Partial(kind, sequence, msgLen, map i: nat | i in Covered() :: data[HEADER_LENGTH + i])
    }

    /** The bitmask is there exactly while something is missing. */
    lemma FreedWhenComplete()
      requires Valid()
      ensures reassembly == null <==> Complete(View())
    {
      hide Marked;
      if reassembly != null {
        NotAllCovered(reassembly[..], msgLen);
      }
    }

    /** dtls1_hm_fragment_new: an empty message is complete from the start. */
    constructor (h: Header)
      requires Fits(h)
      ensures Valid() && fresh(Repr())
      ensures View() == Partial(h.kind, h.sequence, h.msgLen, map[])
      ensures reassembly == null <==> h.msgLen == 0
    {
      kind, sequence, msgLen := h.kind, h.sequence, h.msgLen;
      var bytes := HeaderBytes(Header(h.kind, h.msgLen, h.sequence, 0, h.msgLen));
      data := new byte[HEADER_LENGTH + h.msgLen];
      reassembly := null;
      new;
      var i := 0;
      while i < HEADER_LENGTH
        invariant 0 <= i <= HEADER_LENGTH && fresh(Repr()) && reassembly == null
        invariant data[..i] == bytes[..i]
      {
        data[i] := bytes[i];
        i := i + 1;
      }
      assert data[..HEADER_LENGTH] == bytes;
      if msgLen > 0 {
        reassembly := new bv8[(msgLen + 7) / 8](_ => 0);
        NothingMarked(reassembly[..], msgLen);
      }
    }

    /** dtls1_hm_fragment_mark: the range joins the covered positions, and the
        bitmask goes exactly when they are all the message has. */
    method Mark(start: nat, end: nat)
      requires Valid() && reassembly != null && start <= end <= msgLen
      modifies this`reassembly, reassembly
      ensures Valid()
      ensures Covered() == old(Covered()) + Positions(start, end)
      ensures reassembly == null <==> Covered() == Positions(0, msgLen)
      ensures reassembly == null || reassembly == old(reassembly)
    {
      hide Marked, HeaderBytes;
      ghost var before := reassembly[..];
      if start == end {
        NotAllCovered(before, msgLen);
        assert Positions(start, end) == {};
        return;
      }
      SetBits(reassembly, start, end);
      MarkedAfter(before, reassembly[..], start, end, msgLen);
      var full := IsFull(reassembly, msgLen);
      if full {
        reassembly := null;
      }
    }

    /** The copying part of dtls1_open_handshake: bytes, then marks. A message
        already complete is left alone. */
    method Place(off: nat, body: seq<byte>)
      requires Valid() && off + |body| <= msgLen
      modifies this`reassembly, data, reassembly
      ensures Valid() && Repr() <= old(Repr())
      ensures
        var p := old(View());
        View() == if Complete(p) then p else p.(body := p.body + Placed(off, body))
    {
      hide Marked, HeaderBytes;
      ghost var p, covered := View(), Covered();
      if reassembly == null {
        return;
      }
      ghost var mask := reassembly[..];
      NotAllCovered(mask, msgLen);
      ghost var head := data[..HEADER_LENGTH];
      var i := 0;
      while i < |body|
        invariant 0 <= i <= |body|
        invariant forall j :: 0 <= j < i ==> data[HEADER_LENGTH + off + j] == body[j]
        invariant forall k :: 0 <= k < data.Length && !(HEADER_LENGTH + off <= k < HEADER_LENGTH + off + i) ==>
                    data[k] == old(data[k])
        modifies data
      {
        data[HEADER_LENGTH + off + i] := body[i];
        i := i + 1;
      }
      assert data[..HEADER_LENGTH] == head;
      assert reassembly[..] == mask;
      Mark(off, off + |body|);
      assert View().body == p.body + Placed(off, body);
    }
  }

  lemma NotAllCovered(mask: seq<bv8>, msgLen: nat)
    requires MaskFits(mask, msgLen) && !AllMarked(mask, msgLen)
    ensures MarkedSet(mask, msgLen) != Positions(0, msgLen)
  {
    hide Marked;
    var i: nat :| i < msgLen && !Marked(mask, i);
    assert i in Positions(0, msgLen) && i !in MarkedSet(mask, msgLen);
  }

  lemma MarkedAfter(mask: seq<bv8>, mask': seq<bv8>, from: nat, to: nat, msgLen: nat)
    requires MaskFits(mask, msgLen) && to <= msgLen && MarksRange(mask, mask', from, to)
    ensures MaskFits(mask', msgLen)
    ensures MarkedSet(mask', msgLen) == MarkedSet(mask, msgLen) + Positions(from, to)
    ensures AllMarked(mask', msgLen) <==> MarkedSet(mask', msgLen) == Positions(0, msgLen)
  {
    hide Marked;
    if MarkedSet(mask', msgLen) == Positions(0, msgLen) {
      forall i: nat | i < msgLen
        ensures Marked(mask', i)
      {
        assert i in Positions(0, msgLen);
      }
    }
  }

  lemma NothingMarked(mask: seq<bv8>, msgLen: nat)
    requires |mask| == (msgLen + 7) / 8 && msgLen > 0
    requires forall i :: 0 <= i < |mask| ==> mask[i] == 0
    ensures MaskFits(mask, msgLen) && !AllMarked(mask, msgLen) && MarkedSet(mask, msgLen) == {}
  {
    forall i: nat | i < 8 * |mask|
      ensures !Marked(mask, i)
    {
      NoBit(i % 8);
    }
    assert !Marked(mask, 0);
  }

  /** mask' is mask with the bits from `from` to `to` set. */
  predicate MarksRange(mask: seq<bv8>, mask': seq<bv8>, from: nat, to: nat) {
    && |mask'| == |mask|
    && forall i: nat :: i < 8 * |mask| ==> (Marked(mask', i) <==> Marked(mask, i) || from <= i < to)
  }

  lemma MarksThen(mask: seq<bv8>, mask': seq<bv8>, mask'': seq<bv8>, from: nat, middle: nat, to: nat)
    requires from <= middle <= to
    requires MarksRange(mask, mask', from, middle) && MarksRange(mask', mask'', middle, to)
    ensures MarksRange(mask, mask'', from, to)
  {
    hide Marked;
  }

  lemma OrMarks(mask: seq<bv8>, mask': seq<bv8>, at: nat, from: nat, to: nat, lo: nat, hi: nat)
    requires at < |mask| && from <= 8 && to <= 8 && lo == 8 * at + from && hi == 8 * at + to
    requires mask' == mask[at := mask[at] | BitRange(from, to)]
    ensures MarksRange(mask, mask', lo, hi)
  {
    hide Marked, BitRange;
    OrRange(mask, at, from, to);
  }

  /** The three-way bit setting of dtls1_hm_fragment_mark: within one byte, or
      the rest of the first byte, whole bytes, and the start of the last. */
  method SetBits(mask: array<bv8>, start: nat, end: nat)
    requires start < end <= 8 * mask.Length
    modifies mask
    ensures MarksRange(old(mask[..]), mask[..], start, end)
  {
    hide Marked, BitRange, MarksRange;
    ghost var before := mask[..];
    if start / 8 == end / 8 {
      mask[start / 8] := mask[start / 8] | BitRange(start % 8, end % 8);
      OrMarks(before, mask[..], start / 8, start % 8, end % 8, start, end);
    } else {
      mask[start / 8] := mask[start / 8] | BitRange(start % 8, 8);
      var i := start / 8 + 1;
      OrMarks(before, mask[..], start / 8, start % 8, 8, start, 8 * i);
      while i < end / 8
        invariant start / 8 + 1 <= i <= end / 8
        invariant MarksRange(before, mask[..], start, 8 * i)
      {
        ghost var now := mask[..];
        mask[i] := 0xFF;
        FillMarks(now, mask[..], i);
        MarksThen(before, now, mask[..], start, 8 * i, 8 * i + 8);
        i := i + 1;
      }
      if end % 8 != 0 {
        ghost var now := mask[..];
        mask[end / 8] := mask[end / 8] | BitRange(0, end % 8);
        OrMarks(now, mask[..], end / 8, 0, end % 8, 8 * i, end);
        MarksThen(before, now, mask[..], start, 8 * i, end);
      }
    }
  }

  lemma FillMarks(mask: seq<bv8>, mask': seq<bv8>, at: nat)
    requires at < |mask| && mask' == mask[at := 0xFF]
    ensures MarksRange(mask, mask', 8 * at, 8 * at + 8)
  {
    hide Marked;
    FillByte(mask, at);
  }

  /** The completeness check of dtls1_hm_fragment_mark. */
  method IsFull(mask: array<bv8>, msgLen: nat) returns (full: bool)
    requires MaskFits(mask[..], msgLen)
    ensures full <==> AllMarked(mask[..], msgLen)
  {
    hide Marked, BitRange;
    ghost var m := mask[..];
    var i := 0;
    while i < msgLen / 8
      invariant 0 <= i <= msgLen / 8
      invariant forall j: nat :: j < 8 * i ==> Marked(m, j)
    {
      FullRange();
      ByteIsRange(m, i, 8);
      if mask[i] != 0xFF {
        return false;
      }
      i := i + 1;
    }
    if msgLen % 8 != 0 {
      ByteIsRange(m, msgLen / 8, msgLen % 8);
      if mask[msgLen / 8] != BitRange(0, msgLen % 8) {
        return false;
      }
    }
    return true;
  }
}
