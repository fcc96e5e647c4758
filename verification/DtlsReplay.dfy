/** Replay protection of dtls_record.cc (RFC 6347 section 4.1.2.6): a 64-bit
    window refines the full history of recorded sequence numbers. */
module DtlsReplay {
  import opened Prelude

  // ----- bits of a 64-bit word -----

  /** Bit i of n: `n & (1 << i)` is not zero. */
  predicate Bit(n: nat, i: nat) {
    if i == 0 then n % 2 == 1 else Bit(n / 2, i - 1)
  }

  lemma {:induction false} ZeroBit(i: nat)
    ensures !Bit(0, i)
  {
    if i > 0 {
      ZeroBit(i - 1);
    }
  }

  lemma {:induction false} ShlBit(n: nat, k: nat, i: nat)
    ensures Bit(Shl(n, k), i) <==> k <= i && Bit(n, i - k)
  {
    if k > 0 && i > 0 {
      assert Shl(n, k) / 2 == Shl(n, k - 1);
      ShlBit(n, k - 1, i - 1);
    }
  }

  lemma {:induction false} OrBit(a: nat, b: nat, i: nat)
    ensures Bit(Or(a, b), i) <==> Bit(a, i) || Bit(b, i)
    decreases i
  {
    if a == 0 && b == 0 {
      ZeroBit(i);
    } else if i > 0 {
      assert Or(a, b) / 2 == Or(a / 2, b / 2);
      OrBit(a / 2, b / 2, i - 1);
    }
  }

  /** Dropping what overflows a 64-bit word leaves its bits alone. */
  lemma TruncateBit(n: nat, i: nat)
    requires i < 64
    ensures Bit(n % TWO64, i) <==> Bit(n, i)
  {
    hide Bit, Or, Shl;
    var high, low := n / TWO64, n % TWO64;
    ShlWord(high);
    ShlWord(1);
    OrIsSum(low, high, 64);
    OrBit(low, Shl(high, 64), i);
    ShlBit(high, 64, i);
  }

  lemma ShlWord(c: nat)
    ensures Shl(c, 64) == TWO64 * c
  {
    ShlAt(c, 63);
    assert Shl(c, 64) == 2 * Shl(c, 63);
  }

  // ----- the window and what it stands for -----

  /** Discard exactly what was recorded or lies 64 or more below a number that
      was. */
  ghost predicate Stale(recorded: set<nat>, s: nat) {
    s in recorded || exists top :: top in recorded && s + 64 <= top
  }

  /** `window` and `top` describe the last 64 numbers up to the largest one. */
  ghost predicate Describes(window: nat, top: nat, recorded: set<nat>) {
    && (if recorded == {} then top == 0 else top in recorded)
    && (forall s :: s in recorded ==> s <= top)
    && (forall i: nat :: i < 64 ==> (Bit(window, i) <==> i <= top && top - i in recorded))
  }

  lemma SlideDescribes(window: nat, top: nat, recorded: set<nat>, s: nat)
    requires Describes(window, top, recorded) && s > top
    ensures
      var window' := if s - top >= 64 then 0 else Shl(window, s - top) % TWO64;
      forall i: nat :: 0 < i < 64 ==> (Bit(window', i) <==> i <= s && s - i in recorded)
  {
    hide Bit, Shl;
    var shift := s - top;
    var window' := if shift >= 64 then 0 else Shl(window, shift) % TWO64;
    forall i: nat | 0 < i < 64
      ensures Bit(window', i) <==> i <= s && s - i in recorded
    {
      if shift >= 64 {
        ZeroBit(i);
      } else {
        TruncateBit(Shl(window, shift), i);
        ShlBit(window, shift, i);
        if shift <= i {
          assert s - i == top - (i - shift);
        }
      }
    }
  }

  lemma SetBitDescribes(window: nat, top: nat, recorded: set<nat>, s: nat)
    requires s <= top && (recorded == {} ==> s == top) && (recorded != {} ==> top in recorded || s == top)
    requires forall r :: r in recorded ==> r <= top
    requires forall i: nat :: i < 64 && top - i != s ==> (Bit(window, i) <==> i <= top && top - i in recorded)
    ensures Describes(if top - s < 64 then Or(window, Shl(1, top - s)) else window, top, recorded + {s})
  {
    hide Bit, Shl, Or;
    var idx := top - s;
    if idx < 64 {
      forall i: nat | i < 64
        ensures Bit(Or(window, Shl(1, idx)), i) <==> i <= top && top - i in recorded + {s}
      {
        OrBit(window, Shl(1, idx), i);
        ShlBit(1, idx, i);
        if i >= idx {
          OneBit(i - idx);
        }
      }
    }
  }

  lemma OneBit(i: nat)
    ensures Bit(1, i) <==> i == 0
  {
    if i > 0 {
      ZeroBit(i - 1);
    }
  }

  /** DTLS1_BITMAP. */
  class Bitmap {
    var window: nat
    var maxSeqNum: nat
    ghost var recorded: set<nat>

    ghost predicate Valid()
      reads this
    {
      Describes(window, maxSeqNum, recorded)
    }

    constructor ()
      ensures Valid() && recorded == {}
    {
      window, maxSeqNum, recorded := 0, 0, {};
      new;
      forall i: nat | i < 64
        ensures !Bit(0, i)
      {
        ZeroBit(i);
      }
    }

    /** The memset of a cipher change. */
    method Clear()
      modifies this
      ensures Valid() && recorded == {}
    {
      window, maxSeqNum, recorded := 0, 0, {};
      forall i: nat | i < 64
        ensures !Bit(0, i)
      {
        ZeroBit(i);
      }
    }

    /** dtls1_bitmap_should_discard. */
    method ShouldDiscard(s: nat) returns (discard: bool)
      requires Valid()
      ensures discard <==> Stale(recorded, s)
    {
      hide Bit;
      if s > maxSeqNum {
        return false;
      }
      var idx := maxSeqNum - s;
      assert maxSeqNum - idx == s;
      discard := idx >= 64 || Bit(window, idx);
    }

    /** dtls1_bitmap_record. */
    method Record(s: nat)
      requires Valid()
      modifies this
      ensures Valid() && recorded == old(recorded) + {s}
    {
      hide Bit, Shl, Or;
      if s > maxSeqNum {
        var shift := s - maxSeqNum;
        SlideDescribes(window, maxSeqNum, recorded, s);
        if shift >= 64 {
          window := 0;
        } else {
          window := Shl(window, shift) % TWO64;
        }
        maxSeqNum := s;
      }
      var idx := maxSeqNum - s;
      SetBitDescribes(window, maxSeqNum, recorded, s);
      if idx < 64 {
        window := Or(window, Shl(1, idx));
      }
      recorded := recorded + {s};
    }
  }

  // ----- whole runs -----

  /** The read side of the record layer over its life: how often the epoch has
      changed, the numbers recorded since, and every record ever accepted. */
  datatype ReadSide = ReadSide(changes: nat, recorded: set<nat>, accepted: set<(nat, nat)>)

  /** A record with a 64-bit epoch-and-sequence number arrives, authentic and
      of legal size or not; or the read state changes. */
  datatype Event = Arrives(s: nat, opens: bool, legal: bool) | NewEpoch

  const FRESH := ReadSide(0, {}, {})

  /** The 16-bit epoch in the upper part of the 64-bit number. */
  function EpochOf(s: nat): nat {
    s / 0x1_0000_0000_0000
  }

  predicate Accepts(r: ReadSide, e: Event)
  {
    e.Arrives? && EpochOf(e.s) == r.changes % 0x1_0000 && !Discarded(r.recorded, e.s) && e.opens && e.legal
  }

  /** Stale, as a computation. */
  predicate Discarded(recorded: set<nat>, s: nat)
    ensures Discarded(recorded, s) <==> Stale(recorded, s)
  {
    s in recorded || exists top | top in recorded :: s + 64 <= top
  }

  /** dtls_open_record and dtls1_set_read_state. */
  function Step(r: ReadSide, e: Event): ReadSide {
    match e
    case NewEpoch => ReadSide(r.changes + 1, {}, r.accepted)
    case Arrives(s, _, _) =>
      if Accepts(r, e) then ReadSide(r.changes, r.recorded + {s}, r.accepted + {(r.changes, s)}) else r
  }

  /** How often the run accepts number s while the epoch has changed `at` times. */
  function Acceptances(r: ReadSide, events: seq<Event>, at: nat, s: nat): nat
    decreases |events|
  {
    if events == [] then 0
    else
      (if Accepts(r, events[0]) && r.changes == at && events[0].s == s then 1 else 0)
      + Acceptances(Step(r, events[0]), events[1..], at, s)
  }

  ghost predicate Consistent(r: ReadSide) {
    && (forall s :: s in r.recorded <==> (r.changes, s) in r.accepted)
    && (forall c, s :: (c, s) in r.accepted ==> c <= r.changes && EpochOf(s) == c % 0x1_0000)
  }

  lemma StepConsistent(r: ReadSide, e: Event)
    requires Consistent(r)
    ensures Consistent(Step(r, e))
  {
  }

  /** Within one epoch a number is accepted at most once, whatever arrives. */
  lemma {:induction false} AcceptedAtMostOnce(r: ReadSide, events: seq<Event>, at: nat, s: nat)
    requires Consistent(r)
    ensures Acceptances(r, events, at, s) <= 1
    ensures (at, s) in r.accepted || at < r.changes ==> Acceptances(r, events, at, s) == 0
    decreases |events|
  {
    hide Discarded;
    if events != [] {
      StepConsistent(r, events[0]);
      AcceptedAtMostOnce(Step(r, events[0]), events[1..], at, s);
      if Accepts(r, events[0]) && r.changes == at && events[0].s == s {
        assert !Stale(r.recorded, s);
      }
    }
  }

  /** All acceptances of a 64-bit number, over all epochs. */
  function TotalAcceptances(r: ReadSide, events: seq<Event>, s: nat): nat
    decreases |events|
  {
    if events == [] then 0
    else
      (if Accepts(r, events[0]) && events[0].s == s then 1 else 0)
      + TotalAcceptances(Step(r, events[0]), events[1..], s)
  }

  function Changes(events: seq<Event>): nat {
    if events == [] then 0 else (if events[0].NewEpoch? then 1 else 0) + Changes(events[1..])
  }

  /** Until the 16-bit epoch wraps, an (epoch, sequence) pair is accepted at
      most once in a whole run. */
  lemma {:induction false} PairAcceptedAtMostOnce(r: ReadSide, events: seq<Event>, s: nat)
    requires Consistent(r) && r.changes + Changes(events) < 0x1_0000
    ensures TotalAcceptances(r, events, s) <= 1
    ensures (EpochOf(s), s) in r.accepted || EpochOf(s) < r.changes ==> TotalAcceptances(r, events, s) == 0
    decreases |events|
  {
    hide Discarded;
    if events != [] {
      StepConsistent(r, events[0]);
      PairAcceptedAtMostOnce(Step(r, events[0]), events[1..], s);
      if Accepts(r, events[0]) && events[0].s == s {
        assert !Stale(r.recorded, s);
      }
    }
  }

  function Repeated(n: nat): (events: seq<Event>)
    ensures |events| == n && forall i :: 0 <= i < n ==> events[i] == NewEpoch
  {
    seq(n, _ => NewEpoch)
  }

  lemma {:induction false} RunEpochs(r: ReadSide, n: nat, events: seq<Event>, s: nat)
    ensures TotalAcceptances(r, Repeated(n) + events, s)
         == TotalAcceptances(ReadSide(r.changes + n, if n == 0 then r.recorded else {}, r.accepted), events, s)
    decreases n
  {
    var all := Repeated(n) + events;
    if n == 0 {
      assert all == events;
    } else {
      assert all[0] == NewEpoch && all[1..] == Repeated(n - 1) + events;
      RunEpochs(Step(r, NewEpoch), n - 1, events, s);
    }
  }

  /** The bound is needed: after 65536 epoch changes the same record would be
      accepted again. This code cannot get there, since it does not renegotiate
      over DTLS: keys change once. */
  lemma EpochWrapAcceptsTwice()
    ensures TotalAcceptances(FRESH, [Arrives(0, true, true)] + (Repeated(0x1_0000) + [Arrives(0, true, true)]), 0) == 2
  {
    hide Repeated;
    var first := Arrives(0, true, true);
    var events := Repeated(0x1_0000) + [first];
    assert ([first] + events)[0] == first && ([first] + events)[1..] == events;
    assert Accepts(FRESH, first);
    RunEpochs(Step(FRESH, first), 0x1_0000, [first], 0);
    var r := ReadSide(0x1_0000, {}, Step(FRESH, first).accepted);
    assert Accepts(r, first);
    assert TotalAcceptances(r, [first], 0) == 1 + TotalAcceptances(Step(r, first), [first][1..], 0);
  }

  // ----- the record layer itself -----

  class RecordReader {
    var epoch: nat
    const bitmap: Bitmap
    ghost var side: ReadSide

    ghost predicate Valid()
      reads this, bitmap
    {
      && bitmap.Valid()
      && epoch == side.changes % 0x1_0000
      && bitmap.recorded == side.recorded
    }

    constructor ()
      ensures Valid() && side == FRESH && fresh(bitmap)
    {
      epoch := 0;
      bitmap := new Bitmap();
      side := FRESH;
    }

    /** dtls_open_record on a well-formed header: epoch and window first, then
        the AEAD, then the size, and only then the window moves. */
    method OpenRecord(s: nat, opens: bool, legal: bool) returns (success: bool)
      requires Valid()
      modifies this`side, bitmap
      ensures Valid()
      ensures success <==> Accepts(old(side), Arrives(s, opens, legal))
      ensures side == Step(old(side), Arrives(s, opens, legal))
    {
      hide Describes, Discarded;
      var discard := bitmap.ShouldDiscard(s);
      if EpochOf(s) != epoch || discard {
        return false;
      }
      if !opens {
        return false;
      }
      if !legal {
        return false;
      }
      side := Step(side, Arrives(s, opens, legal));
      bitmap.Record(s);
      return true;
    }

    /** dtls1_set_read_state, once nothing is left over. */
    method SetReadState()
      requires Valid()
      modifies this, bitmap
      ensures Valid()
      ensures side == Step(old(side), NewEpoch)
    {
      epoch := (epoch + 1) % 0x1_0000;
      bitmap.Clear();
      side := Step(side, NewEpoch);
    }
  }
}
