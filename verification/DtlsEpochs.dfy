/** Sequence numbers of sealed DTLS records (RFC 6347 section 4.1): two write
    epochs live at a time, each with its own 48-bit counter. */
module DtlsEpochs {
  const SEQUENCES: nat := 0x1_0000_0000_0000
  const EPOCHS: nat := 0x1_0000

  /** The write side over its life: cipher changes so far, the next number of
      the current and of the previous epoch, and every pair given to a seal. */
  datatype WriteSide = WriteSide(changes: nat, next: nat, lastNext: nat, used: set<(nat, nat)>)

  const FRESH := WriteSide(0, 0, 0, {})

  /** A record is sealed under the current or the previous epoch, and the AEAD
      accepts it or not; or the write state changes. */
  datatype Event = Seal(previous: bool, accepted: bool) | Change

  function Epoch(w: WriteSide): nat {
    w.changes % EPOCHS
  }

  /** seal_next_message asks for the previous epoch only if there is one. */
  predicate Seals(w: WriteSide, e: Event) {
    e.Seal? && e.accepted && (e.previous ==> Epoch(w) >= 1)
  }

  /** The epoch and number such a seal uses. */
  function PairOf(w: WriteSide, e: Event): (nat, nat)
    requires Seals(w, e)
  {
    if e.previous then (Epoch(w) - 1, w.lastNext) else (Epoch(w), w.next)
  }

  /** ssl_record_sequence_update on six bytes, reporting wrap-around as 0. */
  function Increment(n: nat): nat {
    (n + 1) % SEQUENCES
  }

  /** dtls_seal_record and dtls1_set_write_state. */
  function Step(w: WriteSide, e: Event): WriteSide {
    if e.Change? then WriteSide(w.changes + 1, 0, w.next, w.used)
    else if !Seals(w, e) then w
    else if e.previous then WriteSide(w.changes, w.next, Increment(w.lastNext), w.used + {PairOf(w, e)})
    else WriteSide(w.changes, Increment(w.next), w.lastNext, w.used + {PairOf(w, e)})
  }

  /** The write side after these events. */
  function Run(events: seq<Event>): WriteSide {
    if events == [] then FRESH else Step(Run(events[..|events| - 1]), events[|events| - 1])
  }

  lemma RunMore(events: seq<Event>, e: Event)
    ensures Run(events + [e]) == Step(Run(events), e)
  {
    assert (events + [e])[..|events|] == events;
  }

  /** Only seals were added. */
  predicate OnlySeals(before: seq<Event>, after: seq<Event>) {
    before <= after && forall i :: |before| <= i < |after| ==> after[i].Seal?
  }

  lemma SealsNone(events: seq<Event>)
    ensures OnlySeals(events, events)
  {
  }

  lemma SealsMore(before: seq<Event>, events: seq<Event>, after: seq<Event>)
    requires OnlySeals(before, events)
    requires
      after == events ||
      (|after| == |events| + 1 && after == events + [after[|events|]] && after[|events|].Seal?)
    ensures OnlySeals(before, after)
  {
  }

  lemma SealsThen(before: seq<Event>, events: seq<Event>, after: seq<Event>)
    requires OnlySeals(before, events) && OnlySeals(events, after)
    ensures OnlySeals(before, after)
  {
  }

  /** Some counter of the run comes back to zero. */
  predicate CounterWraps(w: WriteSide, events: seq<Event>)
    decreases |events|
  {
    events != [] &&
    ((Seals(w, events[0]) && Increment(PairOf(w, events[0]).1) == 0)
     || CounterWraps(Step(w, events[0]), events[1..]))
  }

  function Changes(events: seq<Event>): nat {
    if events == [] then 0 else (if events[0].Change? then 1 else 0) + Changes(events[1..])
  }

  /** How many seals of the run use the pair. */
  function Uses(w: WriteSide, events: seq<Event>, pair: (nat, nat)): nat
    decreases |events|
  {
    if events == [] then 0
    else
      (if Seals(w, events[0]) && PairOf(w, events[0]) == pair then 1 else 0)
      + Uses(Step(w, events[0]), events[1..], pair)
  }

  /** Used pairs lie below the counters of their epochs. */
  ghost predicate Consistent(w: WriteSide) {
    && w.changes < EPOCHS && w.next < SEQUENCES && w.lastNext < SEQUENCES
    && forall e, n :: (e, n) in w.used ==>
         && e <= w.changes
         && (e == w.changes ==> n < w.next)
         && (e + 1 == w.changes ==> n < w.lastNext)
  }

  lemma SealConsistent(w: WriteSide, e: Event)
    requires Consistent(w) && Seals(w, e) && Increment(PairOf(w, e).1) != 0
    ensures Consistent(Step(w, e)) && PairOf(w, e) !in w.used
  {
  }

  lemma ChangeConsistent(w: WriteSide)
    requires Consistent(w) && w.changes + 1 < EPOCHS
    ensures Consistent(Step(w, Change))
  {
  }

  /** Across any interleaving of seals, retransmissions and cipher changes, no
      pair is used twice until a counter or the epoch wraps. */
  lemma {:induction false} PairsAreFresh(w: WriteSide, events: seq<Event>, pair: (nat, nat))
    requires Consistent(w) && w.changes + Changes(events) < EPOCHS && !CounterWraps(w, events)
    ensures Uses(w, events, pair) <= if pair in w.used then 0 else 1
    decreases |events|
  {
    hide Consistent;
    if events != [] {
      var e := events[0];
      if e.Change? {
        ChangeConsistent(w);
      } else if Seals(w, e) {
        SealConsistent(w, e);
      }
      PairsAreFresh(Step(w, e), events[1..], pair);
    }
  }

  // ----- and exactly when they are -----

  /** Some seal of the run comes after the counter of its epoch came back to
      zero; the flags say whether the counters of the current and of the
      previous epoch already have. */
  predicate SealsPastWrap(w: WriteSide, wrapped: bool, lastWrapped: bool, events: seq<Event>)
    decreases |events|
  {
    events != [] &&
    var e := events[0];
    var w' := Step(w, e);
    if e.Change? then SealsPastWrap(w', false, wrapped, events[1..])
    else if !Seals(w, e) then SealsPastWrap(w', wrapped, lastWrapped, events[1..])
    else if e.previous then
      lastWrapped || SealsPastWrap(w', wrapped, Increment(w.lastNext) == 0, events[1..])
    else wrapped || SealsPastWrap(w', Increment(w.next) == 0, lastWrapped, events[1..])
  }

  /** The numbers of an epoch used so far are those below its counter, or all of
      them once it has come back to zero. */
  ghost predicate Counts(used: set<(nat, nat)>, epoch: nat, next: nat, wrapped: bool) {
    && next < SEQUENCES && (wrapped ==> next == 0)
    && forall n: nat :: (epoch, n) in used <==> n < if wrapped then SEQUENCES else next
  }

  ghost predicate Tracked(w: WriteSide, wrapped: bool, lastWrapped: bool) {
    && w.changes < EPOCHS
    && (forall e, n :: (e, n) in w.used ==> e <= w.changes)
    && Counts(w.used, w.changes, w.next, wrapped)
    && (w.changes > 0 ==> Counts(w.used, w.changes - 1, w.lastNext, lastWrapped))
  }

  /** A seal whose counter has not wrapped uses a new pair; one whose counter
      has, an old one. */
  lemma TrackedSeal(w: WriteSide, wrapped: bool, lastWrapped: bool, e: Event)
    requires Tracked(w, wrapped, lastWrapped) && Seals(w, e)
    ensures PairOf(w, e) in w.used <==> if e.previous then lastWrapped else wrapped
    ensures PairOf(w, e) !in w.used ==>
              if e.previous then Tracked(Step(w, e), wrapped, Increment(w.lastNext) == 0)
              else Tracked(Step(w, e), Increment(w.next) == 0, lastWrapped)
  {
  }

  lemma TrackedChange(w: WriteSide, wrapped: bool, lastWrapped: bool)
    requires Tracked(w, wrapped, lastWrapped) && w.changes + 1 < EPOCHS
    ensures Tracked(Step(w, Change), false, wrapped)
  {
    var w' := Step(w, Change);
    assert forall n: nat :: (w'.changes, n) !in w.used;
  }

  lemma {:induction false} NoReuse(
      w: WriteSide, wrapped: bool, lastWrapped: bool, events: seq<Event>, pair: (nat, nat))
    requires Tracked(w, wrapped, lastWrapped) && w.changes + Changes(events) < EPOCHS
    requires !SealsPastWrap(w, wrapped, lastWrapped, events)
    ensures Uses(w, events, pair) <= if pair in w.used then 0 else 1
    decreases |events|
  {
    hide Tracked, Increment;
    if events != [] {
      var e := events[0];
      if e.Change? {
        StillFew(w, events);
        TrackedChange(w, wrapped, lastWrapped);
        NoReuse(Step(w, e), false, wrapped, events[1..], pair);
      } else if !Seals(w, e) {
        NoReuse(w, wrapped, lastWrapped, events[1..], pair);
      } else {
        TrackedSeal(w, wrapped, lastWrapped, e);
        if e.previous {
          NoReuse(Step(w, e), wrapped, Increment(w.lastNext) == 0, events[1..], pair);
        } else {
          NoReuse(Step(w, e), Increment(w.next) == 0, lastWrapped, events[1..], pair);
        }
      }
    }
  }

  lemma StillFew(w: WriteSide, events: seq<Event>)
    requires events != [] && events[0].Change? && w.changes + Changes(events) < EPOCHS
    ensures w.changes + 1 < EPOCHS
  {
  }

  lemma {:induction false} Reuse(w: WriteSide, wrapped: bool, lastWrapped: bool, events: seq<Event>)
    returns (pair: (nat, nat))
    requires Tracked(w, wrapped, lastWrapped) && w.changes + Changes(events) < EPOCHS
    requires SealsPastWrap(w, wrapped, lastWrapped, events)
    ensures Uses(w, events, pair) >= if pair in w.used then 1 else 2
    decreases |events|
  {
    hide Tracked, Increment;
    var e := events[0];
    if e.Change? {
      StillFew(w, events);
      TrackedChange(w, wrapped, lastWrapped);
      pair := Reuse(Step(w, e), false, wrapped, events[1..]);
    } else if !Seals(w, e) {
      pair := Reuse(w, wrapped, lastWrapped, events[1..]);
    } else {
      TrackedSeal(w, wrapped, lastWrapped, e);
      if PairOf(w, e) in w.used {
        pair := PairOf(w, e);
      } else if e.previous {
        pair := Reuse(Step(w, e), wrapped, Increment(w.lastNext) == 0, events[1..]);
      } else {
        pair := Reuse(Step(w, e), Increment(w.next) == 0, lastWrapped, events[1..]);
      }
    }
  }

  /** Before the epoch wraps, no pair is used twice exactly if nothing is sealed
      in an epoch after its counter came back to zero. */
  lemma FreshExactly(events: seq<Event>)
    requires Changes(events) < EPOCHS
    ensures (forall pair :: Uses(FRESH, events, pair) <= 1) <==> !SealsPastWrap(FRESH, false, false, events)
  {
    hide Uses, SealsPastWrap;
    if SealsPastWrap(FRESH, false, false, events) {
      var pair := Reuse(FRESH, false, false, events);
    } else {
      forall pair
        ensures Uses(FRESH, events, pair) <= 1
      {
        NoReuse(FRESH, false, false, events, pair);
      }
    }
  }

  // ----- runs that reuse a pair -----

  function Times(n: nat, e: Event): (events: seq<Event>)
    ensures |events| == n
  {
    if n == 0 then [] else [e] + Times(n - 1, e)
  }

  const SEAL := Seal(false, true)

  lemma {:induction false} SealsCount(w: WriteSide, n: nat, tail: seq<Event>) returns (used: set<(nat, nat)>)
    requires w.next + n <= SEQUENCES && w.next < SEQUENCES
    ensures Uses(w, Times(n, SEAL) + tail, (0, 0))
         == (if n > 0 && w.next == 0 && Epoch(w) == 0 then 1 else 0)
            + Uses(WriteSide(w.changes, (w.next + n) % SEQUENCES, w.lastNext, used), tail, (0, 0))
    decreases n
  {
    hide Uses;
    var events := Times(n, SEAL) + tail;
    used := w.used;
    if n == 0 {
      assert events == tail;
    } else {
      assert events[0] == SEAL && events[1..] == Times(n - 1, SEAL) + tail;
      UsesStep(w, events, (0, 0));
      used := Step(w, SEAL).used;
      if n > 1 {
        used := SealsCount(Step(w, SEAL), n - 1, tail);
      } else {
        assert events[1..] == tail;
      }
    }
  }

  lemma UsesStep(w: WriteSide, events: seq<Event>, pair: (nat, nat))
    requires events != []
    ensures Uses(w, events, pair)
         == (if Seals(w, events[0]) && PairOf(w, events[0]) == pair then 1 else 0)
            + Uses(Step(w, events[0]), events[1..], pair)
  {
  }

  /** After 2^48 seals in one epoch the counter is back at zero, and the next
      seal uses the first pair again: the failure of the last update is not
      remembered. */
  lemma CounterWrapReuses()
    ensures Uses(FRESH, Times(SEQUENCES, SEAL) + [SEAL], (0, 0)) == 2
  {
    hide Uses, Times;
    var used := SealsCount(FRESH, SEQUENCES, [SEAL]);
    LastUse(WriteSide(0, 0, 0, used));
  }

  lemma LastUse(w: WriteSide)
    requires Epoch(w) == 0 && w.next == 0
    ensures Uses(w, [SEAL], (0, 0)) == 1
  {
    assert [SEAL][1..] == [];
  }

  lemma {:induction false} ChangesCount(w: WriteSide, n: nat, tail: seq<Event>) returns (last: nat)
    ensures Uses(w, Times(n, Change) + tail, (0, 0))
         == Uses(WriteSide(w.changes + n, if n == 0 then w.next else 0, last, w.used), tail, (0, 0))
    decreases n
  {
    hide Uses;
    var events := Times(n, Change) + tail;
    last := w.lastNext;
    if n == 0 {
      assert events == tail;
    } else {
      assert events[0] == Change && events[1..] == Times(n - 1, Change) + tail;
      UsesStep(w, events, (0, 0));
      last := ChangesCount(Step(w, Change), n - 1, tail);
    }
  }

  /** After 65536 cipher changes the epoch number would be back at zero too. This
      code cannot get there, since it does not renegotiate over DTLS. */
  lemma EpochWrapReuses()
    ensures Uses(FRESH, [SEAL] + (Times(EPOCHS, Change) + [SEAL]), (0, 0)) == 2
  {
    hide Uses, Times;
    var tail := Times(EPOCHS, Change) + [SEAL];
    assert ([SEAL] + tail)[1..] == tail;
    UsesStep(FRESH, [SEAL] + tail, (0, 0));
    var w := Step(FRESH, SEAL);
    var last := ChangesCount(w, EPOCHS, [SEAL]);
    LastUse(WriteSide(EPOCHS, 0, last, w.used));
  }
}
