/** The saturating reference count: the locked version as the specification,
    the compare-exchange loops as a state machine over their atomic steps. */
module Refcount {
  import opened Prelude

  /** CRYPTO_REFCOUNT_MAX: a count that gets here stays here. */
  const MAX := 0xFFFF_FFFF

  // ----- refcount_lock.c -----

  function Incremented(count: nat): nat {
    if count < MAX then count + 1 else count
  }

  function Decremented(count: nat): nat
    requires count > 0
  {
    if count < MAX then count - 1 else count
  }

  /** Each method holds the lock from start to end. */
  class LockedCount {
    var count: nat

    constructor (start: nat)
      ensures count == start
    {
      count := start;
    }

    method Inc()
      modifies this
      ensures count == Incremented(old(count))
    {
      if count < MAX {
        count := count + 1;
      }
    }

    /** None is abort(). */
    method DecAndTestZero() returns (zero: Option<bool>)
      modifies this
      ensures old(count) == 0 ==> zero == None && count == 0
      ensures old(count) > 0 ==> count == Decremented(old(count)) && zero == Some(count == 0)
    {
      if count == 0 {
        return None;
      }
      if count < MAX {
        count := count - 1;
      }
      zero := Some(count == 0);
    }
  }

  // ----- refcount_c11.c -----

  datatype Op = Inc | Dec

  /** A thread inside a call: the value it expects to find, and (for the proof)
      how many calls had taken effect when it read that value. */
  datatype Try = Try(op: Op, expected: nat, seen: nat)

  /** A call that took effect, and what it returned. */
  datatype Effect = Added | Removed(zero: bool)

  datatype State = State(count: nat, busy: map<nat, Try>, effects: seq<Effect>, aborted: bool)

  /** The atomic load that starts a call, or one turn of its loop; a weak
      compare-exchange may fail though the value is the expected one. */
  datatype Step = Begin(thread: nat, op: Op) | Turn(thread: nat, spurious: bool)

  predicate Enabled(s: State, step: Step) {
    !s.aborted && (step.Begin? <==> step.thread !in s.busy)
  }

  function Read(s: State, thread: nat, op: Op): State {
    s.(busy := s.busy[thread := Try(op, s.count, |s.effects|)])
  }

  function Return(s: State, thread: nat, count: nat, effect: Effect): State {
    State(count, s.busy - {thread}, s.effects + [effect], s.aborted)
  }

  function Next(s: State, step: Step): State
    requires Enabled(s, step)
  {
    match step
    case Begin(thread, op) => Read(s, thread, op)
    case Turn(thread, spurious) =>
      var t := s.busy[thread];
      var swap := s.count == t.expected && !spurious;
      if t.op == Inc then
        if t.expected == MAX then Return(s, thread, s.count, Added)
        else if swap then Return(s, thread, t.expected + 1, Added)
        else Read(s, thread, Inc)
      else if t.expected == 0 then s.(aborted := true)
      else if t.expected == MAX then Return(s, thread, s.count, Removed(false))
      else if swap then Return(s, thread, t.expected - 1, Removed(t.expected - 1 == 0))
      else Read(s, thread, Dec)
  }

  predicate Start(s: State) {
    s.count <= MAX && s.busy == map[] && s.effects == [] && !s.aborted
  }

  predicate Runs(s: State, steps: seq<Step>, t: State)
    decreases |steps|
  {
    if steps == [] then s == t
    else Enabled(s, steps[0]) && Runs(Next(s, steps[0]), steps[1..], t)
  }

  // ----- refinement -----

  /** The locked count after these calls, if it returns the same results and
      never aborts. */
  function Replay(count: nat, effects: seq<Effect>): Option<nat>
    decreases |effects|
  {
    if effects == [] then Some(count)
    else
      match Replay(count, effects[..|effects| - 1])
      case None => None
      case Some(c) =>
        if effects[|effects| - 1] == Added then Some(Incremented(c))
        else if c == 0 || effects[|effects| - 1].zero != (Decremented(c) == 0) then None
        else Some(Decremented(c))
  }

  lemma ReplayOne(count: nat, effects: seq<Effect>, e: Effect, c: nat)
    requires Replay(count, effects) == Some(c)
    requires e.Removed? ==> c > 0 && e.zero == (Decremented(c) == 0)
    ensures Replay(count, effects + [e]) == Some(if e.Added? then Incremented(c) else Decremented(c))
  {
    var all := effects + [e];
    assert all[..|all| - 1] == effects;
  }

  /** Each thread expects a value the locked count did have. */
  ghost predicate Honest(start: nat, s: State) {
    && s.count <= MAX && Replay(start, s.effects) == Some(s.count)
    && forall thread :: thread in s.busy ==>
         var t := s.busy[thread];
         && t.seen <= |s.effects| && Replay(start, s.effects[..t.seen]) == Some(t.expected)
         && (t.expected == MAX ==> s.count == MAX)
         && (t.seen == |s.effects| ==> t.expected == s.count)
  }

  lemma StepRefines(start: nat, s: State, step: Step)
    requires Honest(start, s) && Enabled(s, step)
    ensures Honest(start, Next(s, step))
    ensures s.count == MAX ==> Next(s, step).count == MAX
  {
    hide Replay;
    var t := Next(s, step);
    assert s.effects[..|s.effects|] == s.effects;
    if |t.effects| > |s.effects| {
      ReplayOne(start, s.effects, t.effects[|s.effects|], s.count);
      assert forall n :: 0 <= n <= |s.effects| ==> t.effects[..n] == s.effects[..n];
    }
  }

  /** Under any interleaving and any spurious failures, the calls take effect
      one after the other as on the locked count, with its results; and a
      saturated count stays saturated. */
  lemma {:induction false} Refines(start: nat, s: State, steps: seq<Step>, t: State)
    requires Honest(start, s) && Runs(s, steps, t)
    ensures Honest(start, t)
    ensures s.count == MAX ==> t.count == MAX
    decreases |steps|
  {
    hide Honest, Next;
    if steps != [] {
      StepRefines(start, s, steps[0]);
      Refines(start, Next(s, steps[0]), steps[1..], t);
    }
  }

  /** A turn that fails for a reason fails because another call took effect in
      the meantime: the loops are lock-free. */
  lemma FailureMeansProgress(start: nat, s: State, thread: nat)
    requires Honest(start, s) && !s.aborted && thread in s.busy
    requires |Next(s, Turn(thread, false)).effects| == |s.effects| && !Next(s, Turn(thread, false)).aborted
    ensures s.busy[thread].seen < |s.effects|
  {
  }

  /** An abort means that the locked count was zero when the thread looked... */
  lemma AbortMeansZero(start: nat, s: State, step: Step) returns (seen: nat)
    requires Honest(start, s) && Enabled(s, step) && Next(s, step).aborted
    ensures seen <= |s.effects| && Replay(start, s.effects[..seen]) == Some(0)
  {
    seen := s.busy[step.thread].seen;
  }

  /** ...but not that it still is: in this one run the locked version would not
      abort. Callers that own what they count never see it (ExactlyOneZero). */
  lemma AbortMayComeLate() returns (s: State, t: State, steps: seq<Step>)
    ensures Start(s) && Runs(s, steps, t) && t.aborted && t.count == 1
  {
    s := State(0, map[], [], false);
    var s1 := Next(s, Begin(0, Dec));
    var s2 := Next(s1, Begin(1, Inc));
    var s3 := Next(s2, Turn(1, false));
    t := Next(s3, Turn(0, false));
    steps := [Begin(0, Dec), Begin(1, Inc), Turn(1, false), Turn(0, false)];
    assert Runs(s3, steps[3..], t);
    assert Runs(s2, steps[2..], t);
    assert Runs(s1, steps[1..], t);
  }

  // ----- callers that own what they count -----

  /** References not lent to a call. A call of either kind takes one along;
      an increment gives back two, a decrement none. */
  function Held(held: int, s: State, step: Step): int
    requires Enabled(s, step)
  {
    if step.Begin? then held - 1
    else if |Next(s, step).effects| > |s.effects| && s.busy[step.thread].op == Inc then held + 2
    else held
  }

  /** The run from s in which only holders of a reference make calls; at the end
      `left` references are held. */
  predicate Owned(held: int, s: State, steps: seq<Step>, t: State, left: int)
    decreases |steps|
  {
    if steps == [] then s == t && held == left
    else
      && Enabled(s, steps[0])
      && (steps[0].Begin? ==> held > 0)
      && Owned(Held(held, s, steps[0]), Next(s, steps[0]), steps[1..], t, left)
  }

  /** Decrements that reported zero. */
  function Zeros(effects: seq<Effect>): nat
    decreases |effects|
  {
    if effects == [] then 0
    else Zeros(effects[..|effects| - 1]) + (if effects[|effects| - 1] == Removed(true) then 1 else 0)
  }

  /** The count is the number of references held or lent, unless saturated. */
  ghost predicate Counted(start: nat, held: int, s: State) {
    && Honest(start, s) && !s.aborted && held >= 0
    && (s.count == MAX || s.count == held + |s.busy|)
    && (forall thread :: thread in s.busy ==> s.busy[thread].expected > 0)
    && Zeros(s.effects) == (if s.count == 0 then 1 else 0)
  }

  lemma RemoveOne(m: map<nat, Try>, k: nat)
    requires k in m
    ensures |m - {k}| == |m| - 1
  {
    assert (m - {k}).Keys == m.Keys - {k};
  }

  lemma NobodyIsBusy(m: map<nat, Try>, k: nat)
    requires k in m
    ensures |m| > 0
  {
    assert k in m.Keys;
  }

  lemma ZerosOne(effects: seq<Effect>, e: Effect)
    ensures Zeros(effects + [e]) == Zeros(effects) + (if e == Removed(true) then 1 else 0)
  {
    var all := effects + [e];
    assert all[..|all| - 1] == effects;
  }

  lemma StepCounts(start: nat, held: int, s: State, step: Step)
    requires Counted(start, held, s) && Enabled(s, step) && (step.Begin? ==> held > 0)
    ensures Counted(start, Held(held, s, step), Next(s, step))
  {
    hide Honest, Replay, Zeros;
    StepRefines(start, s, step);
    SaturatedIsSeen(start, s);
    if step.Turn? {
      RemoveOne(s.busy, step.thread);
      NobodyIsBusy(s.busy, step.thread);
      ZerosOne(s.effects, Added);
      ZerosOne(s.effects, Removed(false));
      ZerosOne(s.effects, Removed(true));
    }
  }

  lemma SaturatedIsSeen(start: nat, s: State)
    requires Honest(start, s)
    ensures s.count <= MAX
    ensures forall thread :: thread in s.busy && s.busy[thread].expected == MAX ==> s.count == MAX
  {
  }

  lemma {:induction false} OwnedRuns(start: nat, held: int, s: State, steps: seq<Step>, t: State, left: int)
    requires Counted(start, held, s) && Owned(held, s, steps, t, left)
    ensures Counted(start, left, t)
    decreases |steps|
  {
    hide Counted, Next, Held;
    if steps != [] {
      StepCounts(start, held, s, steps[0]);
      OwnedRuns(start, Held(held, s, steps[0]), Next(s, steps[0]), steps[1..], t, left);
    }
  }

  /** From a count equal to the references held: no abort; the count is the
      references still held or lent, or saturated; and exactly one decrement
      reports zero if the count gets there, none otherwise. */
  lemma ExactlyOneZero(s: State, steps: seq<Step>, t: State, left: int)
    requires Start(s) && s.count > 0 && Owned(s.count, s, steps, t, left)
    ensures !t.aborted && Replay(s.count, t.effects) == Some(t.count)
    ensures left >= 0 && (t.count == MAX || t.count == left + |t.busy|)
    ensures Zeros(t.effects) == if t.count == 0 then 1 else 0
  {
    OwnedRuns(s.count, s.count, s, steps, t, left);
  }

  /** When a decrement has reported zero nobody holds a reference or is about
      to use one, so nothing can follow. */
  lemma ZeroIsLast(start: nat, held: int, s: State)
    requires Counted(start, held, s) && Zeros(s.effects) > 0
    ensures held == 0 && s.busy == map[] && s.count == 0
  {
    if thread :| thread in s.busy {
      NobodyIsBusy(s.busy, thread);
    }
  }
}
