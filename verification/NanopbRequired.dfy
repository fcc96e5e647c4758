/** The required-field check is exact: it passes if and only if each of the
    first 64 required fields occurred. */
module NanopbRequired {
  import opened Prelude
  import opened NanopbSchema
  import opened NanopbDecode

  /** Reading s, the field loop comes to an occurrence of field k. */
  predicate Meets(fields: seq<Field>, m: seq<Slot>, s: seq<byte>, k: nat)
    requires GoodFields(fields) && Holds(fields, m)
    decreases |s|
  {
    s != [] && DecodeTag(s).TagOk? &&
    (var tag := DecodeTag(s);
     match Find(fields, tag.tag)
     case None =>
       SkipField(tag.wire, tag.rest).Some? && Meets(fields, m, SkipField(tag.wire, tag.rest).value, k)
     case Some(j) =>
       j == k ||
       (match DecodeSlot(fields[j], m[j], tag.wire, tag.rest)
        case None => false
        case Some(p) => Meets(fields, Store(fields, m, j, p.value), p.rest, k)))
  }

  predicate TrackedField(fields: seq<Field>, k: nat) {
    k < |fields| && fields[k].htype.Required? && RequiredBefore(fields, k) < MAX_REQUIRED
  }

  /** Required fields have different numbers. */
  lemma {:induction false} NumbersGrow(fields: seq<Field>, j: nat, k: nat)
    requires j < k <= |fields| && fields[j].htype.Required?
    ensures RequiredBefore(fields, j) < RequiredBefore(fields, k)
    decreases k
  {
    if j + 1 < k {
      NumbersGrow(fields, j, k - 1);
    }
  }

  lemma NumbersDiffer(fields: seq<Field>, j: nat, k: nat)
    requires TrackedField(fields, j) && TrackedField(fields, k)
    requires RequiredBefore(fields, j) == RequiredBefore(fields, k)
    ensures j == k
  {
    if j < k {
      NumbersGrow(fields, j, k);
    } else if k < j {
      NumbersGrow(fields, k, j);
    }
  }

  /** Every number below the count belongs to a required field. */
  lemma {:induction false} NumberOf(fields: seq<Field>, n: nat, r: nat) returns (k: nat)
    requires n <= |fields| && r < RequiredBefore(fields, n)
    ensures k < n && fields[k].htype.Required? && RequiredBefore(fields, k) == r
  {
    if r < RequiredBefore(fields, n - 1) {
      k := NumberOf(fields, n - 1, r);
    } else {
      k := n - 1;
    }
  }

  lemma MarkSeenIs(fields: seq<Field>, j: nat, seen: set<nat>, k: nat)
    requires j < |fields| && TrackedField(fields, k)
    ensures RequiredBefore(fields, k) in MarkSeen(fields, j, seen) <==> j == k || RequiredBefore(fields, k) in seen
  {
    if TrackedField(fields, j) && RequiredBefore(fields, j) == RequiredBefore(fields, k) {
      NumbersDiffer(fields, j, k);
    }
  }

  /** fields_seen has a field's bit exactly when the field occurred. */
  lemma {:induction false} SeenExactly(fields: seq<Field>, m: seq<Slot>, s: seq<byte>, seen: set<nat>, k: nat)
    requires GoodFields(fields) && Holds(fields, m) && TrackedField(fields, k)
    requires DecodeLoop(fields, m, s, seen).Some?
    ensures RequiredBefore(fields, k) in DecodeLoop(fields, m, s, seen).value.seen
       <==> RequiredBefore(fields, k) in seen || Meets(fields, m, s, k)
    decreases |s|
  {
    hide DecodeTag, DecodeSlot, SkipField, Find, Store, MarkSeen, RequiredBefore, Holds, GoodFields;
    if s != [] && DecodeTag(s).TagOk? {
      var tag := DecodeTag(s);
      match Find(fields, tag.tag) {
        case None => SeenExactly(fields, m, SkipField(tag.wire, tag.rest).value, seen, k);
        case Some(j) =>
          SlotFits(fields, m, j);
          var p := DecodeSlot(fields[j], m[j], tag.wire, tag.rest).value;
          SeenExactly(fields, Store(fields, m, j, p.value), p.rest, MarkSeen(fields, j, seen), k);
          MarkSeenIs(fields, j, seen, k);
          if j == k {
            SeenGrows(fields, Store(fields, m, j, p.value), p.rest, MarkSeen(fields, j, seen));
          }
      }
    }
  }

  lemma {:induction false} SeenGrows(fields: seq<Field>, m: seq<Slot>, s: seq<byte>, seen: set<nat>)
    requires GoodFields(fields) && Holds(fields, m) && DecodeLoop(fields, m, s, seen).Some?
    ensures seen <= DecodeLoop(fields, m, s, seen).value.seen
    decreases |s|
  {
    hide DecodeTag, DecodeSlot, SkipField, Find, Store, Holds, GoodFields;
    if s != [] && DecodeTag(s).TagOk? {
      var tag := DecodeTag(s);
      match Find(fields, tag.tag) {
        case None => SeenGrows(fields, m, SkipField(tag.wire, tag.rest).value, seen);
        case Some(j) =>
          SlotFits(fields, m, j);
          var p := DecodeSlot(fields[j], m[j], tag.wire, tag.rest).value;
          SeenGrows(fields, Store(fields, m, j, p.value), p.rest, MarkSeen(fields, j, seen));
      }
    }
  }

  /** pb_decode_noinit succeeds exactly when its field loop does and every
      tracked required field occurred. */
  lemma RequiredCheckIsExact(fields: seq<Field>, m: seq<Slot>, s: seq<byte>)
    requires GoodFields(fields) && Holds(fields, m)
    ensures DecodeNoinit(fields, m, s).Some?
       <==> DecodeLoop(fields, m, s, {}).Some? && forall k :: TrackedField(fields, k) ==> Meets(fields, m, s, k)
  {
    hide DecodeLoop, Meets, RequiredBefore, Holds, GoodFields;
    if DecodeLoop(fields, m, s, {}).Some? {
      var seen := DecodeLoop(fields, m, s, {}).value.seen;
      forall k | TrackedField(fields, k)
        ensures RequiredBefore(fields, k) in seen <==> Meets(fields, m, s, k)
      {
        SeenExactly(fields, m, s, {}, k);
      }
      if RequiredSeen(fields, seen) {
        forall k | TrackedField(fields, k)
          ensures Meets(fields, m, s, k)
        {
          NumbersGrow(fields, k, |fields|);
        }
      }
      if forall k :: TrackedField(fields, k) ==> Meets(fields, m, s, k) {
        forall r: nat | r < Tracked(fields)
          ensures r in seen
        {
          var k := NumberOf(fields, |fields|, r);
          assert TrackedField(fields, k);
        }
      }
    }
  }
}
