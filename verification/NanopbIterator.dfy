/** The cyclic field iterator of pb_common.c. */
module NanopbIterator {
  import opened Prelude
  import opened NanopbSchema

  /** PB_SIZE_MAX, which marks "same place as the previous union member". */
  const SIZE_MAX: nat := 0xFFFF_FFFF

  predicate Tagged(fields: seq<Field>) {
    forall i :: 0 <= i < |fields| ==> fields[i].tag != 0
  }

  predicate DistinctTags(fields: seq<Field>) {
    forall i, j :: 0 <= i < j < |fields| ==> fields[i].tag != fields[j].tag
  }

  predicate SharesPlace(fields: seq<Field>, k: nat)
    requires 0 < k < |fields|
  {
    fields[k - 1].htype.Oneof? && fields[k].htype.Oneof? && fields[k].dataOffset == SIZE_MAX
  }

  /** Bytes a field's data takes in the struct. */
  function Extent(f: Field): nat {
    if f.htype.Repeated? then f.dataSize * f.arraySize else f.dataSize
  }

  /** Where field k's data lies in a struct at address `dest`. */
  function DataAt(fields: seq<Field>, dest: int, k: nat): int
    requires k < |fields|
  {
    if k == 0 then dest + fields[0].dataOffset
    else if SharesPlace(fields, k) then DataAt(fields, dest, k - 1)
    else DataAt(fields, dest, k - 1) + Extent(fields[k - 1]) + fields[k].dataOffset
  }

  /** Where field k's has_, _count or which_ lies. */
  function SizeAt(fields: seq<Field>, dest: int, k: nat): int
    requires k < |fields|
  {
    if k > 0 && SharesPlace(fields, k) then SizeAt(fields, dest, k - 1)
    else DataAt(fields, dest, k) + fields[k].sizeOffset
  }

  /** How many steps of a cyclic walk over n fields lead from a to b. */
  function Ahead(n: nat, a: nat, b: nat): nat
    requires a < n && b < n
  {
    if a <= b then b - a else n - a + b
  }

  class FieldIter {
    const start: seq<Field>
    const dest: int
    var pos: nat
    var requiredFieldIndex: nat
    var pData: int
    var pSize: int

    /** At every stop the derived members are those of the position. On an
        empty list the iterator stays at the terminator. */
    ghost predicate Valid()
      reads this
    {
      && Tagged(start)
      && (if start == [] then pos == 0 && requiredFieldIndex == 0 && pData == pSize == dest
          else
            && pos < |start|
            && requiredFieldIndex == RequiredBefore(start, pos)
            && pData == DataAt(start, dest, pos)
            && pSize == SizeAt(start, dest, pos))
    }

    /** pb_field_iter_begin on a new iterator. */
    constructor (fields: seq<Field>, dest: int)
      requires Tagged(fields)
      ensures Valid() && start == fields && this.dest == dest && pos == 0
    {
      this.start := fields;
      this.dest := dest;
      pos := 0;
      requiredFieldIndex := 0;
      pData := dest + if fields == [] then 0 else fields[0].dataOffset;
      pSize := dest + if fields == [] then 0 else fields[0].dataOffset + fields[0].sizeOffset;
    }

    /** pb_field_iter_begin on this iterator. */
    method Begin()
      requires Tagged(start)
      modifies this
      ensures Valid() && pos == 0
    {
      pos := 0;
      requiredFieldIndex := 0;
      pData := dest + if start == [] then 0 else start[0].dataOffset;
      pSize := pData + if start == [] then 0 else start[0].sizeOffset;
    }

    /** pb_field_iter_next: false when the walk wraps to the first field. */
    method Next() returns (more: bool)
      requires Valid()
      modifies this
      ensures Valid()
      ensures more <==> old(pos) + 1 < |start|
      ensures pos == if more then old(pos) + 1 else 0
    {
      if start == [] {
        return false;
      }
      var prev := start[pos];
      if pos + 1 == |start| {
        Begin();
        return false;
      }
      pos := pos + 1;
      if prev.htype.Oneof? && start[pos].htype.Oneof? && start[pos].dataOffset == SIZE_MAX {
        return true;
      }
      var prevSize := prev.dataSize;
      if prev.htype.Repeated? {
        prevSize := prevSize * prev.arraySize;
      }
      if prev.htype.Required? {
        requiredFieldIndex := requiredFieldIndex + 1;
      }
      pData := pData + prevSize + start[pos].dataOffset;
      pSize := pData + start[pos].sizeOffset;
      return true;
    }

    /** pb_field_iter_find: the first field with the tag, walking cyclically
        from the current position; without one, back where it began. */
    method Find(tag: nat) returns (found: bool)
      requires Valid()
      modifies this
      ensures Valid()
      ensures start != [] ==> (found <==> exists i :: 0 <= i < |start| && start[i].tag == tag)
      ensures start == [] ==> (found <==> tag == 0)
      ensures found && start != [] ==> start[pos].tag == tag
      ensures found && start != [] ==> forall i :: 0 <= i < |start| && start[i].tag == tag ==>
                Ahead(|start|, old(pos), pos) <= Ahead(|start|, old(pos), i)
      ensures !found ==> pos == old(pos)
    {
      var begin := pos;
      ghost var steps := 0;
      while true
        invariant Valid()
        invariant start != [] ==> steps == Ahead(|start|, begin, pos)
        invariant start == [] ==> steps == 0
        invariant forall i :: 0 <= i < |start| && Ahead(|start|, begin, i) < steps ==> start[i].tag != tag
        decreases |start| - steps
      {
        if start == [] {
          // The terminator carries tag 0 and is no extension.
          if tag == 0 {
            return true;
          }
        } else if start[pos].tag == tag {
          return true;
        }
        var more := Next();
        if pos == begin {
          return false;
        }
        steps := steps + 1;
      }
    }
  }

  /** Searching from anywhere ends where a search from the beginning does,
      with the same required index and addresses. */
  method FindFromAnywhere(iter: FieldIter, tag: nat) returns (found: bool)
    requires iter.Valid() && iter.start != [] && DistinctTags(iter.start)
    modifies iter
    ensures iter.Valid()
    ensures found <==> NanopbSchema.Find(iter.start, tag).Some?
    ensures found ==>
      var k := NanopbSchema.Find(iter.start, tag).value;
      && iter.pos == k
      && iter.requiredFieldIndex == RequiredBefore(iter.start, k)
      && iter.pData == DataAt(iter.start, iter.dest, k)
      && iter.pSize == SizeAt(iter.start, iter.dest, k)
    ensures !found ==> iter.pos == old(iter.pos)
  {
    found := iter.Find(tag);
  }
}
