/** The cyclic field iterator, which keeps addresses by adding up the offsets between neighbours. */
module PbIterator {
  import opened Wire
  import opened PbTypes
  import opened PbParse
  import opened PbTrip

  /** PB_LAST_FIELD. */
  const TERMINATOR: Field := Field(0, VARINT, REQUIRED, 0, 0, 0, 0, None)

  /** `fields[i]` of the C array, which ends with the terminator. */
  function Entry(fields: seq<Field>, i: nat): Field
    requires i <= |fields|
  {
    if i < |fields| then fields[i] else TERMINATOR
  }

  /** Room a field takes in the struct: all entries of an array. */
  function Extent(f: Field): nat {
    if f.htype.REPEATED? then f.dataSize * f.arraySize else f.dataSize
  }

  /** Distance of field `i` from the start of the struct, added up from the first field. */
  function DataOffset(fields: seq<Field>, i: nat): (d: nat)
    requires i < |fields|
  {
    if i == 0 then fields[0].dataOffset
    else if Shares(fields, i) then DataOffset(fields, i - 1)
    else DataOffset(fields, i - 1) + Extent(fields[i - 1]) + fields[i].dataOffset
  }

  /** The descriptor as the generator's macros make it from the addresses (offsetof) of the members. */
  predicate Laid(fields: seq<Field>, addr: seq<nat>) {
    && |addr| == |fields|
    && (fields != [] ==> fields[0].dataOffset == addr[0])
    && forall i | 0 < i < |fields| ::
         if Shares(fields, i) then addr[i] == addr[i - 1]
         else fields[i].dataOffset == addr[i] - addr[i - 1] - Extent(fields[i - 1])
  }

  /** The sums are the addresses the compiler gave to the members. */
  lemma {:induction false} OffsetsAreAddresses(fields: seq<Field>, addr: seq<nat>, i: nat)
    requires Laid(fields, addr) && i < |fields|
    ensures DataOffset(fields, i) == addr[i]
  {
    if i > 0 {
      OffsetsAreAddresses(fields, addr, i - 1);
    }
  }

  lemma {:induction false} TagsNotZero(fields: seq<Field>)
    requires WellFormed(fields)
    ensures forall f | f in fields :: f.tag != 0
  {
    forall f | f in fields ensures f.tag != 0 {
      assert WellFormedField(f);
    }
  }

  class FieldIter {
    const start: seq<Field>
    const dest: nat
    var pos: nat
    var requiredFieldIndex: nat
    var pData: int
    var pSize: int

    /** The incremental state is what a computation from scratch gives for the position. */
    ghost predicate InStep()
      reads this
    {
      && OnField(start, pos)
      && requiredFieldIndex == RequiredBefore(start, pos)
      && pData == dest + (if pos < |start| then DataOffset(start, pos) else 0)
      && pSize == pData + Entry(start, pos).sizeOffset
    }

    constructor (fields: seq<Field>, destStruct: nat)
      ensures start == fields && dest == destStruct && pos == 0 && InStep()
    {
      start, dest := fields, destStruct;
      pos, requiredFieldIndex := 0, 0;
      pData := destStruct + Entry(fields, 0).dataOffset;
      pSize := destStruct + Entry(fields, 0).dataOffset + Entry(fields, 0).sizeOffset;
    }

    /** pb_field_iter_begin. */
    method Begin() returns (ok: bool)
      requires WellFormed(start)
      modifies this
      ensures InStep() && pos == 0
      ensures ok <==> start != []
    {
      hide WellFormed;
      TagsNotZero(start);
      pos := 0;
      requiredFieldIndex := 0;
      pData := dest + Entry(start, pos).dataOffset;
      pSize := pData + Entry(start, pos).sizeOffset;
      return Entry(start, pos).tag != 0;
    }

    /** pb_field_iter_next. */
    method Next() returns (more: bool)
      requires InStep() && WellFormed(start)
      modifies this
      ensures InStep()
      ensures pos == if start == [] then 0 else NextPos(start, old(pos))
      ensures more <==> old(pos) + 1 < |start|
      ensures more ==> pos == old(pos) + 1
    {
      var prevField := Entry(start, pos);
      if prevField.tag == 0 {
        return false;
      }
      pos := pos + 1;
      if Entry(start, pos).tag == 0 {
        var _ := Begin();
        return false;
      } else {
        var prevSize := prevField.dataSize;
        if prevField.htype.ONEOF? && Entry(start, pos).htype.ONEOF? && Entry(start, pos).dataOffset == PB_SIZE_MAX {
          return true;
        } else if prevField.htype.REPEATED? {
          prevSize := prevSize * prevField.arraySize;
        }
        if prevField.htype.REQUIRED? {
          requiredFieldIndex := requiredFieldIndex + 1;
        }
        pData := pData + prevSize + Entry(start, pos).dataOffset;
        pSize := pData + Entry(start, pos).sizeOffset;
        return true;
      }
    }
  
    /** pb_field_iter_find: at most one lap from the current position. */
    method Find(tag: nat) returns (found: bool)
      requires InStep() && WellFormed(start)
      modifies this
      ensures InStep()
      ensures found <==> PbParse.Find(start, old(pos), tag) != NotFound
      ensures pos == match PbParse.Find(start, old(pos), tag) case At(i) => i case _ => old(pos)
    {
      hide DataOffset, RequiredBefore, Shares, Extent;
      var first := pos;
      if Entry(start, pos).tag == tag {
        return true;
      }
      var _ := Next();
      ghost var n: nat := if start == [] then 0 else |start| - 1;
      while pos != first
        invariant InStep() && start != [] ==> n == LeftOf(|start|, first, pos)
        invariant InStep() && OnField(start, pos) && (start == [] ==> pos == first)
        invariant start != [] ==> PbParse.Find(start, first, tag) == FindWithin(start, pos, tag, n)
        invariant start == [] ==> tag != 0
        decreases n
      {
        if Entry(start, pos).tag == tag {
          return true;
        }
        var _ := Next();
        n := n - 1;
      }
      return false;
    }
  }

  /** Positions still to visit before the walk is back at `first`. */
  function LeftOf(n: nat, first: nat, pos: nat): nat
    requires first < n && pos < n
  {
    if pos == first then 0 else Ahead(n, pos, first)
  }
}
