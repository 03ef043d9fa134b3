/**
 The cyclic iterator over a descriptor table, with the byte addresses it maintains.
 A descriptor table is the sequence of its entries before the terminator, so the position
 of an empty table's terminator is 0.
 */
module FieldIter {
  import opened Outcomes
  import opened Descriptor

  // ----- where every entry's data is, as a function of the entry alone -----

  /** Bytes that an entry occupies in the struct. */
  function Storage(f: Field): nat {
    if f.atype == Static && f.htype == Repeated then f.dataSize * f.arraySize
    else if f.atype == Pointer then POINTER_SIZE
    else f.dataSize
  }

  /** Offset of an entry's data in the struct; union members have the same one. */
  function DataOffset(fs: seq<Field>, i: nat): nat
    requires i < |fs|
  {
    if i == 0 then fs[0].dataOffset
    else if SameUnion(fs[i - 1], fs[i]) then DataOffset(fs, i - 1)
    else DataOffset(fs, i - 1) + Storage(fs[i - 1]) + fs[i].dataOffset
  }

  /** Offset of an entry's count, has_ flag or which_ field; a union keeps the one of its first member. */
  function SizeLocation(fs: seq<Field>, i: nat): int
    requires i < |fs|
  {
    DataOffset(fs, i) + fs[SlotOf(fs, i)].sizeOffset
  }

  /** Entries with the same slot have the same data offset. */
  lemma {:induction false} OffsetOfSlot(fs: seq<Field>, i: nat)
    requires i < |fs|
    ensures DataOffset(fs, SlotOf(fs, i)) == DataOffset(fs, i)
  {
    if i > 0 && SameUnion(fs[i - 1], fs[i]) {
      OffsetOfSlot(fs, i - 1);
    }
  }

  lemma SameSlotSameOffset(fs: seq<Field>, i: nat, j: nat)
    requires i < |fs| && j < |fs| && SlotOf(fs, i) == SlotOf(fs, j)
    ensures DataOffset(fs, i) == DataOffset(fs, j)
  {
    OffsetOfSlot(fs, i);
    OffsetOfSlot(fs, j);
  }

  /** Entries of different slots lie one behind the other in the struct. */
  predicate Disjoint(fs: seq<Field>, i: nat, j: nat)
    requires i < j < |fs|
  {
    SlotOf(fs, i) != SlotOf(fs, j) ==> DataOffset(fs, i) + Storage(fs[i]) <= DataOffset(fs, j)
  }

  /** Entry k, which shares no storage with the one before it, begins behind member i of the union before it. */
  predicate Clears(fs: seq<Field>, i: nat, k: nat)
    requires i < k < |fs|
  {
    !SameUnion(fs[k - 1], fs[k]) && SlotOf(fs, i) == SlotOf(fs, k - 1) ==>
      Storage(fs[i]) <= Storage(fs[k - 1]) + fs[k].dataOffset
  }

  lemma OffsetStep(fs: seq<Field>, k: nat)
    requires 0 < k < |fs|
    ensures DataOffset(fs, k - 1) <= DataOffset(fs, k)
    ensures if SameUnion(fs[k - 1], fs[k]) then SlotOf(fs, k) == SlotOf(fs, k - 1) && DataOffset(fs, k) == DataOffset(fs, k - 1)
            else SlotOf(fs, k) == k && DataOffset(fs, k) == DataOffset(fs, k - 1) + Storage(fs[k - 1]) + fs[k].dataOffset
  {
  }

  lemma {:induction false} ClearIsDisjoint(fs: seq<Field>, i: nat, j: nat)
    requires i < j < |fs| && forall i, k :: 0 <= i < k < |fs| ==> Clears(fs, i, k)
    ensures Disjoint(fs, i, j)
    decreases j
  {
    assert Clears(fs, i, j);
    hide DataOffset, SlotOf, Storage, SameUnion;
    OffsetStep(fs, j);
    if SlotOf(fs, i) == SlotOf(fs, j - 1) {
      SameSlotSameOffset(fs, i, j - 1);
    } else {
      ClearIsDisjoint(fs, i, j - 1);
    }
  }

  lemma DisjointIsClear(fs: seq<Field>, i: nat, k: nat)
    requires i < k < |fs|
    ensures Disjoint(fs, i, k) ==> Clears(fs, i, k)
  {
    hide DataOffset, SlotOf, Storage, SameUnion;
    OffsetStep(fs, k);
    if SlotOf(fs, i) == SlotOf(fs, k - 1) {
      SameSlotSameOffset(fs, i, k - 1);
    }
  }

  /**
   No two entries with different slots overlap in the struct if and only if the entry after each
   union begins behind all of its members.
   */
  lemma OffsetsOrdered(fs: seq<Field>)
    ensures (forall i, j :: 0 <= i < j < |fs| ==> Disjoint(fs, i, j)) <==> forall i, k :: 0 <= i < k < |fs| ==> Clears(fs, i, k)
  {
    hide *;
    forall i, k | 0 <= i < k < |fs|
      ensures Disjoint(fs, i, k) ==> Clears(fs, i, k)
    {
      DisjointIsClear(fs, i, k);
    }
    if forall i, k :: 0 <= i < k < |fs| ==> Clears(fs, i, k) {
      forall i, j | 0 <= i < j < |fs|
        ensures Disjoint(fs, i, j)
      {
        ClearIsDisjoint(fs, i, j);
      }
    }
  }

  // ----- the macros that write descriptors, and what the iterator makes of them -----

  /** How the macros place an entry: at the start, after the previous member, or in the same union. */
  datatype Placement = First | Other | InUnion

  /** A member of the C struct: its offset and size, and the offset of its count, has_ flag or which_ field, or its own if it has none. */
  datatype Member = Member(offset: nat, size: nat, counter: int)

  /** The table was written by the field macros for a struct with the given members. */
  predicate WrittenFor(fs: seq<Field>, members: seq<Member>, place: seq<Placement>) {
    && |members| == |place| == |fs|
    && forall i :: 0 <= i < |fs| ==> WrittenAt(fs, members, place, i)
  }

  predicate WrittenAt(fs: seq<Field>, members: seq<Member>, place: seq<Placement>, i: nat)
    requires |members| == |place| == |fs| && i < |fs|
  {
    && (place[i] == First <==> i == 0)
    && SizeRecorded(fs[i], members[i].size)
    && fs[i].sizeOffset == members[i].counter - members[i].offset
    && match place[i]
       case First => fs[i].dataOffset == members[i].offset
       case Other => fs[i].dataOffset == members[i].offset - (members[i - 1].offset + members[i - 1].size)
       case InUnion =>
         && fs[i - 1].htype == Oneof && fs[i].htype == Oneof && fs[i].dataOffset == SizeMax()
         && members[i].offset == members[i - 1].offset && members[i].counter == members[i - 1].counter
  }

  /** What the macros record of a member's size: of an array the element's and the count, of a pointer the target's. */
  predicate SizeRecorded(f: Field, size: nat) {
    match f.atype
    case Static => size == if f.htype == Repeated then f.arraySize * f.dataSize else f.dataSize
    case Pointer => size == POINTER_SIZE
    case Callback => size == f.dataSize
  }

  /** Two neighbouring unions whose distance happens to be the marker value for "same union". */
  predicate Confused(fs: seq<Field>, place: seq<Placement>, i: nat)
    requires |place| == |fs| && i < |fs|
  {
    i > 0 && place[i] == Other && fs[i - 1].htype == Oneof && fs[i].htype == Oneof && fs[i].dataOffset == SizeMax()
  }

  /**
   The iterator recomputes the true member offsets exactly when no two neighbouring unions
   lie PB_SIZE_MAX bytes apart. Then it also finds the counts and flags.
   */
  lemma LayoutRecovered(fs: seq<Field>, members: seq<Member>, place: seq<Placement>)
    requires WrittenFor(fs, members, place)
    ensures (forall i :: 0 <= i < |fs| ==> DataOffset(fs, i) == members[i].offset)
       <==> (forall i :: 0 <= i < |fs| ==> !Confused(fs, place, i))
    ensures (forall i :: 0 <= i < |fs| ==> !Confused(fs, place, i)) ==>
            forall i :: 0 <= i < |fs| ==> SizeLocation(fs, i) == members[i].counter
  {
    if forall i :: 0 <= i < |fs| ==> !Confused(fs, place, i) {
      forall i | 0 <= i < |fs|
        ensures DataOffset(fs, i) == members[i].offset && SizeLocation(fs, i) == members[i].counter
      {
        LayoutRecoveredAt(fs, members, place, i);
      }
    } else {
      var i :| 0 <= i < |fs| && Confused(fs, place, i);
      assert WrittenAt(fs, members, place, i);
      assert DataOffset(fs, i) == DataOffset(fs, i - 1);
      assert members[i].offset >= members[i - 1].offset + SizeMax();
      assert DataOffset(fs, i) != members[i].offset || DataOffset(fs, i - 1) != members[i - 1].offset;
    }
  }

  lemma {:induction false} LayoutRecoveredAt(fs: seq<Field>, members: seq<Member>, place: seq<Placement>, i: nat)
    requires WrittenFor(fs, members, place) && i < |fs|
    requires forall k :: 0 <= k < |fs| ==> !Confused(fs, place, k)
    ensures DataOffset(fs, i) == members[i].offset
    ensures fs[SlotOf(fs, i)].sizeOffset == members[i].counter - members[i].offset
  {
    assert WrittenAt(fs, members, place, i);
    if i > 0 {
      LayoutRecoveredAt(fs, members, place, i - 1);
      assert WrittenAt(fs, members, place, i - 1);
      assert !Confused(fs, place, i);
    }
  }

  /** A union that ends with a one-byte member, and another union behind it. */
  function NeighbourUnions(): seq<Field> {
    var which: int := SIZE_WIDTH;
    [Field(1, LFixedLengthBytes, Oneof, Static, which, -which, SizeMax() + 1 - which, 0, Null),
     Field(2, LUVarint, Oneof, Static, SizeMax(), -which, 1, 0, Null),
     Field(3, LUVarint, Oneof, Static, SizeMax(), -which, 1, 0, Null)]
  }

  /** The struct: each union behind its which_ field, the first as large as its larger member. */
  function NeighbourMembers(): seq<Member> {
    var which: nat := SIZE_WIDTH;
    [Member(which, SizeMax() + 1 - which, 0), Member(which, 1, 0), Member(SizeMax() + 1 + which, 1, SizeMax() + 1)]
  }

  /** That can happen: the iterator takes the second union's member for a third one of the first, in its storage. */
  lemma UnionsConfused()
    ensures var fs, which := NeighbourUnions(), SIZE_WIDTH;
            && FieldsOk(fs)
            && WrittenFor(fs, NeighbourMembers(), [First, InUnion, Other])
            && DataOffset(fs, 2) == which < NeighbourMembers()[2].offset && SlotOf(fs, 2) == 0
  {
    var fs := NeighbourUnions();
    assert StaticField(fs[0]) && StaticField(fs[1]) && StaticField(fs[2]);
    assert DataOffset(fs, 1) == DataOffset(fs, 0) && SlotOf(fs, 1) == SlotOf(fs, 0);
  }

  /** Lookup finds the first entry that has the tag and is not an extension, if there is one. */
  lemma FindExactly(fs: seq<Field>, tag: nat, i: nat)
    ensures FindField(fs, tag) == Some(i) <==>
            && i < |fs| && fs[i].tag == tag && fs[i].ltype != LExtension
            && forall k :: 0 <= k < i ==> fs[k].tag != tag || fs[k].ltype == LExtension
  {
    FirstFrom(fs, tag, 0);
  }

  lemma {:induction false} FirstFrom(fs: seq<Field>, tag: nat, from: nat)
    requires from <= |fs|
    ensures FindFrom(fs, tag, from).Some? ==> forall k :: from <= k < FindFrom(fs, tag, from).value ==> !Matches(fs[k], tag)
    decreases |fs| - from
  {
    if from < |fs| && !Matches(fs[from], tag) {
      FirstFrom(fs, tag, from + 1);
    }
  }

  // ----- the iterator -----

  /** Entry k lies on the way from position p (included) to position q (excluded), going round. */
  predicate OnTheWay(p: nat, k: nat, q: nat) {
    if p <= q then p <= k < q else k >= p || k < q
  }

  class Iter {
    const start: seq<Field>
    const destStruct: int
    var pos: nat
    var requiredFieldIndex: nat
    var pData: int
    var pSize: int

    /** The bookkeeping is what the position alone determines. */
    predicate Valid()
      reads this
    {
      if start == [] then pos == 0 && requiredFieldIndex == 0 && pData == pSize == destStruct
      else
        && pos < |start|
        && requiredFieldIndex == RequiredBefore(start, pos)
        && pData == destStruct + DataOffset(start, pos)
        && pSize == destStruct + SizeLocation(start, pos)
    }

    constructor (fields: seq<Field>, dest: int)
      ensures start == fields && destStruct == dest && Valid() && pos == 0
    {
      start := fields;
      destStruct := dest;
      new;
      var nonEmpty := Begin();
    }

    /** Goes to the first entry; false for an empty table. */
    method Begin() returns (nonEmpty: bool)
      modifies this
      ensures Valid() && pos == 0
      ensures nonEmpty <==> start != []
    {
      pos := 0;
      requiredFieldIndex := 0;
      pData := destStruct + if start == [] then 0 else start[0].dataOffset;
      pSize := pData + if start == [] then 0 else start[0].sizeOffset;
      nonEmpty := start != [];
    }

    /** Advances by one entry; false when that wraps to the first one, or the table is empty. */
    method Next() returns (more: bool)
      requires Valid()
      modifies this
      ensures Valid()
      ensures more <==> old(pos) + 1 < |start|
      ensures pos == if more then old(pos) + 1 else 0
    {
      if start == [] {
        return false;
      }
      var prev := start[pos];
      pos := pos + 1;
      if pos == |start| {
        more := Begin();
        return false;
      }
      var prevSize := prev.dataSize;
      if prev.htype == Oneof && start[pos].htype == Oneof && start[pos].dataOffset == SizeMax() {
        return true;
      } else if prev.atype == Static && prev.htype == Repeated {
        prevSize := prevSize * prev.arraySize;
      } else if prev.atype == Pointer {
        prevSize := POINTER_SIZE;
      }
      if prev.htype == Required {
        requiredFieldIndex := requiredFieldIndex + 1;
      }
      pData := pData + prevSize + start[pos].dataOffset;
      pSize := pData + start[pos].sizeOffset;
      return true;
    }

    /**
     Goes round until an entry with the tag is reached. It stops at the first match at or after
     the position it started from; without a match it is back where it was. The terminator of an
     empty table matches tag 0.
     */
    method Find(tag: nat) returns (found: bool)
      requires Valid()
      modifies this
      ensures Valid()
      ensures start != [] ==> (found <==> exists k :: 0 <= k < |start| && Matches(start[k], tag))
      ensures start == [] ==> (found <==> tag == 0)
      ensures found && start != [] ==>
        && Matches(start[pos], tag)
        && forall k :: 0 <= k < |start| && OnTheWay(old(pos), k, pos) ==> !Matches(start[k], tag)
      ensures !found ==> pos == old(pos)
      ensures start != [] && DistinctTags(start) ==> FindField(start, tag) == if found then Some(pos) else None
    {
      if start == [] {
        return tag == 0;
      }
      var from := pos;
      var first := true;
      ghost var steps := 0;
      while first || pos != from
        invariant Valid()
        invariant steps <= |start|
        invariant pos == if from + steps < |start| then from + steps else from + steps - |start|
        invariant first <==> steps == 0
        invariant forall k :: 0 <= k < |start| && OnTheWay(from, k, pos) ==> !Matches(start[k], tag)
        invariant steps == |start| ==> forall k :: 0 <= k < |start| ==> !Matches(start[k], tag)
        decreases |start| - steps
      {
        first := false;
        if Matches(start[pos], tag) {
          return true;
        }
        var more := Next();
        steps := steps + 1;
      }
      return false;
    }
  }
}
