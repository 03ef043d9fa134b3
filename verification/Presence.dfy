/** What is left out and what has to be there: the presence rules of both directions, seen from the bytes. */
module Presence {
  import opened Bits
  import opened Outcomes
  import opened Descriptor
  import opened EncodeSpec
  import opened DecodeSpec
  import opened Prefix
  import opened Chunks
  import opened RoundTrip

  // ----- proto3 fields are left out exactly when they hold nothing -----

  predicate WritesNothing(f: Field, slot: Slot) {
    EncField(f, slot) == Some([])
  }

  lemma {:induction false} EmptyEncoding(fs: seq<Field>, m: seq<Slot>, i: nat)
    requires |m| == |fs| && i <= |fs|
    ensures EncMsg(fs, m, i) == Some([]) <==> forall k :: i <= k < |fs| ==> WritesNothing(fs[k], m[SlotOf(fs, k)])
    decreases |fs| - i
  {
    hide EncField;
    if i < |fs| {
      EmptyEncoding(fs, m, i + 1);
      var a, b := EncField(fs[i], m[SlotOf(fs, i)]), EncMsg(fs, m, i + 1);
      if a.Some? && b.Some? {
        assert |a.value + b.value| == |a.value| + |b.value|;
        assert a.value == [] && b.value == [] ==> a.value + b.value == [];
      }
    }
  }

  predicate CountsAsAbsent(fs: seq<Field>, m: seq<Slot>, k: nat)
    requires |m| == |fs| && k < |fs|
  {
    IsDefaultSlot(fs[k], m[SlotOf(fs, k)])
  }

  lemma {:induction false} AllAbsent(fs: seq<Field>, m: seq<Slot>, i: nat)
    requires |m| == |fs| && i <= |fs|
    ensures AllDefault(fs, m, i) <==> forall k :: i <= k < |fs| ==> CountsAsAbsent(fs, m, k)
    decreases |fs| - i
  {
    hide IsDefaultSlot;
    if i < |fs| {
      AllAbsent(fs, m, i + 1);
      assert CountsAsAbsent(fs, m, i) <==> IsDefaultSlot(fs[i], m[SlotOf(fs, i)]);
    }
  }

  /** The entry would write nothing; an array without a count passes for that when its first bytes are zero. */
  predicate Vanishes(f: Field, slot: Slot) {
    if f.htype == Repeated && f.sizeOffset == 0 then slot.Fixed? && FIRST_BYTES_ZERO(f, slot.items)
    else EncField(f, slot) == Some([])
  }

  lemma TaggedHasBytes(f: Field, v: Val)
    ensures EncTagged(f, v) != Some([])
  {
    hide EncVal;
  }

  /**
   A proto3 field writes nothing exactly when its number is zero, its string or bytes are empty, its
   fixed length is none, or every entry of its nested struct vanishes.
   */
  lemma LeftOutExactly(f: Field, v: Val)
    requires FieldOk(f) && Singular(f) && ValOk(f, v)
    ensures EncField(f, Single(v)) == Some([]) <==>
            match f.ltype
            case LBytes => |v.b| == 0
            case LString => |v.b| == 0
            case LFixedLengthBytes => f.dataSize == 0
            case LSubmessage =>
              && |v.slots| == |f.ptr.fields|
              && forall k :: 0 <= k < |v.slots| ==> Vanishes(f.ptr.fields[k], v.slots[SlotOf(f.ptr.fields, k)])
            case LExtension => false
            case _ => v.n == 0
  {
    TaggedHasBytes(f, v);
    if f.ltype == LSubmessage {
      hide EncTagged, AllDefault, EncMsg, MsgOk, FieldsOk, Vanishes;
      MsgLength(f.ptr.fields, v.slots);
      NestedLeftOut(f.ptr.fields, v.slots);
    }
  }

  /** Without arrays that have no count, that is when the nested struct would itself be encoded to nothing. */
  lemma LeftOutIfEmpty(f: Field, v: Val)
    requires FieldOk(f) && Singular(f) && f.ltype == LSubmessage && ValOk(f, v)
    requires forall k :: 0 <= k < |f.ptr.fields| ==> !FixedArray(f.ptr.fields[k])
    ensures |v.slots| == |f.ptr.fields|
    ensures EncField(f, Single(v)) == Some([]) <==> EncMsg(f.ptr.fields, v.slots, 0) == Some([])
  {
    var fs := f.ptr.fields;
    MsgLength(fs, v.slots);
    LeftOutExactly(f, v);
    hide EncField;
    EmptyEncoding(fs, v.slots, 0);
    forall k | 0 <= k < |fs|
      ensures Vanishes(fs[k], v.slots[SlotOf(fs, k)]) == WritesNothing(fs[k], v.slots[SlotOf(fs, k)])
    {
      assert !FixedArray(fs[k]);
    }
  }

  lemma NestedLeftOut(fs: seq<Field>, m: seq<Slot>)
    requires FieldsOk(fs) && MsgOk(fs, m)
    ensures AllDefault(fs, m, 0) <==> forall k :: 0 <= k < |fs| ==> Vanishes(fs[k], m[SlotOf(fs, k)])
  {
    hide Vanishes, AllDefault, CountsAsAbsent, SlotOf, FieldsOk, SlotOk;
    AllAbsent(fs, m, 0);
    forall k | 0 <= k < |fs|
      ensures CountsAsAbsent(fs, m, k) ==> Vanishes(fs[k], m[SlotOf(fs, k)])
      ensures (forall w :: 0 <= w < |fs| ==> Vanishes(fs[w], m[SlotOf(fs, w)])) ==> CountsAsAbsent(fs, m, k)
    {
      EntryLeftOut(fs, m, k, m[SlotOf(fs, k)]);
    }
  }

  lemma EntryLeftOut(fs: seq<Field>, m: seq<Slot>, k: nat, slot: Slot)
    requires FieldsOk(fs) && MsgOk(fs, m) && k < |fs| && slot == m[SlotOf(fs, k)]
    ensures CountsAsAbsent(fs, m, k) ==> Vanishes(fs[k], slot)
    ensures (forall w :: 0 <= w < |fs| ==> Vanishes(fs[w], m[SlotOf(fs, w)])) ==> CountsAsAbsent(fs, m, k)
  {
    hide IsDefaultSlot, Vanishes, FieldsOk, FixedArray;
    var j := SlotOf(fs, k);
    assert SlotOk(fs, j, slot);
    SlotOfIdempotent(fs, k);
    hide SlotOk;
    SlotLeftOut(fs, k, slot);
    if slot.Union? {
      UnionWriter(fs, j, slot);
      var w := FindField(fs, slot.which).value;
      assert m[SlotOf(fs, w)] == slot && !Vanishes(fs[w], m[SlotOf(fs, w)]);
    }
  }

  /** The member of a union that is set writes it. */
  lemma UnionWriter(fs: seq<Field>, j: nat, slot: Slot)
    requires FieldsOk(fs) && j < |fs| && SlotOf(fs, j) == j && SlotOk(fs, j, slot) && slot.Union?
    ensures FindField(fs, slot.which).Some? && SlotOf(fs, FindField(fs, slot.which).value) == j
    ensures !Vanishes(fs[FindField(fs, slot.which).value], slot)
  {
    hide ValOk, EncTagged;
    var k := FindField(fs, slot.which).value;
    TaggedHasBytes(fs[k], slot.v);
  }

  lemma SlotLeftOut(fs: seq<Field>, k: nat, slot: Slot)
    requires FieldsOk(fs) && k < |fs| && SlotOk(fs, SlotOf(fs, k), slot)
    ensures IsDefaultSlot(fs[k], slot) ==> Vanishes(fs[k], slot)
    ensures Vanishes(fs[k], slot) && !slot.Union? ==> IsDefaultSlot(fs[k], slot)
  {
    var f := fs[k];
    assert FieldOk(f);
    SlotOfIdempotent(fs, k);
    hide IsDefaultVal, EncTagged, ValOk, FieldOk, FieldsOk;
    match slot
    case Single(v) => TaggedHasBytes(f, v);
    case Opt(_, v) => TaggedHasBytes(f, v);
    case Rep(items) => if items != [] { ArrayHasBytes(f, items); }
    case _ =>
  }

  lemma ArrayHasBytes(f: Field, items: seq<Val>)
    requires items != []
    ensures EncArray(f, items) != Some([])
  {
    hide EncVal, EncItems;
    if !Packable(f) {
      TaggedHasBytes(f, items[0]);
    }
  }

  // ----- required fields -----

  /** The entries whose fields the loop meets. */
  function Met(fs: seq<Field>, st: State, s: seq<Byte>): (r: set<nat>)
    requires |st.msg| == |fs|
    ensures forall i :: i in r ==> i < |fs|
    decreases |s|
  {
    if s == [] || !ReadKey(s).Key? then {}
    else
      var Key(tag, wt, n) := ReadKey(s);
      match DecOne(fs, st, tag, wt, s[n..])
      case Fail => {}
      case Done(st', k) =>
        (if FindField(fs, tag).Some? then {FindField(fs, tag).value} else {}) + Met(fs, st', s[n + k..])
  }

  lemma OneSeen(fs: seq<Field>, st: State, tag: nat, wt: nat, s: seq<Byte>, i: nat)
    requires |st.msg| == |fs| && DecOne(fs, st, tag, wt, s).Done? && i < |fs|
    ensures i in DecOne(fs, st, tag, wt, s).val.seen <==>
            i in st.seen || (FindField(fs, tag) == Some(i) && fs[i].htype == Required)
  {
    hide DecField, Skip, FindField, SlotOf;
  }

  lemma {:induction false} SeenIsMet(fs: seq<Field>, st: State, s: seq<Byte>, i: nat)
    requires |st.msg| == |fs| && DecLoop(fs, st, s).Ran? && i < |fs|
    ensures i in DecLoop(fs, st, s).st.seen <==> i in st.seen || (i in Met(fs, st, s) && fs[i].htype == Required)
    decreases |s|
  {
    hide DecOne, ReadKey, FindField;
    if s != [] && ReadKey(s).Key? {
      var Key(tag, wt, n) := ReadKey(s);
      var Done(st', k) := DecOne(fs, st, tag, wt, s[n..]);
      OneSeen(fs, st, tag, wt, s[n..], i);
      SeenIsMet(fs, st', s[n + k..], i);
    }
  }

  function RequiredEntries(fs: seq<Field>, n: nat): set<nat>
    requires n <= |fs|
  {
    set i | 0 <= i < n && fs[i].htype == Required
  }

  lemma {:induction false} RequiredCounted(fs: seq<Field>, n: nat)
    requires n <= |fs|
    ensures RequiredBefore(fs, n) == |RequiredEntries(fs, n)|
  {
    if n > 0 {
      RequiredCounted(fs, n - 1);
      assert RequiredEntries(fs, n)
          == RequiredEntries(fs, n - 1) + if fs[n - 1].htype == Required then {n - 1} else {};
    } else {
      assert RequiredEntries(fs, 0) == {};
    }
  }

  /** The required entries that have at most 63 others before them. */
  predicate AmongFirst64(fs: seq<Field>, i: nat) {
    i < |fs| && fs[i].htype == Required && |RequiredEntries(fs, i)| < 64
  }

  /**
   Data whose fields all decode is a message exactly when each of the first 64 required entries has been
   met, and the fixed-count array received last is full.
   */
  lemma RequiredExactly(fs: seq<Field>, m: seq<Slot>, s: seq<Byte>)
    requires |m| == |fs| && DecLoop(fs, Start(m), s).Ran?
    ensures var r := DecLoop(fs, Start(m), s);
            DecMsg(fs, m, s).Done? <==>
              && (forall i :: AmongFirst64(fs, i) ==> i in Met(fs, Start(m), s))
              && (r.st.fixed.Some? ==> r.st.fixed.value < |fs| && r.st.fixedCount == fs[r.st.fixed.value].arraySize)
  {
    hide DecLoop, Met, RequiredBefore, RequiredEntries;
    forall i | 0 <= i < |fs|
      ensures AmongFirst64(fs, i) <==> Checked(fs, i)
      ensures AmongFirst64(fs, i) ==> (i in DecLoop(fs, Start(m), s).st.seen <==> i in Met(fs, Start(m), s))
    {
      RequiredCounted(fs, i);
      SeenIsMet(fs, Start(m), s, i);
    }
  }

  /** So the empty data is a message exactly for tables without required entries. */
  lemma EmptyMessage(fs: seq<Field>, m: seq<Slot>)
    requires |m| == |fs|
    ensures DecMsg(fs, m, []).Done? <==> forall i :: 0 <= i < |fs| ==> fs[i].htype != Required
  {
    EmptyLoop(fs, Start(m));
    hide DecLoop, RequiredEntries;
    RequiredExactly(fs, m, []);
    if exists i :: 0 <= i < |fs| && fs[i].htype == Required {
      var i := FirstRequired(fs, 0);
      assert AmongFirst64(fs, i) by { NoneBefore(fs, i); }
    }
  }

  lemma {:induction false} FirstRequired(fs: seq<Field>, from: nat) returns (i: nat)
    requires from <= |fs| && exists k :: from <= k < |fs| && fs[k].htype == Required
    ensures from <= i < |fs| && fs[i].htype == Required && forall k :: from <= k < i ==> fs[k].htype != Required
    decreases |fs| - from
  {
    if fs[from].htype == Required {
      i := from;
    } else {
      i := FirstRequired(fs, from + 1);
    }
  }

  lemma NoneBefore(fs: seq<Field>, n: nat)
    requires n <= |fs| && forall k :: 0 <= k < n ==> fs[k].htype != Required
    ensures |RequiredEntries(fs, n)| == 0
  {
    assert RequiredEntries(fs, n) == {};
  }

  // ----- fixed-count arrays come whole, one after the other -----

  /** Only some of the elements of a fixed-count array are not a message. */
  lemma PartialArrayRefused(fs: seq<Field>, m: seq<Slot>, k: nat, items: seq<Val>)
    requires FieldsOk(fs) && |m| == |fs| && k < |fs| && FixedArray(fs[k]) && m[k].Fixed?
    requires 0 < |items| <= fs[k].arraySize && forall i :: 0 <= i < |items| ==> ValOk(fs[k], items[i])
    requires EncTaggedItems(fs[k], items).Some? && |EncTaggedItems(fs[k], items).value| < TWO_32
    requires forall i :: 0 <= i < |fs| ==> fs[i].htype != Required
    ensures DecMsg(fs, m, EncTaggedItems(fs[k], items).value).Done? <==> |items| == fs[k].arraySize
  {
    var st, b := Start(m), EncTaggedItems(fs[k], items).value;
    var after := PutArray(fs, st, k, [] + NormItems(fs[k], items));
    assert [] + Behind(m[k], 0) == Behind(m[k], 0);
    assert AtArray(fs, st, k, []);
    assert |[] + NormItems(fs[k], items)| == |items|;
    hide DecLoop, EncTaggedItems, ValOk, FieldsOk, NormItems;
    TaggedItems(fs, k, [], items, st, []);
    assert b + [] == b;
    EmptyLoop(fs, after);
    assert forall i :: 0 <= i < |fs| ==> !Checked(fs, i);
  }

  /** While one fixed-count array is not full, a field of another one is refused, whatever it holds. */
  lemma ArraysDoNotInterleave(fs: seq<Field>, st: State, i: nat, k: nat, wt: nat, s: seq<Byte>)
    requires FieldsOk(fs) && |st.msg| == |fs| && i < |fs| && k < |fs| && i != k && FixedArray(fs[k]) && wt < 8
    requires st.fixed == Some(i) && st.fixedCount != fs[i].arraySize
    ensures DecLoop(fs, st, TagBytes(wt, fs[k].tag) + s) == RunFail
  {
    hide DecLoop, FieldsOk, TagBytes;
    assert DecEntry(fs, st, k, wt, s).Fail?;
    ChunkFails(fs, st, k, wt, s);
  }
}
