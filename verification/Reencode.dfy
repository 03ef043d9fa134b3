/** Relaying a message: when encoding what was decoded from an encoding gives the same bytes again. */
module Reencode {
  import opened Outcomes
  import opened Varints
  import opened Descriptor
  import opened EncodeSpec
  import opened DecodeSpec
  import opened Chunks
  import opened RoundTrip
  import opened Bounds
  import opened Survival

  // ----- tables whose presence rule looks at content only -----

  /** A fixed-count array whose first bytes are not settled by what its elements hold. */
  predicate Loose(f: Field) {
    FixedArray(f) && f.arraySize > 0 && f.ltype in {LSubmessage, LString}
  }

  /** No nested struct that is a proto3 field has such an array among its entries, at any depth. */
  predicate Plain(f: Field)
    decreases f
  {
    f.ltype == LSubmessage && f.ptr.Sub? ==>
      forall i :: 0 <= i < |f.ptr.fields| ==> Plain(f.ptr.fields[i]) && (Singular(f) ==> !Loose(f.ptr.fields[i]))
  }

  predicate AllPlain(fs: seq<Field>) {
    forall i :: 0 <= i < |fs| ==> Plain(fs[i])
  }

  predicate NoneLoose(fs: seq<Field>) {
    forall i :: 0 <= i < |fs| ==> !Loose(fs[i])
  }

  lemma PlainInside(f: Field)
    requires Plain(f) && f.ltype == LSubmessage && f.ptr.Sub?
    ensures AllPlain(f.ptr.fields) && (Singular(f) ==> NoneLoose(f.ptr.fields))
  {
  }

  // ----- which messages are relayed unchanged -----

  predicate RelaysVal(f: Field, v: Val)
    decreases v, 1
  {
    f.ltype == LSubmessage && f.ptr.Sub? && v.Msg? && |v.slots| == |f.ptr.fields| ==> Relays(f.ptr.fields, v.slots)
  }

  predicate RelaysItems(f: Field, items: seq<Val>)
    decreases items, 0
  {
    items != [] ==> RelaysVal(f, items[0]) && RelaysItems(f, items[1..])
  }

  predicate RelaysEntry(f: Field, slot: Slot)
    decreases slot, 0
  {
    match slot
    case Single(v) =>
      if Singular(f) && IsDefaultVal(f, v) then IsDefaultVal(f, DefaultVal(f)) else RelaysVal(f, v)
    case Opt(has, v) => has ==> RelaysVal(f, v)
    case Rep(items) => RelaysItems(f, items)
    case Fixed(items) => RelaysItems(f, items)
    case Union(which, v) => which == f.tag ==> RelaysVal(f, v)
    case _ => true
  }

  /** Every proto3 field in the message that counts as absent has a default that counts as absent, too. */
  predicate Relays(fs: seq<Field>, m: seq<Slot>)
    requires |m| == |fs|
    decreases m, 1
  {
    forall i :: 0 <= i < |fs| ==> RelaysEntry(fs[i], m[SlotOf(fs, i)])
  }

  predicate RelaysFrom(fs: seq<Field>, m: seq<Slot>, k: nat)
    requires |m| == |fs| && k <= |fs|
  {
    forall i :: k <= i < |fs| ==> RelaysEntry(fs[i], m[SlotOf(fs, i)])
  }

  // ----- the second encoding against the first -----

  /** The same bytes, or else more of them or a refusal. */
  predicate Grows(first: Out, second: Out, same: bool) {
    first.Some? ==>
      if same then second == first else second.Some? ==> |second.value| > |first.value|
  }

  lemma JoinGrows(a: Out, a': Out, same: bool, b: Out, b': Out, same': bool)
    requires Grows(a, a', same) && Grows(b, b', same')
    ensures Grows(Join(a, b), Join(a', b'), same && same')
  {
  }

  lemma {:induction false} VarintGrows(a: nat, b: nat)
    requires a <= b
    ensures |Varint(a)| <= |Varint(b)|
    decreases b
  {
    if a >= 128 {
      VarintGrows(a / 128, b / 128);
    }
  }

  // ----- what does not count as absent does not after the round trip -----

  lemma {:induction false} StaysPresent(f: Field, v: Val)
    requires FieldOk(f) && ValOk(f, v) && Singular(f) && Plain(f) && IsDefaultVal(f, NormVal(f, v))
    ensures IsDefaultVal(f, v)
    decreases v, 1, 0
  {
    if f.ltype == LSubmessage {
      hide AllDefault, NormMsg, MsgOk, FieldsOk, AllPlain, NoneLoose;
      PlainInside(f);
      MessageStaysPresent(f.ptr.fields, v.slots, 0);
    }
  }

  lemma {:induction false} SlotStaysPresent(fs: seq<Field>, i: nat, slot: Slot)
    requires FieldsOk(fs) && AllPlain(fs) && NoneLoose(fs) && i < |fs| && SlotOk(fs, SlotOf(fs, i), slot)
    requires IsDefaultSlot(fs[i], NormSlot(fs, SlotOf(fs, i), slot))
    ensures IsDefaultSlot(fs[i], slot)
    decreases slot, 0, 0
  {
    hide IsDefaultVal, NormVal, DefaultVal, Plain, ValOk;
    var f := fs[i];
    assert FieldOk(f) && Plain(f) && !Loose(f);
    hide FieldsOk, FieldOk;
    SlotOfIdempotent(fs, i);
    if Singular(f) && !IsDefaultVal(f, slot.v) {
      StaysPresent(f, slot.v);
    } else if FixedArray(f) && f.ltype != LSubmessage {
      NormItemsScalar(f, slot.items);
    } else if FixedArray(f) {
      assert slot.items == [] && NormItems(f, slot.items) == [];
    }
  }

  lemma {:induction false} MessageStaysPresent(fs: seq<Field>, m: seq<Slot>, i: nat)
    requires FieldsOk(fs) && MsgOk(fs, m) && AllPlain(fs) && NoneLoose(fs) && i <= |fs|
    requires AllDefault(fs, NormMsg(fs, m), i)
    ensures AllDefault(fs, m, i)
    decreases m, 1, |fs| - i
  {
    hide IsDefaultSlot, NormSlot, SlotOk, FieldsOk, AllPlain, NoneLoose;
    if i < |fs| {
      assert SlotOk(fs, SlotOf(fs, i), m[SlotOf(fs, i)]);
      SlotStaysPresent(fs, i, m[SlotOf(fs, i)]);
      MessageStaysPresent(fs, m, i + 1);
    }
  }

  // ----- value by value -----

  lemma {:induction false} ValRelays(f: Field, v: Val)
    requires FieldOk(f) && ValOk(f, v) && Plain(f)
    ensures Grows(EncVal(f, v), EncVal(f, NormVal(f, v)), RelaysVal(f, v))
    ensures Grows(EncTagged(f, v), EncTagged(f, NormVal(f, v)), RelaysVal(f, v))
    decreases v, 3, 0
  {
    if f.ltype == LSubmessage {
      hide EncMsg, NormMsg, MsgOk, FieldsOk, AllPlain, NoneLoose, Relays;
      PlainInside(f);
      var fs := f.ptr.fields;
      assert |v.slots| == |fs| by { MsgLength(fs, v.slots); }
      MessageRelays(fs, v.slots, 0);
      AllFromZero(fs, v.slots);
      PrefixedGrows(EncMsg(fs, v.slots, 0), EncMsg(fs, NormMsg(fs, v.slots), 0), Relays(fs, v.slots));
    }
    hide *;
    TaggedGrows(f, v, NormVal(f, v), RelaysVal(f, v));
  }

  lemma TaggedGrows(f: Field, v: Val, w: Val, same: bool)
    requires Grows(EncVal(f, v), EncVal(f, w), same)
    ensures Grows(EncTagged(f, v), EncTagged(f, w), same)
  {
    hide EncVal;
  }

  function Prefixed(out: Out): Out {
    if out.Some? then Some(LenPrefixed(out.value)) else None
  }

  lemma PrefixedGrows(first: Out, second: Out, same: bool)
    requires Grows(first, second, same)
    ensures Grows(Prefixed(first), Prefixed(second), same)
  {
    if first.Some? && second.Some? && !same {
      VarintGrows(|first.value|, |second.value|);
    }
  }

  lemma AllFromZero(fs: seq<Field>, m: seq<Slot>)
    requires |m| == |fs|
    ensures RelaysFrom(fs, m, 0) == Relays(fs, m)
  {
  }

  lemma {:induction false} ItemsRelay(f: Field, items: seq<Val>)
    requires FieldOk(f) && Plain(f) && forall k :: 0 <= k < |items| ==> ValOk(f, items[k])
    ensures Grows(EncItems(f, items), EncItems(f, NormItems(f, items)), RelaysItems(f, items))
    ensures Grows(EncTaggedItems(f, items), EncTaggedItems(f, NormItems(f, items)), RelaysItems(f, items))
    decreases items, 2
  {
    hide EncVal, EncTagged, NormVal, RelaysVal, ValOk, FieldOk, Plain, Grows, Join;
    if items == [] {
      assert Grows(Some([]), Some([]), true) by { GrowsSame(Some([])); }
    } else {
      var x, xs, n := items[0], items[1..], NormItems(f, items);
      assert n[0] == NormVal(f, x) && n[1..] == NormItems(f, xs);
      ValRelays(f, x);
      ItemsRelay(f, xs);
      JoinGrows(EncVal(f, x), EncVal(f, n[0]), RelaysVal(f, x), EncItems(f, xs), EncItems(f, n[1..]), RelaysItems(f, xs));
      JoinGrows(EncTagged(f, x), EncTagged(f, n[0]), RelaysVal(f, x), EncTaggedItems(f, xs), EncTaggedItems(f, n[1..]), RelaysItems(f, xs));
    }
  }

  lemma GrowsSame(out: Out)
    ensures Grows(out, out, true)
  {
  }

  lemma {:induction false} ArrayRelays(f: Field, items: seq<Val>)
    requires FieldOk(f) && Plain(f) && forall k :: 0 <= k < |items| ==> ValOk(f, items[k])
    ensures Grows(EncArray(f, items), EncArray(f, NormItems(f, items)), RelaysItems(f, items))
    decreases items, 3
  {
    hide EncItems, EncTaggedItems, ValOk, FieldOk, Plain, RelaysVal;
    if Packable(f) {
      NormItemsScalar(f, items);
      ItemsOfNumbers(f, items);
    } else {
      ItemsRelay(f, items);
      assert NormItems(f, items) == [] <==> items == [];
    }
  }

  lemma {:induction false} ItemsOfNumbers(f: Field, items: seq<Val>)
    requires f.ltype != LSubmessage
    ensures RelaysItems(f, items)
  {
    if items != [] {
      ItemsOfNumbers(f, items[1..]);
    }
  }

  // ----- entry by entry -----

  lemma {:induction false} EntryRelays(fs: seq<Field>, i: nat, slot: Slot)
    requires FieldsOk(fs) && AllPlain(fs) && i < |fs| && SlotOk(fs, SlotOf(fs, i), slot)
    ensures Grows(EncField(fs[i], slot), EncField(fs[i], NormSlot(fs, SlotOf(fs, i), slot)), RelaysEntry(fs[i], slot))
    decreases slot, 4
  {
    hide EncArray, EncTagged, IsDefaultVal, NormVal, NormItems, DefaultVal, RelaysVal, RelaysItems, Plain, ValOk, Grows;
    var f := fs[i];
    assert FieldOk(f) && Plain(f);
    SlotOfIdempotent(fs, i);
    GrowsSame(Some([]));
    match f.htype
    case Required => ValRelays(f, slot.v);
    case Optional =>
      if f.sizeOffset != 0 {
        if slot.has { ValRelays(f, slot.v); }
      } else if IsDefaultVal(f, slot.v) {
        WrittenGrows(f, DefaultVal(f));
      } else {
        ValRelays(f, slot.v);
        if IsDefaultVal(f, NormVal(f, slot.v)) { StaysPresent(f, slot.v); }
      }
    case Repeated =>
      ArrayRelays(f, slot.items);
      assert |NormItems(f, slot.items)| == |slot.items| by { NormItemsLength(f, slot.items); }
    case Oneof =>
      if slot.Union? {
        var k := FindField(fs, slot.which).value;
        assert FieldOk(fs[k]) && Plain(fs[k]);
        if slot.which == f.tag {
          assert FindField(fs, slot.which) == Some(i) by { FoundField(fs, i); }
          ValRelays(f, slot.v);
        }
      }
  }

  lemma NormItemsLength(f: Field, items: seq<Val>)
    ensures |NormItems(f, items)| == |items|
  {
  }

  /** A field that was left out and is now written takes bytes, unless it is refused. */
  lemma WrittenGrows(f: Field, v: Val)
    ensures Grows(Some([]), EncTagged(f, v), false)
  {
    hide EncVal;
  }

  lemma {:induction false} MessageRelays(fs: seq<Field>, m: seq<Slot>, i: nat)
    requires FieldsOk(fs) && MsgOk(fs, m) && AllPlain(fs) && i <= |fs|
    ensures Grows(EncMsg(fs, m, i), EncMsg(fs, NormMsg(fs, m), i), RelaysFrom(fs, m, i))
    decreases m, 5, |fs| - i
  {
    hide EncField, NormSlot, SlotOk, FieldsOk, AllPlain, RelaysEntry, Grows, Join;
    if i == |fs| {
      GrowsSame(Some([]));
    } else {
      var slot, n := m[SlotOf(fs, i)], NormMsg(fs, m);
      assert SlotOk(fs, SlotOf(fs, i), slot);
      EntryRelays(fs, i, slot);
      MessageRelays(fs, m, i + 1);
      assert RelaysFrom(fs, m, i) == (RelaysEntry(fs[i], slot) && RelaysFrom(fs, m, i + 1));
      JoinGrows(EncField(fs[i], slot), EncField(fs[i], n[SlotOf(fs, i)]), RelaysEntry(fs[i], slot),
                EncMsg(fs, m, i + 1), EncMsg(fs, n, i + 1), RelaysFrom(fs, m, i + 1));
    }
  }

  /**
   Decoding an encoding and encoding the result gives the same bytes if and only if every proto3 field
   that counts as absent has a default that counts as absent. Otherwise the second encoding is refused
   or longer.
   */
  lemma RelayedExactly(fs: seq<Field>, m: seq<Slot>)
    requires FieldsOk(fs) && MsgOk(fs, m) && AllPlain(fs)
    requires EncMsg(fs, m, 0).Some? && |EncMsg(fs, m, 0).value| < 0x1_0000_0000
    ensures var first := EncMsg(fs, m, 0);
            var p := DecMsg(fs, Defaults(fs), first.value);
            && p.Done? && |p.val| == |fs|
            && (EncMsg(fs, p.val, 0) == first <==> Relays(fs, m))
            && (EncMsg(fs, p.val, 0).Some? && !Relays(fs, m) ==> |EncMsg(fs, p.val, 0).value| > |first.value|)
  {
    hide EncMsg, DecMsg, NormMsg, Defaults, Relays, FieldsOk, MsgOk, AllPlain;
    MessageRoundTrip(fs, m);
    MsgLength(fs, m);
    MessageRelays(fs, m, 0);
    AllFromZero(fs, m);
  }

  // ----- relaying and coming back whole -----

  /** No nested struct that is a proto3 field has a fixed-count array among its entries, at any depth. */
  predicate ArrayFree(f: Field)
    decreases f
  {
    f.ltype == LSubmessage && f.ptr.Sub? ==>
      forall i :: 0 <= i < |f.ptr.fields| ==> ArrayFree(f.ptr.fields[i]) && (Singular(f) ==> !FixedArray(f.ptr.fields[i]))
  }

  /** A field whose defaults fit, and are all there when it counts as absent. */
  predicate Settled(f: Field) {
    ArrayFree(f) && DefaultFits(f)
  }

  predicate AllSettled(fs: seq<Field>) {
    forall i :: 0 <= i < |fs| ==> Settled(fs[i])
  }

  /** No proto3 field of the table, or of a nested one, forgets its content when it is left out. */
  predicate Remembers(f: Field)
    decreases f
  {
    && (Singular(f) ==> !Forgets(f))
    && (f.ltype == LSubmessage && f.ptr.Sub? ==> forall i :: 0 <= i < |f.ptr.fields| ==> Remembers(f.ptr.fields[i]))
  }

  predicate RememberAll(fs: seq<Field>) {
    forall i :: 0 <= i < |fs| ==> Remembers(fs[i])
  }

  predicate ForgetFrom(fs: seq<Field>, k: nat) {
    exists i :: k <= i < |fs| && Forgets(fs[i])
  }

  lemma NestedTables(f: Field)
    requires f.ltype == LSubmessage && f.ptr.Sub?
    ensures Settled(f) ==> AllSettled(f.ptr.fields) && (Singular(f) ==> forall i :: 0 <= i < |f.ptr.fields| ==> !FixedArray(f.ptr.fields[i]))
    ensures Remembers(f) ==> RememberAll(f.ptr.fields)
    ensures Singular(f) ==> Forgets(f) == ForgetFrom(f.ptr.fields, 0)
  {
  }

  /** The default of a field that can count as absent counts as absent exactly when it brings that content back. */
  lemma {:induction false} OmittedDefault(f: Field, v: Val)
    requires FieldOk(f) && ValOk(f, v) && Singular(f) && Plain(f) && IsDefaultVal(f, v)
    ensures !Forgets(f) ==> IsDefaultVal(f, DefaultVal(f))
    ensures Settled(f) && IsDefaultVal(f, DefaultVal(f)) ==> !Forgets(f)
    decreases v, 1, 0
  {
    if f.ltype == LSubmessage {
      hide AllDefault, Defaults, MsgOk, FieldsOk, AllPlain, NoneLoose, Settled, AllSettled, Forgets, ForgetFrom, Plain;
      PlainInside(f);
      NestedTables(f);
      MessageOmittedDefault(f.ptr.fields, v.slots, 0);
    } else {
      assert Settled(f) ==> ValFits(f, DefaultVal(f));
    }
  }

  lemma {:induction false} SlotOmittedDefault(fs: seq<Field>, i: nat, slot: Slot)
    requires FieldsOk(fs) && AllPlain(fs) && NoneLoose(fs) && i < |fs| && SlotOk(fs, SlotOf(fs, i), slot)
    requires IsDefaultSlot(fs[i], slot)
    ensures !Forgets(fs[i]) ==> IsDefaultSlot(fs[i], Defaults(fs)[SlotOf(fs, i)])
    ensures Settled(fs[i]) && !FixedArray(fs[i]) && IsDefaultSlot(fs[i], Defaults(fs)[SlotOf(fs, i)]) ==> !Forgets(fs[i])
    decreases slot, 0, 0
  {
    var f := fs[i];
    assert FieldOk(f) && Plain(f) && !Loose(f);
    SlotOfIdempotent(fs, i);
    hide IsDefaultVal, DefaultVal, Plain, ValOk, Settled, FieldsOk, FieldOk, ZeroVal, ZeroedCount;
    if Singular(f) {
      OmittedDefault(f, slot.v);
      assert Defaults(fs)[i] == Single(DefaultVal(f));
    } else if !FixedArray(f) {
      assert !Forgets(f);
    } else {
      hide Forgets;
      OmittedArray(f, slot.items);
      if f.ltype != LSubmessage {
        WholeItemsScalar(f, slot.items);
      } else {
        assert slot.items == [] && Defaults(fs)[i] == Fixed([]);
      }
    }
  }

  lemma {:induction false} WholeItemsScalar(f: Field, items: seq<Val>)
    requires f.ltype != LSubmessage
    ensures WholeItems(f, items) == items
  {
    if items != [] {
      WholeItemsScalar(f, items[1..]);
    }
  }

  lemma {:induction false} MessageOmittedDefault(fs: seq<Field>, m: seq<Slot>, k: nat)
    requires FieldsOk(fs) && MsgOk(fs, m) && AllPlain(fs) && NoneLoose(fs) && k <= |fs| && AllDefault(fs, m, k)
    ensures !ForgetFrom(fs, k) ==> AllDefault(fs, Defaults(fs), k)
    ensures AllSettled(fs) && (forall i :: 0 <= i < |fs| ==> !FixedArray(fs[i])) && AllDefault(fs, Defaults(fs), k) ==> !ForgetFrom(fs, k)
    decreases m, 1, |fs| - k
  {
    hide IsDefaultSlot, Defaults, SlotOk, FieldsOk, AllPlain, NoneLoose, FixedArray, Forgets, Settled;
    if k < |fs| {
      assert SlotOk(fs, SlotOf(fs, k), m[SlotOf(fs, k)]);
      SlotOmittedDefault(fs, k, m[SlotOf(fs, k)]);
      MessageOmittedDefault(fs, m, k + 1);
      assert ForgetFrom(fs, k) <==> Forgets(fs[k]) || ForgetFrom(fs, k + 1);
    }
  }

  lemma {:induction false} ValWhole(f: Field, v: Val)
    requires FieldOk(f) && ValOk(f, v) && Plain(f)
    ensures SurvivesVal(f, v) || Remembers(f) ==> RelaysVal(f, v)
    ensures Settled(f) && RelaysVal(f, v) ==> SurvivesVal(f, v)
    decreases v, 1
  {
    if f.ltype == LSubmessage {
      hide MsgOk, FieldsOk, AllPlain, NoneLoose, Settled, AllSettled, Remembers, RememberAll, Relays, Survives, Plain;
      PlainInside(f);
      NestedTables(f);
      MsgLength(f.ptr.fields, v.slots);
      MessageWhole(f.ptr.fields, v.slots);
    }
  }

  lemma {:induction false} ItemsWhole(f: Field, items: seq<Val>)
    requires FieldOk(f) && Plain(f) && forall k :: 0 <= k < |items| ==> ValOk(f, items[k])
    ensures (forall k :: 0 <= k < |items| ==> SurvivesVal(f, items[k])) || Remembers(f) ==> RelaysItems(f, items)
    ensures Settled(f) && RelaysItems(f, items) ==> forall k :: 0 <= k < |items| ==> SurvivesVal(f, items[k])
    decreases items, 0
  {
    hide FieldOk, ValOk, Plain, SurvivesVal, RelaysVal, Settled, Remembers;
    if items != [] {
      ValWhole(f, items[0]);
      ItemsWhole(f, items[1..]);
      AllItems(f, items);
    }
  }

  lemma {:induction false} EntryWhole(fs: seq<Field>, i: nat, slot: Slot)
    requires FieldsOk(fs) && AllPlain(fs) && i < |fs| && SlotOk(fs, SlotOf(fs, i), slot)
    ensures SurvivesSlot(fs, SlotOf(fs, i), slot) || RememberAll(fs) ==> RelaysEntry(fs[i], slot)
    ensures AllSettled(fs) && RelaysEntry(fs[i], slot) && SlotOf(fs, i) == i && !slot.Union? ==> SurvivesSlot(fs, i, slot)
    ensures AllSettled(fs) && RelaysEntry(fs[i], slot) && slot.Union? && slot.which == fs[i].tag ==> SurvivesSlot(fs, SlotOf(fs, i), slot)
    decreases slot, 0
  {
    var f := fs[i];
    assert FieldOk(f) && Plain(f) && (RememberAll(fs) ==> Remembers(f)) && (AllSettled(fs) ==> Settled(f));
    assert Remembers(f) && Singular(f) ==> !Forgets(f);
    SlotOfIdempotent(fs, i);
    FoundField(fs, i);
    hide FieldsOk, FieldOk, AllPlain, Plain, ValOk, RememberAll, Remembers, AllSettled, Settled, Forgets;
    hide SurvivesVal, RelaysVal, RelaysItems, IsDefaultVal, DefaultVal;
    match slot
    case Single(v) =>
      if Singular(f) && IsDefaultVal(f, v) { OmittedDefault(f, v); } else { ValWhole(f, v); }
    case Opt(has, v) => if has { ValWhole(f, v); }
    case Rep(items) => ItemsWhole(f, items);
    case Fixed(items) => ItemsWhole(f, items);
    case Union(which, v) => if which == f.tag { ValWhole(f, v); }
    case _ =>
  }

  lemma {:induction false} MessageWhole(fs: seq<Field>, m: seq<Slot>)
    requires FieldsOk(fs) && MsgOk(fs, m) && AllPlain(fs)
    ensures Survives(fs, m) || RememberAll(fs) ==> Relays(fs, m)
    ensures AllSettled(fs) && Relays(fs, m) ==> Survives(fs, m)
    decreases m, 1
  {
    hide FieldsOk, AllPlain, SlotOk, RememberAll, AllSettled, SurvivesSlot, RelaysEntry;
    forall i | 0 <= i < |fs|
      ensures SurvivesSlot(fs, SlotOf(fs, i), m[SlotOf(fs, i)]) || RememberAll(fs) ==> RelaysEntry(fs[i], m[SlotOf(fs, i)])
    {
      assert SlotOk(fs, SlotOf(fs, i), m[SlotOf(fs, i)]);
      EntryWhole(fs, i, m[SlotOf(fs, i)]);
    }
    if AllSettled(fs) && Relays(fs, m) {
      forall i | 0 <= i < |fs|
        ensures SurvivesSlot(fs, i, m[i])
      {
        assert SlotOk(fs, i, m[i]);
        SlotWhole(fs, m, i, m[i]);
      }
    }
  }

  lemma {:induction false} SlotWhole(fs: seq<Field>, m: seq<Slot>, i: nat, slot: Slot)
    requires FieldsOk(fs) && MsgOk(fs, m) && AllPlain(fs) && AllSettled(fs) && Relays(fs, m) && i < |fs| && slot == m[i]
    ensures SurvivesSlot(fs, i, slot)
    decreases slot, 1
  {
    hide FieldsOk, AllPlain, AllSettled, SurvivesSlot, RelaysEntry;
    assert SlotOk(fs, i, slot);
    hide SlotOk;
    if SlotOf(fs, i) == i {
      var k := Writer(fs, i, slot);
      EntryWhole(fs, k, slot);
      assert RelaysEntry(fs[k], m[SlotOf(fs, k)]);
    } else {
      AliasSurvives(fs, i, slot);
    }
  }

  /** The entry that writes what slot i holds. */
  lemma Writer(fs: seq<Field>, i: nat, slot: Slot) returns (k: nat)
    requires i < |fs| && SlotOk(fs, i, slot)
    ensures SlotOf(fs, i) == i ==> k < |fs| && SlotOf(fs, k) == i && (if slot.Union? then slot.which == fs[k].tag else k == i)
  {
    hide ValOk;
    k := if SlotOf(fs, i) == i && slot.Union? then FindField(fs, slot.which).value else i;
  }

  lemma AliasSurvives(fs: seq<Field>, i: nat, slot: Slot)
    requires i < |fs| && SlotOf(fs, i) != i && SlotOk(fs, i, slot)
    ensures SurvivesSlot(fs, i, slot)
  {
  }

  /**
   Relaying changes nothing exactly when the message comes back whole, in every table whose defaults
   fit and where no proto3 nested struct holds a fixed-count array.
   */
  lemma RelayedIffWhole(fs: seq<Field>, m: seq<Slot>)
    requires FieldsOk(fs) && MsgOk(fs, m) && AllSettled(fs)
    requires EncMsg(fs, m, 0).Some? && |EncMsg(fs, m, 0).value| < 0x1_0000_0000
    ensures var p := DecMsg(fs, Defaults(fs), EncMsg(fs, m, 0).value);
            p.Done? && |p.val| == |fs| && (EncMsg(fs, p.val, 0) == EncMsg(fs, m, 0) <==> Survives(fs, m))
  {
    hide EncMsg, DecMsg, Defaults, Relays, Survives, FieldsOk, MsgOk, Plain, ArrayFree;
    MsgLength(fs, m);
    forall i | 0 <= i < |fs|
      ensures Plain(fs[i])
    {
      assert Settled(fs[i]);
      ArrayFreePlain(fs[i]);
    }
    RelayedExactly(fs, m);
    MessageWhole(fs, m);
  }

  lemma {:induction false} ArrayFreePlain(f: Field)
    requires ArrayFree(f)
    ensures Plain(f)
    decreases f
  {
    if f.ltype == LSubmessage && f.ptr.Sub? {
      forall i | 0 <= i < |f.ptr.fields|
        ensures Plain(f.ptr.fields[i])
      {
        ArrayFreePlain(f.ptr.fields[i]);
      }
    }
  }

  /**
   Relaying changes nothing in any message of a table whose proto3 fields forget nothing when they are
   left out, and no message that comes back whole.
   */
  lemma RelayedUnchanged(fs: seq<Field>, m: seq<Slot>)
    requires FieldsOk(fs) && MsgOk(fs, m) && AllPlain(fs) && (RememberAll(fs) || Survives(fs, m))
    requires EncMsg(fs, m, 0).Some? && |EncMsg(fs, m, 0).value| < 0x1_0000_0000
    ensures var p := DecMsg(fs, Defaults(fs), EncMsg(fs, m, 0).value);
            p.Done? && |p.val| == |fs| && EncMsg(fs, p.val, 0) == EncMsg(fs, m, 0)
  {
    hide EncMsg, DecMsg, Defaults, Relays, Survives, FieldsOk, MsgOk, AllPlain, RememberAll;
    RelayedExactly(fs, m);
    MessageWhole(fs, m);
  }

  /** A proto3 field with a default that is not zero is such a field: its zero is left out, and comes back as the default. */
  lemma DefaultBreaksRelay()
    ensures var fs := [Field(1, LVarint, Optional, Static, 0, 0, 4, 0, Default(Num(5)))];
            var m := [Single(Num(0))];
            && FieldsOk(fs) && MsgOk(fs, m) && !RememberAll(fs)
            && EncMsg(fs, m, 0) == Some([])
            && DecMsg(fs, Defaults(fs), []) == Done([Single(Num(5))], 0)
            && EncMsg(fs, [Single(Num(5))], 0) != Some([])
  {
    var fs, m := [Field(1, LVarint, Optional, Static, 0, 0, 4, 0, Default(Num(5)))], [Single(Num(0))];
    assert Remembers(fs[0]) == !Forgets(fs[0]);
    assert StaticField(fs[0]) && FieldOk(fs[0]);
    assert SlotOf(fs, 0) == 0 && EncField(fs[0], m[0]) == Some([]);
    var none := EncField(fs[0], m[0]).value;
    assert none + none == none;
    assert EncMsg(fs, m, 1) == Some(none);
    assert EncMsg(fs, m, 0) == Join(EncField(fs[0], m[0]), EncMsg(fs, m, 1)) == Some(none);
    assert Defaults(fs) == [Single(Num(5))];
    assert SlotOk(fs, 0, m[0]);
  }
}
