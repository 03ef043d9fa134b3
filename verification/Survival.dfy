/** Which messages come back whole from a round trip, and what the others lose. */
module Survival {
  import opened Outcomes
  import opened Descriptor
  import opened EncodeSpec
  import opened DecodeSpec
  import opened RoundTrip

  // ----- what is lost with a proto3 field that is left out -----

  /**
   Leaving the entry out as absent and setting it to its default does not bring it back: a fixed-count
   array with more elements than the bytes settle which the decoder's defaults zero, or with unset
   optional fields in its elements whose defaults are not zero; a value whose default is not zero; or a
   nested struct with such an entry.
   */
  predicate Forgets(f: Field)
    decreases f
  {
    if FixedArray(f) then ZeroedCount(f) < f.arraySize || (f.arraySize > 0 && WholeVal(f, ZeroVal(f)) != ZeroVal(f))
    else if !Singular(f) then false
    else if f.ltype == LSubmessage then f.ptr.Sub? && exists i :: 0 <= i < |f.ptr.fields| && Forgets(f.ptr.fields[i])
    else f.ptr.Default? && f.ptr.value != ZeroVal(f)
  }

  lemma {:induction false} OmittedVal(f: Field, v: Val)
    requires FieldOk(f) && ValOk(f, v) && Singular(f) && IsDefaultVal(f, v)
    ensures WholeVal(f, v) == DefaultVal(f) <==> !Forgets(f)
    decreases v, 1
  {
    if f.ltype == LSubmessage {
      OmittedMsg(f.ptr.fields, v.slots);
    } else {
      assert v == ZeroVal(f);
      assert f.ltype == LFixedLengthBytes ==> Zeros(f.dataSize) == [];
    }
  }

  lemma {:induction false} OmittedSlot(fs: seq<Field>, i: nat, slot: Slot)
    requires FieldsOk(fs) && i < |fs| && SlotOf(fs, i) == i && SlotOk(fs, i, slot) && IsDefaultSlot(fs[i], slot)
    ensures WholeSlot(fs, i, slot) == DefaultSlot(fs[i]) <==> !Forgets(fs[i])
    decreases slot, 0
  {
    assert FieldOk(fs[i]);
    if Singular(fs[i]) {
      OmittedVal(fs[i], slot.v);
    } else if FixedArray(fs[i]) {
      OmittedArray(fs[i], slot.items);
    }
  }

  /** An array that begins with zeros and is left out is restored when the zeroed bytes settle all of it. */
  lemma OmittedArray(f: Field, items: seq<Val>)
    requires FixedArray(f) && |items| == f.arraySize && FIRST_BYTES_ZERO(f, items)
    requires forall k :: 0 <= k < |items| ==> ValOk(f, items[k])
    ensures Fixed(WholeItems(f, items)) == DefaultSlot(f) <==> !Forgets(f)
  {
    hide ZeroVal, ValOk, WholeVal, ZeroedCount;
    var zeros := seq(ZeroedCount(f), _ => ZeroVal(f));
    assert DefaultSlot(f) == Fixed(zeros);
    assert BeginsWithZeros(f, items);
    forall k | 0 <= k < |items|
      ensures WholeItems(f, items)[k] == WholeVal(f, items[k])
    {
      WholeItemAt(f, items, k);
    }
    if ZeroedCount(f) == f.arraySize {
      if f.arraySize > 0 {
        assert WholeItems(f, items)[0] == WholeVal(f, ZeroVal(f)) && zeros[0] == ZeroVal(f);
      }
      if !Forgets(f) {
        assert WholeItems(f, items) == zeros;
      }
    } else {
      assert |WholeItems(f, items)| != |zeros|;
    }
  }

  /**
   So an array of numbers is forgotten when it takes more than sizeof(pb_size_t) bytes, one of strings
   when its last string starts behind them, and one of bytes items when it has more than one.
   */
  lemma ArrayForgets(f: Field)
    requires FixedArray(f) && f.dataSize > 0 && f.ltype != LSubmessage
    ensures Forgets(f) <==>
            if f.ltype == LBytes then f.arraySize > 1
            else if f.ltype == LString then f.arraySize > 0 && f.dataSize * (f.arraySize - 1) >= SIZE_WIDTH
            else f.dataSize * f.arraySize > SIZE_WIDTH
  {
    hide ZeroVal;
    var n, d := f.arraySize, f.dataSize;
    QuotientBelow(SIZE_WIDTH, d, n);
    if n > 0 { QuotientBelow(SIZE_WIDTH + d - 1, d, n); }
    assert n > 0 ==> d * (n - 1) == d * n - d;
  }

  lemma QuotientBelow(w: nat, d: nat, n: nat)
    requires d > 0
    ensures w / d < n <==> w < d * n
  {
    var q := w / d;
    if q < n { assert d * (q + 1) <= d * n; } else { assert d * n <= d * q; }
  }

  lemma {:induction false} WholeItemAt(f: Field, items: seq<Val>, k: nat)
    requires k < |items|
    ensures WholeItems(f, items)[k] == WholeVal(f, items[k])
  {
    if k > 0 { WholeItemAt(f, items[1..], k - 1); }
  }

  /** A nested struct whose entries all count as absent is restored unless it holds an entry that is not. */
  lemma {:induction false} OmittedMsg(fs: seq<Field>, m: seq<Slot>)
    requires FieldsOk(fs) && MsgOk(fs, m) && AllDefault(fs, m, 0)
    ensures WholeMsg(fs, m) == Defaults(fs) <==> forall i :: 0 <= i < |fs| ==> !Forgets(fs[i])
    decreases m, 1
  {
    hide WholeSlot, DefaultSlot, IsDefaultSlot, FixedArray, Forgets;
    forall i | 0 <= i < |fs|
      ensures WholeMsg(fs, m)[i] == Defaults(fs)[i] <==> !Forgets(fs[i])
    {
      assert SlotOk(fs, i, m[i]);
      if SlotOf(fs, i) == i {
        AllDefaultAt(fs, m, 0, i);
        OmittedSlot(fs, i, m[i]);
      } else {
        AliasKept(fs, i);
      }
    }
    if forall i :: 0 <= i < |fs| ==> !Forgets(fs[i]) {
      assert WholeMsg(fs, m) == Defaults(fs);
    } else {
      var i :| 0 <= i < |fs| && Forgets(fs[i]);
      assert WholeMsg(fs, m)[i] != Defaults(fs)[i];
    }
  }

  lemma AliasKept(fs: seq<Field>, i: nat)
    requires i < |fs| && SlotOf(fs, i) != i
    ensures WholeSlot(fs, i, Alias) == Alias && !Forgets(fs[i])
  {
    SlotOfIdempotent(fs, i);
  }

  lemma {:induction false} AllDefaultAt(fs: seq<Field>, m: seq<Slot>, k: nat, i: nat)
    requires |m| == |fs| && k <= i < |fs| && AllDefault(fs, m, k)
    ensures IsDefaultSlot(fs[i], m[SlotOf(fs, i)])
    decreases i - k
  {
    if k < i {
      AllDefaultAt(fs, m, k + 1, i);
    }
  }

  // ----- what arrives is the whole message -----

  predicate SurvivesVal(f: Field, v: Val)
    decreases v, 1
  {
    f.ltype == LSubmessage && f.ptr.Sub? && v.Msg? && |v.slots| == |f.ptr.fields| ==> Survives(f.ptr.fields, v.slots)
  }

  predicate SurvivesSlot(fs: seq<Field>, i: nat, slot: Slot)
    requires i < |fs|
    decreases slot, 0
  {
    match slot
    case Single(v) =>
      if Singular(fs[i]) && IsDefaultVal(fs[i], v) then !Forgets(fs[i]) else SurvivesVal(fs[i], v)
    case Opt(has, v) => has ==> SurvivesVal(fs[i], v)
    case Rep(items) => forall k :: 0 <= k < |items| ==> SurvivesVal(fs[i], items[k])
    case Fixed(items) => forall k :: 0 <= k < |items| ==> SurvivesVal(fs[i], items[k])
    case Union(which, v) => FindField(fs, which).Some? ==> SurvivesVal(fs[FindField(fs, which).value], v)
    case _ => true
  }

  /** No proto3 field anywhere in the message counts as absent and forgets its content that way. */
  predicate Survives(fs: seq<Field>, m: seq<Slot>)
    requires |m| == |fs|
    decreases m, 1
  {
    forall i :: 0 <= i < |fs| ==> SurvivesSlot(fs, i, m[i])
  }

  lemma {:induction false} ValArrivesWhole(f: Field, v: Val)
    requires FieldOk(f) && ValOk(f, v)
    ensures NormVal(f, v) == WholeVal(f, v) <==> SurvivesVal(f, v)
    decreases v, 3
  {
    if f.ltype == LSubmessage {
      ArrivesWhole(f.ptr.fields, v.slots);
    }
  }

  lemma {:induction false} ItemsArriveWhole(f: Field, items: seq<Val>)
    requires FieldOk(f) && forall k :: 0 <= k < |items| ==> ValOk(f, items[k])
    ensures NormItems(f, items) == WholeItems(f, items) <==> forall k :: 0 <= k < |items| ==> SurvivesVal(f, items[k])
    decreases items, 2
  {
    hide FieldOk, ValOk, NormVal, WholeVal, SurvivesVal;
    if items != [] {
      ValArrivesWhole(f, items[0]);
      ItemsArriveWhole(f, items[1..]);
      var n, w := NormItems(f, items), WholeItems(f, items);
      assert n[1..] == NormItems(f, items[1..]) && w[1..] == WholeItems(f, items[1..]);
      assert n == w <==> n[0] == w[0] && n[1..] == w[1..] by {
        assert n == [n[0]] + n[1..] && w == [w[0]] + w[1..];
      }
      assert (forall k :: 0 <= k < |items| ==> SurvivesVal(f, items[k]))
        <==> SurvivesVal(f, items[0]) && forall k :: 0 <= k < |items[1..]| ==> SurvivesVal(f, items[1..][k]) by {
        AllItems(f, items);
      }
    }
  }

  lemma AllItems(f: Field, items: seq<Val>)
    requires items != []
    ensures (forall k :: 0 <= k < |items| ==> SurvivesVal(f, items[k]))
       <==> SurvivesVal(f, items[0]) && forall k :: 0 <= k < |items[1..]| ==> SurvivesVal(f, items[1..][k])
  {
    hide SurvivesVal;
    if SurvivesVal(f, items[0]) && forall k :: 0 <= k < |items[1..]| ==> SurvivesVal(f, items[1..][k]) {
      forall k | 0 <= k < |items|
        ensures SurvivesVal(f, items[k])
      {
        if k > 0 { assert items[k] == items[1..][k - 1]; }
      }
    }
  }

  lemma {:induction false} SlotArrivesWhole(fs: seq<Field>, i: nat, slot: Slot)
    requires FieldsOk(fs) && i < |fs| && SlotOk(fs, i, slot)
    ensures NormSlot(fs, i, slot) == WholeSlot(fs, i, slot) <==> SurvivesSlot(fs, i, slot)
    decreases slot, 2
  {
    hide NormVal, WholeVal, SurvivesVal, ValOk, IsDefaultVal, DefaultVal, Forgets;
    assert FieldOk(fs[i]);
    match slot
    case Single(v) =>
      if Singular(fs[i]) && IsDefaultVal(fs[i], v) {
        OmittedVal(fs[i], v);
      } else {
        ValArrivesWhole(fs[i], v);
      }
    case Opt(has, v) =>
      if has { ValArrivesWhole(fs[i], v); }
    case Rep(items) => ItemsArriveWhole(fs[i], items);
    case Fixed(items) => ItemsArriveWhole(fs[i], items);
    case Unset =>
    case Union(which, v) =>
      var k := FindField(fs, which).value;
      assert FieldOk(fs[k]);
      ValArrivesWhole(fs[k], v);
    case Alias =>
  }

  lemma {:induction false} ArrivesWhole(fs: seq<Field>, m: seq<Slot>)
    requires FieldsOk(fs) && MsgOk(fs, m)
    ensures NormMsg(fs, m) == WholeMsg(fs, m) <==> Survives(fs, m)
    decreases m, 2
  {
    hide NormSlot, WholeSlot, SurvivesSlot, SlotOk, FieldsOk;
    forall i | 0 <= i < |fs|
      ensures NormMsg(fs, m)[i] == WholeMsg(fs, m)[i] <==> SurvivesSlot(fs, i, m[i])
    {
      assert SlotOk(fs, i, m[i]);
      SlotArrivesWhole(fs, i, m[i]);
    }
    if Survives(fs, m) {
      assert NormMsg(fs, m) == WholeMsg(fs, m);
    }
  }

  /**
   A message comes back whole from encoding and decoding if and only if no proto3 field in it counts
   as absent and forgets its content that way.
   */
  lemma MessageSurvives(fs: seq<Field>, m: seq<Slot>)
    requires FieldsOk(fs) && MsgOk(fs, m)
    requires EncMsg(fs, m, 0).Some? && |EncMsg(fs, m, 0).value| < 0x1_0000_0000
    ensures DecMsg(fs, Defaults(fs), EncMsg(fs, m, 0).value) == Done(WholeMsg(fs, m), |EncMsg(fs, m, 0).value|)
       <==> Survives(fs, m)
  {
    hide DecMsg, EncMsg, NormMsg, WholeMsg, Defaults, Survives;
    MessageRoundTrip(fs, m);
    ArrivesWhole(fs, m);
  }
}
