/** Whatever bytes arrive, decoding leaves a struct that stays inside its table, and that can be sent on. */
module Bounds {
  import opened Bits
  import opened Outcomes
  import opened Descriptor
  import opened Varints
  import opened EncodeSpec
  import opened DecodeSpec
  import opened Prefix
  import opened RoundTrip

  // ----- structs that stay inside their table -----

  /** The value fits the storage that the field gives it. */
  predicate ValFits(f: Field, v: Val)
    decreases v, 0
  {
    match f.ltype
    case LVarint => v.Num? && IntSize(f.dataSize) && FitsSigned(v.n, f.dataSize)
    case LUVarint => v.Num? && IntSize(f.dataSize) && FitsUnsigned(v.n, f.dataSize)
    case LSVarint => v.Num? && IntSize(f.dataSize) && FitsSigned(v.n, f.dataSize)
    case LFixed32 => v.Num? && 0 <= v.n < TWO_32
    case LFixed64 => v.Num? && 0 <= v.n < TWO_64
    case LBytes => v.Blob? && |v.b| <= SizeMax() && |v.b| + SIZE_WIDTH <= f.dataSize
    case LString => v.Blob? && 0 !in v.b && |v.b| < f.dataSize
    case LFixedLengthBytes => v.Blob? && |v.b| == f.dataSize
    case LSubmessage => v.Msg? && f.ptr.Sub? && MsgFits(f.ptr.fields, v.slots)
    case LExtension => false
  }

  predicate ItemsFit(f: Field, items: seq<Val>)
    decreases items, 0
  {
    |items| <= f.arraySize && forall k :: 0 <= k < |items| ==> ValFits(f, items[k])
  }

  /** Counts stay within the array, and a one-of names one of its own members. */
  predicate SlotFits(fs: seq<Field>, i: nat, slot: Slot)
    requires i < |fs|
    decreases slot, 1
  {
    if SlotOf(fs, i) != i then slot == Alias
    else
      match fs[i].htype
      case Required => slot.Single? && ValFits(fs[i], slot.v)
      case Optional => (if fs[i].sizeOffset != 0 then slot.Opt? else slot.Single?) && ValFits(fs[i], slot.v)
      case Repeated => (if fs[i].sizeOffset != 0 then slot.Rep? else slot.Fixed?) && ItemsFit(fs[i], slot.items)
      case Oneof =>
        slot == Unset
        || (slot.Union? && FindField(fs, slot.which).Some? &&
            var k := FindField(fs, slot.which).value;
            SlotOf(fs, k) == i && fs[k].htype == Oneof && ValFits(fs[k], slot.v))
  }

  predicate MsgFits(fs: seq<Field>, m: seq<Slot>)
    decreases m, 2
  {
    |m| == |fs| && forall i :: 0 <= i < |fs| ==> SlotFits(fs, i, m[i])
  }

  /** The default of every entry fits, in nested tables too. */
  predicate DefaultFits(f: Field)
    decreases f
  {
    && ValFits(f, DefaultVal(f))
    && (FixedArray(f) && ZeroedCount(f) > 0 ==> ValFits(f, ZeroVal(f)))
    && (f.ltype == LSubmessage && f.ptr.Sub? ==>
          forall i :: 0 <= i < |f.ptr.fields| ==> DefaultFits(f.ptr.fields[i]))
  }

  predicate DefaultsFit(fs: seq<Field>) {
    forall i :: 0 <= i < |fs| ==> DefaultFits(fs[i])
  }

  lemma StartFits(fs: seq<Field>)
    requires DefaultsFit(fs)
    ensures MsgFits(fs, Defaults(fs))
  {
    hide ValFits, DefaultVal, ZeroVal, ZeroedCount;
    forall i | 0 <= i < |fs|
      ensures SlotFits(fs, i, Defaults(fs)[i])
    {
      assert DefaultFits(fs[i]);
    }
  }

  // ----- decoding keeps to the table -----

  lemma {:induction false} LittleEndianBound(s: seq<Byte>)
    ensures FromLittleEndian(s) < Pow2(8 * |s|)
  {
    if s != [] {
      LittleEndianBound(s[1..]);
      Pow2Add(8, 8 * |s[1..]|);
      assert Pow2(8) == 256 by { Pow2Table(); }
    }
  }

  lemma DecScalarFits(f: Field, s: seq<Byte>)
    ensures DecScalar(f, s).Done? ==> ValFits(f, DecScalar(f, s).val)
  {
    hide ReadVarint32, FromLittleEndian, Pow2;
    Pow2Table();
    if f.ltype == LFixed32 && |s| >= 4 {
      LittleEndianBound(s[..4]);
    } else if f.ltype == LFixed64 && |s| >= 8 {
      LittleEndianBound(s[..8]);
    } else if f.ltype in {LVarint, LUVarint, LSVarint} {
      ReadIntFits(f, s);
    }
  }

  lemma ReadIntFits(f: Field, s: seq<Byte>)
    requires f.ltype in {LVarint, LUVarint, LSVarint}
    ensures ReadInt(f, s).Done? ==> ValFits(f, ReadInt(f, s).val)
  {
    hide ReadVarint, Unzigzag;
  }

  lemma WriteFits(f: Field, e: Elements, v: Val)
    requires ItemsFit(f, e.items) && e.count < f.arraySize && ValFits(f, v)
    ensures ItemsFit(f, WriteAt(e.items, e.count, v))
  {
    hide ValFits;
  }

  lemma {:induction false} DecPackedFits(f: Field, e: Elements, s: seq<Byte>)
    requires ItemsFit(f, e.items)
    ensures DecPacked(f, e, s).Some? ==> ItemsFit(f, DecPacked(f, e, s).value.items)
    decreases |s|
  {
    hide DecScalar, ValFits, ItemsFit;
    if s != [] && e.count < f.arraySize && DecScalar(f, s).Done? {
      var Done(v, n) := DecScalar(f, s);
      DecScalarFits(f, s);
      WriteFits(f, e, v);
      DecPackedFits(f, Elements(WriteAt(e.items, e.count, v), e.count + 1), s[n..]);
    }
  }

  /** What was in a nested struct fits, if decoding is to go on in it. */
  predicate BeforeFits(f: Field, before: Val) {
    f.ltype == LSubmessage && f.htype != Repeated ==> ValFits(f, before)
  }

  lemma NestedFits(f: Field, v: Val)
    requires f.ltype == LSubmessage
    ensures ValFits(f, v) <==> v.Msg? && f.ptr.Sub? && MsgFits(f.ptr.fields, v.slots)
    ensures DefaultFits(f) ==> f.ptr.Sub? && ValFits(f, DefaultVal(f)) && DefaultsFit(f.ptr.fields)
  {
  }

  lemma {:induction false} DecValFits(f: Field, before: Val, s: seq<Byte>)
    requires DefaultFits(f) && BeforeFits(f, before)
    ensures DecVal(f, before, s).Done? ==> ValFits(f, DecVal(f, before, s).val)
    decreases |s|, 0
  {
    hide ValFits, DefaultFits, DefaultsFit, MsgFits, DefaultVal, DecMsg, DecScalar, ReadVarint32;
    if f.ltype != LSubmessage {
      DecScalarFits(f, s);
    } else if ReadVarint32(s).Done? {
      var Done(len, n) := ReadVarint32(s);
      var start := if f.htype == Repeated then DefaultVal(f) else before;
      NestedFits(f, start);
      if n + len <= |s| {
        DecMsgFits(f.ptr.fields, start.slots, s[n..n + len]);
        if DecVal(f, before, s).Done? {
          NestedFits(f, DecVal(f, before, s).val);
        }
      }
    }
  }

  lemma {:induction false} DecElementsFit(f: Field, e: Elements, wt: nat, s: seq<Byte>)
    requires DefaultFits(f) && f.htype == Repeated && ItemsFit(f, e.items)
    ensures DecElements(f, e, wt, s).Done? ==> ItemsFit(f, DecElements(f, e, wt, s).val.items)
    decreases |s|, 1
  {
    hide DecVal, DecPacked, ValFits, ItemsFit, DefaultVal, ReadBlob, DefaultFits;
    if wt == WT_STRING && Packable(f) {
      if ReadBlob(s).Done? { DecPackedFits(f, e, ReadBlob(s).val); }
    } else if e.count < f.arraySize {
      DecValFits(f, DefaultVal(f), s);
      var p := DecVal(f, DefaultVal(f), s);
      if p.Done? { WriteFits(f, e, p.val); }
    }
  }

  /** A slot that entry i shares or owns holds what the table says of it. */
  lemma {:induction false} DecFieldFits(fs: seq<Field>, i: nat, e: Entry, wt: nat, s: seq<Byte>)
    requires DefaultsFit(fs) && i < |fs| && FindField(fs, fs[i].tag) == Some(i) && SlotFits(fs, SlotOf(fs, i), e.slot)
    ensures DecField(fs[i], e, wt, s).Done? ==> SlotFits(fs, SlotOf(fs, i), DecField(fs[i], e, wt, s).val.slot)
    decreases |s|, 2
  {
    hide DecVal, DecElements, ValFits, ItemsFit, DefaultVal, FindField;
    var f := fs[i];
    assert DefaultFits(f);
    SlotOfIdempotent(fs, i);
    match f.htype
    case Required => DecValFits(f, OldVal(e.slot), s);
    case Optional => DecValFits(f, OldVal(e.slot), s);
    case Oneof => DecValFits(f, DefaultVal(f), s);
    case Repeated =>
      DecElementsFit(f, Elements(e.slot.items, if f.sizeOffset != 0 then |e.slot.items| else e.fixedCount), wt, s);
  }

  lemma {:induction false} DecLoopFits(fs: seq<Field>, st: State, s: seq<Byte>)
    requires DefaultsFit(fs) && MsgFits(fs, st.msg)
    ensures DecLoop(fs, st, s).Ran? ==> MsgFits(fs, DecLoop(fs, st, s).st.msg)
    decreases |s|, 4
  {
    hide DecOne, DecLoop, ReadKey, MsgFits, DefaultsFit;
    assert |st.msg| == |fs| by { FitsLength(fs, st.msg); }
    if s == [] {
      LoopAtEnd(fs, st, s);
      return;
    }
    RoundFails(fs, st, s);
    if ReadKey(s).Key? {
      var Key(tag, wt, n) := ReadKey(s);
      match DecOne(fs, st, tag, wt, s[n..])
      case Fail =>
      case Done(st', k) =>
        RoundGoesOn(fs, st, s, st', k);
        DecOneFits(fs, st, tag, wt, s[n..]);
        DecLoopFits(fs, st', s[n..][k..]);
    }
  }

  lemma FitsLength(fs: seq<Field>, m: seq<Slot>)
    requires MsgFits(fs, m)
    ensures |m| == |fs|
  {
  }

  lemma {:induction false} DecOneFits(fs: seq<Field>, st: State, tag: nat, wt: nat, s: seq<Byte>)
    requires DefaultsFit(fs) && MsgFits(fs, st.msg)
    ensures DecOne(fs, st, tag, wt, s).Done? ==> MsgFits(fs, DecOne(fs, st, tag, wt, s).val.msg)
    decreases |s|, 3
  {
    hide DecField, SlotFits, FindField, Skip, DefaultsFit;
    match FindField(fs, tag)
    case None =>
    case Some(i) =>
      match Track(fs, st, i)
      case None =>
      case Some(st0) =>
        DecFieldFits(fs, i, Entry(st.msg[SlotOf(fs, i)], MarkSeen(fs, st0, i).fixedCount), wt, s);
  }

  /** Decoding any bytes into a struct that fits its table leaves one that fits. */
  lemma {:induction false} DecMsgFits(fs: seq<Field>, m: seq<Slot>, s: seq<Byte>)
    requires DefaultsFit(fs) && MsgFits(fs, m)
    ensures |m| == |fs| && (DecMsg(fs, m, s).Done? ==> MsgFits(fs, DecMsg(fs, m, s).val))
    decreases |s|, 5
  {
    hide DecLoop, MsgFits, DefaultsFit;
    FitsLength(fs, m);
    DecLoopFits(fs, Start(m), s);
  }

  // ----- what was decoded can be encoded -----

  predicate ValFilled(f: Field, v: Val)
    decreases v, 1
  {
    f.ltype == LSubmessage && f.ptr.Sub? && v.Msg? && |v.slots| == |f.ptr.fields| ==> Filled(f.ptr.fields, v.slots)
  }

  predicate SlotFilled(fs: seq<Field>, i: nat, slot: Slot)
    requires i < |fs|
    decreases slot, 0
  {
    match slot
    case Single(v) => ValFilled(fs[i], v)
    case Opt(has, v) => has ==> ValFilled(fs[i], v)
    case Rep(items) => forall k :: 0 <= k < |items| ==> ValFilled(fs[i], items[k])
    case Fixed(items) =>
      |items| == fs[i].arraySize && forall k :: 0 <= k < |items| ==> ValFilled(fs[i], items[k])
    case Union(which, v) => FindField(fs, which).Some? ==> ValFilled(fs[FindField(fs, which).value], v)
    case _ => true
  }

  /** Every fixed-count array that is part of the message has all its elements. */
  predicate Filled(fs: seq<Field>, m: seq<Slot>)
    requires |m| == |fs|
    decreases m, 1
  {
    forall i :: 0 <= i < |fs| ==> SlotFilled(fs, i, m[i])
  }

  lemma {:induction false} ValEncodes(f: Field, v: Val)
    requires FieldOk(f) && ValFits(f, v) && ValFilled(f, v)
    ensures ValOk(f, v) && EncVal(f, v).Some? && EncTagged(f, v).Some?
    decreases v, 3
  {
    if f.ltype == LSubmessage {
      FitsEncodes(f.ptr.fields, v.slots);
    }
  }

  lemma {:induction false} ItemsEncode(f: Field, items: seq<Val>)
    requires FieldOk(f) && forall k :: 0 <= k < |items| ==> ValFits(f, items[k]) && ValFilled(f, items[k])
    ensures forall k :: 0 <= k < |items| ==> ValOk(f, items[k])
    ensures EncItems(f, items).Some? && EncTaggedItems(f, items).Some?
    decreases items, 2
  {
    hide FieldOk, ValOk, ValFits, ValFilled, EncVal, EncTagged;
    if items != [] {
      ValEncodes(f, items[0]);
      ItemsEncode(f, items[1..]);
      forall k | 0 <= k < |items|
        ensures ValOk(f, items[k])
      {
        if k > 0 { assert items[k] == items[1..][k - 1]; }
      }
    }
  }

  lemma {:induction false} SlotEncodes(fs: seq<Field>, i: nat, slot: Slot)
    requires FieldsOk(fs) && i < |fs| && SlotFits(fs, SlotOf(fs, i), slot) && SlotFilled(fs, SlotOf(fs, i), slot)
    ensures SlotOk(fs, SlotOf(fs, i), slot) && EncField(fs[i], slot).Some?
    decreases slot, 2
  {
    hide ValOk, ValFits, ValFilled, EncTagged, EncItems, EncTaggedItems, IsDefaultVal;
    assert FieldOk(fs[i]);
    SlotOfIdempotent(fs, i);
    match slot
    case Single(v) => ValEncodes(fs[i], v);
    case Opt(has, v) =>
      if has { ValEncodes(fs[i], v); }
    case Rep(items) => ItemsEncode(fs[i], items);
    case Fixed(items) => ItemsEncode(fs[i], items);
    case Unset =>
    case Union(which, v) =>
      var k := FindField(fs, which).value;
      assert FieldOk(fs[k]);
      ValEncodes(fs[k], v);
      if which == fs[i].tag { assert fs[i] == fs[k] by { SameTag(fs, i, k); } }
    case Alias =>
  }

  lemma SameTag(fs: seq<Field>, i: nat, k: nat)
    requires DistinctTags(fs) && i < |fs| && k < |fs| && fs[i].tag == fs[k].tag
    ensures i == k
  {
  }

  lemma {:induction false} FitsEncodes(fs: seq<Field>, m: seq<Slot>)
    requires FieldsOk(fs) && MsgFits(fs, m) && Filled(fs, m)
    ensures MsgOk(fs, m) && EncMsg(fs, m, 0).Some?
    decreases m, 3
  {
    hide SlotFits, SlotFilled, SlotOk, FieldsOk, EncField;
    forall i | 0 <= i < |fs|
      ensures SlotOk(fs, SlotOf(fs, i), m[SlotOf(fs, i)]) && Encodes(fs, m, i)
    {
      SlotEncodes(fs, i, m[SlotOf(fs, i)]);
    }
    forall i | 0 <= i < |fs|
      ensures SlotOk(fs, i, m[i])
    {
      if SlotOf(fs, i) != i { AliasOk(fs, i, m[i]); }
    }
    AllEncode(fs, m, 0);
  }

  lemma AliasOk(fs: seq<Field>, i: nat, slot: Slot)
    requires i < |fs| && SlotOf(fs, i) != i && SlotFits(fs, i, slot)
    ensures SlotOk(fs, i, slot)
  {
  }

  predicate Encodes(fs: seq<Field>, m: seq<Slot>, i: nat)
    requires |m| == |fs| && i < |fs|
  {
    EncField(fs[i], m[SlotOf(fs, i)]).Some?
  }

  lemma {:induction false} AllEncode(fs: seq<Field>, m: seq<Slot>, i: nat)
    requires |m| == |fs| && i <= |fs| && forall k :: 0 <= k < |fs| ==> Encodes(fs, m, k)
    ensures EncMsg(fs, m, i).Some?
    decreases |fs| - i
  {
    hide EncField, SlotOf;
    if i < |fs| {
      assert Encodes(fs, m, i);
      AllEncode(fs, m, i + 1);
    }
  }

  /**
   Any bytes at all that decode leave a struct that fits its table. When its fixed-count arrays are
   full it can be encoded, and decoding that gives the struct back in normal form.
   */
  lemma AcceptedGoesRound(fs: seq<Field>, s: seq<Byte>)
    requires FieldsOk(fs) && DefaultsFit(fs) && Decode(fs, s).Done?
    ensures var m := Decode(fs, s).val;
            && |m| == |fs| && MsgFits(fs, m)
            && (Filled(fs, m) ==>
                  var bytes := EncMsg(fs, m, 0);
                  bytes.Some? && (|bytes.value| < TWO_32 ==> Decode(fs, bytes.value) == Done(NormMsg(fs, m), |bytes.value|)))
  {
    hide DecMsg, MsgFits, Filled, EncMsg, NormMsg, Defaults, FieldsOk, DefaultsFit, MsgOk;
    StartFits(fs);
    DecMsgFits(fs, Defaults(fs), s);
    var m := Decode(fs, s).val;
    if Filled(fs, m) {
      FitsEncodes(fs, m);
      if |EncMsg(fs, m, 0).value| < TWO_32 {
        MessageRoundTrip(fs, m);
      }
    }
  }
}
