/** Decoding the encoding of a message gives the message back, with absent fields at their defaults. */
module RoundTrip {
  import opened Bits
  import opened Outcomes
  import opened Varints
  import opened Descriptor
  import opened EncodeSpec
  import opened DecodeSpec
  import opened Scalars
  import opened Chunks

  // ----- the message that arrives -----

  function NormVal(f: Field, v: Val): Val
    decreases v, 1
  {
    if f.ltype == LSubmessage && f.ptr.Sub? && v.Msg? && |v.slots| == |f.ptr.fields|
    then Msg(NormMsg(f.ptr.fields, v.slots))
    else v
  }

  function NormItems(f: Field, items: seq<Val>): (r: seq<Val>)
    ensures |r| == |items|
    decreases items, 0
  {
    if items == [] then [] else [NormVal(f, items[0])] + NormItems(f, items[1..])
  }

  /**
   Optional fields that are not set get their default, and so does a proto3 field that is left out
   as absent; everything else is kept.
   */
  function NormSlot(fs: seq<Field>, i: nat, slot: Slot): Slot
    requires i < |fs|
    decreases slot, 0
  {
    match slot
    case Single(v) => Single(if Singular(fs[i]) && IsDefaultVal(fs[i], v) then DefaultVal(fs[i]) else NormVal(fs[i], v))
    case Opt(has, v) => Opt(has, if has then NormVal(fs[i], v) else DefaultVal(fs[i]))
    case Rep(items) => Rep(NormItems(fs[i], items))
    case Fixed(items) => Fixed(NormItems(fs[i], items))
    case Unset => Unset
    case Union(which, v) =>
      (match FindField(fs, which)
       case None => slot
       case Some(k) => Union(which, NormVal(fs[k], v)))
    case Alias => Alias
  }

  function NormMsg(fs: seq<Field>, m: seq<Slot>): (r: seq<Slot>)
    requires |m| == |fs|
    ensures |r| == |fs|
    decreases m, 1
  {
    seq(|m|, i requires 0 <= i < |m| => NormSlot(fs, i, m[i]))
  }

  // ----- the struct when the first k entries have arrived -----

  function PartialSlot(fs: seq<Field>, m: seq<Slot>, k: nat, j: nat): Slot
    requires |m| == |fs| && j < |fs|
  {
    if SlotOf(fs, j) != j then Alias
    else if m[j].Union? then
      var member := FindField(fs, m[j].which);
      if member.Some? && member.value < k then NormSlot(fs, j, m[j]) else Unset
    else if j < k then NormSlot(fs, j, m[j])
    else DefaultSlot(fs[j])
  }

  function Partial(fs: seq<Field>, m: seq<Slot>, k: nat): (r: seq<Slot>)
    requires |m| == |fs|
    ensures |r| == |fs|
  {
    seq(|fs|, j requires 0 <= j < |fs| => PartialSlot(fs, m, k, j))
  }

  lemma PartialStart(fs: seq<Field>, m: seq<Slot>)
    requires |m| == |fs| && MsgOk(fs, m)
    ensures Partial(fs, m, 0) == Defaults(fs)
  {
  }

  lemma PartialEnd(fs: seq<Field>, m: seq<Slot>)
    requires |m| == |fs| && MsgOk(fs, m)
    ensures Partial(fs, m, |fs|) == NormMsg(fs, m)
  {
  }

  /** Entry k changes no slot but its own. */
  lemma PartialStep(fs: seq<Field>, m: seq<Slot>, k: nat)
    requires |m| == |fs| && MsgOk(fs, m) && k < |fs|
    ensures var j := SlotOf(fs, k);
            Partial(fs, m, k + 1) == Partial(fs, m, k)[j := PartialSlot(fs, m, k + 1, j)]
  {
  }

  // ----- one value -----

  /** A value decodes to its normal form; what follows it stays. */
  lemma {:induction false} ValRoundTrip(f: Field, v: Val, before: Val, t: seq<Byte>)
    requires FieldOk(f) && ValOk(f, v)
    requires EncVal(f, v).Some? && |EncVal(f, v).value| < 0x1_0000_0000
    requires f.ltype == LSubmessage && f.htype != Repeated ==> before == DefaultVal(f)
    ensures DecVal(f, before, EncVal(f, v).value + t) == Done(NormVal(f, v), |EncVal(f, v).value|)
    decreases v, 9, 0
  {
    if f.ltype != LSubmessage {
      hide DecScalar;
      ScalarRoundTrip(f, v, t);
    } else {
      hide LenPrefixed, DecMsg, NormMsg, Defaults, EncMsg, ReadBlob, ReadVarint32;
      var fs := f.ptr.fields;
      var inner := EncMsg(fs, v.slots, 0).value;
      BlobSize(inner);
      MessageRoundTrip(fs, v.slots);
      SubmessageBytes(inner, t);
    }
  }

  lemma SubmessageBytes(inner: seq<Byte>, t: seq<Byte>)
    requires |inner| < 0x1_0000_0000
    ensures var s := LenPrefixed(inner) + t;
            var n := |Varint(|inner|)|;
            && ReadVarint32(s) == Done(|inner|, n)
            && n + |inner| == |LenPrefixed(inner)|
            && s[n..n + |inner|] == inner
  {
    hide ReadVarint32, Varint;
    var s := LenPrefixed(inner) + t;
    assert s == Varint(|inner|) + (inner + t);
    LengthRoundTrip(|inner|, inner + t);
  }

  // ----- one entry -----

  /** The fixed-count array received last is full and lies before entry k. */
  predicate TrackedBefore(fs: seq<Field>, st: State, k: nat) {
    FixedDone(fs, st) && (st.fixed.Some? ==> st.fixed.value < k)
  }

  /** How the loop state after an entry relates to the one before it. */
  predicate Arrived(fs: seq<Field>, m: seq<Slot>, k: nat, st: State, st': State)
    requires |m| == |fs| && k < |fs|
  {
    && st'.msg == Partial(fs, m, k + 1)
    && TrackedBefore(fs, st', k + 1)
    && st.seen <= st'.seen
    && (fs[k].htype == Required ==> k in st'.seen)
  }

  /** The loop over an entry's bytes leads from st to st'. */
  predicate Crosses(fs: seq<Field>, st: State, s: seq<Byte>, st': State, t: seq<Byte>)
    requires |st.msg| == |fs| && |st'.msg| == |fs|
  {
    DecLoop(fs, st, s + t) == Shift(|s|, DecLoop(fs, st', t))
  }

  /** An entry that is written as a key and one value. */
  lemma {:induction false} SingleEntry(fs: seq<Field>, m: seq<Slot>, k: nat, v: Val, st: State, t: seq<Byte>) returns (st': State)
    requires FieldsOk(fs) && MsgOk(fs, m) && k < |fs|
    requires fs[k].htype != Repeated && ValOk(fs[k], v)
    requires EncTagged(fs[k], v).Some? && |EncTagged(fs[k], v).value| < 0x1_0000_0000
    requires st.msg == Partial(fs, m, k) && TrackedBefore(fs, st, k)
    requires PartialSlot(fs, m, k + 1, SlotOf(fs, k)) == ReceivedSlot(fs[k], NormVal(fs[k], v))
    requires fs[k].htype != Oneof ==> PartialSlot(fs, m, k, k) == DefaultSlot(fs[k])
    ensures |st'.msg| == |fs| && Arrived(fs, m, k, st, st')
    ensures Crosses(fs, st, EncTagged(fs[k], v).value, st', t)
    decreases v, 10, 0
  {
    hide EncVal, DecVal, NormVal, TagBytes, DecLoop, ValOk, FieldOk, PartialSlot;
    var f := fs[k];
    assert FieldOk(f);
    var j := SlotOf(fs, k);
    SlotOfIdempotent(fs, k);
    PartialStep(fs, m, k);
    var payload := EncVal(f, v).value;
    var before := BeforeVal(f, st.msg[j]);
    assert before == DefaultVal(f);
    ValRoundTrip(f, v, before, []);
    assert payload + [] == payload;
    SingleEntryStep(fs, st, k, payload, NormVal(f, v), t);
    st' := MarkSeen(fs, st, k).(msg := st.msg[j := ReceivedSlot(f, NormVal(f, v))]);
  }

  /** An entry that is not written. */
  lemma AbsentEntry(fs: seq<Field>, m: seq<Slot>, k: nat, st: State, t: seq<Byte>)
    requires |m| == |fs| && MsgOk(fs, m) && k < |fs| && fs[k].htype != Required
    requires st.msg == Partial(fs, m, k) && TrackedBefore(fs, st, k)
    requires PartialSlot(fs, m, k + 1, SlotOf(fs, k)) == PartialSlot(fs, m, k, SlotOf(fs, k))
    ensures Arrived(fs, m, k, st, st)
    ensures Crosses(fs, st, [], st, t)
  {
    hide DecLoop, PartialSlot;
    PartialStep(fs, m, k);
    var j := SlotOf(fs, k);
    assert st.msg[j := st.msg[j]] == st.msg;
    assert [] + t == t;
  }

  lemma {:induction false} NormItemsScalar(f: Field, items: seq<Val>)
    requires f.ltype != LSubmessage
    ensures NormItems(f, items) == items
  {
    if items != [] {
      NormItemsScalar(f, items[1..]);
    }
  }

  lemma ShiftTwice(a: nat, b: nat, r: Run)
    ensures Shift(a, Shift(b, r)) == Shift(a + b, r)
  {
  }

  /** Elements with a key each. */
  lemma {:induction false} TaggedItems(fs: seq<Field>, k: nat, es: seq<Val>, items: seq<Val>, st: State, t: seq<Byte>)
    requires k < |fs| == |st.msg| && fs[k].htype == Repeated
    requires AtArray(fs, st, k, es) && FieldsOk(fs) && |es| + |items| <= fs[k].arraySize
    requires forall i :: 0 <= i < |items| ==> ValOk(fs[k], items[i])
    requires EncTaggedItems(fs[k], items).Some? && |EncTaggedItems(fs[k], items).value| < 0x1_0000_0000
    ensures var st' := if items == [] then st else PutArray(fs, st, k, es + NormItems(fs[k], items));
            Crosses(fs, st, EncTaggedItems(fs[k], items).value, st', t)
    decreases items, 10, 0
  {
    hide EncVal, DecVal, NormVal, TagBytes, DecLoop, ValOk, FieldOk, DefaultVal, AtArray;
    var f := fs[k];
    assert FieldOk(f);
    if items == [] {
      assert [] + t == t;
    } else {
      var key, payload := TagBytes(WireType(f.ltype), f.tag), EncVal(f, items[0]).value;
      var rest := EncTaggedItems(f, items[1..]).value;
      assert EncTaggedItems(f, items).value == key + payload + rest;
      var w := NormVal(f, items[0]);
      ValRoundTrip(f, items[0], DefaultVal(f), []);
      assert payload + [] == payload;
      ElementStep(fs, st, k, es, payload, w, rest + t);
      assert key + payload + (rest + t) == key + payload + rest + t;
      var st1 := PutArray(fs, st, k, es + [w]);
      PutArrayTwice(fs, st, k, es + [w], es + NormItems(f, items));
      TaggedItems(fs, k, es + [w], items[1..], st1, t);
      assert es + [w] + NormItems(f, items[1..]) == es + NormItems(f, items);
      if items[1..] == [] {
        assert es + NormItems(f, items) == es + [w];
      }
      ShiftTwice(|key + payload|, |rest|, DecLoop(fs, PutArray(fs, st, k, es + NormItems(f, items)), t));
    }
  }

  predicate ArrayOk(f: Field, items: seq<Val>) {
    && (forall i :: 0 <= i < |items| ==> ValOk(f, items[i]))
    && EncArray(f, items).Some? && |EncArray(f, items).value| < 0x1_0000_0000
  }

  /** A non-empty array, packed or not. */
  lemma {:induction false} ArrayItems(fs: seq<Field>, k: nat, items: seq<Val>, st: State, t: seq<Byte>)
    requires AtArray(fs, st, k, []) && FieldsOk(fs) && items != [] && ArrayOk(fs[k], items)
    ensures Crosses(fs, st, EncArray(fs[k], items).value, PutArray(fs, st, k, NormItems(fs[k], items)), t)
    decreases items, 10, 1
  {
    hide EncVal, NormVal, TagBytes, DecLoop, ValOk, FieldOk, EncItems, EncTaggedItems;
    var f := fs[k];
    if Packable(f) {
      var body := EncItems(f, items).value;
      BlobSize(body);
      PackedStep(fs, st, k, [], items, t);
      NormItemsScalar(f, items);
      assert [] + items == items;
    } else {
      TaggedItems(fs, k, [], items, st, t);
      assert [] + NormItems(f, items) == NormItems(f, items);
    }
  }

  lemma {:induction false} ArrayEntryTrip(fs: seq<Field>, m: seq<Slot>, k: nat, items: seq<Val>, st: State, t: seq<Byte>) returns (st': State)
    requires FieldsOk(fs) && MsgOk(fs, m) && k < |fs| && fs[k].htype == Repeated
    requires m[k] == if fs[k].sizeOffset != 0 then Rep(items) else Fixed(items)
    requires fs[k].sizeOffset == 0 ==> |items| == fs[k].arraySize
    requires ArrayOk(fs[k], items)
    requires st.msg == Partial(fs, m, k) && TrackedBefore(fs, st, k)
    ensures |st'.msg| == |fs| && Arrived(fs, m, k, st, st')
    ensures Crosses(fs, st, EncArray(fs[k], items).value, st', t)
    decreases items, 10, 2
  {
    hide EncVal, NormVal, TagBytes, DecLoop, ValOk, FieldOk, EncItems, EncTaggedItems, Crosses;
    SlotOfIdempotent(fs, k);
    if items == [] {
      AbsentEntry(fs, m, k, st, t);
      st' := st;
    } else {
      assert st.msg[k] == DefaultSlot(fs[k]);
      assert [] + Behind(st.msg[k], 0) == Behind(st.msg[k], 0);
      assert AtArray(fs, st, k, []);
      ArrayItems(fs, k, items, st, t);
      st' := PutArray(fs, st, k, NormItems(fs[k], items));
      assert NormItems(fs[k], items) + Behind(st.msg[k], |items|) == NormItems(fs[k], items);
      PartialStep(fs, m, k);
    }
  }

  // ----- the whole message -----

  /** Any entry. */
  lemma {:induction false} EntryRoundTrip(fs: seq<Field>, m: seq<Slot>, k: nat, slot: Slot, st: State, t: seq<Byte>) returns (st': State)
    requires FieldsOk(fs) && MsgOk(fs, m) && k < |fs| && slot == m[SlotOf(fs, k)]
    requires EncField(fs[k], slot).Some? && |EncField(fs[k], slot).value| < 0x1_0000_0000
    requires st.msg == Partial(fs, m, k) && TrackedBefore(fs, st, k)
    ensures |st'.msg| == |fs| && Arrived(fs, m, k, st, st')
    ensures Crosses(fs, st, EncField(fs[k], slot).value, st', t)
    decreases slot, 11, 0
  {
    hide EncTagged, EncArray, NormVal, DefaultVal, ValOk, Arrived, Crosses, IsDefaultVal, TrackedBefore;
    var f, j := fs[k], SlotOf(fs, k);
    assert FieldOk(f);
    SlotOfIdempotent(fs, k);
    assert SlotOk(fs, j, slot);
    match f.htype
    case Required => st' := SingleEntry(fs, m, k, slot.v, st, t);
    case Optional =>
      if (if f.sizeOffset != 0 then slot.has else !IsDefaultVal(f, slot.v)) {
        st' := SingleEntry(fs, m, k, slot.v, st, t);
      } else {
        AbsentEntry(fs, m, k, st, t);
        st' := st;
      }
    case Repeated => st' := ArrayEntryTrip(fs, m, k, slot.items, st, t);
    case Oneof =>
      FoundField(fs, k);
      if slot.Union? && slot.which == f.tag {
        st' := SingleEntry(fs, m, k, slot.v, st, t);
      } else {
        AbsentEntry(fs, m, k, st, t);
        st' := st;
      }
  }

  lemma EmptyLoop(fs: seq<Field>, st: State)
    requires |st.msg| == |fs|
    ensures DecLoop(fs, st, []) == Ran(st, 0, false)
  {
  }

  /** The entries from k on. */
  lemma {:induction false} RestRoundTrip(fs: seq<Field>, m: seq<Slot>, k: nat, st: State)
    requires |m| == |fs| && FieldsOk(fs) && MsgOk(fs, m) && k <= |fs|
    requires EncMsg(fs, m, k).Some? && |EncMsg(fs, m, k).value| < 0x1_0000_0000
    requires st.msg == Partial(fs, m, k) && TrackedBefore(fs, st, k)
    requires forall i :: 0 <= i < k && fs[i].htype == Required ==> i in st.seen
    ensures var r := DecLoop(fs, st, EncMsg(fs, m, k).value);
            r.Ran? && !r.stopped && r.st.msg == NormMsg(fs, m) && Complete(fs, r.st)
    decreases m, 8, |fs| - k
  {
    hide EncField, Partial, DecLoop, NormMsg, FieldsOk, MsgOk, FixedDone, RequiredBefore, SlotOf;
    if k == |fs| {
      PartialEnd(fs, m);
      EmptyLoop(fs, st);
    } else {
      var slot := m[SlotOf(fs, k)];
      var head, rest := EncField(fs[k], slot).value, EncMsg(fs, m, k + 1).value;
      var st' := EntryRoundTrip(fs, m, k, slot, st, rest);
      RestRoundTrip(fs, m, k + 1, st');
    }
  }

  /**
   Decoding the encoding of a well-formed message succeeds, consumes every byte and yields the
   message's normal form, for every descriptor table and every nesting of submessages.
   */
  lemma {:induction false} MessageRoundTrip(fs: seq<Field>, m: seq<Slot>)
    requires FieldsOk(fs) && MsgOk(fs, m)
    requires EncMsg(fs, m, 0).Some? && |EncMsg(fs, m, 0).value| < 0x1_0000_0000
    ensures DecMsg(fs, Defaults(fs), EncMsg(fs, m, 0).value) == Done(NormMsg(fs, m), |EncMsg(fs, m, 0).value|)
    decreases m, 9, 0
  {
    hide DecLoop, EncMsg, NormMsg, Defaults;
    PartialStart(fs, m);
    RestRoundTrip(fs, m, 0, Start(Defaults(fs)));
  }
}
