/** How the field loop moves over one encoded field: a key, then a payload that decodes. */
module Chunks {
  import opened Bits
  import opened Outcomes
  import opened Varints
  import opened Descriptor
  import opened EncodeSpec
  import opened DecodeSpec
  import opened Prefix
  import opened Scalars

  lemma KeyRoundTrip(wt: nat, tag: nat, t: seq<Byte>)
    requires 0 < tag < MAX_TAG && wt < 8
    ensures ReadKey(TagBytes(wt, tag) + t) == Key(tag, wt, |TagBytes(wt, tag)|)
  {
    hide ReadVarint32, Varint;
    LengthRoundTrip(tag * 8 + wt, t);
  }

  /** One known field at the front of the data. */
  lemma ChunkStep(fs: seq<Field>, st: State, k: nat, wt: nat, payload: seq<Byte>, t: seq<Byte>)
    requires |st.msg| == |fs| && FieldsOk(fs) && k < |fs| && wt < 8
    requires DecEntry(fs, st, k, wt, payload).Done? && DecEntry(fs, st, k, wt, payload).n == |payload|
    ensures DecLoop(fs, st, TagBytes(wt, fs[k].tag) + payload + t)
         == Shift(|TagBytes(wt, fs[k].tag) + payload|, DecLoop(fs, DecEntry(fs, st, k, wt, payload).val, t))
  {
    hide ReadKey, DecEntry, TagBytes, DecLoop, FindField;
    assert FieldOk(fs[k]);
    FoundField(fs, k);
    var key := TagBytes(wt, fs[k].tag);
    KeyRoundTrip(wt, fs[k].tag, payload);
    assert (key + payload)[|key|..] == payload;
    LoopStep(fs, st, key + payload, t);
  }

  lemma FoundField(fs: seq<Field>, k: nat)
    requires FieldsOk(fs) && k < |fs|
    ensures FindField(fs, fs[k].tag) == Some(k)
  {
  }

  /** A known field whose payload cannot be decoded fails the loop. */
  lemma ChunkFails(fs: seq<Field>, st: State, k: nat, wt: nat, rest: seq<Byte>)
    requires |st.msg| == |fs| && FieldsOk(fs) && k < |fs| && wt < 8
    requires DecEntry(fs, st, k, wt, rest).Fail?
    ensures DecLoop(fs, st, TagBytes(wt, fs[k].tag) + rest) == RunFail
  {
    hide ReadKey, DecEntry, TagBytes, FindField;
    assert FieldOk(fs[k]);
    FoundField(fs, k);
    var key := TagBytes(wt, fs[k].tag);
    KeyRoundTrip(wt, fs[k].tag, rest);
    assert (key + rest)[|key|..] == rest;
  }

  // ----- entries that hold one value -----

  /** The slot that a decoded value leaves in an entry that is not an array. */
  function ReceivedSlot(f: Field, w: Val): Slot {
    match f.htype
    case Required => Single(w)
    case Optional => if f.sizeOffset != 0 then Opt(true, w) else Single(w)
    case Oneof => Union(f.tag, w)
    case Repeated => Alias
  }

  function BeforeVal(f: Field, slot: Slot): Val {
    if f.htype == Oneof then DefaultVal(f) else OldVal(slot)
  }

  lemma SingleEntryStep(fs: seq<Field>, st: State, k: nat, payload: seq<Byte>, w: Val, t: seq<Byte>)
    requires |st.msg| == |fs| && FieldsOk(fs) && k < |fs| && fs[k].htype != Repeated
    requires DecVal(fs[k], BeforeVal(fs[k], st.msg[SlotOf(fs, k)]), payload) == Done(w, |payload|)
    ensures var j := SlotOf(fs, k);
            var st' := MarkSeen(fs, st, k).(msg := st.msg[j := ReceivedSlot(fs[k], w)]);
            var key := TagBytes(WireType(fs[k].ltype), fs[k].tag);
            DecLoop(fs, st, key + payload + t) == Shift(|key + payload|, DecLoop(fs, st', t))
  {
    hide DecVal, DefaultVal, TagBytes, DecLoop, FieldsOk, SlotOf;
    var j, f, wt := SlotOf(fs, k), fs[k], WireType(fs[k].ltype);
    var e := Entry(st.msg[j], st.fixedCount);
    assert DecField(f, e, wt, payload) == Done(e.(slot := ReceivedSlot(f, w)), |payload|);
    ChunkStep(fs, st, k, wt, payload, t);
  }

  // ----- arrays -----

  /** The values of a list from position n on. */
  function After(items: seq<Val>, n: nat): seq<Val> {
    if n <= |items| then items[n..] else []
  }

  /** What a fixed-count array holds behind its first n elements. */
  function Behind(slot: Slot, n: nat): seq<Val> {
    if slot.Fixed? then After(slot.items, n) else []
  }

  /** Entry k is an array that has received es, and the loop is ready to receive element |es|. */
  predicate AtArray(fs: seq<Field>, st: State, k: nat, es: seq<Val>) {
    && k < |fs| == |st.msg| && fs[k].htype == Repeated
    && if fs[k].sizeOffset != 0 then st.msg[k] == Rep(es)
       else
         && st.msg[k] == Fixed(es + Behind(st.msg[k], |es|))
         && if st.fixed == Some(k) then st.fixedCount == |es| else es == [] && FixedDone(fs, st)
  }

  /** The state after the array has received elements up to es; a fixed-count array keeps what lies behind them. */
  function PutArray(fs: seq<Field>, st: State, k: nat, es: seq<Val>): (r: State)
    requires k < |fs| == |st.msg|
    ensures |r.msg| == |fs|
  {
    if fs[k].sizeOffset != 0 then st.(msg := st.msg[k := Rep(es)])
    else st.(msg := st.msg[k := Fixed(es + Behind(st.msg[k], |es|))], fixed := Some(k), fixedCount := |es|)
  }

  lemma PutArrayTwice(fs: seq<Field>, st: State, k: nat, es: seq<Val>, es': seq<Val>)
    requires k < |fs| == |st.msg| && fs[k].htype == Repeated && |es| <= |es'|
    ensures PutArray(fs, PutArray(fs, st, k, es), k, es') == PutArray(fs, st, k, es')
    ensures AtArray(fs, PutArray(fs, st, k, es), k, es)
  {
    var put := Fixed(es + Behind(st.msg[k], |es|));
    assert Behind(put, |es|) == Behind(st.msg[k], |es|);
    assert Behind(put, |es'|) == Behind(st.msg[k], |es'|);
  }

  /** What the entry decoder does on an array, in terms of the element list. */
  lemma ArrayEntry(fs: seq<Field>, st: State, k: nat, es: seq<Val>, wt: nat, s: seq<Byte>)
    requires AtArray(fs, st, k, es)
    ensures DecEntry(fs, st, k, wt, s)
         == match DecElements(fs[k], Elements(es + Behind(st.msg[k], |es|), |es|), wt, s)
            case Fail => Fail
            case Done(r, n) =>
              if fs[k].sizeOffset != 0 then Done(st.(msg := st.msg[k := Rep(r.items)]), n)
              else Done(st.(msg := st.msg[k := Fixed(r.items)], fixed := Some(k), fixedCount := r.count), n)
  {
    hide DecElements;
    assert fs[k].sizeOffset != 0 ==> es + Behind(st.msg[k], |es|) == es;
  }

  /** One element with its own key. */
  lemma ElementStep(fs: seq<Field>, st: State, k: nat, es: seq<Val>, payload: seq<Byte>, w: Val, t: seq<Byte>)
    requires AtArray(fs, st, k, es) && FieldsOk(fs) && |es| < fs[k].arraySize
    requires DecVal(fs[k], DefaultVal(fs[k]), payload) == Done(w, |payload|)
    ensures var key := TagBytes(WireType(fs[k].ltype), fs[k].tag);
            DecLoop(fs, st, key + payload + t)
            == Shift(|key + payload|, DecLoop(fs, PutArray(fs, st, k, es + [w]), t))
  {
    hide DecEntry, DecVal, DefaultVal, DecLoop, TagBytes;
    var wt := WireType(fs[k].ltype);
    ArrayEntry(fs, st, k, es, wt, payload);
    WriteOver(es, Behind(st.msg[k], |es|), w);
    AfterTwice(st.msg[k], |es|, 1);
    ChunkStep(fs, st, k, wt, payload, t);
  }

  /** One element too many. */
  lemma ElementOverflow(fs: seq<Field>, st: State, k: nat, es: seq<Val>, rest: seq<Byte>)
    requires AtArray(fs, st, k, es) && FieldsOk(fs) && |es| >= fs[k].arraySize
    ensures DecLoop(fs, st, TagBytes(WireType(fs[k].ltype), fs[k].tag) + rest) == RunFail
  {
    hide DecEntry, DecVal, DefaultVal, DecLoop, TagBytes;
    var wt := WireType(fs[k].ltype);
    ArrayEntry(fs, st, k, es, wt, rest);
    ChunkFails(fs, st, k, wt, rest);
  }

  lemma WriteOver(es: seq<Val>, rest: seq<Val>, w: Val)
    ensures WriteAt(es + rest, |es|, w) == es + [w] + After(rest, 1)
  {
  }

  lemma AfterTwice(slot: Slot, n: nat, d: nat)
    ensures After(Behind(slot, n), d) == Behind(slot, n + d)
  {
  }

  lemma AfterMore(items: seq<Val>, n: nat)
    ensures After(After(items, 1), n) == After(items, n + 1)
  {
  }

  lemma PackedNothing(f: Field, es: seq<Val>, behind: seq<Val>, xs: seq<Val>)
    requires xs == []
    ensures DecPacked(f, Elements(es + behind, |es|), []) == Some(Elements(es + xs + After(behind, |xs|), |es| + |xs|))
  {
    assert es + xs + After(behind, 0) == es + behind;
  }

  /** One value at the front of a packed body. */
  lemma PackedFirst(f: Field, e: Elements, s: seq<Byte>, x: Val, n: nat)
    requires DecScalar(f, s) == Done(x, n) && n <= |s|
    ensures DecPacked(f, e, s)
         == if e.count >= f.arraySize then None
            else DecPacked(f, Elements(WriteAt(e.items, e.count, x), e.count + 1), s[n..])
  {
    hide DecScalar, WriteAt;
  }

  /** The body of a packed array: taken when it fits, refused when it does not. What lies behind stays. */
  lemma {:induction false} PackedBody(f: Field, es: seq<Val>, behind: seq<Val>, xs: seq<Val>)
    requires FieldOk(f) && Packable(f) && |es| <= f.arraySize
    requires forall i :: 0 <= i < |xs| ==> ValOk(f, xs[i])
    requires EncItems(f, xs).Some? && |EncItems(f, xs).value| < 0x1_0000_0000
    ensures DecPacked(f, Elements(es + behind, |es|), EncItems(f, xs).value)
         == if |es| + |xs| <= f.arraySize then Some(Elements(es + xs + After(behind, |xs|), |es| + |xs|)) else None
    decreases xs
  {
    hide DecScalar, EncVal, ValOk, FieldOk, DecPacked;
    if xs == [] {
      PackedNothing(f, es, behind, xs);
    } else {
      var x, b := xs[0], EncVal(f, xs[0]).value;
      var rest := EncItems(f, xs[1..]).value;
      assert EncItems(f, xs).value == b + rest;
      ScalarRoundTrip(f, x, rest);
      hide After, WriteAt, EncItems;
      PackedFirst(f, Elements(es + behind, |es|), b + rest, x, |b|);
      assert (b + rest)[|b|..] == rest;
      if |es| < f.arraySize {
        WriteOver(es, behind, x);
        PackedBody(f, es + [x], After(behind, 1), xs[1..]);
        assert es + [x] + xs[1..] == es + xs;
        AfterMore(behind, |xs[1..]|);
      }
    }
  }

  /** A packed field. */
  lemma PackedStep(fs: seq<Field>, st: State, k: nat, es: seq<Val>, xs: seq<Val>, t: seq<Byte>)
    requires AtArray(fs, st, k, es) && FieldsOk(fs) && Packable(fs[k]) && |es| <= fs[k].arraySize
    requires forall i :: 0 <= i < |xs| ==> ValOk(fs[k], xs[i])
    requires EncItems(fs[k], xs).Some? && |EncItems(fs[k], xs).value| < 0x1_0000_0000
    ensures var s := TagBytes(WT_STRING, fs[k].tag) + LenPrefixed(EncItems(fs[k], xs).value);
            DecLoop(fs, st, s + t)
            == if |es| + |xs| <= fs[k].arraySize
               then Shift(|s|, DecLoop(fs, PutArray(fs, st, k, es + xs), t))
               else RunFail
  {
    hide DecEntry, DecLoop, TagBytes, LenPrefixed, ReadBlob, DecPacked, FieldOk;
    assert FieldOk(fs[k]);
    var body := EncItems(fs[k], xs).value;
    var payload := LenPrefixed(body);
    var key := TagBytes(WT_STRING, fs[k].tag);
    PackedBody(fs[k], es, Behind(st.msg[k], |es|), xs);
    AfterTwice(st.msg[k], |es|, |xs|);
    BlobRoundTrip(body, []);
    assert payload + [] == payload;
    BlobRoundTrip(body, t);
    ArrayEntry(fs, st, k, es, WT_STRING, payload);
    ArrayEntry(fs, st, k, es, WT_STRING, payload + t);
    if |es| + |xs| <= fs[k].arraySize {
      assert fs[k].sizeOffset != 0 ==> es + xs + Behind(st.msg[k], |es| + |xs|) == es + xs;
      ChunkStep(fs, st, k, WT_STRING, payload, t);
    } else {
      ChunkFails(fs, st, k, WT_STRING, payload + t);
      assert key + payload + t == key + (payload + t);
    }
  }
}
