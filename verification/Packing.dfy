/** Repeated numbers may arrive packed or one by one; both fill the array alike. */
module Packing {
  import opened Bits
  import opened Outcomes
  import opened Varints
  import opened Descriptor
  import opened EncodeSpec
  import opened DecodeSpec
  import opened Scalars
  import opened Chunks

  /** Single occurrences: appended while they fit, refused otherwise. */
  lemma {:induction false} Unpacked(fs: seq<Field>, st: State, k: nat, es: seq<Val>, xs: seq<Val>, t: seq<Byte>)
    requires k < |fs| == |st.msg| && fs[k].htype == Repeated && AtArray(fs, st, k, es) && |es| <= fs[k].arraySize
    requires FieldsOk(fs) && Packable(fs[k])
    requires forall i :: 0 <= i < |xs| ==> ValOk(fs[k], xs[i])
    requires EncTaggedItems(fs[k], xs).Some?
    ensures var s := EncTaggedItems(fs[k], xs).value;
            DecLoop(fs, st, s + t)
            == if |es| + |xs| > fs[k].arraySize then RunFail
               else Shift(|s|, DecLoop(fs, if xs == [] then st else PutArray(fs, st, k, es + xs), t))
    decreases |xs|
  {
    hide EncVal, DecVal, TagBytes, DecLoop, ValOk, FieldOk, DefaultVal, AtArray;
    var f := fs[k];
    assert FieldOk(f);
    if xs == [] {
      assert [] + t == t;
    } else {
      var key, payload := TagBytes(WireType(f.ltype), f.tag), EncVal(f, xs[0]).value;
      var rest := EncTaggedItems(f, xs[1..]).value;
      assert EncTaggedItems(f, xs).value == key + payload + rest;
      assert key + payload + rest + t == key + payload + (rest + t) == key + (payload + (rest + t));
      if |es| == f.arraySize {
        ElementOverflow(fs, st, k, es, payload + (rest + t));
      } else {
        NumberTrip(f, xs[0]);
        ElementStep(fs, st, k, es, payload, xs[0], rest + t);
        var st1 := PutArray(fs, st, k, es + [xs[0]]);
        PutArrayTwice(fs, st, k, es + [xs[0]], es + xs);
        Unpacked(fs, st1, k, es + [xs[0]], xs[1..], t);
        assert es + [xs[0]] + xs[1..] == es + xs;
        if xs[1..] == [] {
          assert es + xs == es + [xs[0]];
        }
      }
    }
  }

  lemma NumberTrip(f: Field, v: Val)
    requires FieldOk(f) && Packable(f) && ValOk(f, v) && EncVal(f, v).Some?
    ensures DecVal(f, DefaultVal(f), EncVal(f, v).value) == Done(v, |EncVal(f, v).value|)
  {
    hide DecScalar, Varint, DefaultVal, LittleEndian, Zigzag, Unsigned, Signed;
    NumberSize(f, v);
    ScalarRoundTrip(f, v, []);
    assert EncVal(f, v).value + [] == EncVal(f, v).value;
  }

  lemma NumberSize(f: Field, v: Val)
    requires Packable(f) && EncVal(f, v).Some?
    ensures |EncVal(f, v).value| <= 10
  {
    hide Varint, Zigzag, LittleEndian;
    if f.ltype == LSVarint {
      VarintSize(Zigzag(Signed(v.n, 8)));
    } else if f.ltype != LFixed32 && f.ltype != LFixed64 {
      Unsigned64(v.n);
      VarintSize(Unsigned(v.n, 8));
    }
  }

  lemma Unsigned64(n: int)
    ensures Unsigned(n, 8) < 0x1_0000_0000_0000_0000
  {
  }

  /**
   One packed block of the values xs and the same values one by one leave the same state, on any
   array with a count that holds es and has the room; without the room both are refused.
   */
  lemma PackedEqualsUnpacked(fs: seq<Field>, st: State, k: nat, es: seq<Val>, xs: seq<Val>, t: seq<Byte>)
    requires |st.msg| == |fs| && FieldsOk(fs) && k < |fs|
    requires fs[k].htype == Repeated && fs[k].sizeOffset != 0 && Packable(fs[k])
    requires st.msg[k] == Rep(es) && |es| <= fs[k].arraySize
    requires forall i :: 0 <= i < |xs| ==> ValOk(fs[k], xs[i])
    requires EncItems(fs[k], xs).Some? && |EncItems(fs[k], xs).value| < 0x1_0000_0000
    requires EncTaggedItems(fs[k], xs).Some?
    ensures var packed := TagBytes(WT_STRING, fs[k].tag) + LenPrefixed(EncItems(fs[k], xs).value);
            var single := EncTaggedItems(fs[k], xs).value;
            var after := st.(msg := st.msg[k := Rep(es + xs)]);
            if |es| + |xs| <= fs[k].arraySize then
              && DecLoop(fs, st, packed + t) == Shift(|packed|, DecLoop(fs, after, t))
              && DecLoop(fs, st, single + t) == Shift(|single|, DecLoop(fs, after, t))
            else DecLoop(fs, st, packed + t) == DecLoop(fs, st, single + t) == RunFail
  {
    hide DecLoop, EncItems, EncTaggedItems, TagBytes, LenPrefixed, ValOk, FieldOk;
    PackedStep(fs, st, k, es, xs, t);
    Unpacked(fs, st, k, es, xs, t);
    if xs == [] {
      assert es + xs == es;
      assert st.msg[k := Rep(es)] == st.msg;
    }
  }
}
