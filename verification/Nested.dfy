/** A submessage that comes twice: merged outside one-ofs, replaced inside them, two elements of an array. */
module Nested {
  import opened Bits
  import opened Outcomes
  import opened Descriptor
  import opened EncodeSpec
  import opened DecodeSpec
  import opened Scalars
  import opened Prefix
  import opened Chunks
  import opened Merge

  /** One occurrence of a submessage field: its key, and the submessage's bytes behind their length. */
  function Occurrence(f: Field, p: seq<Byte>): seq<Byte> {
    TagBytes(WT_STRING, f.tag) + LenPrefixed(p)
  }

  /** Entry k is a submessage. */
  predicate Nests(fs: seq<Field>, k: nat) {
    k < |fs| && fs[k].ltype == LSubmessage && fs[k].ptr.Sub?
  }

  /** The slot of a required or optional submessage holds the struct m, set or not. */
  predicate HoldsStruct(f: Field, slot: Slot, m: seq<Slot>) {
    if f.htype == Required || f.sizeOffset == 0 then slot == Single(Msg(m)) else slot.Opt? && slot.v == Msg(m)
  }

  /** The state once entry k has received the struct m. */
  function Received(fs: seq<Field>, st: State, k: nat, m: seq<Slot>): (r: State)
    requires k < |fs| == |st.msg|
    ensures |r.msg| == |fs|
  {
    var slot := if fs[k].htype == Required || fs[k].sizeOffset == 0 then Single(Msg(m)) else Opt(true, Msg(m));
    State(st.msg[k := slot], st.seen + (if fs[k].htype == Required then {k} else {}), st.fixed, st.fixedCount)
  }

  /** What the bytes of a submessage make of the struct they are decoded into. */
  lemma StructRead(f: Field, before: Val, p: seq<Byte>, t: seq<Byte>)
    requires f.ltype == LSubmessage && f.ptr.Sub? && |p| < TWO_32
    requires f.htype != Repeated && before.Msg? && |before.slots| == |f.ptr.fields|
    ensures DecVal(f, before, LenPrefixed(p) + t)
         == match DecMsg(f.ptr.fields, before.slots, p)
            case Fail => Fail
            case Done(m, _) => Done(Msg(m), |LenPrefixed(p)|)
  {
    hide DecMsg, LenPrefixed, Varints.ReadVarint32, Varints.Varint, ReadBlob;
    PrefixBytes(p, t);
  }

  /** A length prefix, and exactly the bytes behind it. */
  lemma PrefixBytes(p: seq<Byte>, t: seq<Byte>)
    requires |p| < TWO_32
    ensures var s := LenPrefixed(p) + t;
            var n := |LenPrefixed(p)| - |p|;
            Varints.ReadVarint32(s) == Done(|p|, n) && 0 <= n && n + |p| <= |s| && s[n..n + |p|] == p
  {
    hide Varints.ReadVarint32, Varints.Varint;
    var key := Varints.Varint(|p|);
    assert LenPrefixed(p) + t == key + (p + t);
    LengthRoundTrip(|p|, p + t);
  }

  /** One occurrence of a required or optional submessage goes on in the struct that is there. */
  lemma OneOccurrence(fs: seq<Field>, st: State, k: nat, m: seq<Slot>, p: seq<Byte>, t: seq<Byte>)
    requires FieldsOk(fs) && |st.msg| == |fs| && Nests(fs, k) && fs[k].htype in {Required, Optional} && |p| < TWO_32
    requires HoldsStruct(fs[k], st.msg[k], m) && |m| == |fs[k].ptr.fields|
    ensures DecLoop(fs, st, Occurrence(fs[k], p) + t)
         == match DecMsg(fs[k].ptr.fields, m, p)
            case Fail => RunFail
            case Done(m1, _) => Shift(|Occurrence(fs[k], p)|, DecLoop(fs, Received(fs, st, k, m1), t))
  {
    hide DecMsg, DecVal, DecLoop, LenPrefixed, TagBytes, FieldsOk, DefaultVal;
    var f := fs[k];
    SlotOfIdempotent(fs, k);
    var payload := LenPrefixed(p);
    StructRead(f, Msg(m), p, []);
    StructRead(f, Msg(m), p, t);
    assert payload + [] == payload;
    match DecMsg(f.ptr.fields, m, p)
    case Fail =>
      assert DecEntry(fs, st, k, WT_STRING, payload + t).Fail?;
      ChunkFails(fs, st, k, WT_STRING, payload + t);
      assert TagBytes(WT_STRING, f.tag) + payload + t == TagBytes(WT_STRING, f.tag) + (payload + t);
    case Done(m1, _) =>
      SingleEntryStep(fs, st, k, payload, Msg(m1), t);
      assert st.seen + {} == st.seen;
  }

  lemma TwoPieces(a: seq<Byte>, b: seq<Byte>, t: seq<Byte>)
    ensures a + b + t == a + (b + t)
  {
  }

  /**
   A required or optional submessage that comes twice is merged: two occurrences leave the state that one
   occurrence with the bytes of both leaves. They are accepted exactly when each decodes; the one
   occurrence is, unless a fixed-count array that ends the first begins the second.
   */
  lemma SubmessagesMerge(fs: seq<Field>, st: State, k: nat, m: seq<Slot>, p: seq<Byte>, q: seq<Byte>, t: seq<Byte>)
    requires FieldsOk(fs) && |st.msg| == |fs| && Nests(fs, k) && fs[k].htype in {Required, Optional} && |p| + |q| < TWO_32
    requires HoldsStruct(fs[k], st.msg[k], m) && |m| == |fs[k].ptr.fields|
    requires var sub := fs[k].ptr.fields; DecMsg(sub, m, p).Done? && !DecLoop(sub, Start(m), p).stopped
    ensures var sub, once, twice := fs[k].ptr.fields, Occurrence(fs[k], p + q), Occurrence(fs[k], p) + Occurrence(fs[k], q);
            var second := DecMsg(sub, DecMsg(sub, m, p).val, q);
            && (second.Fail? ==> DecLoop(fs, st, twice + t) == RunFail)
            && (second.Done? ==>
                  && DecLoop(fs, st, twice + t) == Shift(|twice|, DecLoop(fs, Received(fs, st, k, second.val), t))
                  && DecLoop(fs, st, once + t)
                     == if Resumes(sub, m, p, q) then RunFail
                        else Shift(|once|, DecLoop(fs, Received(fs, st, k, second.val), t)))
  {
    hide DecMsg, DecLoop, Occurrence, FieldsOk, Resumes;
    var f, sub := fs[k], fs[k].ptr.fields;
    var m1 := DecMsg(sub, m, p).val;
    var st1 := Received(fs, st, k, m1);
    TwoPieces(Occurrence(f, p), Occurrence(f, q), t);
    OneOccurrence(fs, st, k, m, p, Occurrence(f, q) + t);
    OneOccurrence(fs, st1, k, m1, q, t);
    OneOccurrence(fs, st, k, m, p + q, t);
    if DecMsg(sub, m1, q).Done? {
      var m2 := DecMsg(sub, m1, q).val;
      ReceivedTwice(fs, st, k, m1, m2);
      ConcatDecodesExactly(sub, m, p, q);
      if !Resumes(sub, m, p, q) {
        MessagesMerge(sub, m, p, q);
      }
    }
  }

  lemma ReceivedTwice(fs: seq<Field>, st: State, k: nat, m1: seq<Slot>, m2: seq<Slot>)
    requires k < |fs| == |st.msg|
    ensures Received(fs, Received(fs, st, k, m1), k, m2) == Received(fs, st, k, m2)
  {
    var more: set<nat> := if fs[k].htype == Required then {k} else {};
    assert st.seen + more + more == st.seen + more;
  }

  /** The one occurrence also takes a second half that lacks required fields which the first has. */
  lemma JoinedNeedsLess(fs: seq<Field>, st: State, k: nat, m: seq<Slot>, p: seq<Byte>, q: seq<Byte>, t: seq<Byte>)
    requires FieldsOk(fs) && |st.msg| == |fs| && Nests(fs, k) && fs[k].htype in {Required, Optional} && |p| + |q| < TWO_32
    requires HoldsStruct(fs[k], st.msg[k], m) && |m| == |fs[k].ptr.fields|
    requires var sub := fs[k].ptr.fields;
             DecMsg(sub, m, p).Done? && !DecLoop(sub, Start(m), p).stopped && !Resumes(sub, m, p, q)
    ensures var sub := fs[k].ptr.fields;
            var rest := DecLoop(sub, Start(DecMsg(sub, m, p).val), q);
            DecLoop(fs, st, Occurrence(fs[k], p + q) + t)
            == if rest.Ran? && FixedDone(sub, rest.st)
               then Shift(|Occurrence(fs[k], p + q)|, DecLoop(fs, Received(fs, st, k, rest.st.msg), t))
               else RunFail
  {
    hide DecLoop, Occurrence, FieldsOk, Resumes, FixedDone;
    OneOccurrence(fs, st, k, m, p + q, t);
    ConcatIsMerge(fs[k].ptr.fields, m, p, q);
    MessagesMerge(fs[k].ptr.fields, m, p, q);
  }

  /** A zero key inside the first half hides the second, when they are joined. */
  lemma ZeroKeyHidesRest(fs: seq<Field>, st: State, k: nat, m: seq<Slot>, p: seq<Byte>, q: seq<Byte>, t: seq<Byte>)
    requires FieldsOk(fs) && |st.msg| == |fs| && Nests(fs, k) && fs[k].htype in {Required, Optional} && |p| + |q| < TWO_32
    requires HoldsStruct(fs[k], st.msg[k], m) && |m| == |fs[k].ptr.fields|
    requires var sub := fs[k].ptr.fields; DecMsg(sub, m, p).Done? && DecLoop(sub, Start(m), p).stopped
    ensures DecLoop(fs, st, Occurrence(fs[k], p + q) + t)
         == Shift(|Occurrence(fs[k], p + q)|, DecLoop(fs, Received(fs, st, k, DecMsg(fs[k].ptr.fields, m, p).val), t))
  {
    hide DecLoop, Occurrence, FieldsOk;
    OneOccurrence(fs, st, k, m, p + q, t);
    LoopStopped(fs[k].ptr.fields, Start(m), p, q);
  }

  // ----- one-ofs and arrays -----

  /** Of two occurrences of a one-of's submessage only the second counts, decoded into a fresh struct. */
  lemma OneofReplaces(fs: seq<Field>, st: State, k: nat, p: seq<Byte>, q: seq<Byte>, t: seq<Byte>)
    requires FieldsOk(fs) && |st.msg| == |fs| && Nests(fs, k) && fs[k].htype == Oneof && |p| < TWO_32 && |q| < TWO_32
    ensures var sub, twice := fs[k].ptr.fields, Occurrence(fs[k], p) + Occurrence(fs[k], q);
            DecLoop(fs, st, twice + t)
            == if DecMsg(sub, Defaults(sub), p).Fail? || DecMsg(sub, Defaults(sub), q).Fail? then RunFail
               else
                 var last := Union(fs[k].tag, Msg(DecMsg(sub, Defaults(sub), q).val));
                 Shift(|twice|, DecLoop(fs, st.(msg := st.msg[SlotOf(fs, k) := last]), t))
  {
    hide DecMsg, DecLoop, Occurrence, FieldsOk, Defaults;
    var f, sub, j := fs[k], fs[k].ptr.fields, SlotOf(fs, k);
    TwoPieces(Occurrence(f, p), Occurrence(f, q), t);
    OneMember(fs, st, k, p, Occurrence(f, q) + t);
    if DecMsg(sub, Defaults(sub), p).Done? {
      var first := Union(f.tag, Msg(DecMsg(sub, Defaults(sub), p).val));
      OneMember(fs, st.(msg := st.msg[j := first]), k, q, t);
      if DecMsg(sub, Defaults(sub), q).Done? {
        var last := Union(f.tag, Msg(DecMsg(sub, Defaults(sub), q).val));
        assert st.msg[j := first][j := last] == st.msg[j := last];
      }
    }
  }

  lemma OneMember(fs: seq<Field>, st: State, k: nat, p: seq<Byte>, t: seq<Byte>)
    requires FieldsOk(fs) && |st.msg| == |fs| && Nests(fs, k) && fs[k].htype == Oneof && |p| < TWO_32
    ensures var sub := fs[k].ptr.fields;
            DecLoop(fs, st, Occurrence(fs[k], p) + t)
            == match DecMsg(sub, Defaults(sub), p)
               case Fail => RunFail
               case Done(m, _) =>
                 Shift(|Occurrence(fs[k], p)|, DecLoop(fs, st.(msg := st.msg[SlotOf(fs, k) := Union(fs[k].tag, Msg(m))]), t))
  {
    hide DecMsg, DecVal, DecLoop, LenPrefixed, TagBytes, FieldsOk, Defaults, SlotOf;
    var f, sub := fs[k], fs[k].ptr.fields;
    var payload := LenPrefixed(p);
    assert DefaultVal(f) == Msg(Defaults(sub));
    StructRead(f, DefaultVal(f), p, []);
    StructRead(f, DefaultVal(f), p, t);
    assert payload + [] == payload;
    match DecMsg(sub, Defaults(sub), p)
    case Fail =>
      assert DecEntry(fs, st, k, WT_STRING, payload + t).Fail?;
      ChunkFails(fs, st, k, WT_STRING, payload + t);
      assert TagBytes(WT_STRING, f.tag) + payload + t == TagBytes(WT_STRING, f.tag) + (payload + t);
    case Done(m1, _) => SingleEntryStep(fs, st, k, payload, Msg(m1), t);
  }

  /** Each occurrence in an array is an element of its own, decoded into a fresh struct, as long as there is room. */
  lemma ArrayAppends(fs: seq<Field>, st: State, k: nat, es: seq<Val>, p: seq<Byte>, t: seq<Byte>)
    requires FieldsOk(fs) && |st.msg| == |fs| && Nests(fs, k) && |p| < TWO_32
    requires fs[k].htype == Repeated && fs[k].sizeOffset != 0 && st.msg[k] == Rep(es)
    ensures var sub := fs[k].ptr.fields;
            var p' := DecMsg(sub, Defaults(sub), p);
            DecLoop(fs, st, Occurrence(fs[k], p) + t)
            == if |es| >= fs[k].arraySize || p'.Fail? then RunFail
               else Shift(|Occurrence(fs[k], p)|, DecLoop(fs, st.(msg := st.msg[k := Rep(es + [Msg(p'.val)])]), t))
  {
    hide DecMsg, DecLoop, LenPrefixed, TagBytes, FieldsOk, Defaults;
    var f, sub := fs[k], fs[k].ptr.fields;
    var payload := LenPrefixed(p);
    ElementRead(f, p, []);
    ElementRead(f, p, t);
    hide DecVal;
    assert payload + [] == payload;
    assert TagBytes(WT_STRING, f.tag) + payload + t == TagBytes(WT_STRING, f.tag) + (payload + t);
    if |es| >= f.arraySize {
      ElementOverflow(fs, st, k, es, payload + t);
    } else if DecMsg(sub, Defaults(sub), p).Fail? {
      ArrayEntry(fs, st, k, es, WT_STRING, payload + t);
      ChunkFails(fs, st, k, WT_STRING, payload + t);
    } else {
      ElementStep(fs, st, k, es, payload, Msg(DecMsg(sub, Defaults(sub), p).val), t);
    }
  }

  lemma ElementRead(f: Field, p: seq<Byte>, t: seq<Byte>)
    requires f.ltype == LSubmessage && f.ptr.Sub? && |p| < TWO_32 && f.htype == Repeated
    ensures var sub := f.ptr.fields;
            DecVal(f, DefaultVal(f), LenPrefixed(p) + t)
            == match DecMsg(sub, Defaults(sub), p)
               case Fail => Fail
               case Done(m, _) => Done(Msg(m), |LenPrefixed(p)|)
  {
    hide DecMsg, LenPrefixed, Varints.ReadVarint32, Varints.Varint, Defaults;
    PrefixBytes(p, t);
  }
}
