/** Decoding concatenated messages merges them, except where a fixed-count array is resumed. */
module Merge {
  import opened Bits
  import opened Outcomes
  import opened Varints
  import opened Descriptor
  import opened DecodeSpec
  import opened Prefix

  // ----- the seen set only grows, and decoding does not look at it -----

  function AddSeen(st: State, more: set<nat>): State {
    st.(seen := st.seen + more)
  }

  function AddSeenRun(r: Run, more: set<nat>): Run {
    if r.Ran? then r.(st := AddSeen(r.st, more)) else RunFail
  }

  lemma OneAddSeen(fs: seq<Field>, st: State, more: set<nat>, tag: nat, wt: nat, s: seq<Byte>)
    requires |st.msg| == |fs|
    ensures DecOne(fs, AddSeen(st, more), tag, wt, s)
         == match DecOne(fs, st, tag, wt, s)
            case Fail => Fail
            case Done(st', n) => Done(AddSeen(st', more), n)
  {
    hide DecField, Skip, FindField, SlotOf;
    match FindField(fs, tag)
    case None =>
    case Some(i) => assert st.seen + more + {i} == st.seen + {i} + more;
  }

  lemma {:induction false} LoopAddSeen(fs: seq<Field>, st: State, more: set<nat>, s: seq<Byte>)
    requires |st.msg| == |fs|
    ensures DecLoop(fs, AddSeen(st, more), s) == AddSeenRun(DecLoop(fs, st, s), more)
    decreases |s|
  {
    hide DecOne, ReadKey;
    if s != [] && ReadKey(s).Key? {
      var Key(tag, wt, n) := ReadKey(s);
      OneAddSeen(fs, st, more, tag, wt, s[n..]);
      match DecOne(fs, st, tag, wt, s[n..])
      case Fail =>
      case Done(st', k) => LoopAddSeen(fs, st', more, s[n + k..]);
    }
  }

  // ----- fixed-count arrays: which one a run meets first -----

  /** The fixed-count array that the loop reaches first, if any. */
  function FirstFixed(fs: seq<Field>, st: State, s: seq<Byte>): Option<nat>
    requires |st.msg| == |fs|
    decreases |s|
  {
    if s == [] then None
    else
      match ReadKey(s)
      case BadKey => None
      case EndKey(_) => None
      case Key(tag, wt, n) =>
        var i := FindField(fs, tag);
        if i.Some? && FixedArray(fs[i.value]) then i
        else
          match DecOne(fs, st, tag, wt, s[n..])
          case Fail => None
          case Done(st', k) => FirstFixed(fs, st', s[n + k..])
  }

  function Retrack(st: State, fixed: Option<nat>, count: nat): State {
    st.(fixed := fixed, fixedCount := count)
  }

  /** A field that is not a fixed-count array leaves the tracking alone. */
  lemma OneRetrack(fs: seq<Field>, st: State, fixed: Option<nat>, count: nat, tag: nat, wt: nat, s: seq<Byte>)
    requires |st.msg| == |fs|
    requires FindField(fs, tag).Some? ==> !FixedArray(fs[FindField(fs, tag).value])
    ensures DecOne(fs, Retrack(st, fixed, count), tag, wt, s)
         == match DecOne(fs, st, tag, wt, s)
            case Fail => Fail
            case Done(st', n) => Done(Retrack(st', fixed, count), n)
    ensures DecOne(fs, st, tag, wt, s).Done? ==>
            var st' := DecOne(fs, st, tag, wt, s).val; st'.fixed == st.fixed && st'.fixedCount == st.fixedCount
  {
    hide DecField, Skip, FindField, SlotOf;
    match FindField(fs, tag)
    case None =>
    case Some(k) => FieldCountIdle(fs[k], MarkSeen(fs, st, k).msg[SlotOf(fs, k)], st.fixedCount, count, wt, s);
  }

  lemma FieldCountIdle(f: Field, slot: Slot, count: nat, count': nat, wt: nat, s: seq<Byte>)
    requires !FixedArray(f)
    ensures DecField(f, Entry(slot, count'), wt, s)
         == match DecField(f, Entry(slot, count), wt, s)
            case Fail => Fail
            case Done(e, n) => Done(Entry(e.slot, count'), n)
    ensures DecField(f, Entry(slot, count), wt, s).Done? ==> DecField(f, Entry(slot, count), wt, s).val.fixedCount == count
  {
  }

  /** No array is tracked, or a full one that is not the first the run meets. */
  predicate Harmless(fs: seq<Field>, st: State, fixed: Option<nat>, count: nat, s: seq<Byte>)
    requires |st.msg| == |fs|
  {
    fixed.Some? ==>
      && fixed.value < |fs|
      && count == fs[fixed.value].arraySize
      && (FirstFixed(fs, st, s) != fixed || fs[fixed.value].arraySize == 0)
  }

  /**
   Going on after a full array, instead of starting afresh, makes no difference to a run that
   begins its fixed-count arrays with another one.
   */
  lemma {:induction false} LoopRetrack(fs: seq<Field>, st: State, fixed: Option<nat>, count: nat, s: seq<Byte>)
    requires |st.msg| == |fs| && st.fixed == None && Harmless(fs, st, fixed, count, s)
    ensures var r, r' := DecLoop(fs, st, s), DecLoop(fs, Retrack(st, fixed, count), s);
            && (r.RunFail? ==> r' == RunFail)
            && (r.Ran? ==> r' == r.(st := if r.st.fixed == None then Retrack(r.st, fixed, count) else r.st))
    decreases |s|
  {
    hide DecOne, DecLoop, ReadKey, FindField, FixedArray;
    var other := Retrack(st, fixed, count);
    if s == [] {
      LoopAtEnd(fs, st, s);
      LoopAtEnd(fs, other, s);
      return;
    }
    RoundFails(fs, st, s);
    RoundFails(fs, other, s);
    if ReadKey(s).Key? {
      var Key(tag, wt, n) := ReadKey(s);
      var k, p := FindField(fs, tag), DecOne(fs, st, tag, wt, s[n..]);
      var first := k.Some? && FixedArray(fs[k.value]);
      if first {
        OneFixedSame(fs, st, fixed, count, tag, wt, s[n..]);
      } else {
        OneRetrack(fs, st, fixed, count, tag, wt, s[n..]);
      }
      if p.Done? {
        var rest := s[n..][p.n..];
        assert rest == s[n + p.n..];
        RoundGoesOn(fs, st, s, p.val, p.n);
        RoundGoesOn(fs, other, s, if first then p.val else Retrack(p.val, fixed, count), p.n);
        if first {
          FixedStays(fs, p.val, rest);
        } else {
          LoopRetrack(fs, p.val, fixed, count, rest);
        }
      }
    }
  }

  lemma OneFixedSame(fs: seq<Field>, st: State, fixed: Option<nat>, count: nat, tag: nat, wt: nat, s: seq<Byte>)
    requires |st.msg| == |fs| && st.fixed == None
    requires FindField(fs, tag).Some? && FixedArray(fs[FindField(fs, tag).value])
    requires fixed.Some? ==>
      && fixed.value < |fs| && count == fs[fixed.value].arraySize
      && (FindField(fs, tag) != fixed || fs[fixed.value].arraySize == 0)
    ensures DecOne(fs, Retrack(st, fixed, count), tag, wt, s) == DecOne(fs, st, tag, wt, s)
    ensures DecOne(fs, st, tag, wt, s).Done? ==> DecOne(fs, st, tag, wt, s).val.fixed.Some?
  {
  }

  /** Once a fixed-count array has begun, some array is always tracked. */
  lemma {:induction false} FixedStays(fs: seq<Field>, st: State, s: seq<Byte>)
    requires |st.msg| == |fs| && st.fixed.Some?
    ensures DecLoop(fs, st, s).Ran? ==> DecLoop(fs, st, s).st.fixed.Some?
    decreases |s|
  {
    hide DecOne, ReadKey;
    if s != [] && ReadKey(s).Key? {
      var Key(tag, wt, n) := ReadKey(s);
      OneFixedStays(fs, st, tag, wt, s[n..]);
      match DecOne(fs, st, tag, wt, s[n..])
      case Fail =>
      case Done(st', m) => FixedStays(fs, st', s[n + m..]);
    }
  }

  lemma OneFixedStays(fs: seq<Field>, st: State, tag: nat, wt: nat, s: seq<Byte>)
    requires |st.msg| == |fs| && st.fixed.Some?
    ensures DecOne(fs, st, tag, wt, s).Done? ==> DecOne(fs, st, tag, wt, s).val.fixed.Some?
  {
  }

  /** A full array takes nothing but empty packed blocks. */
  lemma FullArrayRefuses(f: Field, items: seq<Val>, wt: nat, s: seq<Byte>)
    requires DecElements(f, Elements(items, f.arraySize), wt, s).Done? && f.arraySize > 0
    ensures var n := DecElements(f, Elements(items, f.arraySize), wt, s).n;
            && DecElements(f, Elements(items, f.arraySize), wt, s) == Done(Elements(items, f.arraySize), n)
            && DecElements(f, Elements(items, 0), wt, s) == Done(Elements(items, 0), n)
  {
  }

  /** One step on array i, begun afresh or continued when full. */
  lemma OneFixedFull(fs: seq<Field>, st: State, i: nat, tag: nat, wt: nat, s: seq<Byte>)
    requires |st.msg| == |fs| && i < |fs| && fs[i].arraySize > 0
    requires st.fixed == None || (st.fixed == Some(i) && st.fixedCount == 0)
    requires FindField(fs, tag) == Some(i) && FixedArray(fs[i])
    ensures var full := DecOne(fs, Retrack(st, Some(i), fs[i].arraySize), tag, wt, s);
            full.Done? ==>
              && full.val == Retrack(full.val, Some(i), fs[i].arraySize)
              && DecOne(fs, st, tag, wt, s) == Done(Retrack(full.val, Some(i), 0), full.n)
  {
    hide DecElements, Skip, FindField, SlotOf;
    var slot, full := st.msg[SlotOf(fs, i)], fs[i].arraySize;
    assert Track(fs, st, i) == Some(Retrack(st, Some(i), 0));
    assert DecEntry(fs, Retrack(st, Some(i), full), i, wt, s)
        == match DecField(fs[i], Entry(slot, full), wt, s)
           case Fail => Fail
           case Done(e, n) => Done(Retrack(st, Some(i), e.fixedCount).(msg := st.msg[SlotOf(fs, i) := e.slot]), n);
    assert DecEntry(fs, st, i, wt, s)
        == match DecField(fs[i], Entry(slot, 0), wt, s)
           case Fail => Fail
           case Done(e, n) => Done(Retrack(st, Some(i), e.fixedCount).(msg := st.msg[SlotOf(fs, i) := e.slot]), n);
    if slot.Fixed? && DecElements(fs[i], Elements(slot.items, fs[i].arraySize), wt, s).Done? {
      FullArrayRefuses(fs[i], slot.items, wt, s);
    }
  }

  lemma OneFixedOther(fs: seq<Field>, st: State, i: nat, tag: nat, wt: nat, s: seq<Byte>)
    requires |st.msg| == |fs| && i < |fs| && fs[i].arraySize > 0
    requires st.fixed == Some(i) && st.fixedCount == 0
    requires FindField(fs, tag).Some? && FindField(fs, tag) != Some(i) && FixedArray(fs[FindField(fs, tag).value])
    ensures DecOne(fs, st, tag, wt, s).Fail?
  {
  }

  /** A run that still owes all elements of array i cannot both succeed that way and go on from a full array i. */
  lemma {:induction false} LoopResumeFails(fs: seq<Field>, st: State, i: nat, s: seq<Byte>)
    requires |st.msg| == |fs| && i < |fs| && fs[i].arraySize > 0 && FixedArray(fs[i])
    requires (st.fixed == Some(i) && st.fixedCount == 0) || (st.fixed == None && FirstFixed(fs, st, s) == Some(i))
    requires DecLoop(fs, st, s).Ran? && FixedDone(fs, DecLoop(fs, st, s).st)
    ensures DecLoop(fs, Retrack(st, Some(i), fs[i].arraySize), s) == RunFail
    decreases |s|
  {
    hide DecOne, DecLoop, ReadKey, FindField, FixedArray;
    var full := Retrack(st, Some(i), fs[i].arraySize);
    if s == [] {
      LoopAtEnd(fs, st, s);
      return;
    }
    RoundFails(fs, st, s);
    RoundFails(fs, full, s);
    var Key(tag, wt, n) := ReadKey(s);
    var k, p, q := FindField(fs, tag), DecOne(fs, st, tag, wt, s[n..]), DecOne(fs, full, tag, wt, s[n..]);
    var rest := s[n..][p.n..];
    assert rest == s[n + p.n..];
    RoundGoesOn(fs, st, s, p.val, p.n);
    if k.None? || !FixedArray(fs[k.value]) {
      OneRetrack(fs, st, Some(i), fs[i].arraySize, tag, wt, s[n..]);
    } else if k != Some(i) {
      OneFixedOther(fs, st, i, tag, wt, s[n..]);
    } else {
      OneFixedFull(fs, st, i, tag, wt, s[n..]);
    }
    if q.Done? {
      RoundGoesOn(fs, full, s, Retrack(p.val, Some(i), fs[i].arraySize), p.n);
      LoopResumeFails(fs, p.val, i, rest);
    }
  }

  // ----- concatenation is merge -----

  /** The array whose second beginning the decoder cannot tell from overlong first data. */
  predicate Resumes(fs: seq<Field>, m: seq<Slot>, a: seq<Byte>, b: seq<Byte>)
    requires |m| == |fs|
  {
    var r := DecLoop(fs, Start(m), a);
    && r.Ran? && r.st.fixed.Some?
    && FirstFixed(fs, Start(r.st.msg), b) == r.st.fixed
    && r.st.fixed.value < |fs| && fs[r.st.fixed.value].arraySize > 0
  }

  /**
   When the fields of a decode to its end, decoding a ++ b in one go is decoding the fields of a, then
   those of b into the result without resetting it; the required fields may be spread over the two.
   The only exception is a fixed-count array that ends a and also begins b.
   */
  lemma ConcatIsMerge(fs: seq<Field>, m: seq<Slot>, a: seq<Byte>, b: seq<Byte>)
    requires |m| == |fs|
    requires var ra := DecLoop(fs, Start(m), a); ra.Ran? && !ra.stopped && FixedDone(fs, ra.st)
    requires !Resumes(fs, m, a, b)
    ensures var ra := DecLoop(fs, Start(m), a);
            var rb := DecLoop(fs, Start(ra.st.msg), b);
            var merged := rb.Ran? && FixedDone(fs, rb.st) && AllSeen(fs, ra.st.seen + rb.st.seen);
            DecMsg(fs, m, a + b) == (if merged then Done(rb.st.msg, |a| + rb.n) else Fail)
  {
    hide DecLoop, FirstFixed;
    var ra := DecLoop(fs, Start(m), a);
    var rb := DecLoop(fs, Start(ra.st.msg), b);
    LoopAppend(fs, Start(m), a, b);
    LoopAddSeen(fs, Retrack(Start(ra.st.msg), ra.st.fixed, ra.st.fixedCount), ra.st.seen, b);
    assert AddSeen(Retrack(Start(ra.st.msg), ra.st.fixed, ra.st.fixedCount), ra.st.seen) == ra.st;
    LoopRetrack(fs, Start(ra.st.msg), ra.st.fixed, ra.st.fixedCount, b);
    if rb.Ran? {
      assert rb.st.seen + ra.st.seen == ra.st.seen + rb.st.seen;
    }
  }

  /** Of two messages, the second then need not repeat the required fields. */
  lemma MessagesMerge(fs: seq<Field>, m: seq<Slot>, a: seq<Byte>, b: seq<Byte>)
    requires |m| == |fs|
    requires DecMsg(fs, m, a).Done? && !DecLoop(fs, Start(m), a).stopped
    requires !Resumes(fs, m, a, b)
    ensures var m1 := DecMsg(fs, m, a).val;
            && (DecMsg(fs, m1, b).Done? ==>
                  DecMsg(fs, m, a + b) == Done(DecMsg(fs, m1, b).val, |a| + DecMsg(fs, m1, b).n))
            && (DecMsg(fs, m, a + b).Done? <==>
                  DecLoop(fs, Start(m1), b).Ran? && FixedDone(fs, DecLoop(fs, Start(m1), b).st))
  {
    hide DecLoop, FirstFixed, Resumes, FixedDone;
    ConcatIsMerge(fs, m, a, b);
  }

  /**
   Of two pieces that decode one after the other, the concatenation decodes exactly when the
   fixed-count array that ends the first does not begin the second.
   */
  lemma ConcatDecodesExactly(fs: seq<Field>, m: seq<Slot>, a: seq<Byte>, b: seq<Byte>)
    requires |m| == |fs|
    requires DecMsg(fs, m, a).Done? && !DecLoop(fs, Start(m), a).stopped
    requires DecMsg(fs, DecMsg(fs, m, a).val, b).Done?
    ensures DecMsg(fs, m, a + b).Done? <==> !Resumes(fs, m, a, b)
  {
    hide DecLoop;
    if Resumes(fs, m, a, b) {
      var ra := DecLoop(fs, Start(m), a);
      var i := ra.st.fixed.value;
      LoopAppend(fs, Start(m), a, b);
      LoopAddSeen(fs, Retrack(Start(ra.st.msg), Some(i), fs[i].arraySize), ra.st.seen, b);
      assert AddSeen(Retrack(Start(ra.st.msg), Some(i), fs[i].arraySize), ra.st.seen) == ra.st;
      FirstFixedArray(fs, Start(ra.st.msg), b);
      LoopResumeFails(fs, Start(ra.st.msg), i, b);
    } else {
      MessagesMerge(fs, m, a, b);
    }
  }

  lemma ReadFive(f: Field)
    requires f.ltype == LVarint && f.dataSize == 8
    ensures ReadInt(f, [5]) == Done(Num(5), 1)
  {
    assert [5][..1] == [5] && [5][1..] == [];
    assert Base128([5]) == 5;
  }

  lemma FiveElements(f: Field, items: seq<Val>)
    requires f == Field(1, LVarint, Repeated, Static, 0, 0, 8, 1, Null) && (items == [] || items == [Num(5)])
    ensures DecElements(f, Elements(items, 0), 0, [5]) == Done(Elements([Num(5)], 1), 1)
  {
    hide ReadInt;
    ReadFive(f);
    assert WriteAt(items, 0, Num(5)) == [Num(5)];
  }

  /** The byte of one element, read into an array of one. */
  lemma OneElementEntry(fs: seq<Field>, m: seq<Slot>)
    requires fs == [Field(1, LVarint, Repeated, Static, 0, 0, 8, 1, Null)]
    requires m == [Fixed([])] || m == [Fixed([Num(5)])]
    ensures DecOne(fs, Start(m), 1, 0, [5]) == Done(State([Fixed([Num(5)])], {}, Some(0), 1), 1)
  {
    hide DecElements;
    FiveElements(fs[0], m[0].items);
    assert FindField(fs, 1) == Some(0) && SlotOf(fs, 0) == 0;
    assert Track(fs, Start(m), 0) == Some(State(m, {}, Some(0), 0));
    assert DecField(fs[0], Entry(m[0], 0), 0, [5]) == Done(Entry(Fixed([Num(5)]), 1), 1);
    assert m[0 := Fixed([Num(5)])] == [Fixed([Num(5)])];
  }

  lemma OneElement(fs: seq<Field>, m: seq<Slot>)
    requires fs == [Field(1, LVarint, Repeated, Static, 0, 0, 8, 1, Null)]
    requires m == [Fixed([])] || m == [Fixed([Num(5)])]
    ensures DecLoop(fs, Start(m), [8, 5]) == Ran(State([Fixed([Num(5)])], {}, Some(0), 1), 2, false)
    ensures FirstFixed(fs, Start(m), [8, 5]) == Some(0)
  {
    var s: seq<Byte> := [8, 5];
    assert ReadKey(s) == Key(1, 0, 1);
    assert FindField(fs, 1) == Some(0);
    hide DecOne, ReadKey, FindField;
    OneElementEntry(fs, m);
    assert s[1..] == [5] && s[1..][1..] == [];
    var st' := State([Fixed([Num(5)])], {}, Some(0), 1);
    RoundGoesOn(fs, Start(m), s, st', 1);
    LoopAtEnd(fs, st', []);
  }

  /** That does happen: an array of one element, sent twice, is refused as one message. */
  lemma FixedArraysDoNotMerge()
    ensures var fs := [Field(1, LVarint, Repeated, Static, 0, 0, 8, 1, Null)];
            var a := [8, 5];
            && FieldsOk(fs)
            && DecMsg(fs, Defaults(fs), a) == Done([Fixed([Num(5)])], 2)
            && DecMsg(fs, [Fixed([Num(5)])], a) == Done([Fixed([Num(5)])], 2)
            && DecMsg(fs, Defaults(fs), a + a) == Fail
  {
    var fs: seq<Field> := [Field(1, LVarint, Repeated, Static, 0, 0, 8, 1, Null)];
    var a: seq<Byte> := [8, 5];
    OneElementTable(fs);
    hide *;
    OneElementMessage(fs, [Fixed([])]);
    OneElementMessage(fs, [Fixed([Num(5)])]);
    ConcatDecodesExactly(fs, [Fixed([])], a, a);
  }

  lemma OneElementMessage(fs: seq<Field>, m: seq<Slot>)
    requires fs == [Field(1, LVarint, Repeated, Static, 0, 0, 8, 1, Null)]
    requires m == [Fixed([])] || m == [Fixed([Num(5)])]
    ensures |m| == |fs| && DecMsg(fs, m, [8, 5]) == Done([Fixed([Num(5)])], 2)
    ensures DecLoop(fs, Start(m), [8, 5]).Ran? && !DecLoop(fs, Start(m), [8, 5]).stopped
    ensures Resumes(fs, m, [8, 5], [8, 5])
  {
    hide DecLoop, FirstFixed;
    OneElement(fs, m);
    OneElement(fs, [Fixed([Num(5)])]);
  }

  lemma OneElementTable(fs: seq<Field>)
    requires fs == [Field(1, LVarint, Repeated, Static, 0, 0, 8, 1, Null)]
    ensures FieldsOk(fs) && Defaults(fs) == [Fixed([])]
  {
    assert StaticField(fs[0]);
    assert ZeroedCount(fs[0]) == 0 && SlotOf(fs, 0) == 0;
    assert |Defaults(fs)| == 1 && Defaults(fs)[0] == DefaultSlot(fs[0]) == Fixed([]);
  }

  lemma {:induction false} FirstFixedArray(fs: seq<Field>, st: State, s: seq<Byte>)
    requires |st.msg| == |fs| && FirstFixed(fs, st, s).Some?
    ensures FirstFixed(fs, st, s).value < |fs| && FixedArray(fs[FirstFixed(fs, st, s).value])
    decreases |s|
  {
    hide DecOne, ReadKey;
    var Key(tag, wt, n) := ReadKey(s);
    var i := FindField(fs, tag);
    if !(i.Some? && FixedArray(fs[i.value])) {
      var Done(st', k) := DecOne(fs, st, tag, wt, s[n..]);
      FirstFixedArray(fs, st', s[n + k..]);
    }
  }

  /** Tables without fixed-count arrays always merge. */
  lemma {:induction false} NoFixedNeverResumes(fs: seq<Field>, m: seq<Slot>, a: seq<Byte>, b: seq<Byte>)
    requires |m| == |fs| && forall i :: 0 <= i < |fs| ==> !FixedArray(fs[i])
    ensures !Resumes(fs, m, a, b)
  {
    hide DecLoop, FirstFixed;
    var r := DecLoop(fs, Start(m), a);
    if r.Ran? && FirstFixed(fs, Start(r.st.msg), b).Some? {
      FirstFixedArray(fs, Start(r.st.msg), b);
    }
  }
}
