/** "Last One Wins": of several occurrences of a field that holds one value, only the last one counts. */
module LastWins {
  import opened Bits
  import opened Outcomes
  import opened Descriptor
  import opened DecodeSpec
  import opened Prefix

  /** p is one complete occurrence of entry i. */
  predicate Occurrence(fs: seq<Field>, st: State, p: seq<Byte>, i: nat)
    requires |st.msg| == |fs|
  {
    && ReadKey(p).Key?
    && FindField(fs, ReadKey(p).tag) == Some(i)
    && DecOne(fs, st, ReadKey(p).tag, ReadKey(p).wt, p[ReadKey(p).n..]).Done?
    && ReadKey(p).n + DecOne(fs, st, ReadKey(p).tag, ReadKey(p).wt, p[ReadKey(p).n..]).n == |p|
  }

  /** The entry holds one value that a new one replaces: no array, and no submessage outside a one-of. */
  predicate Replaceable(f: Field) {
    f.htype != Repeated && (f.ltype == LSubmessage ==> f.htype == Oneof)
  }

  /** The run goes on to a field of slot k, or fails before the end. */
  predicate ComesAgain(fs: seq<Field>, st: State, s: seq<Byte>, k: nat)
    requires |st.msg| == |fs|
    decreases |s|
  {
    s != [] &&
    match ReadKey(s)
    case BadKey => true
    case EndKey(_) => false
    case Key(tag, wt, n) =>
      var j := FindField(fs, tag);
      (j.Some? && SlotOf(fs, j.value) == k) ||
      match DecOne(fs, st, tag, wt, s[n..])
      case Fail => true
      case Done(st', m) => ComesAgain(fs, st', s[n + m..], k)
  }

  /** The states differ in slot k at most, and in whether entry i has been seen. */
  predicate SameBut(st1: State, st: State, k: nat, more: set<nat>) {
    && |st1.msg| == |st.msg| && (forall j :: 0 <= j < |st.msg| && j != k ==> st1.msg[j] == st.msg[j])
    && st1.seen == st.seen + more && st1.fixed == st.fixed && st1.fixedCount == st.fixedCount
  }

  function SeenBy(fs: seq<Field>, i: nat): set<nat>
    requires i < |fs|
  {
    if fs[i].htype == Required then {i} else {}
  }

  lemma FieldReplaces(f: Field, a: Slot, b: Slot, count: nat, wt: nat, s: seq<Byte>)
    requires Replaceable(f)
    ensures DecField(f, Entry(a, count), wt, s) == DecField(f, Entry(b, count), wt, s)
    ensures DecField(f, Entry(a, count), wt, s).Done? ==> DecField(f, Entry(a, count), wt, s).val.fixedCount == count
  {
    hide DecScalar, DefaultVal;
  }

  lemma NoArray(f: Field)
    requires Replaceable(f)
    ensures !FixedArray(f)
  {
  }

  /** A slot is shared only by the members of a one-of. */
  lemma Sharers(fs: seq<Field>, i: nat, j: nat)
    requires i < |fs| && j < |fs| && SlotOf(fs, i) == SlotOf(fs, j) && Replaceable(fs[i])
    ensures Replaceable(fs[j]) && SeenBy(fs, i) <= {j} && (i != j ==> fs[j].htype == Oneof)
  {
    SlotOfIdempotent(fs, i);
    SlotOfIdempotent(fs, j);
  }

  /** One occurrence changes its own slot only. */
  lemma OccurrenceChanges(fs: seq<Field>, st: State, i: nat, wt: nat, p: seq<Byte>)
    requires |st.msg| == |fs| && i < |fs| && Replaceable(fs[i]) && DecEntry(fs, st, i, wt, p).Done?
    ensures SameBut(DecEntry(fs, st, i, wt, p).val, st, SlotOf(fs, i), SeenBy(fs, i))
  {
    hide DecField, SlotOf;
    var slot := MarkSeen(fs, st, i).msg[SlotOf(fs, i)];
    FieldReplaces(fs[i], slot, slot, st.fixedCount, wt, p);
  }

  /** A field of the slot replaces what was in it, so the states become the same. */
  lemma ReplacedBySame(fs: seq<Field>, st1: State, st: State, i: nat, j: nat, wt: nat, s: seq<Byte>)
    requires |st.msg| == |fs| && i < |fs| && j < |fs| && SlotOf(fs, i) == SlotOf(fs, j) && Replaceable(fs[i])
    requires SameBut(st1, st, SlotOf(fs, i), SeenBy(fs, i))
    ensures DecEntry(fs, st1, j, wt, s) == DecEntry(fs, st, j, wt, s)
  {
    Sharers(fs, i, j);
    hide DecField, SlotOf, Replaceable;
    var k := SlotOf(fs, j);
    assert !FixedArray(fs[j]) by { NoArray(fs[j]); }
    hide FixedArray;
    FieldReplaces(fs[j], st1.msg[k], st.msg[k], st.fixedCount, wt, s);
    assert MarkSeen(fs, st1, j).seen == MarkSeen(fs, st, j).seen;
    hide Replaceable, SeenBy;
    match DecField(fs[j], Entry(st.msg[k], st.fixedCount), wt, s)
    case Fail =>
    case Done(e, _) => assert st1.msg[k := e.slot] == st.msg[k := e.slot];
  }

  /** Any other field does the same to both states. */
  lemma EntryKeepsSame(fs: seq<Field>, st1: State, st: State, k: nat, more: set<nat>, j: nat, wt: nat, s: seq<Byte>)
    requires |st.msg| == |fs| && SameBut(st1, st, k, more) && j < |fs| && SlotOf(fs, j) != k
    ensures DecEntry(fs, st, j, wt, s).Fail? ==> DecEntry(fs, st1, j, wt, s).Fail?
    ensures DecEntry(fs, st, j, wt, s).Done? ==>
      var p, p1 := DecEntry(fs, st, j, wt, s), DecEntry(fs, st1, j, wt, s);
      p1.Done? && p1.n == p.n && SameBut(p1.val, p.val, k, more)
  {
    hide DecField, SlotOf, FixedArray;
    assert st.seen + more + {j} == st.seen + {j} + more;
    assert st1.msg[SlotOf(fs, j)] == st.msg[SlotOf(fs, j)];
    assert Track(fs, st, j).Some? <==> Track(fs, st1, j).Some?;
  }

  lemma OthersKeepSame(fs: seq<Field>, st1: State, st: State, k: nat, more: set<nat>, tag: nat, wt: nat, s: seq<Byte>)
    requires |st.msg| == |fs| && SameBut(st1, st, k, more)
    requires FindField(fs, tag).Some? ==> SlotOf(fs, FindField(fs, tag).value) != k
    ensures DecOne(fs, st, tag, wt, s).Fail? ==> DecOne(fs, st1, tag, wt, s).Fail?
    ensures DecOne(fs, st, tag, wt, s).Done? ==>
      var p, p1 := DecOne(fs, st, tag, wt, s), DecOne(fs, st1, tag, wt, s);
      p1.Done? && p1.n == p.n && SameBut(p1.val, p.val, k, more)
  {
    hide DecEntry, Skip, FindField;
    if FindField(fs, tag).Some? {
      EntryKeepsSame(fs, st1, st, k, more, FindField(fs, tag).value, wt, s);
    }
  }

  lemma {:induction false} RunsMeet(fs: seq<Field>, st1: State, st: State, i: nat, s: seq<Byte>)
    requires |st.msg| == |fs| && i < |fs| && Replaceable(fs[i])
    requires SameBut(st1, st, SlotOf(fs, i), SeenBy(fs, i)) && ComesAgain(fs, st, s, SlotOf(fs, i))
    ensures DecLoop(fs, st1, s) == DecLoop(fs, st, s)
    decreases |s|
  {
    hide DecOne, DecLoop, ReadKey, FindField, SameBut, Replaceable, SeenBy;
    assert |st1.msg| == |fs| by { SameLength(st1, st, SlotOf(fs, i), SeenBy(fs, i)); }
    RoundFails(fs, st, s);
    RoundFails(fs, st1, s);
    if ReadKey(s).Key? {
      var Key(tag, wt, n) := ReadKey(s);
      var j := FindField(fs, tag);
      if j.Some? && SlotOf(fs, j.value) == SlotOf(fs, i) {
        ReplacedBySame(fs, st1, st, i, j.value, wt, s[n..]);
        KnownField(fs, st, tag, wt, s[n..]);
        KnownField(fs, st1, tag, wt, s[n..]);
      } else {
        OthersKeepSame(fs, st1, st, SlotOf(fs, i), SeenBy(fs, i), tag, wt, s[n..]);
      }
      match DecOne(fs, st, tag, wt, s[n..])
      case Fail =>
      case Done(st', m) =>
        var st1' := DecOne(fs, st1, tag, wt, s[n..]).val;
        RoundGoesOn(fs, st, s, st', m);
        RoundGoesOn(fs, st1, s, st1', m);
        assert s[n..][m..] == s[n + m..];
        if st1' != st' {
          RunsMeet(fs, st1', st', i, s[n + m..]);
        }
    }
  }

  lemma SameLength(st1: State, st: State, k: nat, more: set<nat>)
    requires SameBut(st1, st, k, more)
    ensures |st1.msg| == |st.msg|
  {
  }

  lemma KnownField(fs: seq<Field>, st: State, tag: nat, wt: nat, s: seq<Byte>)
    requires |st.msg| == |fs| && FindField(fs, tag).Some?
    ensures DecOne(fs, st, tag, wt, s) == DecEntry(fs, st, FindField(fs, tag).value, wt, s)
  {
  }

  /**
   An occurrence of a field that holds one value is as good as absent when the field, or another
   member of its one-of, comes again later.
   */
  lemma LastOneWins(fs: seq<Field>, st: State, p: seq<Byte>, i: nat, s: seq<Byte>)
    requires |st.msg| == |fs| && i < |fs| && Replaceable(fs[i])
    requires Occurrence(fs, st, p, i) && ComesAgain(fs, st, s, SlotOf(fs, i))
    ensures DecLoop(fs, st, p + s) == Shift(|p|, DecLoop(fs, st, s))
  {
    hide DecEntry, DecLoop, ReadKey, FindField, ComesAgain, Replaceable, SameBut;
    var Key(tag, wt, n) := ReadKey(p);
    LoopStep(fs, st, p, s);
    OccurrenceChanges(fs, st, i, wt, p[n..]);
    RunsMeet(fs, DecOne(fs, st, tag, wt, p[n..]).val, st, i, s);
  }
}
