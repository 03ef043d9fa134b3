/**
 Decoding reads only what it consumes: bytes after a successfully decoded item do not change it,
 and a field loop over two pieces of data is the loop over the first, then over the second.
 */
module Prefix {
  import opened Bits
  import opened Outcomes
  import opened Varints
  import opened Descriptor
  import opened EncodeSpec
  import opened DecodeSpec

  lemma SlicePrefix(s: seq<Byte>, t: seq<Byte>, i: nat, j: nat)
    requires i <= j <= |s|
    ensures (s + t)[i..j] == s[i..j]
  {
  }

  lemma ReadKeyPrefix(s: seq<Byte>, t: seq<Byte>)
    requires !ReadKey(s).BadKey?
    ensures ReadKey(s + t) == ReadKey(s)
  {
    ReadVarint32Prefix(s, t);
  }

  lemma SkipPrefix(wt: nat, s: seq<Byte>, t: seq<Byte>)
    requires Skip(wt, s).Some?
    ensures Skip(wt, s + t) == Skip(wt, s)
  {
    hide ReadVarint32, VarintLength;
    if wt == WT_VARINT {
      VarintLengthPrefix(s, t);
    } else if wt == WT_STRING {
      ReadVarint32Prefix(s, t);
    }
  }

  lemma ReadBlobPrefix(s: seq<Byte>, t: seq<Byte>)
    requires ReadBlob(s).Done?
    ensures ReadBlob(s + t) == ReadBlob(s)
  {
    hide ReadVarint32;
    ReadVarint32Prefix(s, t);
    var Done(len, n) := ReadVarint32(s);
    SlicePrefix(s, t, n, n + len);
  }

  lemma DecScalarPrefix(f: Field, s: seq<Byte>, t: seq<Byte>)
    requires DecScalar(f, s).Done?
    ensures DecScalar(f, s + t) == DecScalar(f, s)
  {
    hide ReadVarint32, ReadVarint, ReadBlob, CastRead, FromLittleEndian, CString;
    if f.ltype in {LVarint, LUVarint, LSVarint} {
      ReadVarintPrefix(s, t);
    } else if f.ltype == LFixed32 {
      SlicePrefix(s, t, 0, 4);
    } else if f.ltype == LFixed64 {
      SlicePrefix(s, t, 0, 8);
    } else if f.ltype == LFixedLengthBytes {
      ReadVarint32Prefix(s, t);
      var Done(len, n) := ReadVarint32(s);
      if len != 0 {
        SlicePrefix(s, t, n, n + len);
      }
    } else {
      ReadBlobPrefix(s, t);
    }
  }

  lemma DecValPrefix(f: Field, v: Val, s: seq<Byte>, t: seq<Byte>)
    requires DecVal(f, v, s).Done?
    ensures DecVal(f, v, s + t) == DecVal(f, v, s)
  {
    hide ReadVarint32, DecScalar, DecMsg, DefaultVal;
    if f.ltype != LSubmessage {
      DecScalarPrefix(f, s, t);
    } else {
      ReadVarint32Prefix(s, t);
      var Done(len, n) := ReadVarint32(s);
      SlicePrefix(s, t, n, n + len);
    }
  }

  lemma DecElementsPrefix(f: Field, e: Elements, wt: nat, s: seq<Byte>, t: seq<Byte>)
    requires DecElements(f, e, wt, s).Done?
    ensures DecElements(f, e, wt, s + t) == DecElements(f, e, wt, s)
  {
    hide ReadBlob, DecPacked, DecVal, DefaultVal;
    if wt == WT_STRING && Packable(f) {
      ReadBlobPrefix(s, t);
    } else {
      DecValPrefix(f, DefaultVal(f), s, t);
    }
  }

  lemma DecFieldPrefix(f: Field, e: Entry, wt: nat, s: seq<Byte>, t: seq<Byte>)
    requires DecField(f, e, wt, s).Done?
    ensures DecField(f, e, wt, s + t) == DecField(f, e, wt, s)
  {
    hide DecVal, DefaultVal, DecElements;
    if f.htype == Repeated {
      DecElementsPrefix(f, if f.sizeOffset != 0 then Elements(e.slot.items, |e.slot.items|) else Elements(e.slot.items, e.fixedCount), wt, s, t);
    } else {
      DecValPrefix(f, if f.htype == Oneof then DefaultVal(f) else OldVal(e.slot), s, t);
    }
  }

  lemma DecOnePrefix(fs: seq<Field>, st: State, tag: nat, wt: nat, s: seq<Byte>, t: seq<Byte>)
    requires |st.msg| == |fs|
    requires DecOne(fs, st, tag, wt, s).Done?
    ensures DecOne(fs, st, tag, wt, s + t) == DecOne(fs, st, tag, wt, s)
  {
    hide DecField, Skip, FindField, SlotOf;
    match FindField(fs, tag)
    case None => SkipPrefix(wt, s, t);
    case Some(i) =>
      var st1 := MarkSeen(fs, Track(fs, st, i).value, i);
      DecFieldPrefix(fs[i], Entry(st1.msg[SlotOf(fs, i)], st1.fixedCount), wt, s, t);
  }

  lemma LoopAtEnd(fs: seq<Field>, st: State, s: seq<Byte>)
    requires |st.msg| == |fs| && s == []
    ensures DecLoop(fs, st, s) == Ran(st, 0, false)
  {
  }

  /** One round of the field loop, when it ends there. */
  lemma RoundFails(fs: seq<Field>, st: State, s: seq<Byte>)
    requires |st.msg| == |fs| && s != []
    ensures ReadKey(s).BadKey? ==> DecLoop(fs, st, s) == RunFail
    ensures ReadKey(s).EndKey? ==> DecLoop(fs, st, s) == Ran(st, ReadKey(s).n, true)
    ensures ReadKey(s).Key? && DecOne(fs, st, ReadKey(s).tag, ReadKey(s).wt, s[ReadKey(s).n..]).Fail? ==> DecLoop(fs, st, s) == RunFail
  {
  }

  /** One round of the field loop, when it goes on. */
  lemma RoundGoesOn(fs: seq<Field>, st: State, s: seq<Byte>, st': State, k: nat)
    requires |st.msg| == |fs| && s != [] && ReadKey(s).Key?
    requires DecOne(fs, st, ReadKey(s).tag, ReadKey(s).wt, s[ReadKey(s).n..]) == Done(st', k)
    ensures DecLoop(fs, st, s) == Shift(ReadKey(s).n + k, DecLoop(fs, st', s[ReadKey(s).n..][k..]))
  {
    hide DecOne, ReadKey;
    var n := ReadKey(s).n;
    assert s[n..][k..] == s[n + k..];
  }

  /** One key and payload at the front of the data. */
  lemma LoopStep(fs: seq<Field>, st: State, s: seq<Byte>, t: seq<Byte>)
    requires |st.msg| == |fs|
    requires ReadKey(s).Key?
    requires DecOne(fs, st, ReadKey(s).tag, ReadKey(s).wt, s[ReadKey(s).n..]).Done?
    requires ReadKey(s).n + DecOne(fs, st, ReadKey(s).tag, ReadKey(s).wt, s[ReadKey(s).n..]).n == |s|
    ensures DecLoop(fs, st, s + t)
         == Shift(|s|, DecLoop(fs, DecOne(fs, st, ReadKey(s).tag, ReadKey(s).wt, s[ReadKey(s).n..]).val, t))
  {
    hide DecOne, ReadKey, DecLoop, Shift;
    var Key(tag, wt, n) := ReadKey(s);
    var Done(st', k) := DecOne(fs, st, tag, wt, s[n..]);
    ReadKeyPrefix(s, t);
    assert (s + t)[n..] == s[n..] + t;
    DecOnePrefix(fs, st, tag, wt, s[n..], t);
    RoundGoesOn(fs, st, s + t, st', k);
    assert (s[n..] + t)[k..] == t;
  }

  /** The loop over a ++ b, when the loop over a reaches the end of a. */
  lemma {:induction false} LoopAppend(fs: seq<Field>, st: State, a: seq<Byte>, b: seq<Byte>)
    requires |st.msg| == |fs|
    requires DecLoop(fs, st, a).Ran? && !DecLoop(fs, st, a).stopped
    ensures DecLoop(fs, st, a + b) == Shift(|a|, DecLoop(fs, DecLoop(fs, st, a).st, b))
    decreases |a|
  {
    hide DecOne, ReadKey;
    if a == [] {
      assert a + b == b;
    } else {
      var Key(tag, wt, n) := ReadKey(a);
      var Done(st', k) := DecOne(fs, st, tag, wt, a[n..]);
      ReadKeyPrefix(a, b);
      assert (a + b)[n..] == a[n..] + b;
      DecOnePrefix(fs, st, tag, wt, a[n..], b);
      assert (a + b)[n + k..] == a[n + k..] + b;
      LoopAppend(fs, st', a[n + k..], b);
    }
  }

  /** A zero key ends the message, whatever follows. */
  lemma {:induction false} LoopStopped(fs: seq<Field>, st: State, a: seq<Byte>, b: seq<Byte>)
    requires |st.msg| == |fs|
    requires DecLoop(fs, st, a).Ran? && DecLoop(fs, st, a).stopped
    ensures DecLoop(fs, st, a + b) == DecLoop(fs, st, a)
    decreases |a|
  {
    hide DecOne, ReadKey;
    ReadKeyPrefix(a, b);
    if ReadKey(a).Key? {
      var Key(tag, wt, n) := ReadKey(a);
      var Done(st', k) := DecOne(fs, st, tag, wt, a[n..]);
      assert (a + b)[n..] == a[n..] + b;
      DecOnePrefix(fs, st, tag, wt, a[n..], b);
      assert (a + b)[n + k..] == a[n + k..] + b;
      LoopStopped(fs, st', a[n + k..], b);
    }
  }
}
