/** The bytes of the wire format, in its own numbers; a receiver who does not know a field can tell how much to skip. */
module WireFormat {
  import opened Bits
  import opened Outcomes
  import opened Varints
  import opened Descriptor
  import opened EncodeSpec
  import opened DecodeSpec
  import opened Prefix
  import opened Scalars
  import opened Chunks
  import opened Unknowns

  // ----- the numbers of the wire format -----

  /** A key is eight times the tag, and 0 for varints, 1 for eight bytes, 5 for four bytes and 2 for a length and its bytes. */
  lemma KeyNumbers(f: Field, v: Val)
    requires EncTagged(f, v).Some?
    ensures var wt := match f.ltype
                      case LVarint => 0
                      case LUVarint => 0
                      case LSVarint => 0
                      case LFixed64 => 1
                      case LFixed32 => 5
                      case _ => 2;
            EncTagged(f, v).value == Varint(8 * f.tag + wt) + EncVal(f, v).value
  {
    hide EncVal, Varint;
    assert forall wt: nat :: TagBytes(wt, f.tag) == Varint(8 * f.tag + wt);
  }

  /** Arrays of numbers are written as one block: a key with 2, a length, and the values; others as keys and values. */
  lemma ArrayForm(f: Field, items: seq<Val>)
    requires items != [] && |items| <= f.arraySize
    ensures if f.ltype in {LVarint, LUVarint, LSVarint, LFixed32, LFixed64}
            then EncArray(f, items)
                 == (match EncItems(f, items)
                     case None => None
                     case Some(body) => Some(Varint(8 * f.tag + 2) + Varint(|body|) + body))
            else EncArray(f, items) == EncTaggedItems(f, items)
  {
    hide EncVal, Varint, EncItems, EncTaggedItems;
    if Packable(f) && EncItems(f, items).Some? {
      var body := EncItems(f, items).value;
      assert Varint(8 * f.tag + 2) + (Varint(|body|) + body) == Varint(8 * f.tag + 2) + Varint(|body|) + body;
    }
  }

  /** What an unknown field's wire type says of its payload; there are no others. */
  lemma SkipNumbers(wt: nat, s: seq<Byte>)
    ensures wt == 0 ==> (Skip(wt, s).Some? <==> exists i :: 0 <= i < |s| && s[i] < 128)
    ensures wt == 0 && Skip(wt, s).Some? ==>
            var n := Skip(wt, s).value; n > 0 && s[n - 1] < 128 && forall i :: 0 <= i < n - 1 ==> s[i] >= 128
    ensures wt == 1 ==> Skip(wt, s) == if |s| >= 8 then Some(8) else None
    ensures wt == 5 ==> Skip(wt, s) == if |s| >= 4 then Some(4) else None
    ensures wt == 2 ==> (Skip(wt, s).Some? <==> ReadBlob(s).Done?)
    ensures wt == 2 && Skip(wt, s).Some? ==> Skip(wt, s).value == ReadBlob(s).n
    ensures wt !in {0, 1, 2, 5} ==> Skip(wt, s) == None
  {
    if wt == 0 {
      LengthOfFirst(s);
    }
  }

  lemma {:induction false} LengthOfFirst(s: seq<Byte>)
    ensures VarintLength(s) > 0 <==> exists i :: 0 <= i < |s| && s[i] < 128
    ensures forall i :: 0 <= i < VarintLength(s) - 1 ==> s[i] >= 128
  {
    if s != [] && s[0] >= 128 {
      LengthOfFirst(s[1..]);
      if exists i :: 0 <= i < |s| && s[i] < 128 {
        var i :| 0 <= i < |s| && s[i] < 128;
        assert s[1..][i - 1] == s[i];
      }
      forall i | 0 <= i < VarintLength(s) - 1
        ensures s[i] >= 128
      {
        if i > 0 { assert s[i] == s[1..][i - 1]; }
      }
    }
  }

  /** A zero byte in place of a key ends the data, whatever follows. */
  lemma ZeroKeyEnds(fs: seq<Field>, st: State, t: seq<Byte>)
    requires |st.msg| == |fs|
    ensures DecLoop(fs, st, [0] + t) == Ran(st, 1, true)
  {
    var s: seq<Byte> := [0] + t;
    assert ReadKey(s) == EndKey(1) by {
      hide ReadVarint32;
      VarintOfZero();
      LengthRoundTrip(0, t);
    }
    hide DecLoop, ReadKey;
    RoundFails(fs, st, s);
  }

  /** A key with an unknown tag and a wire type that cannot be skipped is an error, whatever follows. */
  lemma OtherTypesRefused(fs: seq<Field>, st: State, tag: nat, wt: nat, t: seq<Byte>)
    requires |st.msg| == |fs| && 0 < tag < MAX_TAG && FindField(fs, tag) == None && wt in {3, 4, 6, 7}
    ensures DecLoop(fs, st, Varint(8 * tag + wt) + t) == RunFail
  {
    var key := Varint(8 * tag + wt);
    assert key == TagBytes(wt, tag);
    KeyRoundTrip(wt, tag, t);
    SkipNumbers(wt, t);
    assert (key + t)[|key|..] == t;
    hide DecLoop, ReadKey, Varint, Skip, FindField, TagBytes;
    RoundFails(fs, st, key + t);
  }

  /** A known field is decoded the same whatever wire type its key has; only a block of numbers for an array has to say so. */
  lemma WireTypeIgnored(fs: seq<Field>, st: State, k: nat, wt: nat, wt': nat, s: seq<Byte>)
    requires |st.msg| == |fs| && k < |fs|
    requires fs[k].htype == Repeated && fs[k].ltype in {LVarint, LUVarint, LSVarint, LFixed32, LFixed64} ==> wt != 2 && wt' != 2
    ensures DecEntry(fs, st, k, wt, s) == DecEntry(fs, st, k, wt', s)
  {
    hide DecVal, DecPacked, DefaultVal, ReadBlob, SlotOf;
    if Track(fs, st, k).Some? {
      var st1 := MarkSeen(fs, Track(fs, st, k).value, k);
      FieldIgnoresType(fs[k], Entry(st1.msg[SlotOf(fs, k)], st1.fixedCount), wt, wt', s);
    }
  }

  lemma FieldIgnoresType(f: Field, e: Entry, wt: nat, wt': nat, s: seq<Byte>)
    requires f.htype == Repeated && f.ltype in {LVarint, LUVarint, LSVarint, LFixed32, LFixed64} ==> wt != 2 && wt' != 2
    ensures DecField(f, e, wt, s) == DecField(f, e, wt', s)
  {
    hide DecVal, DecPacked, DefaultVal, ReadBlob;
    if f.htype == Repeated {
      var es := if e.slot.Rep? then Elements(e.slot.items, |e.slot.items|)
                else if e.slot.Fixed? then Elements(e.slot.items, e.fixedCount) else Elements([], 0);
      assert DecElements(f, es, wt, s) == DecElements(f, es, wt', s);
    }
  }

  // ----- the bytes of values -----

  /** The shortest form of a number in groups of seven bits. */
  predicate IsVarintOf(b: seq<Byte>, n: nat) {
    && VarintLength(b) == |b| > 0
    && Base128(b) == n
    && (|b| > 1 ==> b[|b| - 1] != 0)
  }

  lemma {:induction false} ShortestForm(n: nat)
    ensures IsVarintOf(Varint(n), n)
  {
    VarintDigits(n);
    LastGroup(n);
  }

  lemma {:induction false} LastGroup(n: nat)
    ensures var b := Varint(n); |b| > 1 ==> b[|b| - 1] != 0
    ensures n > 0 ==> Varint(n)[|Varint(n)| - 1] != 0
  {
    if n >= 128 {
      LastGroup(n / 128);
    }
  }

  /**
   What each type writes: negative integers as their 64-bit two's complement, signed ones folded so that
   small magnitudes stay small, fixed ones low byte first, and strings and structs behind their length.
   */
  lemma ValueBytes(f: Field, v: Val)
    requires FieldOk(f) && ValOk(f, v) && EncVal(f, v).Some?
    ensures var b := EncVal(f, v).value;
            match f.ltype
            case LVarint => IsVarintOf(b, if v.n < 0 then TWO_64 + v.n else v.n)
            case LUVarint => IsVarintOf(b, v.n)
            case LSVarint => IsVarintOf(b, if v.n < 0 then -2 * v.n - 1 else 2 * v.n)
            case LFixed32 => |b| == 4 && LowFirst(b) == v.n
            case LFixed64 => |b| == 8 && LowFirst(b) + 0x1_0000_0000 * LowFirst(b[4..]) == v.n
            case LSubmessage => var inner := EncMsg(f.ptr.fields, v.slots, 0); inner.Some? && b == Varint(|inner.value|) + inner.value
            case LExtension => false
            case _ => b == Varint(|v.b|) + v.b
  {
    hide Varint, EncMsg, MsgOk, FieldsOk, CString, IsVarintOf, Base128, LittleEndian, Zigzag;
    match f.ltype
    case LVarint =>
      SignExtended(v.n);
      ShortestForm(Unsigned(v.n, 8));
    case LUVarint =>
      ShortestForm(v.n);
    case LSVarint =>
      CastIdentity(v.n, 8);
      ZigzagValue(v.n);
      ShortestForm(Zigzag(v.n));
    case LFixed32 =>
      Fixed32RoundTrip(v.n, []);
      FourBytes(EncVal(f, v).value);
    case LFixed64 =>
      Fixed64RoundTrip(v.n, []);
      EightBytes(EncVal(f, v).value);
    case LString => CStringOfClean(v.b, f.dataSize);
    case _ =>
  }

  lemma SignExtended(n: int)
    requires FitsSigned(n, 8)
    ensures Unsigned(n, 8) == if n < 0 then TWO_64 + n else n
  {
  }

  /** Four bytes as a number, lowest first. */
  function LowFirst(b: seq<Byte>): nat
    requires |b| >= 4
  {
    var b0: int, b1: int, b2: int, b3: int := b[0], b[1], b[2], b[3];
    b0 + 0x100 * b1 + 0x1_0000 * b2 + 0x100_0000 * b3
  }

  lemma FourBytes(b: seq<Byte>)
    requires |b| >= 4
    ensures FromLittleEndian(b) == LowFirst(b) + 0x1_0000_0000 * FromLittleEndian(b[4..])
    ensures |b| == 4 ==> FromLittleEndian(b) == LowFirst(b) && (b + [])[..4] == b
  {
    assert b[1..][1..] == b[2..] && b[2..][1..] == b[3..] && b[3..][1..] == b[4..];
    assert FromLittleEndian(b) == b[0] + 256 * FromLittleEndian(b[1..]);
    assert FromLittleEndian(b[1..]) == b[1] + 256 * FromLittleEndian(b[2..]);
    assert FromLittleEndian(b[2..]) == b[2] + 256 * FromLittleEndian(b[3..]);
    assert FromLittleEndian(b[3..]) == b[3] + 256 * FromLittleEndian(b[4..]);
  }

  lemma EightBytes(b: seq<Byte>)
    requires |b| == 8
    ensures FromLittleEndian(b) == LowFirst(b) + 0x1_0000_0000 * LowFirst(b[4..]) && (b + [])[..8] == b
  {
    hide LowFirst;
    FourBytes(b);
    FourBytes(b[4..]);
  }

  // ----- what is refused -----

  /** An unsigned field takes exactly the numbers below its range, a zigzag one exactly those that fit; no other size is read. */
  lemma NarrowFields(f: Field, u: U64)
    ensures f.ltype == LUVarint && IntSize(f.dataSize) ==>
            CastRead(f, u) == if FitsUnsigned(u, f.dataSize) then Some(u) else None
    ensures f.ltype == LSVarint && IntSize(f.dataSize) ==>
            var n: int := if u % 2 == 1 then -(u + 1) / 2 else u / 2;
            CastRead(f, u) == if FitsSigned(n, f.dataSize) then Some(n) else None
    ensures f.ltype in {LVarint, LUVarint, LSVarint} && !IntSize(f.dataSize) ==> CastRead(f, u) == None
  {
    CastIdentity(u, f.dataSize);
    UnzigzagValue(u);
    CastIdentity(Unzigzag(u), f.dataSize);
  }

  lemma UnzigzagValue(u: U64)
    ensures Unzigzag(u) == if u % 2 == 1 then -(u + 1) / 2 else u / 2
  {
  }

  /** Bytes of a fixed length arrive whole or not at all: nothing stands for zeros, and any other length is an error. */
  lemma FixedLengthRead(f: Field, b: seq<Byte>, t: seq<Byte>)
    requires f.ltype == LFixedLengthBytes && f.dataSize <= SizeMax() && |b| < TWO_32
    ensures DecScalar(f, LenPrefixed(b) + t)
         == if b == [] then Done(Blob(seq(f.dataSize, _ => 0)), 1)
            else if |b| == f.dataSize then Done(Blob(b), |LenPrefixed(b)|)
            else Fail
  {
    hide ReadVarint32, Varint;
    var s := LenPrefixed(b) + t;
    assert s == Varint(|b|) + (b + t);
    LengthRoundTrip(|b|, b + t);
    var n := |Varint(|b|)|;
    assert s[n..n + |b|] == b;
    if b == [] {
      assert Zeros(f.dataSize) == seq(f.dataSize, _ => 0);
      assert Varint(0) == [0] by { VarintOfZero(); }
    }
  }

  lemma VarintOfZero()
    ensures Varint(0) == [0]
  {
  }

  // ----- what initialising leaves -----

  /** Without an explicit default, initialising leaves what a payload of zeros would: zero, nothing, or zero bytes. */
  lemma ZeroPayload(f: Field, t: seq<Byte>)
    requires f.ltype != LSubmessage && f.ltype != LExtension && !f.ptr.Default? && f.dataSize <= SizeMax()
    requires f.ltype in {LVarint, LUVarint, LSVarint} ==> IntSize(f.dataSize)
    requires f.ltype == LBytes ==> SIZE_WIDTH <= f.dataSize
    requires f.ltype == LString ==> f.dataSize > 0
    ensures var n := if f.ltype == LFixed32 then 4 else if f.ltype == LFixed64 then 8 else 1;
            DecScalar(f, seq(n, _ => 0) + t) == Done(DefaultVal(f), n)
    ensures ZeroVal(f) == DefaultVal(f)
  {
    hide ReadVarint32, ReadVarint, FromLittleEndian, Varint, Zeros;
    var n := if f.ltype == LFixed32 then 4 else if f.ltype == LFixed64 then 8 else 1;
    var s: seq<Byte> := seq(n, _ => 0) + t;
    if f.ltype == LFixed32 {
      assert s[..4] == [0, 0, 0, 0];
      FourBytes([0, 0, 0, 0]);
    } else if f.ltype == LFixed64 {
      assert s[..8] == [0, 0, 0, 0, 0, 0, 0, 0];
      EightBytes([0, 0, 0, 0, 0, 0, 0, 0]);
    } else {
      assert s == [0] + t;
      assert Varint(0) == [0] by { VarintOfZero(); }
      VarintRoundTrip(0, t);
      LengthRoundTrip(0, t);
      assert s[1..1] == [];
    }
  }

  /** No explicit default in the entry or below it, and no array without a count of which some element is left as it was. */
  predicate ZeroByDefault(f: Field)
    decreases f
  {
    && (FixedArray(f) ==> ZeroedCount(f) == f.arraySize)
    && (f.htype in {Required, Optional} && f.ltype != LSubmessage ==> !f.ptr.Default?)
    && (f.ltype == LSubmessage && f.ptr.Sub? ==> forall i :: 0 <= i < |f.ptr.fields| ==> ZeroByDefault(f.ptr.fields[i]))
  }

  /** Such tables are initialised to what zeroed memory holds. */
  lemma {:induction false} ZeroMemory(f: Field)
    requires ZeroByDefault(f)
    ensures DefaultSlot(f) == ZeroSlot(f)
    ensures f.ltype == LSubmessage && f.ptr.Sub? ==> Defaults(f.ptr.fields) == ZeroSlots(f.ptr.fields)
    decreases f
  {
    if f.ltype == LSubmessage && f.ptr.Sub? {
      var fs := f.ptr.fields;
      forall i | 0 <= i < |fs|
        ensures Defaults(fs)[i] == ZeroSlots(fs)[i]
      {
        ZeroMemory(fs[i]);
      }
      assert Defaults(fs) == ZeroSlots(fs);
      assert DefaultVal(f) == ZeroVal(f);
    }
    hide DefaultVal, ZeroVal;
  }

  /** The sizes that the macros can record are those of the unsigned type with that many bytes. */
  lemma LargestSize()
    ensures SizeMax() + 1 == Pow2(8 * SIZE_WIDTH)
  {
    hide Pow2;
    Pow2Table();
  }

  // ----- everything written can be skipped -----

  lemma PayloadSkips(f: Field, v: Val)
    requires EncVal(f, v).Some? && |EncVal(f, v).value| < TWO_32
    ensures Skip(WireType(f.ltype), EncVal(f, v).value) == Some(|EncVal(f, v).value|)
  {
    hide ReadVarint32, VarintLength, Varint, EncMsg, LittleEndian, CString, Unsigned, Skip;
    var b := EncVal(f, v).value;
    match f.ltype
    case LVarint => VarintSkips(Unsigned(v.n, 8));
    case LUVarint => VarintSkips(Unsigned(v.n, 8));
    case LSVarint =>
      assert FitsSigned(Signed(v.n, 8), 8) by { SignedRange(v.n); }
      VarintSkips(Zigzag(Signed(v.n, 8)));
    case LFixed32 => SkipNumbers(WT_32BIT, b);
    case LFixed64 => SkipNumbers(WT_64BIT, b);
    case LBytes => BlobSkips(v.b);
    case LString => BlobSkips(CString(v.b, f.dataSize));
    case LFixedLengthBytes => BlobSkips(v.b);
    case LSubmessage => BlobSkips(EncMsg(f.ptr.fields, v.slots, 0).value);
    case LExtension =>
  }

  lemma SignedRange(n: int)
    ensures FitsSigned(Signed(n, 8), 8)
  {
  }

  lemma VarintSkips(n: nat)
    ensures Skip(WT_VARINT, Varint(n)) == Some(|Varint(n)|)
  {
    hide Varint, VarintLength;
    VarintDigits(n);
  }

  lemma BlobSkips(b: seq<Byte>)
    requires |LenPrefixed(b)| < TWO_32
    ensures Skip(WT_STRING, LenPrefixed(b)) == Some(|LenPrefixed(b)|)
  {
    hide ReadVarint32, Varint;
    LengthRoundTrip(|b|, b);
  }

  lemma TaggedSkipped(f: Field, v: Val, gs: seq<Field>, st: State, t: seq<Byte>)
    requires FieldOk(f) && |st.msg| == |gs| && FindField(gs, f.tag) == None
    requires EncTagged(f, v).Some? && |EncTagged(f, v).value| < TWO_32
    ensures DecLoop(gs, st, EncTagged(f, v).value + t) == Shift(|EncTagged(f, v).value|, DecLoop(gs, st, t))
  {
    hide EncVal, TagBytes, Skip, ReadKey, DecLoop, FindField;
    var wt, key, b := WireType(f.ltype), TagBytes(WireType(f.ltype), f.tag), EncVal(f, v).value;
    PayloadSkips(f, v);
    KeyRoundTrip(wt, f.tag, b);
    assert (key + b)[|key|..] == b;
    assert ForeignField(gs, key + b);
    ForeignSkipped(gs, st, key + b, t);
  }

  lemma {:induction false} TaggedItemsSkipped(f: Field, items: seq<Val>, gs: seq<Field>, st: State, t: seq<Byte>)
    requires FieldOk(f) && |st.msg| == |gs| && FindField(gs, f.tag) == None
    requires EncTaggedItems(f, items).Some? && |EncTaggedItems(f, items).value| < TWO_32
    ensures DecLoop(gs, st, EncTaggedItems(f, items).value + t) == Shift(|EncTaggedItems(f, items).value|, DecLoop(gs, st, t))
  {
    hide EncTagged, DecLoop, FieldOk, FindField;
    if items == [] {
      assert [] + t == t;
    } else {
      var a, b := EncTagged(f, items[0]).value, EncTaggedItems(f, items[1..]).value;
      assert a + b + t == a + (b + t);
      TaggedSkipped(f, items[0], gs, st, b + t);
      TaggedItemsSkipped(f, items[1..], gs, st, t);
    }
  }

  lemma PackedSkipped(f: Field, body: seq<Byte>, gs: seq<Field>, st: State, t: seq<Byte>)
    requires FieldOk(f) && |st.msg| == |gs| && FindField(gs, f.tag) == None
    requires |TagBytes(WT_STRING, f.tag) + LenPrefixed(body)| < TWO_32
    ensures var s := TagBytes(WT_STRING, f.tag) + LenPrefixed(body);
            DecLoop(gs, st, s + t) == Shift(|s|, DecLoop(gs, st, t))
  {
    hide TagBytes, Skip, ReadKey, DecLoop, FindField, LenPrefixed;
    var key, b := TagBytes(WT_STRING, f.tag), LenPrefixed(body);
    BlobSkips(body);
    KeyRoundTrip(WT_STRING, f.tag, b);
    assert (key + b)[|key|..] == b;
    assert ForeignField(gs, key + b);
    ForeignSkipped(gs, st, key + b, t);
  }

  lemma EntrySkipped(f: Field, slot: Slot, gs: seq<Field>, st: State, t: seq<Byte>)
    requires FieldOk(f) && |st.msg| == |gs| && FindField(gs, f.tag) == None
    requires EncField(f, slot).Some? && |EncField(f, slot).value| < TWO_32
    ensures DecLoop(gs, st, EncField(f, slot).value + t) == Shift(|EncField(f, slot).value|, DecLoop(gs, st, t))
  {
    hide EncTagged, EncTaggedItems, EncItems, DecLoop, FieldOk, FindField, IsDefaultVal, TagBytes, LenPrefixed;
    if EncField(f, slot).value == [] {
      assert [] + t == t;
    } else if f.htype == Repeated && Packable(f) {
      PackedSkipped(f, EncItems(f, slot.items).value, gs, st, t);
    } else if f.htype == Repeated {
      TaggedItemsSkipped(f, slot.items, gs, st, t);
    } else {
      TaggedSkipped(f, slot.v, gs, st, t);
    }
  }

  /**
   A receiver that knows none of the table's tags skips everything that the encoder writes, and reads on
   behind it: every key announces the payload that follows it.
   */
  lemma {:induction false} EncodingSkipped(fs: seq<Field>, m: seq<Slot>, i: nat, gs: seq<Field>, st: State, t: seq<Byte>)
    requires FieldsOk(fs) && |m| == |fs| && i <= |fs| && |st.msg| == |gs|
    requires forall k :: 0 <= k < |fs| ==> FindField(gs, fs[k].tag) == None
    requires EncMsg(fs, m, i).Some? && |EncMsg(fs, m, i).value| < TWO_32
    ensures DecLoop(gs, st, EncMsg(fs, m, i).value + t) == Shift(|EncMsg(fs, m, i).value|, DecLoop(gs, st, t))
    decreases |fs| - i
  {
    hide EncField, DecLoop, FindField, SlotOf;
    if i == |fs| {
      assert [] + t == t;
    } else {
      assert FieldOk(fs[i]);
      hide FieldOk;
      var a, b := EncField(fs[i], m[SlotOf(fs, i)]).value, EncMsg(fs, m, i + 1).value;
      assert a + b + t == a + (b + t);
      EntrySkipped(fs[i], m[SlotOf(fs, i)], gs, st, b + t);
      EncodingSkipped(fs, m, i + 1, gs, st, t);
    }
  }
}
