/**
 The decoder's procedures, each proved to do to its stream and its destination what the decoding
 functions say. After a failure the destination's content is not specified.
 */
module Decoder {
  import opened Bits
  import opened Outcomes
  import opened Varints
  import opened Descriptor
  import opened FieldIter
  import opened EncodeSpec
  import opened DecodeSpec
  import opened Prefix
  import opened InputStream
  import opened Bitmap

  /** A message struct in memory. */
  class Struct {
    var slots: seq<Slot>

    constructor (content: seq<Slot>)
      ensures slots == content
    {
      slots := content;
    }
  }

  // ----- default values -----

  method DefaultValue(f: Field) returns (v: Val)
    ensures v == DefaultVal(f)
    decreases f, 1
  {
    if f.ltype == LSubmessage {
      if !f.ptr.Sub? {
        return Msg([]);
      }
      var nested := new Struct(seq(|f.ptr.fields|, _ => Alias));
      SetToDefaults(f.ptr.fields, nested);
      v := Msg(nested.slots);
    } else if f.ptr.Default? {
      v := f.ptr.value;
    } else if f.ltype == LFixedLengthBytes {
      v := Blob(Zeros(f.dataSize));
    } else if f.ltype == LBytes || f.ltype == LString {
      v := Blob([]);
    } else {
      v := Num(0);
    }
  }

  method DefaultOf(f: Field) returns (slot: Slot)
    ensures slot == DefaultSlot(f)
    decreases f, 2
  {
    if f.htype == Repeated {
      slot := if f.sizeOffset != 0 then Rep([]) else Fixed(seq(ZeroedCount(f), _ => ZeroVal(f)));
    } else if f.htype == Oneof {
      slot := Unset;
    } else {
      var v := DefaultValue(f);
      slot := if f.htype == Optional && f.sizeOffset != 0 then Opt(false, v) else Single(v);
    }
  }

  /** Initialises every entry, nested structs included. */
  method SetToDefaults(fs: seq<Field>, dest: Struct)
    requires |dest.slots| == |fs|
    modifies dest
    ensures dest.slots == Defaults(fs)
    decreases fs, 3
  {
    hide DefaultSlot, DataOffset, SizeLocation;
    if |fs| == 0 {
      return;
    }
    var iter := new Iter(fs, 0);
    ghost var at := 0;
    var more := true;
    while more
      invariant iter.Valid() && iter.start == fs && |dest.slots| == |fs|
      invariant at <= |fs| && at == if more then iter.pos else |fs|
      invariant forall i :: 0 <= i < at ==> dest.slots[i] == Defaults(fs)[i]
      decreases |fs| - at
    {
      var i := iter.pos;
      assert fs[i] in fs;
      var slot := DefaultOf(fs[i]);
      dest.slots := dest.slots[i := if SlotOf(fs, i) == i then slot else Alias];
      more := iter.Next();
      at := at + 1;
    }
  }

  // ----- values -----

  /** A call that parses: the outcome, the value and the cursor are those of p. */
  predicate Reads<T(==)>(a: Cursor, b: Cursor, p: Parse<T>, ok: bool, v: T) {
    Moves(a, b, Used(p), ok) && (ok ==> v == p.val)
  }

  method DecodeInt(stream: IStream, f: Field) returns (ok: bool, v: Val)
    requires stream.Valid() && f.ltype in {LVarint, LUVarint, LSVarint}
    modifies stream
    ensures stream.Valid() && Reads(old(stream.At()), stream.At(), ReadInt(f, old(stream.Rest())), ok, v)
  {
    hide ReadVarint;
    v := Num(0);
    if f.ltype == LSVarint {
      var value;
      ok, value := DecodeSvarint(stream);
      if !ok || !IntSize(f.dataSize) {
        return false, v;
      }
      var clamped := Signed(value, f.dataSize);
      return clamped == value, Num(clamped);
    }
    var value;
    ok, value := DecodeVarint(stream);
    if !ok || !IntSize(f.dataSize) {
      return false, v;
    }
    if f.ltype == LUVarint {
      var clamped := Unsigned(value, f.dataSize);
      return clamped == value, Num(clamped);
    }
    var svalue := Signed(value, if f.dataSize == 8 then 8 else 4);
    var clamped := Signed(svalue, f.dataSize);
    return clamped == svalue, Num(clamped);
  }

  /** Four bytes, lowest first. */
  function Word(s: seq<Byte>): nat
    requires |s| >= 4
  {
    var b0: int, b1: int, b2: int, b3: int := s[0], s[1], s[2], s[3];
    b0 + 0x100 * b1 + 0x1_0000 * b2 + 0x100_0000 * b3
  }

  lemma FourLittleEndian(s: seq<Byte>)
    requires |s| >= 4
    ensures FromLittleEndian(s) == Word(s) + 0x1_0000_0000 * FromLittleEndian(s[4..])
  {
    assert s[1..][1..] == s[2..];
    assert s[2..][1..] == s[3..];
    assert s[3..][1..] == s[4..];
    assert FromLittleEndian(s) == s[0] + 256 * FromLittleEndian(s[1..]);
    assert FromLittleEndian(s[1..]) == s[1] + 256 * FromLittleEndian(s[2..]);
    assert FromLittleEndian(s[2..]) == s[2] + 256 * FromLittleEndian(s[3..]);
    assert FromLittleEndian(s[3..]) == s[3] + 256 * FromLittleEndian(s[4..]);
  }

  method DecodeFixed32(stream: IStream) returns (ok: bool, v: Val)
    requires stream.Valid()
    modifies stream
    ensures stream.Valid()
    ensures Reads(old(stream.At()), stream.At(), Fixed32(old(stream.Rest())), ok, v)
  {
    var bytes;
    ok, bytes := stream.Read(4);
    if !ok {
      return false, Num(0);
    }
    FourLittleEndian(bytes);
    v := Num(Word(bytes));
  }

  function Fixed32(s: seq<Byte>): Parse<Val> {
    if |s| < 4 then Fail else Done(Num(FromLittleEndian(s[..4])), 4)
  }

  function Fixed64(s: seq<Byte>): Parse<Val> {
    if |s| < 8 then Fail else Done(Num(FromLittleEndian(s[..8])), 8)
  }

  method DecodeFixed64(stream: IStream) returns (ok: bool, v: Val)
    requires stream.Valid()
    modifies stream
    ensures stream.Valid()
    ensures Reads(old(stream.At()), stream.At(), Fixed64(old(stream.Rest())), ok, v)
  {
    var bytes;
    ok, bytes := stream.Read(8);
    if !ok {
      return false, Num(0);
    }
    FourLittleEndian(bytes);
    FourLittleEndian(bytes[4..]);
    v := Num(Word(bytes) + 0x1_0000_0000 * Word(bytes[4..]));
  }

  /** Bytes and string items: a size that the item has room for, and that many bytes. */
  method DecodeBlob(stream: IStream, f: Field) returns (ok: bool, v: Val)
    requires stream.Valid() && (f.ltype == LBytes || f.ltype == LString)
    modifies stream
    ensures stream.Valid() && Reads(old(stream.At()), stream.At(), DecScalar(f, old(stream.Rest())), ok, v)
  {
    hide ReadVarint32, CString;
    ghost var s0 := stream.Rest();
    v := Num(0);
    var size, bytes;
    ok, size := DecodeVarint32(stream);
    if !ok {
      return;
    }
    if f.ltype == LBytes {
      if size > SizeMax() || size + SIZE_WIDTH > f.dataSize {
        return false, v;
      }
    } else if (size + 1) % 0x1_0000_0000 < size || size + 1 > f.dataSize {
      return false, v;
    }
    ghost var n := ReadVarint32(s0).n;
    ok, bytes := stream.Read(size);
    if !ok {
      return;
    }
    assert bytes == s0[n..n + size];
    if f.ltype == LBytes {
      v := Blob(bytes);
    } else {
      v := Blob(CString(bytes, |bytes|));
    }
  }

  method DecodeFixedLength(stream: IStream, f: Field) returns (ok: bool, v: Val)
    requires stream.Valid() && f.ltype == LFixedLengthBytes
    modifies stream
    ensures stream.Valid() && Reads(old(stream.At()), stream.At(), DecScalar(f, old(stream.Rest())), ok, v)
  {
    hide ReadVarint32;
    ghost var s0 := stream.Rest();
    v := Num(0);
    var size, bytes;
    ok, size := DecodeVarint32(stream);
    if !ok {
      return;
    }
    if size > SizeMax() {
      return false, v;
    }
    if size == 0 {
      return true, Blob(Zeros(f.dataSize));
    }
    if size != f.dataSize {
      return false, v;
    }
    ghost var n := ReadVarint32(s0).n;
    ok, bytes := stream.Read(f.dataSize);
    if ok {
      assert bytes == s0[n..n + size];
      v := Blob(bytes);
    }
  }

  /** The decoders that the table of function pointers selects. */
  method DecodeValue(stream: IStream, f: Field, before: Val) returns (ok: bool, v: Val)
    requires stream.Valid() && StaticField(f)
    modifies stream
    ensures stream.Valid() && Reads(old(stream.At()), stream.At(), DecVal(f, before, old(stream.Rest())), ok, v)
    decreases f, 1
  {
    hide ReadVarint32, ReadInt, FromLittleEndian, ReadBlob, CString, DecMsg, DefaultVal, StaticTable;
    match f.ltype
    case LVarint => ok, v := DecodeInt(stream, f);
    case LUVarint => ok, v := DecodeInt(stream, f);
    case LSVarint => ok, v := DecodeInt(stream, f);
    case LFixed32 => ok, v := DecodeFixed32(stream);
    case LFixed64 => ok, v := DecodeFixed64(stream);
    case LBytes => ok, v := DecodeBlob(stream, f);
    case LString => ok, v := DecodeBlob(stream, f);
    case LFixedLengthBytes => ok, v := DecodeFixedLength(stream, f);
    case LSubmessage => ok, v := DecodeSubmessage(stream, f, before);
    case LExtension => ok, v := false, before;
  }

  /** Decodes into the nested struct on a substream; array elements are set to defaults first. */
  method DecodeSubmessage(stream: IStream, f: Field, before: Val) returns (ok: bool, v: Val)
    requires stream.Valid() && StaticField(f) && f.ltype == LSubmessage
    modifies stream
    ensures stream.Valid() && Reads(old(stream.At()), stream.At(), DecVal(f, before, old(stream.Rest())), ok, v)
    decreases f, 0
  {
    hide ReadVarint32, DecMsg, DefaultVal, StaticTable;
    v := before;
    ghost var s0 := stream.Rest();
    var sub, closed;
    ok, sub := MakeSubstream(stream);
    if !ok || !f.ptr.Sub? {
      return false, v;
    }
    var start := before;
    if f.htype == Repeated {
      start := DefaultValue(f);
    }
    if !start.Msg? || |start.slots| != |f.ptr.fields| {
      return false, v;
    }
    var nested := new Struct(start.slots);
    ghost var body := sub.Rest();
    ok := DecodeNoinit(sub, f.ptr.fields, nested);
    closed := CloseSubstream(stream, sub);
    v := Msg(nested.slots);
  }

  // ----- arrays and entries -----

  /** A packed array's body: elements while there are bytes and room. */
  method DecodePackedItems(sub: IStream, f: Field, e: Elements) returns (ok: bool, r: Elements)
    requires sub.Valid() && StaticField(f) && Packable(f)
    modifies sub
    ensures sub.Valid()
    ensures sub.state + sub.bytesLeft <= old(sub.state + sub.bytesLeft)
    ensures ok <==> DecPacked(f, e, old(sub.Rest())).Some?
    ensures ok ==> r == DecPacked(f, e, old(sub.Rest())).value && sub.At() == Cursor(old(sub.state + sub.bytesLeft), 0)
    decreases f, 2
  {
    hide DecScalar, StaticField;
    ghost var s0 := sub.Rest();
    r := e;
    ok := true;
    while ok && sub.bytesLeft > 0 && r.count < f.arraySize
      invariant sub.Valid()
      invariant sub.state + sub.bytesLeft <= old(sub.state + sub.bytesLeft)
      invariant ok ==> sub.state + sub.bytesLeft == old(sub.state + sub.bytesLeft)
      invariant if ok then DecPacked(f, e, s0) == DecPacked(f, r, sub.Rest()) else DecPacked(f, e, s0).None?
      decreases ok, sub.bytesLeft
    {
      var v;
      ghost var s1 := sub.Rest();
      ok, v := DecodeValue(sub, f, Num(0));
      if ok {
        assert sub.Rest() == s1[DecScalar(f, s1).n..];
        r := Elements(WriteAt(r.items, r.count, v), r.count + 1);
      }
    }
    ok := ok && sub.bytesLeft == 0;
  }

  /** One occurrence of an array field, packed or single. */
  method DecodeElements(stream: IStream, f: Field, e: Elements, wt: nat) returns (ok: bool, r: Elements)
    requires stream.Valid() && StaticField(f)
    modifies stream
    ensures stream.Valid() && Reads(old(stream.At()), stream.At(), DecElements(f, e, wt, old(stream.Rest())), ok, r)
    decreases f, 3
  {
    hide ReadBlob, DecPacked, DecVal, DefaultVal, StaticField;
    r := e;
    if wt == WT_STRING && Packable(f) {
      var sub, closed;
      ok, sub := MakeSubstream(stream);
      if !ok {
        return;
      }
      ok, r := DecodePackedItems(sub, f, e);
      if !ok {
        return;
      }
      closed := CloseSubstream(stream, sub);
    } else {
      if e.count >= f.arraySize {
        return false, r;
      }
      var v, start;
      start := DefaultValue(f);
      ok, v := DecodeValue(stream, f, start);
      r := Elements(WriteAt(e.items, e.count, v), e.count + 1);
    }
  }

  /** A known field goes into its slot; count is the running count of a fixed-count array. */
  method DecodeStaticField(stream: IStream, f: Field, e: Entry, wt: nat) returns (ok: bool, r: Entry)
    requires stream.Valid() && StaticField(f)
    modifies stream
    ensures stream.Valid() && Reads(old(stream.At()), stream.At(), DecField(f, e, wt, old(stream.Rest())), ok, r)
    decreases f, 4
  {
    hide DecElements, DecVal, DefaultVal, StaticField;
    r := e;
    if f.htype != Repeated {
      var v;
      var before := OldVal(e.slot);
      if f.htype == Oneof {
        before := DefaultValue(f);
      }
      ok, v := DecodeValue(stream, f, before);
      match f.htype
      case Required => r := e.(slot := Single(v));
      case Optional => r := e.(slot := if f.sizeOffset != 0 then Opt(true, v) else Single(v));
      case Oneof => r := e.(slot := Union(f.tag, v));
    } else if f.sizeOffset != 0 {
      if !e.slot.Rep? {
        return false, r;
      }
      var es;
      ok, es := DecodeElements(stream, f, Elements(e.slot.items, |e.slot.items|), wt);
      r := e.(slot := Rep(es.items));
    } else {
      if !e.slot.Fixed? {
        return false, r;
      }
      var es;
      ok, es := DecodeElements(stream, f, Elements(e.slot.items, e.fixedCount), wt);
      r := Entry(Fixed(es.items), es.count);
    }
  }

  // ----- messages -----

  /** A fixed-count array may begin only after the one before it is full. */
  method TrackFixed(fs: seq<Field>, i: nat, field: Option<nat>, count: nat) returns (ok: bool, field': Option<nat>, count': nat)
    requires i < |fs|
    requires field.Some? ==> field.value < |fs|
    ensures forall st: State :: st.fixed == field && st.fixedCount == count ==>
              Track(fs, st, i) == if ok then Some(st.(fixed := field', fixedCount := count')) else None
    ensures field'.Some? ==> field'.value < |fs|
  {
    field', count' := field, count;
    if fs[i].htype == Repeated && fs[i].sizeOffset == 0 {
      if field != Some(i) {
        if field.Some? && count != fs[field.value].arraySize {
          return false, field, count;
        }
        field', count' := Some(i), 0;
      }
    }
    ok := true;
  }

  /** Notes entry i in the bitmap if its presence will be checked. */
  method NoteRequired(fs: seq<Field>, i: nat, index: nat, words: array<U32>, ghost seen: set<nat>)
    requires i < |fs| && index == RequiredBefore(fs, i)
    requires words.Length == 2 && Holds(words[..], Indices(fs, seen))
    modifies words
    ensures Holds(words[..], Indices(fs, if fs[i].htype == Required then seen + {i} else seen))
  {
    hide WordHolds, BitOr, Pow2, Indices;
    if fs[i].htype == Required {
      IndicesGrow(fs, seen, i);
      if index < MAX_REQUIRED_FIELDS {
        ghost var idx := Indices(fs, seen);
        SetBitWord(words[index / 32], index / 32, idx, index);
        OtherWord(words[1 - index / 32], 1 - index / 32, idx, index);
        BitWithin(words[index / 32], index % 32);
        words[index / 32] := BitOr(words[index / 32], Pow2(index % 32));
      }
    }
  }

  lemma BitWithin(word: U32, k: nat)
    requires k < 32
    ensures BitOr(word, Pow2(k)) < 0x1_0000_0000
  {
    Pow2Table();
    Pow2Monotone(k, 31);
    BitOrBound(word, Pow2(k), 32);
  }

  /** The number of checked required fields, by seeking to the end of the table. */
  method CountRequired(iter: Iter) returns (count: nat)
    requires iter.Valid()
    modifies iter
    ensures iter.Valid()
    ensures count == CheckedCount(iter.start)
  {
    var lastRequired := false;
    count := 0;
    var more := true;
    ghost var at := iter.pos;
    while more
      invariant iter.Valid()
      invariant more ==> at == iter.pos && (iter.start == [] || at < |iter.start|)
      invariant !more && iter.start != [] ==>
        count == RequiredBefore(iter.start, |iter.start| - 1) && lastRequired == (iter.start[|iter.start| - 1].htype == Required)
      invariant !more && iter.start == [] ==> count == 0
      decreases more, |iter.start| - at
    {
      count := iter.requiredFieldIndex;
      lastRequired := iter.start == [] || iter.start[iter.pos].htype == Required;
      at := iter.pos + 1;
      more := iter.Next();
    }
    if lastRequired && iter.start != [] {
      count := count + 1;
    }
    if count > MAX_REQUIRED_FIELDS {
      count := MAX_REQUIRED_FIELDS;
    }
  }

  /** Whole words first, then the remaining bits. */
  method CheckRequired(words: array<U32>, count: nat) returns (ok: bool)
    requires words.Length == 2 && count <= MAX_REQUIRED_FIELDS
    ensures ok <==> WordsComplete(words[..], count)
  {
    for i := 0 to count / 32
      invariant forall k :: 0 <= k < i ==> words[..][k] == ALL_BITS
    {
      if words[i] != ALL_BITS {
        assert words[..][i] != ALL_BITS;
        return false;
      }
    }
    if count % 32 != 0 {
      return words[count / 32] == ShiftRight(ALL_BITS, 32 - count % 32);
    }
    return true;
  }

  /** The loop's variables agree with the state st. */
  ghost predicate Agrees(fs: seq<Field>, st: State, dest: Struct, words: array<U32>, field: Option<nat>, count: nat)
    reads dest, words
  {
    && |fs| == |dest.slots| && st.msg == dest.slots
    && st.fixed == field && st.fixedCount == count
    && (field.Some? ==> field.value < |fs|)
    && words.Length == 2 && Holds(words[..], Indices(fs, st.seen))
  }

  /** The payload of one field: stored if the table knows the tag, skipped if not. */
  method DecodeOne(stream: IStream, iter: Iter, dest: Struct, words: array<U32>, tag: nat, wt: nat,
                   field: Option<nat>, count: nat, ghost st: State)
    returns (ok: bool, field': Option<nat>, count': nat, ghost st': State)
    requires stream.Valid() && iter.Valid() && StaticTable(iter.start)
    requires Agrees(iter.start, st, dest, words, field, count)
    modifies stream, iter, dest, words
    ensures stream.Valid() && iter.Valid()
    ensures |st.msg| == |iter.start|
    ensures Reads(old(stream.At()), stream.At(), DecOne(iter.start, st, tag, wt, old(stream.Rest())), ok, st')
    ensures ok ==> Agrees(iter.start, st', dest, words, field', count')
    decreases iter.start, 5
  {
    hide Skip, FindField, DataOffset, SizeLocation, Indices, Holds;
    field', count', st' := field, count, st;
    var fs := iter.start;
    var found := iter.Find(tag);
    if !found {
      ok := SkipField(stream, wt);
      return;
    }
    if |fs| == 0 {
      ok := RefuseTerminator(stream);
      return;
    }
    ok, field', count', st' := DecodeFound(stream, fs, iter.pos, iter.requiredFieldIndex, dest, words, wt, field, count, st);
  }

  /** In an empty table the terminator is taken for an integer field of no width. */
  method RefuseTerminator(stream: IStream) returns (ok: bool)
    requires stream.Valid()
    modifies stream
    ensures stream.Valid() && Moves(old(stream.At()), stream.At(), None, ok)
  {
    var value;
    ok, value := DecodeVarint(stream);
    return false;
  }

  /** A known field, at entry i. */
  method DecodeFound(stream: IStream, fs: seq<Field>, i: nat, index: nat, dest: Struct, words: array<U32>, wt: nat,
                     field: Option<nat>, count: nat, ghost st: State)
    returns (ok: bool, field': Option<nat>, count': nat, ghost st': State)
    requires stream.Valid() && i < |fs| && index == RequiredBefore(fs, i) && StaticTable(fs)
    requires Agrees(fs, st, dest, words, field, count)
    modifies stream, dest, words
    ensures stream.Valid()
    ensures |st.msg| == |fs|
    ensures Reads(old(stream.At()), stream.At(), DecEntry(fs, st, i, wt, old(stream.Rest())), ok, st')
    ensures ok ==> Agrees(fs, st', dest, words, field', count')
    decreases fs, 4
  {
    hide DecField, Indices, Holds, Track;
    assert StaticField(fs[i]);
    hide StaticField;
    ok, field', count' := TrackFixed(fs, i, field, count);
    st' := st;
    if !ok {
      return;
    }
    NoteRequired(fs, i, index, words, st.seen);
    var j := SlotOf(fs, i);
    var e;
    ok, e := DecodeStaticField(stream, fs[i], Entry(dest.slots[j], count'), wt);
    if ok {
      dest.slots := dest.slots[j := e.slot];
      count' := e.fixedCount;
      st' := MarkSeen(fs, st.(fixed := field', fixedCount := count'), i).(msg := dest.slots);
    }
  }

  datatype Round = GoesOn | Ended | Failed

  /** One round of the field loop: a key and its payload. */
  method DecodeRound(stream: IStream, iter: Iter, dest: Struct, words: array<U32>,
                     field: Option<nat>, count: nat, ghost st: State)
    returns (round: Round, field': Option<nat>, count': nat, ghost st': State)
    requires stream.Valid() && stream.bytesLeft > 0 && iter.Valid() && StaticTable(iter.start)
    requires Agrees(iter.start, st, dest, words, field, count)
    modifies stream, iter, dest, words
    ensures stream.Valid() && iter.Valid() && |st.msg| == |iter.start|
    ensures stream.bytesLeft <= old(stream.bytesLeft)
    ensures Moves(old(stream.At()), stream.At(),
              if round.Failed? then None else Some(old(stream.bytesLeft) - stream.bytesLeft), !round.Failed?)
    ensures !round.Failed? ==> Agrees(iter.start, st', dest, words, field', count')
    ensures var r := DecLoop(iter.start, st, old(stream.Rest()));
            match round
            case Failed => r == RunFail
            case Ended => st' == st && r == Ran(st, old(stream.bytesLeft) - stream.bytesLeft, true)
            case GoesOn =>
              && stream.bytesLeft < old(stream.bytesLeft)
              && r == Shift(old(stream.bytesLeft) - stream.bytesLeft, DecLoop(iter.start, st', stream.Rest()))
    decreases iter.start, 6
  {
    hide DecOne, DecLoop, ReadKey, Indices, Holds, StaticTable, DataOffset, SizeLocation, RequiredBefore;
    ghost var fs, s := iter.start, stream.Rest();
    field', count', st' := field, count, st;
    RoundFails(fs, st, s);
    var ok, wt, tag, eof := DecodeTag(stream);
    if !ok {
      round := if eof then Ended else Failed;
      return;
    }
    ghost var payload := stream.Rest();
    ok, field', count', st' := DecodeOne(stream, iter, dest, words, tag, wt, field, count, st);
    if !ok {
      return Failed, field, count, st;
    }
    ghost var k := |payload| - stream.bytesLeft;
    RoundGoesOn(fs, st, s, st', k);
    assert stream.Rest() == payload[k..];
    round := GoesOn;
  }

  /**
   The field loop and the checks after it. The stream's remaining bytes decrease with every field,
   and a submessage is decoded on fewer bytes than the message that contains it.
   */
  method DecodeNoinit(stream: IStream, fs: seq<Field>, dest: Struct) returns (ok: bool)
    requires stream.Valid() && |dest.slots| == |fs| && StaticTable(fs)
    modifies stream, dest
    ensures stream.Valid()
    ensures Reads(old(stream.At()), stream.At(), DecMsg(fs, old(dest.slots), old(stream.Rest())), ok, dest.slots)
    decreases fs, 9
  {
    hide DecOne, DecLoop, Indices, Holds, StaticTable, WordsComplete, AllSeen, RequiredBefore, DataOffset, SizeLocation;
    ghost var a0 := stream.At();
    ghost var st := Start(dest.slots);
    ghost var whole := DecLoop(fs, st, stream.Rest());
    var words := new U32[2](_ => 0);
    var iter := new Iter(fs, 0);
    var field: Option<nat>, count: nat := None, 0;
    assert words[..] == [0, 0];
    EmptyHolds(fs);
    ghost var stopped := false;
    while stream.bytesLeft > 0
      invariant stream.Valid() && iter.Valid() && iter.start == fs
      invariant Agrees(fs, st, dest, words, field, count)
      invariant Moves(a0, stream.At(), Some(a0.left - stream.bytesLeft), true)
      invariant whole == Shift(a0.left - stream.bytesLeft, DecLoop(fs, st, stream.Rest()))
      decreases stream.bytesLeft
    {
      var round;
      round, field, count, st := DecodeRound(stream, iter, dest, words, field, count, st);
      if round.Failed? {
        return false;
      }
      if round.Ended? {
        stopped := true;
        break;
      }
    }
    if !stopped {
      LoopAtEnd(fs, st, stream.Rest());
    }
    assert whole == Ran(st, a0.left - stream.bytesLeft, stopped);
    if field.Some? && count != fs[field.value].arraySize {
      return false;
    }
    var required := CountRequired(iter);
    ok := CheckRequired(words, required);
    BitmapExact(fs, words[..], st.seen);
  }

  /** Sets the destination to defaults, then decodes into it. */
  method Decode(stream: IStream, fs: seq<Field>, dest: Struct) returns (ok: bool)
    requires stream.Valid() && |dest.slots| == |fs| && StaticTable(fs)
    modifies stream, dest
    ensures stream.Valid()
    ensures Reads(old(stream.At()), stream.At(), DecodeSpec.Decode(fs, old(stream.Rest())), ok, dest.slots)
  {
    hide DecMsg, Defaults, StaticTable;
    SetToDefaults(fs, dest);
    ok := DecodeNoinit(stream, fs, dest);
  }
}
