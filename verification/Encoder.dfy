/**
 The encoder's procedures, each proved to do to its stream what the encoding functions say.
 On a sizing stream they count the bytes that the same call on a buffer would write.
 */
module Encoder {
  import opened Bits
  import opened Outcomes
  import opened Varints
  import opened Descriptor
  import opened FieldIter
  import opened EncodeSpec
  import opened OutputStream

  // ----- integers -----

  /** The lowest seven bits of v, with the high bit set. */
  function LowGroup(v: nat): Byte {
    v % 128 + 128
  }

  function Shift7(v: nat): (r: nat)
    ensures r <= v
  {
    v / 128
  }

  /** The seven-bit groups of v, low first, all with the high bit set. */
  function Groups(v: nat): seq<Byte> {
    if v == 0 then [] else [LowGroup(v)] + Groups(Shift7(v))
  }

  lemma GroupsStep(v: nat)
    ensures Groups(v) == if v == 0 then [] else [LowGroup(v)] + Groups(Shift7(v))
    ensures v > 0 ==> Shift7(v) < v
  {
  }

  lemma {:induction false} GroupsOfVarint(v: nat)
    requires v > 0
    ensures var g, n := Groups(v), |Varint(v)|;
            |g| == n && g[n - 1] >= 128 && Varint(v) == g[..n - 1] + [g[n - 1] - 128]
  {
    var g := Groups(v);
    if v >= 128 {
      GroupsOfVarint(v / 128);
      var h := Groups(v / 128);
      assert g[..|g| - 1] == [v % 128 + 128] + h[..|h| - 1];
    } else {
      assert Groups(v / 128) == [];
    }
  }

  /** Unset the high bit of the last byte. */
  method ClearLast(buffer: array<Byte>, i: nat)
    requires 0 < i <= buffer.Length && buffer[i - 1] >= 128
    modifies buffer
    ensures buffer[..i] == old(buffer[..i - 1]) + [old(buffer[i - 1]) - 128]
  {
    buffer[i - 1] := buffer[i - 1] - 128;
  }

  lemma Regroup(filled: seq<Byte>, b: Byte, rest: seq<Byte>)
    ensures filled + ([b] + rest) == filled + [b] + rest
  {
  }

  /** Fills a ten-byte buffer low group first, then clears the last high bit. */
  method FillVarint(value: U64) returns (buffer: array<Byte>, i: nat)
    requires value > 0x7F
    ensures fresh(buffer) && i <= buffer.Length && buffer[..i] == Varint(value)
  {
    hide Varint, Groups, LowGroup, Shift7;
    buffer := new Byte[10];
    i := 0;
    var v: nat := value;
    VarintSize(value);
    GroupsOfVarint(value);
    while v != 0
      invariant i + |Groups(v)| <= 10
      invariant Groups(value) == buffer[..i] + Groups(v)
      invariant v == 0 ==> i > 0
      decreases v
    {
      ghost var filled := buffer[..i];
      GroupsStep(v);
      Regroup(filled, LowGroup(v), Groups(Shift7(v)));
      buffer[i] := LowGroup(v);
      assert buffer[..i + 1] == filled + [LowGroup(v)];
      v := Shift7(v);
      i := i + 1;
    }
    GroupsStep(0);
    assert buffer[..i] == Groups(value);
    ClearLast(buffer, i);
  }

  method EncodeVarint(stream: OStream, value: U64) returns (ok: bool)
    requires stream.Valid()
    modifies stream, stream.buf
    ensures stream.Valid() && Writes(old(stream.Now()), stream.Now(), Some(Varint(value)), ok)
  {
    hide Writes;
    ghost var v0 := stream.Now();
    if value <= 0x7F {
      ok := stream.Write([value]);
    } else {
      var buffer, i := FillVarint(value);
      ok := stream.Write(buffer[..i]);
    }
    WritesSound(v0, stream.Now(), Some(Varint(value)), ok);
  }

  method EncodeSvarint(stream: OStream, value: I64) returns (ok: bool)
    requires stream.Valid()
    modifies stream, stream.buf
    ensures stream.Valid() && Writes(old(stream.Now()), stream.Now(), Some(Varint(Zigzag(value))), ok)
  {
    var shifted: U64 := (2 * Unsigned(value, 8)) % 0x1_0000_0000_0000_0000;
    var zigzagged: U64 := if value < 0 then 0xFFFF_FFFF_FFFF_FFFF - shifted else shifted;
    ok := EncodeVarint(stream, zigzagged);
  }

  method EncodeFixed32(stream: OStream, val: U32) returns (ok: bool)
    requires stream.Valid()
    modifies stream, stream.buf
    ensures stream.Valid() && Writes(old(stream.Now()), stream.Now(), Some(LittleEndian(val, 4)), ok)
  {
    var bytes: seq<Byte> := [val % 256, val / 0x100 % 256, val / 0x1_0000 % 256, val / 0x100_0000 % 256];
    FourBytes(val, 0);
    assert bytes == LittleEndian(val, 4);
    ok := stream.Write(bytes);
  }

  lemma FourBytes(val: nat, k: nat)
    ensures LittleEndian(val, 4 + k)
         == [val % 256, val / 0x100 % 256, val / 0x1_0000 % 256, val / 0x100_0000 % 256] + LittleEndian(val / 0x1_0000_0000, k)
  {
    var v1 := val / 256;
    var v2 := v1 / 256;
    var v3 := v2 / 256;
    assert v2 == val / 0x1_0000 && v3 == val / 0x100_0000 && v3 / 256 == val / 0x1_0000_0000;
    assert LittleEndian(val, 4 + k) == [val % 256] + LittleEndian(v1, 3 + k);
    assert LittleEndian(v1, 3 + k) == [v1 % 256] + LittleEndian(v2, 2 + k);
    assert LittleEndian(v2, 2 + k) == [v2 % 256] + LittleEndian(v3, 1 + k);
    assert LittleEndian(v3, 1 + k) == [v3 % 256] + LittleEndian(v3 / 256, k);
  }

  lemma EightBytes(val: nat)
    ensures LittleEndian(val, 8)
         == [val % 256, val / 0x100 % 256, val / 0x1_0000 % 256, val / 0x100_0000 % 256,
             val / 0x1_0000_0000 % 256, val / 0x100_0000_0000 % 256, val / 0x1_0000_0000_0000 % 256, val / 0x100_0000_0000_0000 % 256]
  {
    var high := val / 0x1_0000_0000;
    FourBytes(val, 4);
    FourBytes(high, 0);
    assert LittleEndian(high / 0x1_0000_0000, 0) == [];
    hide LittleEndian;
    assert high / 0x100 == val / 0x100_0000_0000;
    assert high / 0x1_0000 == val / 0x1_0000_0000_0000;
    assert high / 0x100_0000 == val / 0x100_0000_0000_0000;
  }

  method EncodeFixed64(stream: OStream, val: U64) returns (ok: bool)
    requires stream.Valid()
    modifies stream, stream.buf
    ensures stream.Valid() && Writes(old(stream.Now()), stream.Now(), Some(LittleEndian(val, 8)), ok)
  {
    hide LittleEndian;
    var bytes: seq<Byte> :=
      [val % 256, val / 0x100 % 256, val / 0x1_0000 % 256, val / 0x100_0000 % 256,
       val / 0x1_0000_0000 % 256, val / 0x100_0000_0000 % 256, val / 0x1_0000_0000_0000 % 256, val / 0x100_0000_0000_0000 % 256];
    EightBytes(val);
    ok := stream.Write(bytes);
  }

  method EncodeTag(stream: OStream, wt: nat, fieldNumber: nat) returns (ok: bool)
    requires stream.Valid() && fieldNumber * 8 + wt < TWO_64
    modifies stream, stream.buf
    ensures stream.Valid() && Writes(old(stream.Now()), stream.Now(), Some(TagBytes(wt, fieldNumber)), ok)
  {
    ok := EncodeVarint(stream, fieldNumber * 8 + wt);
  }

  // ----- length-prefixed bytes -----

  method EncodeString(stream: OStream, bytes: seq<Byte>) returns (ok: bool)
    requires stream.Valid() && |bytes| < TWO_64
    modifies stream, stream.buf
    ensures stream.Valid() && Writes(old(stream.Now()), stream.Now(), Some(LenPrefixed(bytes)), ok)
  {
    hide Writes;
    ghost var v0 := stream.Now();
    ok := EncodeVarint(stream, |bytes|);
    ghost var v1 := stream.Now();
    if !ok {
      WritesFailed(v0, v1, Some(Varint(|bytes|)), Some(bytes));
      return;
    }
    ok := stream.Write(bytes);
    WritesJoin(v0, v1, stream.Now(), Varint(|bytes|), Some(bytes), ok);
  }

  lemma WritesSound(a: View, b: View, o: Out, ok: bool)
    requires Writes(a, b, o, ok)
    ensures Sound(a) && Sound(b)
  {
  }

  lemma CStringStep(b: seq<Byte>, size: nat, max: nat)
    requires size < max && size < |b| && b[size] != 0
    ensures b[..size] + CString(b[size..], max - size) == b[..size + 1] + CString(b[size + 1..], max - size - 1)
  {
  }

  /** The length of a string held in a buffer of the given size. */
  method StringLength(b: seq<Byte>, max: nat) returns (size: nat)
    ensures size <= |b| && b[..size] == CString(b, max)
  {
    size := 0;
    while size < max && size < |b| && b[size] != 0
      invariant size <= |b| && size <= max
      invariant CString(b, max) == b[..size] + CString(b[size..], max - size)
    {
      CStringStep(b, size, max);
      size := size + 1;
    }
  }

  // ----- the proto3 presence rule -----

  method CheckDefaultValue(f: Field, v: Val) returns (b: bool)
    ensures b == IsDefaultVal(f, v)
    decreases v, 2, 0
  {
    match f.ltype
    case LBytes => b := v.Blob? && |v.b| == 0;
    case LString => b := v.Blob? && (|v.b| == 0 || v.b[0] == 0);
    case LFixedLengthBytes => b := f.dataSize == 0;
    case LSubmessage =>
      if !v.Msg? { return false; }
      if !f.ptr.Sub? { return true; }
      if |v.slots| != |f.ptr.fields| { return false; }
      b := CheckDefaultFields(f.ptr.fields, v.slots);
    case LVarint => b := v.Num? && v.n == 0;
    case LUVarint => b := v.Num? && v.n == 0;
    case LSVarint => b := v.Num? && v.n == 0;
    case LFixed32 => b := v.Num? && v.n == 0;
    case LFixed64 => b := v.Num? && v.n == 0;
    case LExtension => b := v.Num? && v.n == 0;
  }

  /** Every entry of the nested struct, until one is present. */
  method CheckDefaultFields(fs: seq<Field>, m: seq<Slot>) returns (b: bool)
    requires |m| == |fs|
    ensures b == AllDefault(fs, m, 0)
    decreases m, 2, 1
  {
    var iter := new Iter(fs, 0);
    if fs == [] {
      return true;
    }
    var more := true;
    while more
      invariant iter.Valid() && iter.start == fs
      invariant more ==> AllDefault(fs, m, 0) == AllDefault(fs, m, iter.pos)
      invariant !more ==> AllDefault(fs, m, 0)
      decreases more, |fs| - iter.pos
    {
      var absent := CheckDefaultSlot(fs[iter.pos], m[SlotOf(fs, iter.pos)]);
      if !absent {
        return false;
      }
      ghost var at := iter.pos;
      more := iter.Next();
      assert AllDefault(fs, m, at) == AllDefault(fs, m, at + 1);
    }
    return true;
  }

  method CheckDefaultSlot(f: Field, slot: Slot) returns (b: bool)
    ensures b == IsDefaultSlot(f, slot)
    decreases slot, 2, 0
  {
    match f.htype
    case Required => b := false;
    case Optional =>
      if f.sizeOffset != 0 {
        b := slot.Opt? && !slot.has;
      } else if slot.Single? {
        b := CheckDefaultValue(f, slot.v);
      } else {
        b := false;
      }
    case Repeated =>
      if f.sizeOffset != 0 {
        b := slot.Rep? && |slot.items| == 0;
      } else {
        b := slot.Fixed? && FIRST_BYTES_ZERO(f, slot.items);
      }
    case Oneof => b := slot.Unset?;
  }

  // ----- what the caller has to provide -----

  /** A value of the field's type, whose submessages have sizes that size_t holds. */
  predicate Readable(f: Field, v: Val)
    decreases v, 0
  {
    && f.tag < TWO_32
    && f.dataSize < TWO_32
    && (Packable(f) ==> v.Num?)
    && (f.ltype == LSubmessage && f.ptr.Sub? ==>
          v.Msg? && |v.slots| == |f.ptr.fields| && ReadableMsg(f.ptr.fields, v.slots))
  }

  predicate ReadableItems(f: Field, items: seq<Val>)
    decreases items, 1
  {
    && f.tag < TWO_32
    && f.arraySize < TWO_32
    && (EncItems(f, items).Some? ==> |EncItems(f, items).value| < TWO_64)
    && forall k :: 0 <= k < |items| ==> Readable(f, items[k])
  }

  predicate ReadableSlot(f: Field, slot: Slot)
    decreases slot, 0
  {
    match slot
    case Single(v) => (Singular(f) && IsDefaultVal(f, v)) || Readable(f, v)
    case Opt(has, v) => has ==> Readable(f, v)
    case Rep(items) => ReadableItems(f, items)
    case Fixed(items) => ReadableItems(f, items)
    case Unset => true
    case Union(which, v) => which == f.tag ==> Readable(f, v)
    case Alias => true
  }

  predicate ReadableMsg(fs: seq<Field>, m: seq<Slot>)
    requires |m| == |fs|
    decreases m, 1
  {
    && (EncMsg(fs, m, 0).Some? ==> |EncMsg(fs, m, 0).value| < TWO_64)
    && forall i :: 0 <= i < |fs| ==> ReadableSlot(fs[i], m[SlotOf(fs, i)])
  }

  // ----- values -----

  /** The encoders that the table of function pointers selects. */
  method EncodeValue(stream: OStream, f: Field, v: Val) returns (ok: bool)
    requires stream.Valid() && Readable(f, v)
    modifies stream, stream.buf
    ensures stream.Valid() && Writes(old(stream.Now()), stream.Now(), EncVal(f, v), ok)
    decreases v, 2, 0
  {
    hide Varint, Zigzag, Signed, Unsigned, LittleEndian, LenPrefixed, CString, IntSize;
    UnsignedRange(if v.Num? then v.n else 0);
    match f.ltype
    case LVarint => ok := EncodeInt(stream, f, v);
    case LUVarint => ok := EncodeInt(stream, f, v);
    case LSVarint => ok := EncodeInt(stream, f, v);
    case LFixed32 => ok := EncodeFixed32(stream, Unsigned(v.n, 4));
    case LFixed64 => ok := EncodeFixed64(stream, Unsigned(v.n, 8));
    case LBytes =>
      if !v.Blob? || |v.b| + SIZE_WIDTH > f.dataSize {
        return false;
      }
      ok := EncodeString(stream, v.b);
    case LString =>
      if !v.Blob? {
        return false;
      }
      var size := StringLength(v.b, f.dataSize);
      ok := EncodeString(stream, v.b[..size]);
    case LFixedLengthBytes =>
      if !v.Blob? || |v.b| != f.dataSize {
        return false;
      }
      ok := EncodeString(stream, v.b);
    case LSubmessage =>
      if !f.ptr.Sub? {
        return false;
      }
      ok := EncodeSubmessage(stream, f, v);
    case LExtension => ok := false;
  }

  lemma WritesRefused(a: View)
    requires Sound(a)
    ensures Writes(a, a, None, false)
  {
  }

  method EncodeInt(stream: OStream, f: Field, v: Val) returns (ok: bool)
    requires stream.Valid() && v.Num? && f.ltype in {LVarint, LUVarint, LSVarint}
    modifies stream, stream.buf
    ensures stream.Valid() && Writes(old(stream.Now()), stream.Now(), EncVal(f, v), ok)
  {
    hide Varint, Zigzag, Writes;
    if !IntSize(f.dataSize) {
      WritesRefused(stream.Now());
      return false;
    }
    if f.ltype == LSVarint {
      ok := EncodeSvarint(stream, Signed(v.n, 8));
    } else {
      ok := EncodeVarint(stream, Unsigned(v.n, 8));
    }
  }

  /** What a substream wrote, seen from the stream it stands for. */
  lemma SubstreamWrites(a: View, b: View, size: nat, bs: seq<Byte>)
    requires Sound(a) && !a.sizing && a.written + size <= a.maxSize && |bs| == size
    requires Writes(View(false, size, a.buf, a.state, 0), b, Some(bs), true)
    ensures b.written == size
    ensures Writes(a, View(false, a.maxSize, b.buf, b.state, a.written + b.written), Some(bs), true)
  {
  }

  lemma SizingCounts(a: View, b: View, o: Out, ok: bool)
    requires Writes(a, b, o, ok) && a.sizing && a.written == 0
    ensures ok <==> o.Some?
    ensures ok ==> b.written == |o.value|
  {
  }

  lemma SubstreamFits(a: View, b: View, bs: seq<Byte>, ok: bool)
    requires Writes(a, b, Some(bs), ok) && !a.sizing && a.written == 0 && a.maxSize == |bs|
    ensures ok
  {
  }

  /** Refusing because the submessage does not fit. */
  lemma NoRoom(a: View, bs: seq<Byte>)
    requires Sound(a) && !a.sizing && a.written + |bs| > a.maxSize
    ensures Writes(a, a, Some(bs), false)
  {
  }

  /**
   Encodes twice: once to count, once to write. The second pass writes exactly the counted bytes, so
   neither its room nor its size check can fail.
   */
  method EncodeSubmessage(stream: OStream, f: Field, v: Val) returns (ok: bool)
    requires stream.Valid() && f.ltype == LSubmessage && f.ptr.Sub? && Readable(f, v)
    modifies stream, stream.buf
    ensures stream.Valid() && Writes(old(stream.Now()), stream.Now(), EncVal(f, v), ok)
    decreases v, 1
  {
    hide Writes, Varint, EncMsg, Sound;
    var fs, m := f.ptr.fields, v.slots;
    ghost var v0 := stream.Now();
    var counter := new OStream.Sizing();
    ghost var c0 := counter.Now();
    ok := EncodeMsg(counter, fs, m);
    SizingCounts(c0, counter.Now(), EncMsg(fs, m, 0), ok);
    assert stream.Now() == v0;
    if !ok {
      WritesRefused(v0);
      return;
    }
    var size := counter.bytesWritten;
    ghost var bs := EncMsg(fs, m, 0).value;
    ok := EncodeVarint(stream, size);
    ghost var v1 := stream.Now();
    if !ok {
      WritesFailed(v0, v1, Some(Varint(size)), Some(bs));
      return;
    }
    ok := EncodeBody(stream, fs, m, size);
    WritesJoin(v0, v1, stream.Now(), Varint(size), Some(bs), ok);
  }

  /** The submessage's bytes, after its size. */
  method EncodeBody(stream: OStream, fs: seq<Field>, m: seq<Slot>, size: nat) returns (ok: bool)
    requires stream.Valid() && |m| == |fs| && ReadableMsg(fs, m)
    requires EncMsg(fs, m, 0).Some? && |EncMsg(fs, m, 0).value| == size
    modifies stream, stream.buf
    ensures stream.Valid() && Writes(old(stream.Now()), stream.Now(), EncMsg(fs, m, 0), ok)
    decreases m, 3
  {
    hide Writes, EncMsg;
    ghost var bs := EncMsg(fs, m, 0).value;
    if stream.sizing {
      ok := stream.CountOnly(size, bs);
      return;
    }
    ghost var v1 := stream.Now();
    if stream.bytesWritten + size > stream.maxSize {
      NoRoom(v1, bs);
      return false;
    }
    var substream := new OStream.Over(stream.buf, stream.state, size);
    ghost var s0 := substream.Now();
    ok := EncodeMsg(substream, fs, m);
    SubstreamFits(s0, substream.Now(), bs, ok);
    SubstreamWrites(v1, substream.Now(), size, bs);
    stream.bytesWritten := stream.bytesWritten + substream.bytesWritten;
    stream.state := substream.state;
    WritesSound(v1, stream.Now(), Some(bs), true);
    if substream.bytesWritten != size {
      ok := false;
    }
  }

  // ----- keys, arrays, entries -----

  method EncodeTagForField(stream: OStream, f: Field) returns (ok: bool)
    requires stream.Valid() && f.tag < TWO_32
    modifies stream, stream.buf
    ensures stream.Valid() && Writes(old(stream.Now()), stream.Now(), Some(TagBytes(WireType(f.ltype), f.tag)), ok)
  {
    ok := EncodeTag(stream, WireType(f.ltype), f.tag);
  }

  method EncodeTagged(stream: OStream, f: Field, v: Val) returns (ok: bool)
    requires stream.Valid() && Readable(f, v)
    modifies stream, stream.buf
    ensures stream.Valid() && Writes(old(stream.Now()), stream.Now(), EncTagged(f, v), ok)
    decreases v, 2, 1
  {
    hide Writes, EncVal, TagBytes;
    ghost var v0, key := stream.Now(), TagBytes(WireType(f.ltype), f.tag);
    ok := EncodeTagForField(stream, f);
    ghost var v1 := stream.Now();
    if !ok {
      WritesFailed(v0, v1, Some(key), EncVal(f, v));
      return;
    }
    ok := EncodeValue(stream, f, v);
    WritesJoin(v0, v1, stream.Now(), key, EncVal(f, v), ok);
  }

  /** The values of a packed array, one after the other. */
  method EncodeItems(stream: OStream, f: Field, items: seq<Val>) returns (ok: bool)
    requires stream.Valid() && forall k :: 0 <= k < |items| ==> Readable(f, items[k])
    modifies stream, stream.buf
    ensures stream.Valid() && Writes(old(stream.Now()), stream.Now(), EncItems(f, items), ok)
    decreases items, 1
  {
    hide Writes, EncVal, Readable;
    ghost var v0 := stream.Now();
    ghost var done: seq<Byte> := [];
    WritesNothing(v0);
    JoinNothing(EncItems(f, items));
    for i := 0 to |items|
      invariant stream.Valid() && Writes(v0, stream.Now(), Some(done), true)
      invariant EncItems(f, items) == Join(Some(done), EncItems(f, items[i..]))
    {
      ghost var v1, head := stream.Now(), EncVal(f, items[i]);
      assert items[i..][1..] == items[i + 1..];
      ok := EncodeValue(stream, f, items[i]);
      WritesExtend(v0, v1, stream.Now(), done, head, EncItems(f, items[i + 1..]), ok);
      if !ok {
        return;
      }
      done := done + head.value;
    }
    JoinNothing(Some(done));
    return true;
  }

  lemma JoinNothing(o: Out)
    ensures Join(Some([]), o) == o && Join(o, Some([])) == o
  {
    if o.Some? {
      assert [] + o.value == o.value && o.value + [] == o.value;
    }
  }

  /** A loop that writes piece by piece: one more piece, with rest still to come. */
  lemma WritesExtend(a: View, b: View, c: View, done: seq<Byte>, head: Out, rest: Out, ok: bool)
    requires Writes(a, b, Some(done), true) && Writes(b, c, head, ok)
    ensures ok ==> head.Some? && Writes(a, c, Some(done + head.value), true)
    ensures ok ==> Join(Some(done), Join(head, rest)) == Join(Some(done + head.value), rest)
    ensures !ok ==> Writes(a, c, Join(Some(done), Join(head, rest)), false)
  {
    WritesJoin(a, b, c, done, head, ok);
    if ok {
      if rest.Some? {
        assert done + (head.value + rest.value) == done + head.value + rest.value;
      }
    } else {
      WritesFailed(a, c, Join(Some(done), head), rest);
      if head.Some? && rest.Some? {
        assert done + (head.value + rest.value) == done + head.value + rest.value;
      }
    }
  }

  /** Values with a key each. */
  method EncodeTaggedItems(stream: OStream, f: Field, items: seq<Val>) returns (ok: bool)
    requires stream.Valid() && forall k :: 0 <= k < |items| ==> Readable(f, items[k])
    modifies stream, stream.buf
    ensures stream.Valid() && Writes(old(stream.Now()), stream.Now(), EncTaggedItems(f, items), ok)
    decreases items, 1
  {
    hide Writes, EncTagged, Readable;
    ghost var v0 := stream.Now();
    ghost var done: seq<Byte> := [];
    WritesNothing(v0);
    JoinNothing(EncTaggedItems(f, items));
    for i := 0 to |items|
      invariant stream.Valid() && Writes(v0, stream.Now(), Some(done), true)
      invariant EncTaggedItems(f, items) == Join(Some(done), EncTaggedItems(f, items[i..]))
    {
      ghost var v1, head := stream.Now(), EncTagged(f, items[i]);
      assert items[i..][1..] == items[i + 1..];
      ok := EncodeTagged(stream, f, items[i]);
      WritesExtend(v0, v1, stream.Now(), done, head, EncTaggedItems(f, items[i + 1..]), ok);
      if !ok {
        return;
      }
      done := done + head.value;
    }
    JoinNothing(Some(done));
    return true;
  }

  /** The size of a packed array's body: by multiplication where the items have a fixed width. */
  method PackedSize(f: Field, items: seq<Val>) returns (ok: bool, size: nat)
    requires Packable(f) && forall k :: 0 <= k < |items| ==> Readable(f, items[k])
    ensures ok <==> EncItems(f, items).Some?
    ensures ok ==> size == |EncItems(f, items).value|
    decreases items, 2
  {
    if f.ltype == LFixed32 {
      FixedWidthItems(f, items, 4);
      return true, 4 * |items|;
    } else if f.ltype == LFixed64 {
      FixedWidthItems(f, items, 8);
      return true, 8 * |items|;
    }
    hide Writes, EncItems, Readable;
    var counter := new OStream.Sizing();
    ghost var c0 := counter.Now();
    ok := EncodeItems(counter, f, items);
    SizingCounts(c0, counter.Now(), EncItems(f, items), ok);
    size := counter.bytesWritten;
  }

  /** Size and body of a packed array. */
  method EncodePacked(stream: OStream, f: Field, items: seq<Val>) returns (ok: bool)
    requires stream.Valid() && Packable(f) && ReadableItems(f, items)
    modifies stream, stream.buf
    ensures stream.Valid()
    ensures Writes(old(stream.Now()), stream.Now(),
              match EncItems(f, items) case None => None case Some(b) => Some(LenPrefixed(b)), ok)
    decreases items, 3
  {
    hide Writes, EncItems, Readable, Varint;
    ghost var v0 := stream.Now();
    var size;
    ok, size := PackedSize(f, items);
    if !ok {
      WritesRefused(v0);
      return;
    }
    ghost var body := EncItems(f, items).value;
    ok := EncodeVarint(stream, size);
    ghost var v1 := stream.Now();
    if !ok {
      WritesFailed(v0, v1, Some(Varint(size)), Some(body));
      return;
    }
    if stream.sizing {
      ok := stream.CountOnly(size, body);
    } else {
      ok := EncodeItems(stream, f, items);
    }
    WritesJoin(v0, v1, stream.Now(), Varint(size), Some(body), ok);
  }

  method EncodeArray(stream: OStream, f: Field, items: seq<Val>) returns (ok: bool)
    requires stream.Valid() && ReadableItems(f, items)
    modifies stream, stream.buf
    ensures stream.Valid() && Writes(old(stream.Now()), stream.Now(), EncArray(f, items), ok)
    decreases items, 4
  {
    hide Writes, EncItems, EncTaggedItems, Readable, TagBytes, LenPrefixed;
    ghost var v0 := stream.Now();
    if |items| == 0 {
      WritesNothing(v0);
      return true;
    }
    if |items| > f.arraySize {
      WritesRefused(v0);
      return false;
    }
    if !Packable(f) {
      ok := EncodeTaggedItems(stream, f, items);
      return;
    }
    ghost var key := TagBytes(WT_STRING, f.tag);
    ghost var body := match EncItems(f, items) case None => None case Some(b) => Some(LenPrefixed(b));
    ok := EncodeTag(stream, WT_STRING, f.tag);
    ghost var v1 := stream.Now();
    if !ok {
      WritesFailed(v0, v1, Some(key), body);
      return;
    }
    ok := EncodePacked(stream, f, items);
    WritesJoin(v0, v1, stream.Now(), key, body, ok);
  }

  /** One descriptor entry, written if it is present. */
  method EncodeField(stream: OStream, f: Field, slot: Slot) returns (ok: bool)
    requires stream.Valid() && ReadableSlot(f, slot)
    modifies stream, stream.buf
    ensures stream.Valid() && Writes(old(stream.Now()), stream.Now(), EncField(f, slot), ok)
    decreases slot, 2, 0
  {
    hide Writes, EncTagged, EncArray, IsDefaultVal, ReadableItems, Readable;
    ghost var v0 := stream.Now();
    WritesNothing(v0);
    WritesRefused(v0);
    var present := false;
    match f.htype {
    case Required =>
      if !slot.Single? { return false; }
      present := true;
    case Optional =>
      if f.sizeOffset != 0 {
        if !slot.Opt? { return false; }
        present := slot.has;
      } else {
        if !slot.Single? { return false; }
        var absent := CheckDefaultValue(f, slot.v);
        present := !absent;
      }
    case Repeated =>
      if f.sizeOffset != 0 {
        if !slot.Rep? { return false; }
      } else {
        if !slot.Fixed? || |slot.items| != f.arraySize { return false; }
      }
      ok := EncodeArray(stream, f, slot.items);
      return;
    case Oneof =>
      present := slot.Union? && slot.which == f.tag;
    }
    if present {
      ok := EncodeTagged(stream, f, slot.v);
    } else {
      ok := true;
    }
  }

  // ----- messages -----

  lemma EncMsgStep(fs: seq<Field>, m: seq<Slot>, i: nat)
    requires |m| == |fs| && i <= |fs|
    ensures EncMsg(fs, m, i)
         == if i == |fs| then Some([]) else Join(EncField(fs[i], m[SlotOf(fs, i)]), EncMsg(fs, m, i + 1))
  {
  }

  /** Walks the descriptor table once and encodes every entry. */
  method EncodeMsg(stream: OStream, fs: seq<Field>, src: seq<Slot>) returns (ok: bool)
    requires stream.Valid() && |src| == |fs| && ReadableMsg(fs, src)
    modifies stream, stream.buf
    ensures stream.Valid() && Writes(old(stream.Now()), stream.Now(), EncMsg(fs, src, 0), ok)
    decreases src, 2
  {
    hide Writes, EncField, ReadableSlot, EncMsg, Join, DataOffset, SizeLocation, RequiredBefore, SlotOf;
    hide Sound, TagBytes, Readable, SizeMax;
    ghost var v0 := stream.Now();
    WritesNothing(v0);
    if |fs| == 0 {
      EncMsgStep(fs, src, 0);
      return true;
    }
    var iter := new Iter(fs, 0);
    ghost var done: seq<Byte>, at: nat := [], 0;
    var more := true;
    JoinNothing(EncMsg(fs, src, 0));
    while more
      invariant iter.Valid() && iter.start == fs
      invariant stream.Valid() && Writes(v0, stream.Now(), Some(done), true)
      invariant at <= |fs| && at == if more then iter.pos else |fs|
      invariant EncMsg(fs, src, 0) == Join(Some(done), EncMsg(fs, src, at))
      decreases |fs| - at
    {
      var slot := src[SlotOf(fs, iter.pos)];
      ghost var v1, head := stream.Now(), EncField(fs[iter.pos], slot);
      ok := EncodeField(stream, fs[iter.pos], slot);
      EncMsgStep(fs, src, at);
      WritesExtend(v0, v1, stream.Now(), done, head, EncMsg(fs, src, at + 1), ok);
      if !ok {
        return;
      }
      done := done + head.value;
      more := iter.Next();
      at := at + 1;
    }
    EncMsgStep(fs, src, at);
    JoinNothing(Some(done));
    return true;
  }

  /** The size that encoding into a buffer would take. */
  method GetEncodedSize(fs: seq<Field>, src: seq<Slot>) returns (ok: bool, size: nat)
    requires |src| == |fs| && ReadableMsg(fs, src)
    ensures ok <==> EncMsg(fs, src, 0).Some?
    ensures ok ==> size == |EncMsg(fs, src, 0).value|
  {
    var stream := new OStream.Sizing();
    ghost var v0 := stream.Now();
    ok := EncodeMsg(stream, fs, src);
    SizingCounts(v0, stream.Now(), EncMsg(fs, src, 0), ok);
    size := stream.bytesWritten;
  }
}
