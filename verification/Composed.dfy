/** The procedures put together: a message sized, written into a buffer of that size, and read back. */
module Composed {
  import opened Bits
  import opened Outcomes
  import opened Descriptor
  import opened EncodeSpec
  import opened DecodeSpec
  import opened Scalars
  import opened Chunks
  import opened RoundTrip
  import opened OutputStream
  import opened Encoder
  import opened InputStream
  import opened Decoder

  // ----- a well-formed message meets what the encoder asks of its caller -----

  lemma {:induction false} ValReadable(f: Field, v: Val)
    requires FieldOk(f) && ValOk(f, v) && EncVal(f, v).Some? && |EncVal(f, v).value| < TWO_64
    ensures Readable(f, v)
    decreases v, 1
  {
    if f.ltype == LSubmessage {
      MessageReadable(f.ptr.fields, v.slots);
    }
  }

  lemma {:induction false} ItemsReadable(f: Field, items: seq<Val>)
    requires FieldOk(f) && forall k :: 0 <= k < |items| ==> ValOk(f, items[k])
    requires EncTaggedItems(f, items).Some? && |EncTaggedItems(f, items).value| < TWO_64
    ensures forall k :: 0 <= k < |items| ==> Readable(f, items[k])
    ensures EncItems(f, items).Some? ==> |EncItems(f, items).value| < TWO_64
    ensures EncItems(f, items).Some? ==> |EncItems(f, items).value| <= |EncTaggedItems(f, items).value|
    decreases items, 0
  {
    hide FieldOk, ValOk, EncVal, Readable;
    if items != [] {
      ValReadable(f, items[0]);
      ItemsReadable(f, items[1..]);
      forall k | 0 <= k < |items|
        ensures Readable(f, items[k])
      {
        if k > 0 { assert items[k] == items[1..][k - 1]; }
      }
    }
  }

  lemma {:induction false} NumbersReadable(f: Field, items: seq<Val>)
    requires FieldOk(f) && Packable(f) && forall k :: 0 <= k < |items| ==> ValOk(f, items[k])
    ensures forall k :: 0 <= k < |items| ==> Readable(f, items[k])
  {
    forall k | 0 <= k < |items|
      ensures Readable(f, items[k])
    {
      assert ValOk(f, items[k]);
    }
  }

  lemma {:induction false} ArrayReadable(f: Field, items: seq<Val>)
    requires FieldOk(f) && forall k :: 0 <= k < |items| ==> ValOk(f, items[k])
    requires EncArray(f, items).Some? && |EncArray(f, items).value| < TWO_64
    ensures ReadableItems(f, items)
    decreases items, 1
  {
    hide EncVal, TagBytes, LenPrefixed, FieldsOk, MsgOk, Readable, ValOk, EncTaggedItems;
    assert f.tag < TWO_32 && f.arraySize < TWO_32;
    if items == [] {
      assert EncItems(f, items) == Some([]);
    } else if Packable(f) {
      NumbersReadable(f, items);
      BlobSize(EncItems(f, items).value);
    } else {
      ItemsReadable(f, items);
    }
  }

  lemma {:induction false} SlotReadable(fs: seq<Field>, i: nat, slot: Slot)
    requires FieldsOk(fs) && i < |fs| && SlotOk(fs, SlotOf(fs, i), slot)
    requires EncField(fs[i], slot).Some? && |EncField(fs[i], slot).value| < TWO_64
    ensures ReadableSlot(fs[i], slot)
    decreases slot, 2
  {
    var f := fs[i];
    assert FieldOk(f);
    SlotOfIdempotent(fs, i);
    FoundField(fs, i);
    hide FieldsOk, FieldOk, ValOk, EncVal, EncArray, Readable, ReadableItems, IsDefaultVal, TagBytes;
    match f.htype
    case Required => ValReadable(f, slot.v);
    case Optional =>
      if (if f.sizeOffset != 0 then slot.has else !IsDefaultVal(f, slot.v)) {
        ValReadable(f, slot.v);
      }
    case Repeated => ArrayReadable(f, slot.items);
    case Oneof =>
      if slot.Union? && slot.which == f.tag {
        ValReadable(f, slot.v);
      }
  }

  lemma {:induction false} EntryWithin(fs: seq<Field>, m: seq<Slot>, k: nat, i: nat)
    requires |m| == |fs| && k <= i < |fs| && EncMsg(fs, m, k).Some?
    ensures EncField(fs[i], m[SlotOf(fs, i)]).Some?
    ensures |EncField(fs[i], m[SlotOf(fs, i)]).value| <= |EncMsg(fs, m, k).value|
    decreases i - k
  {
    hide EncField, SlotOf;
    if k < i {
      EntryWithin(fs, m, k + 1, i);
    }
  }

  /** A well-formed message whose encoding has a size that size_t holds can be given to the encoder. */
  lemma {:induction false} MessageReadable(fs: seq<Field>, m: seq<Slot>)
    requires FieldsOk(fs) && MsgOk(fs, m)
    requires EncMsg(fs, m, 0).Some? && |EncMsg(fs, m, 0).value| < TWO_64
    ensures ReadableMsg(fs, m)
    decreases m, 3
  {
    hide FieldsOk, SlotOk, EncMsg, EncField, ReadableSlot;
    forall i | 0 <= i < |fs|
      ensures ReadableSlot(fs[i], m[SlotOf(fs, i)])
    {
      assert SlotOk(fs, SlotOf(fs, i), m[SlotOf(fs, i)]);
      EntryWithin(fs, m, 0, i);
      SlotReadable(fs, i, m[SlotOf(fs, i)]);
    }
  }

  // ----- sizing, then writing -----

  /** On a buffer of the size that sizing finds, writing cannot run out of room. */
  method EncodeToFit(fs: seq<Field>, src: seq<Slot>) returns (ok: bool, buffer: array<Byte>)
    requires |src| == |fs| && ReadableMsg(fs, src)
    ensures fresh(buffer)
    ensures ok <==> EncMsg(fs, src, 0).Some?
    ensures ok ==> buffer[..] == EncMsg(fs, src, 0).value
  {
    hide EncMsg, ReadableMsg;
    var size;
    ok, size := GetEncodedSize(fs, src);
    buffer := new Byte[if ok then size else 0];
    if !ok {
      return;
    }
    var stream := new OStream.Over(buffer, 0, size);
    ok := EncodeMsg(stream, fs, src);
    assert stream.state == size;
    assert buffer[0..size] == buffer[..];
  }

  /** What is read back is the message in normal form, whatever the destination held. */
  method SendAndReceive(fs: seq<Field>, src: seq<Slot>, dest: Struct) returns (ok: bool)
    requires FieldsOk(fs) && MsgOk(fs, src) && |dest.slots| == |fs|
    requires EncMsg(fs, src, 0).Some? && |EncMsg(fs, src, 0).value| < TWO_32
    modifies dest
    ensures ok && dest.slots == NormMsg(fs, src)
  {
    hide EncMsg, DecMsg, NormMsg, Defaults, ReadableMsg, FieldsOk, MsgOk, StaticTable;
    MsgLength(fs, src);
    MessageReadable(fs, src);
    MessageRoundTrip(fs, src);
    TableStatic(fs);
    var buffer;
    ok, buffer := EncodeToFit(fs, src);
    var stream := new IStream(buffer, 0, buffer.Length);
    assert stream.Rest() == EncMsg(fs, src, 0).value;
    ok := Decoder.Decode(stream, fs, dest);
  }

  lemma TableStatic(fs: seq<Field>)
    requires FieldsOk(fs)
    ensures StaticTable(fs)
  {
  }
}
