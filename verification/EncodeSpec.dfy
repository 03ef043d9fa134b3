/** The bytes that encoding a message produces, or None when the encoder reports an error. */
module EncodeSpec {
  import opened Bits
  import opened Outcomes
  import opened Varints
  import opened Descriptor

  type Out = Option<seq<Byte>>

  const WT_VARINT := 0
  const WT_64BIT := 1
  const WT_STRING := 2
  const WT_32BIT := 5

  function WireType(l: LType): (wt: nat)
    ensures wt < 8
  {
    match l
    case LVarint => WT_VARINT
    case LUVarint => WT_VARINT
    case LSVarint => WT_VARINT
    case LFixed32 => WT_32BIT
    case LFixed64 => WT_64BIT
    case _ => WT_STRING
  }

  function Join(a: Out, b: Out): Out {
    if a.Some? && b.Some? then Some(a.value + b.value) else None
  }

  function TagBytes(wt: nat, tag: nat): seq<Byte> {
    Varint(tag * 8 + wt)
  }

  function LenPrefixed(b: seq<Byte>): seq<Byte> {
    Varint(|b|) + b
  }

  function LittleEndian(n: nat, k: nat): (s: seq<Byte>)
    ensures |s| == k
  {
    if k == 0 then [] else [n % 256] + LittleEndian(n / 256, k - 1)
  }

  /** The bytes before the first NUL, at most max of them. */
  function CString(b: seq<Byte>, max: nat): (s: seq<Byte>)
    ensures |s| <= |b| && |s| <= max && s == b[..|s|] && 0 !in s
    ensures |s| < max && |s| < |b| ==> b[|s|] == 0
  {
    if b == [] || max == 0 || b[0] == 0 then [] else [b[0]] + CString(b[1..], max - 1)
  }

  // ----- the proto3 presence rule -----

  /** Whether a proto3 value counts as absent. */
  predicate IsDefaultVal(f: Field, v: Val)
    decreases v, 2, 0
  {
    match f.ltype
    case LBytes => v.Blob? && v.b == []
    case LString => v.Blob? && (v.b == [] || v.b[0] == 0)
    case LFixedLengthBytes => f.dataSize == 0
    case LSubmessage => v.Msg? && (f.ptr.Sub? ==> |v.slots| == |f.ptr.fields| && AllDefault(f.ptr.fields, v.slots, 0))
    case _ => v.Num? && v.n == 0
  }

  /** Whether one entry of a nested struct counts as absent. */
  predicate IsDefaultSlot(f: Field, slot: Slot)
    decreases slot, 2, 0
  {
    match f.htype
    case Required => false
    case Optional => if f.sizeOffset != 0 then slot.Opt? && !slot.has else slot.Single? && IsDefaultVal(f, slot.v)
    case Repeated =>
      if f.sizeOffset != 0 then slot == Rep([]) else slot.Fixed? && FIRST_BYTES_ZERO(f, slot.items)
    case Oneof => slot == Unset
  }

  predicate AllDefault(fs: seq<Field>, m: seq<Slot>, i: nat)
    requires |m| == |fs| && i <= |fs|
    decreases m, 2, |fs| - i
  {
    i < |fs| ==> IsDefaultSlot(fs[i], m[SlotOf(fs, i)]) && AllDefault(fs, m, i + 1)
  }

  // ----- writing -----

  function EncVal(f: Field, v: Val): Out
    decreases v, 2, 0
  {
    match f.ltype
    case LVarint => if v.Num? && IntSize(f.dataSize) then Some(Varint(Unsigned(v.n, 8))) else None
    case LUVarint => if v.Num? && IntSize(f.dataSize) then Some(Varint(Unsigned(v.n, 8))) else None
    case LSVarint => if v.Num? && IntSize(f.dataSize) then Some(Varint(Zigzag(Signed(v.n, 8)))) else None
    case LFixed32 => if v.Num? then Some(LittleEndian(Unsigned(v.n, 4), 4)) else None
    case LFixed64 => if v.Num? then Some(LittleEndian(Unsigned(v.n, 8), 8)) else None
    case LBytes => if v.Blob? && |v.b| + SIZE_WIDTH <= f.dataSize then Some(LenPrefixed(v.b)) else None
    case LString => if v.Blob? then Some(LenPrefixed(CString(v.b, f.dataSize))) else None
    case LFixedLengthBytes => if v.Blob? && |v.b| == f.dataSize then Some(LenPrefixed(v.b)) else None
    case LSubmessage =>
      if v.Msg? && f.ptr.Sub? && |v.slots| == |f.ptr.fields| then
        match EncMsg(f.ptr.fields, v.slots, 0)
        case None => None
        case Some(b) => Some(LenPrefixed(b))
      else None
    case LExtension => None
  }

  /** A key and one value. */
  function EncTagged(f: Field, v: Val): Out
    decreases v, 2, 1
  {
    Join(Some(TagBytes(WireType(f.ltype), f.tag)), EncVal(f, v))
  }

  /** Values one after the other, as in the body of a packed array. */
  function EncItems(f: Field, items: seq<Val>): Out
    decreases items, 1
  {
    if items == [] then Some([]) else Join(EncVal(f, items[0]), EncItems(f, items[1..]))
  }

  /** A key before every value. */
  function EncTaggedItems(f: Field, items: seq<Val>): Out
    decreases items, 1
  {
    if items == [] then Some([]) else Join(EncTagged(f, items[0]), EncTaggedItems(f, items[1..]))
  }

  function EncArray(f: Field, items: seq<Val>): Out
    decreases items, 2
  {
    if items == [] then Some([])
    else if |items| > f.arraySize then None
    else if Packable(f) then
      match EncItems(f, items)
      case None => None
      case Some(b) => Some(TagBytes(WT_STRING, f.tag) + LenPrefixed(b))
    else EncTaggedItems(f, items)
  }

  /** One descriptor entry. */
  function EncField(f: Field, slot: Slot): Out
    decreases slot, 2, 0
  {
    match f.htype
    case Required => if slot.Single? then EncTagged(f, slot.v) else None
    case Optional =>
      if f.sizeOffset != 0 then
        if !slot.Opt? then None else if slot.has then EncTagged(f, slot.v) else Some([])
      else
        if !slot.Single? then None else if IsDefaultVal(f, slot.v) then Some([]) else EncTagged(f, slot.v)
    case Repeated =>
      if f.sizeOffset != 0 then
        if slot.Rep? then EncArray(f, slot.items) else None
      else
        if slot.Fixed? && |slot.items| == f.arraySize then EncArray(f, slot.items) else None
    case Oneof => if slot.Union? && slot.which == f.tag then EncTagged(f, slot.v) else Some([])
  }

  /** The entries from i on, in table order. */
  function EncMsg(fs: seq<Field>, m: seq<Slot>, i: nat): Out
    requires |m| == |fs| && i <= |fs|
    decreases m, 2, |fs| - i
  {
    if i == |fs| then Some([]) else Join(EncField(fs[i], m[SlotOf(fs, i)]), EncMsg(fs, m, i + 1))
  }

  // ----- packed bodies of fixed-width items -----

  predicate AllNums(items: seq<Val>) {
    forall k :: 0 <= k < |items| ==> items[k].Num?
  }

  /** Fixed-width items take their width each, so multiplying gives the size of a packed body. */
  lemma {:induction false} FixedWidthItems(f: Field, items: seq<Val>, w: nat)
    requires (f.ltype == LFixed32 && w == 4) || (f.ltype == LFixed64 && w == 8)
    requires AllNums(items)
    ensures EncItems(f, items).Some? && |EncItems(f, items).value| == w * |items|
  {
    if items != [] {
      assert items[0].Num? && AllNums(items[1..]);
      FixedWidthItems(f, items[1..], w);
    }
  }
}
