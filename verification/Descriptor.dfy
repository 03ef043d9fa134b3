/** Field descriptor tables and the message structs they describe. */
module Descriptor {
  import opened Bits
  import opened Outcomes

  // ----- build configuration -----

  type SizeWidth = n: int | n == 1 || n == 2 || n == 4 witness 1

  /** sizeof(pb_size_t), fixed when the library is built: 1, 2 or 4. */
  const SIZE_WIDTH: SizeWidth

  /** sizeof(void*) on the target. */
  const POINTER_SIZE: nat

  /** The largest value of pb_size_t. */
  function SizeMax(): nat {
    if SIZE_WIDTH == 1 then 0xFF else if SIZE_WIDTH == 2 then 0xFFFF else 0xFFFF_FFFF
  }

  const MAX_REQUIRED_FIELDS := 64

  // ----- descriptors -----

  datatype LType =
    | LVarint | LUVarint | LSVarint | LFixed32 | LFixed64
    | LBytes | LString | LSubmessage | LExtension | LFixedLengthBytes

  datatype HType = Required | Optional | Repeated | Oneof

  datatype AType = Static | Pointer | Callback

  /** What the last word of a descriptor points at. */
  datatype Ptr = Null | Sub(fields: seq<Field>) | Default(value: Val)

  datatype Field = Field(
    tag: nat,
    ltype: LType,
    htype: HType,
    atype: AType,
    dataOffset: nat,
    sizeOffset: int,
    dataSize: nat,
    arraySize: nat,
    ptr: Ptr)

  // ----- message structs -----

  /** The content of one data item: an integer, the readable bytes of a string or bytes item, or a nested struct. */
  datatype Val = Num(n: int) | Blob(b: seq<Byte>) | Msg(slots: seq<Slot>)

  /**
   The storage behind one descriptor entry. A Fixed slot lists the elements that have been written.
   The members of a union share the slot of the first of them; the other entries are Alias.
   */
  datatype Slot =
    | Single(v: Val)
    | Opt(has: bool, v: Val)
    | Rep(items: seq<Val>)
    | Fixed(items: seq<Val>)
    | Unset
    | Union(which: nat, v: Val)
    | Alias

  // ----- classification -----

  predicate Packable(f: Field) {
    f.ltype in {LVarint, LUVarint, LSVarint, LFixed32, LFixed64}
  }

  /** An array without a count field in the struct. */
  predicate FixedArray(f: Field) {
    f.htype == Repeated && f.sizeOffset == 0
  }

  /** A proto3 field: optional without a has_ flag in the struct. */
  predicate Singular(f: Field) {
    f.htype == Optional && f.sizeOffset == 0
  }

  /** Whether cur shares its storage with the entry before it. */
  predicate SameUnion(prev: Field, cur: Field) {
    prev.htype == Oneof && cur.htype == Oneof && cur.dataOffset == SizeMax()
  }

  /** The entry that owns the storage of entry i. */
  function SlotOf(fs: seq<Field>, i: nat): (j: nat)
    requires i < |fs|
    ensures j <= i
    ensures j != i ==> fs[j].htype == Oneof
  {
    if i == 0 || !SameUnion(fs[i - 1], fs[i]) then i else SlotOf(fs, i - 1)
  }

  lemma {:induction false} SlotOfIdempotent(fs: seq<Field>, i: nat)
    requires i < |fs|
    ensures SlotOf(fs, SlotOf(fs, i)) == SlotOf(fs, i)
    ensures fs[i].htype != Oneof ==> SlotOf(fs, i) == i
  {
    if i > 0 && SameUnion(fs[i - 1], fs[i]) {
      SlotOfIdempotent(fs, i - 1);
    }
  }

  /** The number of required entries before entry i. */
  function RequiredBefore(fs: seq<Field>, i: nat): (r: nat)
    requires i <= |fs|
    ensures r <= i
  {
    if i == 0 then 0
    else RequiredBefore(fs, i - 1) + if fs[i - 1].htype == Required then 1 else 0
  }

  // ----- lookup by tag -----

  predicate Matches(f: Field, tag: nat) {
    f.tag == tag && f.ltype != LExtension
  }

  /** The first entry with the tag, at or after index i. */
  function FindFrom(fs: seq<Field>, tag: nat, i: nat): (r: Option<nat>)
    requires i <= |fs|
    ensures r.Some? ==> i <= r.value < |fs| && Matches(fs[r.value], tag)
    ensures r.None? ==> forall k :: i <= k < |fs| ==> !Matches(fs[k], tag)
    decreases |fs| - i
  {
    if i == |fs| then None
    else if Matches(fs[i], tag) then Some(i)
    else FindFrom(fs, tag, i + 1)
  }

  function FindField(fs: seq<Field>, tag: nat): (r: Option<nat>)
    ensures r.Some? ==> r.value < |fs| && Matches(fs[r.value], tag)
    ensures r.None? ==> forall k :: 0 <= k < |fs| ==> !Matches(fs[k], tag)
  {
    FindFrom(fs, tag, 0)
  }

  predicate DistinctTags(fs: seq<Field>) {
    forall i, j :: 0 <= i < j < |fs| ==> fs[i].tag != fs[j].tag
  }

  // ----- default contents -----

  function Zeros(n: nat): (s: seq<Byte>) {
    seq(n, _ => 0)
  }

  /** The content of a data item whose bytes are all zero. */
  function ZeroVal(f: Field): Val
    decreases f, 1
  {
    if f.ltype == LSubmessage then Msg(if f.ptr.Sub? then ZeroSlots(f.ptr.fields) else [])
    else if f.ltype == LFixedLengthBytes then Blob(Zeros(f.dataSize))
    else if f.ltype == LBytes || f.ltype == LString then Blob([])
    else Num(0)
  }

  function ZeroSlot(f: Field): Slot
    decreases f, 2
  {
    match f.htype
    case Required => Single(ZeroVal(f))
    case Optional => if f.sizeOffset != 0 then Opt(false, ZeroVal(f)) else Single(ZeroVal(f))
    case Repeated => if f.sizeOffset != 0 then Rep([]) else Fixed(seq(f.arraySize, _ => ZeroVal(f)))
    case Oneof => Unset
  }

  function ZeroSlots(fs: seq<Field>): seq<Slot>
    decreases fs
  {
    seq(|fs|, i requires 0 <= i < |fs| => if SlotOf(fs, i) == i then ZeroSlot(fs[i]) else Alias)
  }

  function Min(a: nat, b: nat): nat {
    if a <= b then a else b
  }

  /** The elements of an array that lie within its first sizeof(pb_size_t) bytes. */
  function CoveredCount(f: Field): (n: nat)
    ensures n <= f.arraySize
  {
    if f.dataSize == 0 then f.arraySize else Min(f.arraySize, SIZE_WIDTH / f.dataSize)
  }

  type NestedCount = count: Field -> nat | forall f: Field :: CoveredCount(f) <= count(f) <= f.arraySize
    witness (f: Field) => f.arraySize

  /**
   How many elements of an array of nested structs have their content settled when the first
   sizeof(pb_size_t) bytes are zero; that depends on the layout of the struct, as for one that begins
   with the count of an array and holds nothing else.
   */
  const NESTED_COUNT: NestedCount

  /**
   A fixed-count array has no count to reset, but the decoder zeroes as many bytes as one would take,
   at the start of the array. This is the number of elements whose content that settles: a string ends
   at a zero byte, and a bytes item begins with its size.
   */
  function ZeroedCount(f: Field): (n: nat)
    ensures n <= f.arraySize
  {
    if f.ltype == LSubmessage then NESTED_COUNT(f)
    else if f.ltype == LBytes && f.dataSize > 0 then Min(f.arraySize, 1)
    else if f.ltype == LString && f.dataSize > 0 then Min(f.arraySize, (SIZE_WIDTH + f.dataSize - 1) / f.dataSize)
    else CoveredCount(f)
  }

  /** What initialising a data item leaves in it. */
  function DefaultVal(f: Field): Val
    decreases f, 1
  {
    if f.ltype == LSubmessage then Msg(if f.ptr.Sub? then Defaults(f.ptr.fields) else [])
    else if f.ptr.Default? then f.ptr.value
    else if f.ltype == LFixedLengthBytes then Blob(Zeros(f.dataSize))
    else if f.ltype == LBytes || f.ltype == LString then Blob([])
    else Num(0)
  }

  /** What initialising an entry leaves in its slot. */
  function DefaultSlot(f: Field): Slot
    decreases f, 2
  {
    match f.htype
    case Required => Single(DefaultVal(f))
    case Optional => if f.sizeOffset != 0 then Opt(false, DefaultVal(f)) else Single(DefaultVal(f))
    case Repeated => if f.sizeOffset != 0 then Rep([]) else Fixed(seq(ZeroedCount(f), _ => ZeroVal(f)))
    case Oneof => Unset
  }

  /** The struct after pb_message_set_to_defaults. */
  function Defaults(fs: seq<Field>): (m: seq<Slot>)
    ensures |m| == |fs|
    decreases fs
  {
    seq(|fs|, i requires 0 <= i < |fs| => if SlotOf(fs, i) == i then DefaultSlot(fs[i]) else Alias)
  }

  // ----- well-formed descriptors -----

  const MAX_TAG := 0x2000_0000

  /** Static storage, and a tag that is not the terminator's; so for nested tables. */
  predicate StaticField(f: Field)
    decreases f, 0
  {
    && f.tag > 0
    && f.atype == Static
    && f.ltype != LExtension
    && (f.ltype == LSubmessage && f.ptr.Sub? ==> StaticTable(f.ptr.fields))
  }

  /** What the decoder needs of a table: entries of its own kind, told apart by their tags. */
  predicate StaticTable(fs: seq<Field>)
    decreases fs
  {
    && DistinctTags(fs)
    && forall i :: 0 <= i < |fs| ==> StaticField(fs[i])
  }

  /** A descriptor that the field macros can produce and the wire format can carry. */
  predicate FieldOk(f: Field)
    decreases f, 0
  {
    && StaticField(f)
    && f.tag < MAX_TAG
    && f.dataSize <= SizeMax() && f.arraySize <= SizeMax()
    && (f.ltype in {LVarint, LUVarint, LSVarint} ==> IntSize(f.dataSize))
    && (f.ltype == LSubmessage ==> f.ptr.Sub? && FieldsOk(f.ptr.fields))
    && (f.htype == Oneof ==> f.sizeOffset != 0)
  }

  predicate FieldsOk(fs: seq<Field>)
    decreases fs
  {
    && DistinctTags(fs)
    && forall i :: 0 <= i < |fs| ==> FieldOk(fs[i])
  }

  // ----- well-formed messages -----

  /** A value that fits the field, with strings NUL-terminated inside their buffer. */
  predicate ValOk(f: Field, v: Val)
    decreases v, 0
  {
    match f.ltype
    case LVarint => v.Num? && FitsSigned(v.n, f.dataSize)
    case LUVarint => v.Num? && FitsUnsigned(v.n, f.dataSize)
    case LSVarint => v.Num? && FitsSigned(v.n, f.dataSize)
    case LFixed32 => v.Num? && 0 <= v.n < 0x1_0000_0000
    case LFixed64 => v.Num? && 0 <= v.n < 0x1_0000_0000_0000_0000
    case LBytes => v.Blob? && |v.b| <= SizeMax()
    case LString => v.Blob? && 0 !in v.b && |v.b| < f.dataSize
    case LFixedLengthBytes => v.Blob? && |v.b| == f.dataSize
    case LSubmessage => v.Msg? && f.ptr.Sub? && MsgOk(f.ptr.fields, v.slots)
    case LExtension => false
  }

  /** Slot i of a message holds what entry i describes. */
  predicate SlotOk(fs: seq<Field>, i: nat, slot: Slot)
    requires i < |fs|
    decreases slot, 0
  {
    if SlotOf(fs, i) != i then slot == Alias
    else
      var f := fs[i];
      match f.htype
      case Required => slot.Single? && ValOk(f, slot.v)
      case Optional =>
        if f.sizeOffset != 0 then slot.Opt? && (slot.has ==> ValOk(f, slot.v))
        else slot.Single? && ValOk(f, slot.v)
      case Repeated =>
        if f.sizeOffset != 0 then slot.Rep? && forall k :: 0 <= k < |slot.items| ==> ValOk(f, slot.items[k])
        else slot.Fixed? && |slot.items| == f.arraySize && forall k :: 0 <= k < |slot.items| ==> ValOk(f, slot.items[k])
      case Oneof =>
        slot == Unset
        || (slot.Union? && match FindField(fs, slot.which)
                           case None => false
                           case Some(k) => SlotOf(fs, k) == i && fs[k].htype == Oneof && ValOk(fs[k], slot.v))
  }

  predicate MsgOk(fs: seq<Field>, m: seq<Slot>)
    decreases m, 1
  {
    && |m| == |fs|
    && forall i :: 0 <= i < |fs| ==> SlotOk(fs, i, m[i])
  }

  lemma MsgLength(fs: seq<Field>, m: seq<Slot>)
    requires MsgOk(fs, m)
    ensures |m| == |fs|
  {
  }

  // ----- the message itself, with unset optional fields at their defaults -----

  function WholeVal(f: Field, v: Val): Val
    decreases v, 1
  {
    if f.ltype == LSubmessage && f.ptr.Sub? && v.Msg? && |v.slots| == |f.ptr.fields|
    then Msg(WholeMsg(f.ptr.fields, v.slots))
    else v
  }

  function WholeItems(f: Field, items: seq<Val>): (r: seq<Val>)
    ensures |r| == |items|
    decreases items, 0
  {
    if items == [] then [] else [WholeVal(f, items[0])] + WholeItems(f, items[1..])
  }

  function WholeSlot(fs: seq<Field>, i: nat, slot: Slot): Slot
    requires i < |fs|
    decreases slot, 0
  {
    match slot
    case Single(v) => Single(WholeVal(fs[i], v))
    case Opt(has, v) => Opt(has, if has then WholeVal(fs[i], v) else DefaultVal(fs[i]))
    case Rep(items) => Rep(WholeItems(fs[i], items))
    case Fixed(items) => Fixed(WholeItems(fs[i], items))
    case Unset => Unset
    case Union(which, v) =>
      (match FindField(fs, which)
       case None => slot
       case Some(k) => Union(which, WholeVal(fs[k], v)))
    case Alias => Alias
  }

  function WholeMsg(fs: seq<Field>, m: seq<Slot>): (r: seq<Slot>)
    requires |m| == |fs|
    ensures |r| == |fs|
    decreases m, 1
  {
    seq(|m|, i requires 0 <= i < |m| => WholeSlot(fs, i, m[i]))
  }

  // ----- the first bytes of a fixed-count array -----

  /** Elements that the bytes looked at settle are zero, as far as they are set. */
  predicate BeginsWithZeros(f: Field, items: seq<Val>) {
    forall k :: 0 <= k < |items| && k < ZeroedCount(f) ==> WholeVal(f, items[k]) == WholeVal(f, ZeroVal(f))
  }

  /** A test of the first sizeof(pb_size_t) bytes of an array of well-formed elements. */
  type ZeroTest = test: (Field, seq<Val>) -> bool |
    forall f: Field, items: seq<Val> :: test(f, items) && (forall k :: 0 <= k < |items| ==> ValOk(f, items[k])) ==> BeginsWithZeros(f, items)
    witness (f: Field, items: seq<Val>) => false

  /**
   Whether the first sizeof(pb_size_t) bytes of an array's storage are zero. That depends on the byte
   order and the layout of the element type, which are fixed when the struct is compiled.
   */
  const FIRST_BYTES_ZERO: ZeroTest
}
