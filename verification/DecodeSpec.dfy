/**
 What decoding a byte string into a struct yields: the new struct and the bytes consumed, or
 failure. Wire types are looked at only to skip unknown fields and to recognise packed arrays.
 */
module DecodeSpec {
  import opened Bits
  import opened Outcomes
  import opened Varints
  import opened Descriptor
  import opened EncodeSpec

  // ----- keys and skipping -----

  /** A key, or the zero byte that ends a message early. */
  datatype Key = BadKey | EndKey(n: nat) | Key(tag: nat, wt: nat, n: nat)

  function ReadKey(s: seq<Byte>): (k: Key)
    ensures !k.BadKey? ==> 1 <= k.n <= |s|
    ensures k.Key? ==> k.tag < MAX_TAG && k.wt < 8
  {
    match ReadVarint32(s)
    case Fail => BadKey
    case Done(v, n) => if v == 0 then EndKey(n) else Key(v / 8, v % 8, n)
  }

  /** Bytes of payload that an unknown field of the wire type occupies. */
  function Skip(wt: nat, s: seq<Byte>): (r: Option<nat>)
    ensures r.Some? ==> r.value <= |s|
  {
    if wt == WT_VARINT then
      var n := VarintLength(s);
      if n > 0 then Some(n) else None
    else if wt == WT_64BIT then
      if |s| >= 8 then Some(8) else None
    else if wt == WT_STRING then
      match ReadVarint32(s)
      case Fail => None
      case Done(len, n) => if n + len <= |s| then Some(n + len) else None
    else if wt == WT_32BIT then
      if |s| >= 4 then Some(4) else None
    else None
  }

  // ----- single values -----

  function FromLittleEndian(s: seq<Byte>): (n: nat) {
    if s == [] then 0 else s[0] + 256 * FromLittleEndian(s[1..])
  }

  /** A length prefix and as many bytes. */
  function ReadBlob(s: seq<Byte>): (p: Parse<seq<Byte>>)
    ensures p.Done? ==> 1 <= p.n <= |s|
  {
    match ReadVarint32(s)
    case Fail => Fail
    case Done(len, n) => if n + len <= |s| then Done(s[n..n + len], n + len) else Fail
  }

  /** Integers are cast to the field's size; a value that the cast changes is an error. */
  function CastRead(f: Field, u: U64): Option<int> {
    if !IntSize(f.dataSize) then None
    else
      match f.ltype
      case LVarint =>
        var v: int := Signed(u, if f.dataSize == 8 then 8 else 4);
        if Signed(v, f.dataSize) == v then Some(v) else None
      case LUVarint => if Unsigned(u, f.dataSize) == u then Some(u) else None
      case LSVarint =>
        var v: int := Unzigzag(u);
        if Signed(v, f.dataSize) == v then Some(v) else None
      case _ => None
  }

  function ReadInt(f: Field, s: seq<Byte>): (p: Parse<Val>)
    ensures p.Done? ==> 1 <= p.n <= |s|
  {
    match ReadVarint(s)
    case Fail => Fail
    case Done(u, n) =>
      match CastRead(f, u)
      case None => Fail
      case Some(v) => Done(Num(v), n)
  }

  /** Every type but submessages; what was in the item before does not matter. */
  function DecScalar(f: Field, s: seq<Byte>): (p: Parse<Val>)
    ensures p.Done? ==> 1 <= p.n <= |s|
  {
    match f.ltype
    case LVarint => ReadInt(f, s)
    case LUVarint => ReadInt(f, s)
    case LSVarint => ReadInt(f, s)
    case LFixed32 => if |s| < 4 then Fail else Done(Num(FromLittleEndian(s[..4])), 4)
    case LFixed64 => if |s| < 8 then Fail else Done(Num(FromLittleEndian(s[..8])), 8)
    case LBytes =>
      (match ReadBlob(s)
       case Fail => Fail
       case Done(b, n) => if |b| > SizeMax() || |b| + SIZE_WIDTH > f.dataSize then Fail else Done(Blob(b), n))
    case LString =>
      (match ReadBlob(s)
       case Fail => Fail
       case Done(b, n) =>
         if |b| == 0xFFFF_FFFF || |b| + 1 > f.dataSize then Fail else Done(Blob(CString(b, |b|)), n))
    case LFixedLengthBytes =>
      (match ReadVarint32(s)
       case Fail => Fail
       case Done(len, n) =>
         if len > SizeMax() then Fail
         else if len == 0 then Done(Blob(Zeros(f.dataSize)), n)
         else if len != f.dataSize || n + len > |s| then Fail
         else Done(Blob(s[n..n + len]), n + len))
    case LSubmessage => Fail
    case LExtension => Fail
  }

  /** A value written over old; only a nested struct keeps anything of what was there. */
  function DecVal(f: Field, before: Val, s: seq<Byte>): (p: Parse<Val>)
    ensures p.Done? ==> 1 <= p.n <= |s|
    decreases |s|, 0, 0
  {
    if f.ltype != LSubmessage then DecScalar(f, s)
    else
      match ReadVarint32(s)
      case Fail => Fail
      case Done(len, n) =>
        if n + len > |s| || !f.ptr.Sub? then Fail
        else
          var fs := f.ptr.fields;
          var start := if f.htype == Repeated then DefaultVal(f) else before;
          if !start.Msg? || |start.slots| != |fs| then Fail
          else
            match DecMsg(fs, start.slots, s[n..n + len])
            case Fail => Fail
            case Done(m, _) => Done(Msg(m), n + len)
  }

  // ----- entries -----

  /** Element count of an array is written; elements after it keep their content. */
  function WriteAt(items: seq<Val>, count: nat, v: Val): (r: seq<Val>)
    ensures count <= |items| ==> |r| >= count + 1 && r[..count] == items[..count] && r[count] == v
  {
    if count < |items| then items[count := v] else items + [v]
  }

  datatype Elements = Elements(items: seq<Val>, count: nat)

  /** The body of a packed array: it has to be used up exactly when the array is not overfull. */
  function DecPacked(f: Field, e: Elements, s: seq<Byte>): Option<Elements>
    decreases |s|
  {
    if s == [] then Some(e)
    else if e.count >= f.arraySize then None
    else
      match DecScalar(f, s)
      case Fail => None
      case Done(v, n) => DecPacked(f, Elements(WriteAt(e.items, e.count, v), e.count + 1), s[n..])
  }

  function DecElements(f: Field, e: Elements, wt: nat, s: seq<Byte>): (p: Parse<Elements>)
    ensures p.Done? ==> 1 <= p.n <= |s|
    decreases |s|, 0, 1
  {
    if wt == WT_STRING && Packable(f) then
      match ReadBlob(s)
      case Fail => Fail
      case Done(b, n) =>
        match DecPacked(f, e, b)
        case None => Fail
        case Some(e') => Done(e', n)
    else if e.count >= f.arraySize then Fail
    else
      match DecVal(f, DefaultVal(f), s)
      case Fail => Fail
      case Done(v, n) => Done(Elements(WriteAt(e.items, e.count, v), e.count + 1), n)
  }

  /** What was in a slot that holds one value. */
  function OldVal(slot: Slot): Val {
    match slot
    case Single(v) => v
    case Opt(_, v) => v
    case _ => Num(0)
  }

  /** A slot, and the running count of the fixed-count array being received. */
  datatype Entry = Entry(slot: Slot, fixedCount: nat)

  function DecField(f: Field, e: Entry, wt: nat, s: seq<Byte>): (p: Parse<Entry>)
    ensures p.Done? ==> 1 <= p.n <= |s|
    decreases |s|, 0, 2
  {
    match f.htype
    case Required =>
      (match DecVal(f, OldVal(e.slot), s)
       case Fail => Fail
       case Done(v, n) => Done(e.(slot := Single(v)), n))
    case Optional =>
      (match DecVal(f, OldVal(e.slot), s)
       case Fail => Fail
       case Done(v, n) => Done(e.(slot := if f.sizeOffset != 0 then Opt(true, v) else Single(v)), n))
    case Oneof =>
      (match DecVal(f, DefaultVal(f), s)
       case Fail => Fail
       case Done(v, n) => Done(e.(slot := Union(f.tag, v)), n))
    case Repeated =>
      if f.sizeOffset != 0 then
        if !e.slot.Rep? then Fail
        else
          match DecElements(f, Elements(e.slot.items, |e.slot.items|), wt, s)
          case Fail => Fail
          case Done(r, n) => Done(e.(slot := Rep(r.items)), n)
      else
        if !e.slot.Fixed? then Fail
        else
          match DecElements(f, Elements(e.slot.items, e.fixedCount), wt, s)
          case Fail => Fail
          case Done(r, n) => Done(Entry(Fixed(r.items), r.count), n)
  }

  // ----- messages -----

  /** The struct, the required entries seen, and the fixed-count array being received with its count. */
  datatype State = State(msg: seq<Slot>, seen: set<nat>, fixed: Option<nat>, fixedCount: nat)

  function Start(m: seq<Slot>): State {
    State(m, {}, None, 0)
  }

  /** The fixed-count array received last, if any, is full. */
  predicate FixedDone(fs: seq<Field>, st: State) {
    st.fixed.Some? ==> st.fixed.value < |fs| && st.fixedCount == fs[st.fixed.value].arraySize
  }

  /** A fixed-count array may begin only after the previous one is full. */
  function Track(fs: seq<Field>, st: State, i: nat): (r: Option<State>)
    requires i < |fs|
    ensures r.Some? ==> r.value.msg == st.msg && r.value.seen == st.seen
  {
    if !FixedArray(fs[i]) || st.fixed == Some(i) then Some(st)
    else if FixedDone(fs, st) then Some(st.(fixed := Some(i), fixedCount := 0))
    else None
  }

  function MarkSeen(fs: seq<Field>, st: State, i: nat): State
    requires i < |fs|
  {
    if fs[i].htype == Required then st.(seen := st.seen + {i}) else st
  }

  /** A known field. */
  function DecEntry(fs: seq<Field>, st: State, i: nat, wt: nat, s: seq<Byte>): (p: Parse<State>)
    requires |st.msg| == |fs| && i < |fs|
    ensures p.Done? ==> |p.val.msg| == |fs| && 1 <= p.n <= |s|
    decreases |s|, 1, 0
  {
    match Track(fs, st, i)
    case None => Fail
    case Some(st0) =>
      var st1 := MarkSeen(fs, st0, i);
      var j := SlotOf(fs, i);
      match DecField(fs[i], Entry(st1.msg[j], st1.fixedCount), wt, s)
      case Fail => Fail
      case Done(e, n) => Done(st1.(msg := st1.msg[j := e.slot], fixedCount := e.fixedCount), n)
  }

  /** The payload of one field, known or not. In an empty table the terminator answers to tag 0. */
  function DecOne(fs: seq<Field>, st: State, tag: nat, wt: nat, s: seq<Byte>): (p: Parse<State>)
    requires |st.msg| == |fs|
    ensures p.Done? ==> |p.val.msg| == |fs| && p.n <= |s|
    decreases |s|, 1, 1
  {
    match FindField(fs, tag)
    case Some(i) => DecEntry(fs, st, i, wt, s)
    case None =>
      if fs == [] && tag == 0 then Fail
      else
        match Skip(wt, s)
        case None => Fail
        case Some(n) => Done(st, n)
  }

  datatype Run = RunFail | Ran(st: State, n: nat, stopped: bool)

  /** The field loop: it ends with the data, or is stopped by a zero key. */
  function DecLoop(fs: seq<Field>, st: State, s: seq<Byte>): (r: Run)
    requires |st.msg| == |fs|
    ensures r.Ran? ==> |r.st.msg| == |fs| && r.n <= |s|
    ensures r.Ran? && !r.stopped ==> r.n == |s|
    decreases |s|, 2, 0
  {
    if s == [] then Ran(st, 0, false)
    else
      match ReadKey(s)
      case BadKey => RunFail
      case EndKey(n) => Ran(st, n, true)
      case Key(tag, wt, n) =>
        match DecOne(fs, st, tag, wt, s[n..])
        case Fail => RunFail
        case Done(st', k) => Shift(n + k, DecLoop(fs, st', s[n + k..]))
  }

  function Shift(n: nat, r: Run): Run {
    if r.Ran? then r.(n := n + r.n) else RunFail
  }

  /** Whether required entry i is among those whose presence is checked. */
  predicate Checked(fs: seq<Field>, i: nat)
    requires i < |fs|
  {
    fs[i].htype == Required && RequiredBefore(fs, i) < MAX_REQUIRED_FIELDS
  }

  predicate AllSeen(fs: seq<Field>, seen: set<nat>) {
    forall i :: 0 <= i < |fs| && Checked(fs, i) ==> i in seen
  }

  /** The two checks after the loop. */
  predicate Complete(fs: seq<Field>, st: State) {
    FixedDone(fs, st) && AllSeen(fs, st.seen)
  }

  /** Decoding into an initialised struct. */
  function DecMsg(fs: seq<Field>, m: seq<Slot>, s: seq<Byte>): (p: Parse<seq<Slot>>)
    requires |m| == |fs|
    ensures p.Done? ==> |p.val| == |fs| && p.n <= |s|
    decreases |s|, 2, 1
  {
    match DecLoop(fs, Start(m), s)
    case RunFail => Fail
    case Ran(st, n, _) => if Complete(fs, st) then Done(st.msg, n) else Fail
  }

  /** Decoding into a struct that is set to defaults first. */
  function Decode(fs: seq<Field>, s: seq<Byte>): (p: Parse<seq<Slot>>)
    ensures p.Done? ==> |p.val| == |fs| && p.n <= |s|
  {
    DecMsg(fs, Defaults(fs), s)
  }
}
