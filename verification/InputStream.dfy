/** Input streams over a memory buffer, the substreams they lend out, and the varint readers. */
module InputStream {
  import opened Bits
  import opened Outcomes
  import opened Varints
  import opened EncodeSpec
  import opened DecodeSpec

  /** Where a stream is, and how many bytes it may still read. */
  datatype Cursor = Cursor(state: nat, left: nat)

  /**
   What a reading call does: it succeeds exactly when n says so, and has then consumed n bytes with
   the end of the stream where it was. No outcome moves backwards or past that end.
   */
  predicate Moves(a: Cursor, b: Cursor, n: Option<nat>, ok: bool) {
    && a.state <= b.state && b.state + b.left <= a.state + a.left
    && (ok <==> n.Some?)
    && (ok ==> n.value <= a.left && b == Cursor(a.state + n.value, a.left - n.value))
  }

  function Used<T>(p: Parse<T>): Option<nat> {
    if p.Done? then Some(p.n) else None
  }

  class IStream {
    const buf: array<Byte>
    var state: nat
    var bytesLeft: nat

    ghost function At(): Cursor
      reads this
    {
      Cursor(state, bytesLeft)
    }

    ghost predicate Valid()
      reads this
    {
      state + bytesLeft <= buf.Length
    }

    /** The bytes still to be read. */
    ghost function Rest(): (s: seq<Byte>)
      requires Valid()
      reads this, buf
      ensures |s| == bytesLeft
    {
      buf[state..state + bytesLeft]
    }

    constructor (buffer: array<Byte>, position: nat, size: nat)
      requires position + size <= buffer.Length
      ensures buf == buffer && At() == Cursor(position, size) && Valid()
    {
      buf, state, bytesLeft := buffer, position, size;
    }

    method ReadByte() returns (ok: bool, b: Byte)
      requires Valid()
      modifies this
      ensures Valid()
      ensures Moves(old(At()), At(), if old(Rest()) != [] then Some(1) else None, ok)
      ensures !ok ==> At() == old(At())
      ensures ok ==> b == old(Rest())[0] && Rest() == old(Rest())[1..]
    {
      if bytesLeft == 0 {
        return false, 0;
      }
      b := buf[state];
      state := state + 1;
      bytesLeft := bytesLeft - 1;
      return true, b;
    }

    /** Reads count bytes; reading them nowhere skips them. */
    method Read(count: nat) returns (ok: bool, bytes: seq<Byte>)
      requires Valid()
      modifies this
      ensures Valid()
      ensures Moves(old(At()), At(), if count <= |old(Rest())| then Some(count) else None, ok)
      ensures !ok ==> At() == old(At())
      ensures ok ==> bytes == old(Rest())[..count] && Rest() == old(Rest())[count..]
    {
      if bytesLeft < count {
        return false, [];
      }
      bytes := buf[state..state + count];
      state := state + count;
      bytesLeft := bytesLeft - count;
      return true, bytes;
    }
  }

  // ----- varints -----

  /** The 32-bit reader; eof says that the stream was at its end. */
  method DecodeVarint32Eof(stream: IStream) returns (ok: bool, dest: U32, eof: bool)
    requires stream.Valid()
    modifies stream
    ensures stream.Valid()
    ensures Moves(old(stream.At()), stream.At(), Used(ReadVarint32(old(stream.Rest()))), ok)
    ensures ok ==> dest == ReadVarint32(old(stream.Rest())).val
    ensures ok ==> stream.Rest() == old(stream.Rest())[ReadVarint32(old(stream.Rest())).n..]
    ensures eof <==> old(stream.Rest()) == []
  {
    hide Or32, ShiftLeft32, Overflows32;
    ghost var s0 := stream.Rest();
    dest, eof := 0, false;
    var byte;
    ok, byte := stream.ReadByte();
    if !ok {
      return false, 0, true;
    }
    if byte < 128 {
      return true, byte, false;
    }
    var bitpos: nat, result: U32 := 7, byte % 128;
    ghost var used := 1;
    while byte >= 128
      invariant stream.Valid() && 1 <= used <= |s0| && stream.Rest() == s0[used..]
      invariant stream.At() == Cursor(old(stream.state) + used, old(stream.bytesLeft) - used)
      invariant byte == s0[used - 1] && bitpos < 256
      invariant byte >= 128 ==> ReadVarint32(s0) == Later(used, Varint32Loop(s0[used..], bitpos, result))
      invariant byte < 128 ==> ReadVarint32(s0) == if bitpos == 35 && byte / 16 % 8 != 0 then Fail else Done(result, used)
      decreases stream.bytesLeft
    {
      ghost var tail := s0[used..];
      ok, byte := stream.ReadByte();
      if !ok {
        return;
      }
      assert tail[1..] == s0[used + 1..];
      if bitpos >= 32 {
        if Overflows32(byte, bitpos, result) {
          return false, 0, false;
        }
      } else {
        result := Or32(result, ShiftLeft32(byte % 128, bitpos));
      }
      bitpos := (bitpos + 7) % 256;
      used := used + 1;
    }
    if bitpos == 35 && byte / 16 % 8 != 0 {
      return false, 0, false;
    }
    return true, result, false;
  }

  method DecodeVarint32(stream: IStream) returns (ok: bool, dest: U32)
    requires stream.Valid()
    modifies stream
    ensures stream.Valid()
    ensures Moves(old(stream.At()), stream.At(), Used(ReadVarint32(old(stream.Rest()))), ok)
    ensures ok ==> dest == ReadVarint32(old(stream.Rest())).val
    ensures ok ==> stream.Rest() == old(stream.Rest())[ReadVarint32(old(stream.Rest())).n..]
  {
    var eof;
    ok, dest, eof := DecodeVarint32Eof(stream);
  }

  lemma {:induction false} VarintLengthAt(s: seq<Byte>, n: nat)
    requires n <= |s| && forall k :: 0 <= k < n ==> s[k] >= 128
    ensures n < |s| && s[n] < 128 ==> VarintLength(s) == n + 1
    ensures n == |s| ==> VarintLength(s) == 0
    ensures VarintLength(s) == 0 || VarintLength(s) > n
  {
    if n > 0 {
      VarintLengthAt(s[1..], n - 1);
    }
  }

  lemma {:induction false} Base128Snoc(s: seq<Byte>, b: Byte)
    ensures Base128(s + [b]) == Base128(s) + (b % 128) * Pow2(7 * |s|)
  {
    if s == [] {
      assert [b][1..] == [];
      assert [] + [b] == [b];
    } else {
      assert (s + [b])[1..] == s[1..] + [b];
      Base128Snoc(s[1..], b);
      Pow2Add(7, 7 * |s[1..]|);
      assert Pow2(7) == 128;
      var p, d := Pow2(7 * |s[1..]|), b % 128;
      assert d * (128 * p) == 128 * (d * p);
    }
  }

  lemma {:induction false} Base128Bound(s: seq<Byte>)
    ensures Base128(s) < Pow2(7 * |s|)
  {
    if s != [] {
      Base128Bound(s[1..]);
      Pow2Add(7, 7 * |s[1..]|);
      assert Pow2(7) == 128;
    }
  }

  function ShiftLeft64(x: nat, k: nat): U64 {
    (x * Pow2(k)) % 0x1_0000_0000_0000_0000
  }

  lemma OrStepLow(read: seq<Byte>, b: Byte)
    requires |read| < 9
    ensures Base128(read) < TWO_64 && Base128(read + [b]) < TWO_64
    ensures Or64(Base128(read), ShiftLeft64(b % 128, 7 * |read|)) == Base128(read + [b])
  {
    hide Pow2, ShiftLeft64, Or64, Base128;
    Pow2Table();
    Base128Snoc(read, b);
    Base128Bound(read);
    Base128Bound(read + [b]);
    Pow2Monotone(7 * |read|, 63);
    Pow2Monotone(7 * |read| + 7, 63);
    OrShift64(Base128(read), b % 128, 7 * |read|);
  }

  lemma OrStepTenth(read: seq<Byte>, b: Byte)
    requires |read| == 9
    ensures Base128(read) < 0x8000_0000_0000_0000
    ensures Or64(Base128(read), ShiftLeft64(b % 128, 63)) == Base128(read + [b]) % 0x1_0000_0000_0000_0000
  {
    hide Pow2, ShiftLeft64, Or64, Base128;
    Pow2Table();
    Base128Snoc(read, b);
    Base128Bound(read);
    TenthByte(b % 128, Base128(read));
    OrShift64(Base128(read), b % 128 % 2, 63);
  }

  /** One step of the 64-bit loop: an or of disjoint bits, cut off at bit 64 in the tenth byte. */
  lemma OrStep64(read: seq<Byte>, b: Byte)
    requires |read| <= 9
    ensures var r: U64 := Base128(read) % 0x1_0000_0000_0000_0000;
            Or64(r, ShiftLeft64(b % 128, 7 * |read|)) == Base128(read + [b]) % 0x1_0000_0000_0000_0000
  {
    hide Pow2, ShiftLeft64, Or64, Base128;
    if |read| < 9 {
      OrStepLow(read, b);
    } else {
      OrStepTenth(read, b);
    }
  }

  lemma OrShift64(low: U64, d: nat, k: nat)
    requires low < Pow2(k) && low + d * Pow2(k) < 0x1_0000_0000_0000_0000
    ensures Or64(low, ShiftLeft64(d, k)) == low + d * Pow2(k)
  {
    BitOrDisjoint(low, d, k);
    assert d * Pow2(k) >= 0;
  }

  lemma TenthByte(d: nat, low: nat)
    requires low < 0x8000_0000_0000_0000
    ensures ShiftLeft64(d, 63) == ShiftLeft64(d % 2, 63)
    ensures (low + d * 0x8000_0000_0000_0000) % 0x1_0000_0000_0000_0000 == low + d % 2 * 0x8000_0000_0000_0000
  {
    Pow2Table();
    assert d * 0x8000_0000_0000_0000 == d / 2 * 0x1_0000_0000_0000_0000 + d % 2 * 0x8000_0000_0000_0000;
  }

  function Or64(a: U64, b: U64): U64 {
    Pow2Table();
    BitOrBound(a, b, 64);
    BitOr(a, b)
  }

  /** Where the 64-bit reader stops, and with what. */
  lemma ReadVarintAt(s: seq<Byte>, n: nat)
    requires n <= |s| && forall k :: 0 <= k < n ==> s[k] >= 128
    ensures n < MAX_VARINT && n < |s| && s[n] < 128 ==>
            ReadVarint(s) == Done(Base128(s[..n + 1]) % 0x1_0000_0000_0000_0000, n + 1)
    ensures n >= MAX_VARINT || n == |s| ==> ReadVarint(s) == Fail
  {
    VarintLengthAt(s, n);
  }

  /** The loop of the 64-bit reader after some bytes, all of which said that more follow. */
  ghost predicate Midway(s0: seq<Byte>, used: nat, bitpos: nat, byte: Byte, result: U64) {
    && used <= |s0| && used <= 10 && bitpos == 7 * used
    && (forall k :: 0 <= k < used - 1 ==> s0[k] >= 128)
    && byte == (if used > 0 then s0[used - 1] else 128)
    && result == Base128(s0[..used]) % 0x1_0000_0000_0000_0000
  }

  lemma MidwayStart(s0: seq<Byte>)
    ensures Midway(s0, 0, 0, 128, 0)
  {
  }

  lemma MidwayStep(s0: seq<Byte>, used: nat, bitpos: nat, byte: Byte, result: U64)
    requires Midway(s0, used, bitpos, byte, result) && byte >= 128 && bitpos < 64 && used < |s0|
    ensures Midway(s0, used + 1, bitpos + 7, s0[used], Or64(result, ShiftLeft64(s0[used] % 128, bitpos)))
  {
    hide Or64, ShiftLeft64, Base128;
    OrStep64(s0[..used], s0[used]);
    assert s0[..used + 1] == s0[..used] + [s0[used]];
  }

  lemma MidwayEnds(s0: seq<Byte>, used: nat, bitpos: nat, byte: Byte, result: U64)
    requires Midway(s0, used, bitpos, byte, result)
    ensures byte < 128 ==> ReadVarint(s0) == Done(result, used)
    ensures byte >= 128 && (bitpos >= 64 || used == |s0|) ==> ReadVarint(s0) == Fail
  {
    hide ReadVarint, Base128;
    if byte >= 128 {
      ReadVarintAt(s0, used);
    } else {
      ReadVarintAt(s0, used - 1);
    }
  }

  /** The 64-bit reader. */
  method DecodeVarint(stream: IStream) returns (ok: bool, dest: U64)
    requires stream.Valid()
    modifies stream
    ensures stream.Valid()
    ensures Moves(old(stream.At()), stream.At(), Used(ReadVarint(old(stream.Rest()))), ok)
    ensures ok ==> dest == ReadVarint(old(stream.Rest())).val
    ensures ok ==> stream.Rest() == old(stream.Rest())[ReadVarint(old(stream.Rest())).n..]
  {
    hide Or64, ShiftLeft64, ReadVarint, Midway;
    ghost var s0 := stream.Rest();
    var bitpos: nat, result: U64, byte: Byte := 0, 0, 128;
    ghost var used: nat := 0;
    MidwayStart(s0);
    while byte >= 128
      invariant stream.Valid() && used <= |s0| && stream.Rest() == s0[used..]
      invariant stream.At() == Cursor(old(stream.state) + used, old(stream.bytesLeft) - used)
      invariant Midway(s0, used, bitpos, byte, result)
      decreases stream.bytesLeft, if byte >= 128 then 1 else 0
    {
      MidwayEnds(s0, used, bitpos, byte, result);
      if bitpos >= 64 {
        return false, 0;
      }
      ghost var tail, last := s0[used..], byte;
      ok, byte := stream.ReadByte();
      if !ok {
        return false, 0;
      }
      MidwayStep(s0, used, bitpos, last, result);
      assert tail[1..] == s0[used + 1..];
      result := Or64(result, ShiftLeft64(byte % 128, bitpos));
      bitpos := bitpos + 7;
      used := used + 1;
    }
    MidwayEnds(s0, used, bitpos, byte, result);
    return true, result;
  }

  method DecodeSvarint(stream: IStream) returns (ok: bool, dest: I64)
    requires stream.Valid()
    modifies stream
    ensures stream.Valid()
    ensures Moves(old(stream.At()), stream.At(), Used(ReadVarint(old(stream.Rest()))), ok)
    ensures ok ==> dest == Unzigzag(ReadVarint(old(stream.Rest())).val)
    ensures ok ==> stream.Rest() == old(stream.Rest())[ReadVarint(old(stream.Rest())).n..]
  {
    var value;
    ok, value := DecodeVarint(stream);
    dest := Signed(if value % 2 == 1 then 0xFFFF_FFFF_FFFF_FFFF - value / 2 else value / 2, 8);
  }

  // ----- keys and skipping -----

  method DecodeTag(stream: IStream) returns (ok: bool, wt: nat, tag: nat, eof: bool)
    requires stream.Valid()
    modifies stream
    ensures stream.Valid()
    ensures var k := ReadKey(old(stream.Rest()));
            && (ok <==> k.Key?)
            && (eof <==> k.EndKey? || old(stream.Rest()) == [])
            && Moves(old(stream.At()), stream.At(), if k.BadKey? then None else Some(k.n), ok || k.EndKey?)
            && (ok ==> tag == k.tag && wt == k.wt && stream.Rest() == old(stream.Rest())[k.n..])
  {
    hide ReadVarint32;
    var temp;
    wt, tag := 0, 0;
    ok, temp, eof := DecodeVarint32Eof(stream);
    if !ok {
      return;
    }
    if temp == 0 {
      return false, 0, 0, true;
    }
    tag := temp / 8;
    wt := temp % 8;
  }

  method SkipVarint(stream: IStream) returns (ok: bool)
    requires stream.Valid()
    modifies stream
    ensures stream.Valid()
    ensures Moves(old(stream.At()), stream.At(), Skip(WT_VARINT, old(stream.Rest())), ok)
    ensures ok ==> stream.Rest() == old(stream.Rest())[VarintLength(old(stream.Rest()))..]
  {
    hide VarintLength;
    ghost var s0 := stream.Rest();
    ghost var used := 0;
    var byte := 128;
    while byte >= 128
      invariant stream.Valid() && used <= |s0| && stream.Rest() == s0[used..]
      invariant stream.At() == Cursor(old(stream.state) + used, old(stream.bytesLeft) - used)
      invariant forall k :: 0 <= k < used - 1 ==> s0[k] >= 128
      invariant used > 0 ==> byte == s0[used - 1]
      invariant used == 0 ==> byte == 128
      decreases stream.bytesLeft, if byte >= 128 then 1 else 0
    {
      VarintLengthAt(s0, used);
      var bytes;
      ok, bytes := stream.Read(1);
      if !ok {
        return;
      }
      byte := bytes[0];
      used := used + 1;
    }
    VarintLengthAt(s0, used - 1);
    return true;
  }

  method SkipString(stream: IStream) returns (ok: bool)
    requires stream.Valid()
    modifies stream
    ensures stream.Valid()
    ensures Moves(old(stream.At()), stream.At(), Skip(WT_STRING, old(stream.Rest())), ok)
  {
    hide ReadVarint32;
    var length, nowhere;
    ok, length := DecodeVarint32(stream);
    if !ok {
      return;
    }
    ok, nowhere := stream.Read(length);
  }

  method SkipField(stream: IStream, wt: nat) returns (ok: bool)
    requires stream.Valid()
    modifies stream
    ensures stream.Valid()
    ensures Moves(old(stream.At()), stream.At(), Skip(wt, old(stream.Rest())), ok)
    ensures ok ==> stream.Rest() == old(stream.Rest())[Skip(wt, old(stream.Rest())).value..]
  {
    hide ReadVarint32, VarintLength;
    ghost var s0 := stream.Rest();
    var nowhere;
    if wt == WT_VARINT {
      ok := SkipVarint(stream);
    } else if wt == WT_64BIT {
      ok, nowhere := stream.Read(8);
    } else if wt == WT_STRING {
      ok := SkipString(stream);
    } else if wt == WT_32BIT {
      ok, nowhere := stream.Read(4);
    } else {
      ok := false;
    }
  }

  // ----- substreams -----

  /** Reads a length and lends that many bytes to a substream; the stream itself stays before them. */
  method MakeSubstream(stream: IStream) returns (ok: bool, sub: IStream)
    requires stream.Valid()
    modifies stream
    ensures stream.Valid() && fresh(sub) && sub.Valid() && sub.buf == stream.buf
    ensures var p := ReadBlob(old(stream.Rest()));
            && (ok <==> p.Done?)
            && (!ok ==> Moves(old(stream.At()), stream.At(), None, false))
            && (ok ==> && sub.Rest() == p.val
                       && sub.At() == Cursor(old(stream.state) + p.n - |p.val|, |p.val|)
                       && stream.At() == Cursor(sub.state, old(stream.bytesLeft) - p.n))
    ensures ok ==> old(stream.state) <= sub.state
    ensures ok ==> sub.state + sub.bytesLeft + stream.bytesLeft == old(stream.state + stream.bytesLeft)
  {
    hide ReadVarint32;
    ghost var s0 := stream.Rest();
    var size;
    ok, size := DecodeVarint32(stream);
    sub := new IStream(stream.buf, stream.state, stream.bytesLeft);
    if !ok {
      return;
    }
    if sub.bytesLeft < size {
      return false, sub;
    }
    ghost var n := ReadVarint32(s0).n;
    assert s0[n..][..size] == s0[n..n + size];
    ghost var after := stream.Rest();
    sub.bytesLeft := size;
    stream.bytesLeft := stream.bytesLeft - size;
    assert sub.Rest() == after[..size];
    assert after == s0[n..];
  }

  /** Reads what the substream has left and moves the stream behind it. */
  method CloseSubstream(stream: IStream, sub: IStream) returns (ok: bool)
    requires sub.Valid() && stream != sub && sub.buf == stream.buf
    requires sub.state + sub.bytesLeft + stream.bytesLeft <= stream.buf.Length
    modifies stream, sub
    ensures ok && stream.Valid()
    ensures stream.At() == Cursor(old(sub.state + sub.bytesLeft), old(stream.bytesLeft))
  {
    var nowhere;
    if sub.bytesLeft != 0 {
      ok, nowhere := sub.Read(sub.bytesLeft);
      if !ok {
        return false;
      }
    }
    stream.state := sub.state;
    return true;
  }
}
