/** Every value that is not a submessage survives being encoded and decoded. */
module Scalars {
  import opened Bits
  import opened Outcomes
  import opened Varints
  import opened Descriptor
  import opened EncodeSpec
  import opened DecodeSpec

  // ----- fixed-width integers -----

  function Pow256(k: nat): (p: nat)
    ensures p >= 1
  {
    if k == 0 then 1 else 256 * Pow256(k - 1)
  }

  lemma {:induction false} LittleEndianRoundTrip(n: nat, k: nat)
    requires n < Pow256(k)
    ensures FromLittleEndian(LittleEndian(n, k)) == n
  {
    if k > 0 {
      LittleEndianRoundTrip(n / 256, k - 1);
      assert LittleEndian(n, k)[1..] == LittleEndian(n / 256, k - 1);
    }
  }

  // ----- integers with a width check -----

  /** The 64-bit number that the encoder writes for an integer. */
  function WireInt(f: Field, n: int): U64 {
    if f.ltype == LSVarint then Zigzag(Signed(n, 8)) else Unsigned(n, 8)
  }

  lemma SignedWire(n: int, size: nat)
    requires IntSize(size) && FitsSigned(n, size)
    ensures Signed(Unsigned(n, 8), 8) == n && Signed(n, 8) == n && Signed(n, size) == n
    ensures size != 8 ==> Signed(Unsigned(n, 8), 4) == n
  {
    CastIdentity(n, size);
    CastIdentity(n, 8);
    assert Unsigned(n, 8) == if n < 0 then n + 0x1_0000_0000_0000_0000 else n;
    if size != 8 {
      SignedLow(n);
    }
  }

  lemma SignedLow(n: int)
    requires FitsSigned(n, 4)
    ensures Signed(if n < 0 then n + 0x1_0000_0000_0000_0000 else n, 4) == n
  {
  }

  lemma CastReadWire(f: Field, n: int)
    requires f.ltype in {LVarint, LUVarint, LSVarint} && IntSize(f.dataSize) && ValOk(f, Num(n))
    ensures CastRead(f, WireInt(f, n)) == Some(n)
  {
    if f.ltype != LUVarint {
      SignedWire(n, f.dataSize);
      if f.ltype == LSVarint {
        ZigzagRoundTrip(n);
      }
    } else {
      CastIdentity(n, f.dataSize);
      CastIdentity(n, 8);
    }
  }

  lemma HalfAgrees(u: U64)
    ensures Signed(u, 4) == Signed(u, 8) <==> FitsSigned(Signed(u, 8), 4)
    ensures FitsSigned(Signed(u, 4), 4)
  {
    var q: int, r: int := u / 0x1_0000_0000, u % 0x1_0000_0000;
    assert u == q * 0x1_0000_0000 + r;
    assert Signed(u, 4) == if r < 0x8000_0000 then r else r - 0x1_0000_0000;
    assert Signed(u, 8) == if q < 0x8000_0000 then u else u - 0x1_0000_0000_0000_0000;
    hide Signed;
  }

  /**
   Signed fields of up to 32 bits look at the lower half of a varint only: the value is accepted when
   that half fits the field, and it is the value on the wire when the whole fits.
   */
  lemma SignedFieldCasts(f: Field, u: U64)
    requires f.ltype == LVarint && IntSize(f.dataSize)
    ensures CastRead(f, u).Some? <==> f.dataSize == 8 || FitsSigned(Signed(u, 4), f.dataSize)
    ensures CastRead(f, u) == Some(Signed(u, 8)) <==> FitsSigned(Signed(u, 8), f.dataSize)
  {
    HalfAgrees(u);
    CastIdentity(Signed(u, 4), f.dataSize);
    CastIdentity(Signed(u, 8), f.dataSize);
    assert FitsSigned(Signed(u, 8), 8);
    hide Signed;
  }

  /** A 32-bit field takes 2^32 + 5 for 5. */
  lemma UpperHalfDropped(f: Field, t: seq<Byte>)
    requires f.ltype == LVarint && f.dataSize == 4
    ensures ReadInt(f, Varint(0x1_0000_0005) + t) == Done(Num(5), |Varint(0x1_0000_0005)|)
  {
    assert CastRead(f, 0x1_0000_0005) == Some(5);
    hide Varint, ReadVarint, CastRead;
    VarintRoundTrip(0x1_0000_0005, t);
  }

  lemma IntRoundTrip(f: Field, n: int, t: seq<Byte>)
    requires f.ltype in {LVarint, LUVarint, LSVarint} && IntSize(f.dataSize) && ValOk(f, Num(n))
    ensures ReadInt(f, Varint(WireInt(f, n)) + t) == Done(Num(n), |Varint(WireInt(f, n))|)
  {
    hide ReadVarint, CastRead, Varint, Zigzag, Signed, Unsigned;
    VarintRoundTrip(WireInt(f, n), t);
    CastReadWire(f, n);
  }

  // ----- length-prefixed bytes -----

  lemma LengthRoundTrip(n: U32, t: seq<Byte>)
    ensures ReadVarint32(Varint(n) + t) == Done(n, |Varint(n)|)
  {
    hide ReadVarint32, Varint;
    Varint32OnEncoded(n, t);
  }

  lemma BlobRoundTrip(b: seq<Byte>, t: seq<Byte>)
    requires |b| < 0x1_0000_0000
    ensures ReadBlob(LenPrefixed(b) + t) == Done(b, |LenPrefixed(b)|)
  {
    hide ReadVarint32, Varint;
    var s := LenPrefixed(b) + t;
    assert s == Varint(|b|) + (b + t);
    LengthRoundTrip(|b|, b + t);
    var n := |Varint(|b|)|;
    assert s[n..n + |b|] == b;
  }

  lemma CStringOfClean(b: seq<Byte>, max: nat)
    requires 0 !in b && |b| <= max
    ensures CString(b, max) == b
  {
  }

  // ----- all of them -----

  lemma ScalarRoundTrip(f: Field, v: Val, t: seq<Byte>)
    requires FieldOk(f) && ValOk(f, v) && f.ltype != LSubmessage
    requires EncVal(f, v).Some? && |EncVal(f, v).value| < 0x1_0000_0000
    ensures DecScalar(f, EncVal(f, v).value + t) == Done(v, |EncVal(f, v).value|)
  {
    hide ReadInt, ReadBlob, ReadVarint32, Varint, Zigzag, Signed, Unsigned, LittleEndian, FromLittleEndian, CString, LenPrefixed;
    match f.ltype
    case LVarint => IntRoundTrip(f, v.n, t);
    case LUVarint => IntRoundTrip(f, v.n, t);
    case LSVarint => IntRoundTrip(f, v.n, t);
    case LFixed32 => Fixed32RoundTrip(v.n, t);
    case LFixed64 => Fixed64RoundTrip(v.n, t);
    case LBytes =>
      BlobSize(v.b);
      BlobRoundTrip(v.b, t);
    case LString =>
      CStringOfClean(v.b, f.dataSize);
      CStringOfClean(v.b, |v.b|);
      BlobSize(v.b);
      BlobRoundTrip(v.b, t);
    case LFixedLengthBytes => FixedLengthRoundTrip(f, v.b, t);
    case LExtension =>
  }

  lemma BlobSize(b: seq<Byte>)
    ensures |LenPrefixed(b)| > |b|
  {
  }

  lemma Fixed32RoundTrip(n: U32, t: seq<Byte>)
    ensures var s := LittleEndian(Unsigned(n, 4), 4) + t;
            FromLittleEndian(s[..4]) == n
  {
    assert Pow256(4) == 0x1_0000_0000;
    LittleEndianRoundTrip(n, 4);
    assert Unsigned(n, 4) == n;
    assert (LittleEndian(n, 4) + t)[..4] == LittleEndian(n, 4);
  }

  lemma Fixed64RoundTrip(n: U64, t: seq<Byte>)
    ensures var s := LittleEndian(Unsigned(n, 8), 8) + t;
            FromLittleEndian(s[..8]) == n
  {
    assert Pow256(4) == 0x1_0000_0000;
    assert Pow256(8) == 0x1_0000_0000_0000_0000;
    LittleEndianRoundTrip(n, 8);
    assert Unsigned(n, 8) == n;
    assert (LittleEndian(n, 8) + t)[..8] == LittleEndian(n, 8);
  }

  lemma FixedLengthRoundTrip(f: Field, b: seq<Byte>, t: seq<Byte>)
    requires f.ltype == LFixedLengthBytes && |b| == f.dataSize <= SizeMax()
    ensures DecScalar(f, LenPrefixed(b) + t) == Done(Blob(b), |LenPrefixed(b)|)
  {
    hide ReadVarint32, Varint;
    var s := LenPrefixed(b) + t;
    assert s == Varint(|b|) + (b + t);
    LengthRoundTrip(|b|, b + t);
    var n := |Varint(|b|)|;
    assert s[n..n + |b|] == b;
    assert |b| == 0 ==> Zeros(f.dataSize) == b;
  }

  /**
   A string survives exactly when its NUL lies inside the buffer: the encoder also writes a string
   that fills the buffer, but the decoder needs one byte more.
   */
  lemma StringSurvivesIfTerminated(f: Field, buffer: seq<Byte>, t: seq<Byte>)
    requires f.ltype == LString && f.dataSize <= SizeMax()
    ensures var s := EncVal(f, Blob(buffer));
            && s.Some?
            && (DecScalar(f, s.value + t) == Done(Blob(CString(buffer, f.dataSize)), |s.value|)
                <==> |CString(buffer, f.dataSize)| < f.dataSize)
            && (DecScalar(f, s.value + t).Done? <==> |CString(buffer, f.dataSize)| < f.dataSize)
  {
    hide ReadBlob, LenPrefixed;
    var b := CString(buffer, f.dataSize);
    BlobRoundTrip(b, t);
    CStringOfClean(b, |b|);
  }
}
