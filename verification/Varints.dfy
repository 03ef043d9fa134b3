/**
 Base-128 varints and zigzag integers: the values that the encoder and decoder loops compute,
 and the laws that tie the two directions and the two decoder widths together.
 */
module Varints {
  import opened Bits
  import opened Outcomes

  // ----- encoding -----

  /** The shortest base-128 form, low group first, high bit set on all bytes but the last. */
  function Varint(v: nat): (s: seq<Byte>)
    ensures |s| >= 1
  {
    if v < 128 then [v] else [v % 128 + 128] + Varint(v / 128)
  }

  // ----- decoding to 64 bits -----

  /** Length of the varint at the start of s, or 0 when s ends before it does. */
  function VarintLength(s: seq<Byte>): (n: nat)
    ensures n <= |s|
    ensures n > 0 ==> s[n - 1] < 128
  {
    if s == [] then 0
    else if s[0] < 128 then 1
    else
      var m := VarintLength(s[1..]);
      if m == 0 then 0 else m + 1
  }

  /** The number whose base-128 digits, low first, are the low seven bits of each byte. */
  function Base128(s: seq<Byte>): nat {
    if s == [] then 0 else s[0] % 128 + 128 * Base128(s[1..])
  }

  const MAX_VARINT := 10

  /** A varint of at most ten bytes; bits beyond the 64th are shifted out. */
  function ReadVarint(s: seq<Byte>): (p: Parse<U64>)
    ensures p.Done? ==> 1 <= p.n <= |s|
  {
    var n := VarintLength(s);
    if n == 0 || n > MAX_VARINT then Fail
    else Done(Base128(s[..n]) % 0x1_0000_0000_0000_0000, n)
  }

  // ----- decoding to 32 bits -----

  function ShiftLeft32(x: nat, k: nat): U32 {
    (x * Pow2(k)) % 0x1_0000_0000
  }

  /** Whether the byte b at bit position 32 or above is refused. */
  predicate Overflows32(b: Byte, bitpos: nat, result: U32) {
    b % 128 != 0 && (result / 0x8000_0000 == 0 || b != if bitpos < 63 then 0xFF else 0x01)
  }

  /** The bits of one byte taken into the result, or an overflow. */
  function Step32(b: Byte, bitpos: nat, result: U32): Option<U32> {
    if bitpos < 32 then Some(Or32(result, ShiftLeft32(b % 128, bitpos)))
    else if Overflows32(b, bitpos, result) then None
    else Some(result)
  }

  /** The multi-byte loop; the bit position is an 8-bit counter. */
  function Varint32Loop(s: seq<Byte>, bitpos: nat, result: U32): (p: Parse<U32>)
    ensures p.Done? ==> 1 <= p.n <= |s|
  {
    if s == [] then Fail
    else
      match Step32(s[0], bitpos, result)
      case None => Fail
      case Some(r) =>
        var next := (bitpos + 7) % 256;
        if s[0] >= 128 then Later(1, Varint32Loop(s[1..], next, r))
        else if next == 35 && s[0] / 16 % 8 != 0 then Fail
        else Done(r, 1)
  }

  /** The same outcome, k bytes further on. */
  function Later<T>(k: nat, p: Parse<T>): Parse<T> {
    if p.Done? then Done(p.val, p.n + k) else Fail
  }

  function Or32(a: U32, b: U32): U32 {
    Pow2Table();
    BitOrBound(a, b, 32);
    BitOr(a, b)
  }

  function ReadVarint32(s: seq<Byte>): (p: Parse<U32>)
    ensures p.Done? ==> 1 <= p.n <= |s|
  {
    if s == [] then Fail
    else if s[0] < 128 then Done(s[0], 1)
    else Later(1, Varint32Loop(s[1..], 7, s[0] % 128))
  }

  // ----- bytes that follow a varint do not matter -----

  lemma {:induction false} VarintLengthPrefix(s: seq<Byte>, t: seq<Byte>)
    requires VarintLength(s) > 0
    ensures VarintLength(s + t) == VarintLength(s)
  {
    if s[0] >= 128 {
      VarintLengthPrefix(s[1..], t);
      assert (s + t)[1..] == s[1..] + t;
    }
  }

  lemma ReadVarintPrefix(s: seq<Byte>, t: seq<Byte>)
    requires ReadVarint(s).Done?
    ensures ReadVarint(s + t) == ReadVarint(s)
  {
    VarintLengthPrefix(s, t);
    var n := VarintLength(s);
    assert (s + t)[..n] == s[..n];
  }

  lemma {:induction false} Varint32LoopPrefix(s: seq<Byte>, t: seq<Byte>, bitpos: nat, result: U32)
    requires Varint32Loop(s, bitpos, result).Done?
    ensures Varint32Loop(s + t, bitpos, result) == Varint32Loop(s, bitpos, result)
    decreases |s|
  {
    hide Step32;
    assert (s + t)[0] == s[0] && (s + t)[1..] == s[1..] + t;
    if s[0] >= 128 {
      Varint32LoopPrefix(s[1..], t, (bitpos + 7) % 256, Step32(s[0], bitpos, result).value);
    }
  }

  lemma ReadVarint32Prefix(s: seq<Byte>, t: seq<Byte>)
    requires ReadVarint32(s).Done?
    ensures ReadVarint32(s + t) == ReadVarint32(s)
  {
    if s[0] >= 128 {
      assert (s + t)[1..] == s[1..] + t;
      Varint32LoopPrefix(s[1..], t, 7, s[0] % 128);
    }
  }

  // ----- 64-bit round trip -----

  lemma {:induction false} VarintDigits(v: nat)
    ensures VarintLength(Varint(v)) == |Varint(v)|
    ensures Base128(Varint(v)) == v
  {
    if v >= 128 {
      VarintDigits(v / 128);
      assert Varint(v)[1..] == Varint(v / 128);
    } else {
      assert Varint(v)[1..] == [];
    }
  }

  /** The encoder's form is the shortest of all byte strings with the same value. */
  lemma {:induction false} VarintShortest(s: seq<Byte>)
    requires VarintLength(s) == |s| > 0
    ensures |Varint(Base128(s))| <= |s|
  {
    var v := Base128(s);
    if s[0] >= 128 {
      VarintShortest(s[1..]);
      assert v / 128 == Base128(s[1..]);
    } else {
      assert s[1..] == [];
    }
  }

  /** Ten bytes are enough for 64 bits, five for 32. */
  lemma VarintSize(v: nat)
    ensures v < 0x1_0000_0000_0000_0000 ==> |Varint(v)| <= 10
    ensures v < 0x1_0000_0000 ==> |Varint(v)| <= 5
  {
    var v1 := v / 128;
    var v2 := v1 / 128;
    var v3 := v2 / 128;
    var v4 := v3 / 128;
    var v5 := v4 / 128;
    VarintUpTo5(v);
    if v >= 128 && v1 >= 128 && v2 >= 128 && v3 >= 128 && v4 >= 128 {
      VarintUpTo5(v5);
    }
  }

  lemma VarintUpTo5(v: nat)
    ensures v < 0x8_0000_0000 ==> |Varint(v)| <= 5
    ensures v >= 0x1000_0000 ==> |Varint(v)| == 5 + (if v < 0x8_0000_0000 then 0 else |Varint(v / 0x8_0000_0000)|)
  {
    var v1 := v / 128;
    var v2 := v1 / 128;
    var v3 := v2 / 128;
    var v4 := v3 / 128;
    assert v4 == v / 0x1000_0000;
    assert v4 / 128 == v / 0x8_0000_0000;
    if v >= 128 {
      assert |Varint(v)| == 1 + |Varint(v1)|;
      if v1 >= 128 {
        assert |Varint(v1)| == 1 + |Varint(v2)|;
        if v2 >= 128 {
          assert |Varint(v2)| == 1 + |Varint(v3)|;
          if v3 >= 128 {
            assert |Varint(v3)| == 1 + |Varint(v4)|;
            if v4 >= 128 {
              assert |Varint(v4)| == 1 + |Varint(v4 / 128)|;
            }
          }
        }
      }
    }
  }

  /** Reading back the encoder's output gives the value and leaves whatever follows. */
  lemma VarintRoundTrip(v: U64, t: seq<Byte>)
    ensures |Varint(v)| <= MAX_VARINT
    ensures ReadVarint(Varint(v) + t) == Done(v, |Varint(v)|)
  {
    VarintSize(v);
    VarintDigits(v);
    var n := |Varint(v)|;
    assert Varint(v)[..n] == Varint(v);
    assert ReadVarint(Varint(v)) == Done(v, n);
    ReadVarintPrefix(Varint(v), t);
  }

  // ----- the 32-bit decoder against the 64-bit one -----

  /** The digit d at base-128 place i, for the places that reach into 32 bits. */
  function Place(d: nat, i: nat): nat {
    if i == 0 then d
    else if i == 1 then d * 0x80
    else if i == 2 then d * 0x4000
    else if i == 3 then d * 0x20_0000
    else if i == 4 then d * 0x1000_0000
    else d * 0x8_0000_0000
  }

  lemma ShiftFits(d: nat, k: nat, x: nat)
    requires x == d * Pow2(k) && x < 0x1_0000_0000
    ensures ShiftLeft32(d, k) == x
  {
  }

  lemma OrIs(a: U32, b: U32)
    ensures Or32(a, b) == BitOr(a, b)
  {
  }

  lemma OrShift32(result: U32, d: nat, k: nat, p: nat)
    requires Pow2(k) == p && result < p && d * p < 0x1_0000_0000
    ensures Or32(result, ShiftLeft32(d, k)) == result + d * p
  {
    hide *;
    var x: nat := d * p;
    BitOrDisjoint(result, d, k);
    ShiftFits(d, k, x);
    OrIs(result, x);
  }

  /** One step of the loop below bit 32 adds a base-128 digit, modulo 2^32. */
  lemma DigitStep(result: U32, d: nat, i: nat)
    requires 1 <= i <= 4 && d < 128 && result < Place(1, i)
    ensures Or32(result, ShiftLeft32(d, 7 * i)) == (result + Place(d, i)) % 0x1_0000_0000
    ensures i < 4 ==> (result + Place(d, i)) % 0x1_0000_0000 == result + Place(d, i) < Place(1, i + 1)
  {
    hide Or32, ShiftLeft32, Pow2;
    Pow2Table();
    if i == 1 {
      OrShift32(result, d, 7, 0x80);
    } else if i == 2 {
      OrShift32(result, d, 14, 0x4000);
    } else if i == 3 {
      OrShift32(result, d, 21, 0x20_0000);
    } else {
      FifthDigit(result, d);
    }
  }

  lemma FifthDigit(result: U32, d: nat)
    requires d < 128 && result < 0x1000_0000
    ensures Or32(result, ShiftLeft32(d, 28)) == (result + d * 0x1000_0000) % 0x1_0000_0000
  {
    Pow2Table();
    var e := d % 16;
    assert d * 0x1000_0000 == d / 16 * 0x1_0000_0000 + e * 0x1000_0000;
    assert ShiftLeft32(d, 28) == ShiftLeft32(e, 28);
    OrShift32(result, e, 28, 0x1000_0000);
  }

  /** On success the loop has computed the low 32 bits of the varint and consumed all of it. */
  lemma {:induction false} Varint32LoopValue(s: seq<Byte>, i: nat, result: U32)
    requires 1 <= i < MAX_VARINT
    requires i <= 4 ==> result < Place(1, i)
    requires Varint32Loop(s, 7 * i, result).Done?
    requires i + VarintLength(s) <= MAX_VARINT
    ensures var p := Varint32Loop(s, 7 * i, result);
            p.n == VarintLength(s) &&
            p.val == if i <= 4 then (result + Place(Base128(s[..p.n]), i)) % 0x1_0000_0000 else result
    decreases |s|
  {
    hide Step32, Place, Base128;
    var b := s[0];
    var p := Varint32Loop(s, 7 * i, result);
    StepValue(b, i, result);
    var r := Step32(b, 7 * i, result).value;
    if b >= 128 {
      VarintLengthPositive(s[1..], 7 * i + 7, r);
      Varint32LoopValue(s[1..], i + 1, r);
      if i <= 4 { Base128Step(s, p.n, i, result); }
    } else {
      Base128One(s);
    }
  }

  lemma StepValue(b: Byte, i: nat, result: U32)
    requires 1 <= i && (i <= 4 ==> result < Place(1, i))
    ensures i <= 4 ==> Step32(b, 7 * i, result) == Some((result + Place(b % 128, i)) % 0x1_0000_0000)
    ensures i < 4 ==> (result + Place(b % 128, i)) % 0x1_0000_0000 == result + Place(b % 128, i) < Place(1, i + 1)
    ensures i > 4 ==> Step32(b, 7 * i, result) == if Overflows32(b, 7 * i, result) then None else Some(result)
  {
    hide Or32, ShiftLeft32, Overflows32, Place;
    if i <= 4 { DigitStep(result, b % 128, i); }
  }

  lemma Base128One(s: seq<Byte>)
    requires |s| >= 1
    ensures Base128(s[..1]) == s[0] % 128
  {
  }

  lemma {:induction false} VarintLengthPositive(s: seq<Byte>, bitpos: nat, result: U32)
    requires Varint32Loop(s, bitpos, result).Done?
    ensures VarintLength(s) > 0
    decreases |s|
  {
    hide Step32;
    if s[0] >= 128 {
      VarintLengthPositive(s[1..], (bitpos + 7) % 256, Step32(s[0], bitpos, result).value);
    }
  }

  lemma Base128Step(s: seq<Byte>, n: nat, i: nat, result: U32)
    requires 1 <= i <= 4 && 2 <= n <= |s|
    ensures var high := Base128(s[1..][..n - 1]);
            var r := (result + Place(s[0] % 128, i)) % 0x1_0000_0000;
            (result + Place(Base128(s[..n]), i)) % 0x1_0000_0000
            == if i < 4 then (r + Place(high, i + 1)) % 0x1_0000_0000 else r
  {
    var high, d := Base128(s[1..][..n - 1]), s[0] % 128;
    assert s[..n][1..] == s[1..][..n - 1];
    PlaceStep(d, high, i, result);
  }

  lemma ModAdd(x: nat, y: nat)
    ensures (x % 0x1_0000_0000 + y) % 0x1_0000_0000 == (x + y) % 0x1_0000_0000
  {
  }

  lemma ModHigh(x: nat, h: nat)
    ensures (x + h * 0x8_0000_0000) % 0x1_0000_0000 == x % 0x1_0000_0000
  {
  }

  lemma PlaceStep(d: nat, high: nat, i: nat, result: U32)
    requires 1 <= i <= 4
    ensures var r := (result + Place(d, i)) % 0x1_0000_0000;
            (result + Place(d + 128 * high, i)) % 0x1_0000_0000
            == if i < 4 then (r + Place(high, i + 1)) % 0x1_0000_0000 else r
  {
    assert Place(d + 128 * high, i) == Place(d, i) + Place(high, i + 1);
    if i < 4 {
      ModAdd(result + Place(d, i), Place(high, i + 1));
    } else {
      ModHigh(result + Place(d, 4), high);
    }
  }

  /** Where both decoders accept a varint of at most ten bytes, they agree. */
  lemma Varint32Agrees(s: seq<Byte>)
    requires ReadVarint32(s).Done? && VarintLength(s) <= MAX_VARINT
    ensures ReadVarint(s).Done?
    ensures ReadVarint32(s).n == ReadVarint(s).n
    ensures ReadVarint32(s).val == ReadVarint(s).val % 0x1_0000_0000
  {
    hide Varint32Loop;
    if s[0] < 128 {
      assert s[..1][1..] == [];
      assert Base128(s[..1]) == s[0];
    } else {
      VarintLengthPositive(s[1..], 7, s[0] % 128);
      Varint32LoopValue(s[1..], 1, s[0] % 128);
      var n := VarintLength(s);
      assert s[..n][1..] == s[1..][..n - 1];
      var b := Base128(s[..n]);
      assert b == s[0] % 128 + 128 * Base128(s[1..][..n - 1]);
      LowerHalf(b);
    }
  }

  lemma LowerHalf(b: nat)
    ensures b % 0x1_0000_0000_0000_0000 % 0x1_0000_0000 == b % 0x1_0000_0000
  {
  }

  // ----- which encoder outputs the 32-bit decoder accepts -----

  /** Acceptance of the part of a varint at byte 5 and above, with w the value still to come. */
  predicate TailAccepted(w: nat, i: nat, negative: bool) {
    var b := if w < 128 then w else w % 128 + 128;
    && (w % 128 == 0 || (negative && b == if 7 * i < 63 then 0xFF else 0x01))
    && (w < 128 || TailAccepted(w / 128, i + 1, negative))
  }

  lemma {:induction false} Varint32Tail(w: nat, i: nat, result: U32, t: seq<Byte>)
    requires i >= 5 && i + |Varint(w)| <= MAX_VARINT
    ensures Varint32Loop(Varint(w) + t, 7 * i, result)
         == if TailAccepted(w, i, result >= 0x8000_0000) then Done(result, |Varint(w)|) else Fail
    decreases w
  {
    hide Step32, Varint32Loop;
    var s := Varint(w) + t;
    StepValue(s[0], i, result);
    LoopOnce(s, 7 * i, result);
    assert s[0] == if w < 128 then w else w % 128 + 128;
    if w >= 128 {
      assert s[1..] == Varint(w / 128) + t;
      Varint32Tail(w / 128, i + 1, result, t);
    }
  }

  lemma LoopOnce(s: seq<Byte>, bitpos: nat, result: U32)
    requires s != [] && bitpos <= 248
    ensures Varint32Loop(s, bitpos, result)
         == match Step32(s[0], bitpos, result)
            case None => Fail
            case Some(r) =>
              if s[0] >= 128 then Later(1, Varint32Loop(s[1..], bitpos + 7, r))
              else if bitpos == 28 && s[0] / 16 % 8 != 0 then Fail
              else Done(r, 1)
  {
    hide Step32;
  }

  /** One step of the loop on the encoder's output, at any place below bit 32. */
  lemma Varint32Head(w: nat, i: nat, result: U32, t: seq<Byte>)
    requires 1 <= i <= 4 && result < Place(1, i)
    ensures var r: U32 := (result + Place(w % 128, i)) % 0x1_0000_0000;
            Varint32Loop(Varint(w) + t, 7 * i, result)
            == if w >= 128 then Later(1, Varint32Loop(Varint(w / 128) + t, 7 * i + 7, r))
               else if i == 4 && w / 16 != 0 then Fail
               else Done(r, 1)
  {
    hide Step32, Varint32Loop, Place;
    var s := Varint(w) + t;
    StepValue(s[0], i, result);
    LoopOnce(s, 7 * i, result);
    assert s[0] == if w < 128 then w else w % 128 + 128;
    if w >= 128 {
      assert s[1..] == Varint(w / 128) + t;
    }
  }

  /** Exactly which 64-bit values survive the 32-bit decoder. */
  predicate Accepts32(v: U64) {
    v < 0x1_0000_0000
    || (&& v >= 0x8000_0000_0000_0000
        && v / 0x8000_0000 % 2 == 1
        && SignGroup(v / 0x8_0000_0000 % 128)
        && SignGroup(v / 0x400_0000_0000 % 128)
        && SignGroup(v / 0x2_0000_0000_0000 % 128)
        && SignGroup(v / 0x100_0000_0000_0000 % 128))
  }

  predicate SignGroup(d: nat) {
    d == 0 || d == 127
  }

  lemma TailOfU64(w: nat, negative: bool)
    requires 0 < w < 0x2000_0000
    ensures TailAccepted(w, 5, negative)
       <==> && negative && w >= 0x1000_0000
            && SignGroup(w % 128) && SignGroup(w / 128 % 128)
            && SignGroup(w / 0x4000 % 128) && SignGroup(w / 0x20_0000 % 128)
  {
    var w1 := w / 128;
    var w2 := w1 / 128;
    var w3 := w2 / 128;
    var w4 := w3 / 128;
    assert w2 == w / 0x4000 && w3 == w / 0x20_0000 && w4 == w / 0x1000_0000;
    assert w4 <= 1;
    assert w >= 128 ==> (TailAccepted(w, 5, negative) <==>
      (w % 128 == 0 || (negative && w % 128 == 127)) && TailAccepted(w1, 6, negative));
    assert w1 >= 128 ==> (TailAccepted(w1, 6, negative) <==>
      (w1 % 128 == 0 || (negative && w1 % 128 == 127)) && TailAccepted(w2, 7, negative));
    assert w2 >= 128 ==> (TailAccepted(w2, 7, negative) <==>
      (w2 % 128 == 0 || (negative && w2 % 128 == 127)) && TailAccepted(w3, 8, negative));
    assert w3 >= 128 ==> (TailAccepted(w3, 8, negative) <==>
      (w3 % 128 == 0 || (negative && w3 % 128 == 127)) && TailAccepted(w4, 9, negative));
  }

  /** The digits of v below place i + 1, and what is left above them. */
  lemma RestStep(v: U64, w: nat, i: nat, result: nat)
    requires 1 <= i <= 4 && v == result + Place(w, i) && result < Place(1, i)
    ensures var r := result + Place(w % 128, i);
            && v == r + Place(w / 128, i + 1) && r < Place(1, i + 1)
            && r % 0x1_0000_0000 == (if i < 4 then r else v % 0x1_0000_0000)
            && (w < 128 ==> v == r && (v < 0x1_0000_0000 <==> !(i == 4 && w / 16 != 0)) && v < 0x8_0000_0000)
            && (i < 4 ==> r < 0x1000_0000)
  {
    if i == 4 {
      assert v == result + w % 128 * 0x1000_0000 + w / 128 * 0x8_0000_0000;
      ModHigh(result + w % 128 * 0x1000_0000, w / 128);
    }
  }

  /** The loop on the encoder's output from place i on, where v / 2^(7i) is still to come. */
  lemma {:induction false} Varint32Rest(v: U64, w: nat, i: nat, result: nat, t: seq<Byte>)
    requires 1 <= i <= 5 && w > 0 && v == result + Place(w, i) && result < Place(1, i)
    requires i <= 4 ==> result < 0x1000_0000
    ensures Varint32Loop(Varint(w) + t, 7 * i, if i == 5 then v % 0x1_0000_0000 else result)
         == if Accepts32(v) then Done(v % 0x1_0000_0000, |Varint(w)|) else Fail
    decreases 5 - i
  {
    if i == 5 {
      hide Varint32Loop, Accepts32;
      Varint32LongRest(v, w, t);
    } else {
      hide Accepts32, Varint32Loop, Place;
      Varint32Head(w, i, result, t);
      RestStep(v, w, i, result);
      var r := result + Place(w % 128, i);
      if w >= 128 {
        Varint32Rest(v, w / 128, i + 1, r, t);
      } else {
        Accepts32Ranges(v);
      }
    }
  }

  lemma Varint32LongRest(v: U64, w: nat, t: seq<Byte>)
    requires w > 0 && w == v / 0x8_0000_0000
    ensures Varint32Loop(Varint(w) + t, 35, v % 0x1_0000_0000)
         == if Accepts32(v) then Done(v % 0x1_0000_0000, |Varint(w)|) else Fail
  {
    hide Varint32Loop, TailAccepted, Varint, Accepts32;
    VarintUpTo5(v);
    VarintSize(v);
    var r := v % 0x1_0000_0000;
    Varint32Tail(w, 5, r, t);
    TailOfU64(w, r >= 0x8000_0000);
    LongAccepts(v, w);
  }

  lemma LongAccepts(v: U64, w: nat)
    requires w > 0 && w == v / 0x8_0000_0000
    ensures Accepts32(v)
       <==> && v % 0x1_0000_0000 >= 0x8000_0000 && w >= 0x1000_0000
            && SignGroup(w % 128) && SignGroup(w / 128 % 128)
            && SignGroup(w / 0x4000 % 128) && SignGroup(w / 0x20_0000 % 128)
  {
    assert w / 128 == v / 0x400_0000_0000;
    assert w / 0x4000 == v / 0x2_0000_0000_0000;
    assert w / 0x20_0000 == v / 0x100_0000_0000_0000;
    assert v % 0x1_0000_0000 >= 0x8000_0000 <==> v / 0x8000_0000 % 2 == 1;
    assert w >= 0x1000_0000 <==> v >= 0x8000_0000_0000_0000;
  }

  /** The 32-bit decoder on the encoder's output: the accepted values, and the low 32 bits of each. */
  lemma Varint32OnEncoded(v: U64, t: seq<Byte>)
    ensures ReadVarint32(Varint(v) + t)
         == if Accepts32(v) then Done(v % 0x1_0000_0000, |Varint(v)|) else Fail
  {
    hide Varint32Loop, Accepts32;
    Accepts32Ranges(v);
    if v >= 128 {
      assert (Varint(v) + t)[1..] == Varint(v / 128) + t;
      Varint32Rest(v, v / 128, 1, v % 128, t);
    }
  }

  /** Unsigned 32-bit values and sign-extended negative 32-bit values are accepted; nothing else below 2^63 is. */
  lemma Accepts32Ranges(v: U64)
    ensures v < 0x1_0000_0000 ==> Accepts32(v)
    ensures 0x1_0000_0000 <= v < 0x8000_0000_0000_0000 ==> !Accepts32(v)
    ensures 0xFFFF_FFFF_8000_0000 <= v ==> Accepts32(v)
  {
  }

  /** k bytes that only continue, and a zero byte that ends. */
  function Padding(k: nat): seq<Byte> {
    if k == 0 then [0] else [0x80] + Padding(k - 1)
  }

  /** Padding never stops the 32-bit decoder, wherever its counter is and however often it wraps. */
  lemma {:induction false} Varint32Padded(k: nat, bitpos: nat, result: U32)
    requires bitpos < 256
    ensures Varint32Loop(Padding(k), bitpos, result) == Done(result, k + 1)
    ensures VarintLength(Padding(k)) == k + 1
    decreases k
  {
    hide Step32, Varint32Loop;
    ZeroStep(Padding(k)[0], bitpos, result);
    AnyLoopOnce(Padding(k), bitpos, result);
    if k > 0 {
      assert Padding(k)[1..] == Padding(k - 1);
      Varint32Padded(k - 1, (bitpos + 7) % 256, result);
    }
  }

  /** A group of zero bits changes nothing at any position. */
  lemma ZeroStep(b: Byte, bitpos: nat, result: U32)
    requires b % 128 == 0
    ensures Step32(b, bitpos, result) == Some(result)
  {
    assert 0 * Pow2(bitpos) == 0;
  }

  lemma AnyLoopOnce(s: seq<Byte>, bitpos: nat, result: U32)
    requires s != [] && s[0] % 128 == 0
    ensures Step32(s[0], bitpos, result) == Some(result) ==>
      Varint32Loop(s, bitpos, result)
        == if s[0] >= 128 then Later(1, Varint32Loop(s[1..], (bitpos + 7) % 256, result)) else Done(result, 1)
  {
    hide Step32;
  }

  /** n groups of w that all say that more follow, then padding. */
  function Overlong(w: nat, n: nat, k: nat): seq<Byte> {
    if n == 0 then Padding(k) else [w % 128 + 128] + Overlong(w / 128, n - 1, k)
  }

  lemma {:induction false} PaddingValue(k: nat)
    ensures |Padding(k)| == k + 1 && VarintLength(Padding(k)) == k + 1 && Base128(Padding(k)) == 0
  {
    if k > 0 {
      PaddingValue(k - 1);
    }
  }

  /** What n groups can hold. */
  function Limit(n: nat): nat {
    if n == 0 then 1 else 128 * Limit(n - 1)
  }

  lemma OneMoreGroup(b: Byte, t: seq<Byte>)
    requires b >= 128
    ensures VarintLength(t) > 0 ==> VarintLength([b] + t) == VarintLength(t) + 1
  {
    assert ([b] + t)[1..] == t;
  }

  lemma OverlongStep(w: nat, n: nat, k: nat)
    requires n > 0
    ensures Overlong(w, n, k) == [w % 128 + 128] + Overlong(w / 128, n - 1, k)
  {
  }

  lemma {:induction false} OverlongLength(w: nat, n: nat, k: nat)
    ensures |Overlong(w, n, k)| == n + k + 1 == VarintLength(Overlong(w, n, k))
    decreases n
  {
    if n == 0 {
      PaddingValue(k);
    } else {
      hide Overlong, VarintLength;
      OverlongStep(w, n, k);
      OverlongLength(w / 128, n - 1, k);
      OneMoreGroup(w % 128 + 128, Overlong(w / 128, n - 1, k));
    }
  }

  lemma {:induction false} OverlongDigits(w: nat, n: nat, k: nat)
    requires w < Limit(n)
    ensures Base128(Overlong(w, n, k)) == w
  {
    if n == 0 {
      PaddingValue(k);
    } else {
      OverlongDigits(w / 128, n - 1, k);
      assert Overlong(w, n, k)[1..] == Overlong(w / 128, n - 1, k);
    }
  }

  /** The loop on the groups from place i on, when the rest of v is still to come. */
  lemma {:induction false} OverlongLoop(v: U32, w: nat, i: nat, result: U32, k: nat)
    requires 1 <= i <= 5 && v == result + Place(w, i) && result < Place(1, i)
    ensures Varint32Loop(Overlong(w, 5 - i, k), 7 * i, result) == Done(v, 6 - i + k)
    decreases 5 - i
  {
    hide Varint32Loop, Step32;
    if i == 5 {
      assert result == v;
      Varint32Padded(k, 35, v);
    } else {
      var s := Overlong(w, 5 - i, k);
      assert s[1..] == Overlong(w / 128, 4 - i, k);
      hide Overlong, Place;
      StepValue(s[0], i, result);
      LoopOnce(s, 7 * i, result);
      RestStep(v, w, i, result);
      OverlongLoop(v, w / 128, i + 1, result + Place(w % 128, i), k);
    }
  }

  lemma FiveGroups()
    ensures Limit(5) == 0x8_0000_0000
  {
    assert Limit(2) == 0x4000;
  }

  lemma WholeVarint(s: seq<Byte>)
    requires VarintLength(s) == |s| > 0 && Base128(s) < 0x1_0000_0000
    ensures ReadVarint(s) == if |s| <= 10 then Done(Base128(s), |s|) else Fail
  {
    hide Base128, VarintLength;
    assert s[..|s|] == s;
  }

  lemma OverlongRead32(v: U32, k: nat)
    ensures ReadVarint32(Overlong(v, 5, k)) == Done(v, k + 6)
  {
    hide Varint32Loop, Overlong;
    OverlongStep(v, 5, k);
    assert Overlong(v, 5, k)[1..] == Overlong(v / 128, 4, k);
    OverlongLoop(v, v / 128, 1, v % 128, k);
  }

  /**
   A 32-bit value padded to any length is read as that value by the 32-bit decoder, while the 64-bit
   decoder reads it only up to ten bytes.
   */
  lemma OverlongRead(v: U32, k: nat)
    ensures |Overlong(v, 5, k)| == k + 6
    ensures ReadVarint32(Overlong(v, 5, k)) == Done(v, k + 6)
    ensures ReadVarint(Overlong(v, 5, k)) == if k + 6 <= 10 then Done(v, k + 6) else Fail
  {
    hide *;
    FiveGroups();
    OverlongLength(v, 5, k);
    OverlongDigits(v, 5, k);
    OverlongRead32(v, k);
    WholeVarint(Overlong(v, 5, k));
  }

  // ----- zigzag -----

  /** The encoder's zigzag map: shift left, complement when negative. */
  function Zigzag(v: I64): U64 {
    var shifted := (2 * Unsigned(v, 8)) % 0x1_0000_0000_0000_0000;
    if v < 0 then 0xFFFF_FFFF_FFFF_FFFF - shifted else shifted
  }

  /** The decoder's inverse: shift right, complement when the low bit is set. */
  function Unzigzag(u: U64): I64 {
    Signed(if u % 2 == 1 then 0xFFFF_FFFF_FFFF_FFFF - u / 2 else u / 2, 8)
  }

  /** The map orders values by magnitude: 0, -1, 1, -2, 2, ... */
  lemma ZigzagValue(v: I64)
    ensures Zigzag(v) == if v < 0 then -2 * v - 1 else 2 * v
  {
  }

  lemma ZigzagRoundTrip(v: I64)
    ensures Unzigzag(Zigzag(v)) == v
  {
    ZigzagValue(v);
    var m: int := v;
    assert (-2 * m - 1) / 2 == -m - 1;
  }

  lemma UnzigzagRoundTrip(u: U64)
    ensures Zigzag(Unzigzag(u)) == u
  {
    ZigzagValue(Unzigzag(u));
  }
}
