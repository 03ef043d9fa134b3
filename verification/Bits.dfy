/** Fixed-width integers and bit operations, written as arithmetic on naturals. */
module Bits {

  const TWO_32: nat := 0x1_0000_0000
  const TWO_64: nat := 0x1_0000_0000_0000_0000

  type Byte = x: int | 0 <= x < 256
  type U32 = x: int | 0 <= x < 0x1_0000_0000
  type U64 = x: int | 0 <= x < 0x1_0000_0000_0000_0000
  type I64 = x: int | -0x8000_0000_0000_0000 <= x < 0x8000_0000_0000_0000

  function Pow2(k: nat): (p: nat)
    ensures p >= 1
  {
    if k == 0 then 1 else 2 * Pow2(k - 1)
  }

  lemma {:induction false} Pow2Add(a: nat, b: nat)
    ensures Pow2(a + b) == Pow2(a) * Pow2(b)
  {
    if a > 0 {
      Pow2Add(a - 1, b);
      assert Pow2(a + b) == 2 * (Pow2(a - 1) * Pow2(b));
      assert 2 * (Pow2(a - 1) * Pow2(b)) == (2 * Pow2(a - 1)) * Pow2(b);
    }
  }

  lemma {:induction false} Pow2Monotone(a: nat, b: nat)
    requires a <= b
    ensures Pow2(a) <= Pow2(b)
    decreases b
  {
    if a < b {
      Pow2Monotone(a, b - 1);
    }
  }

  lemma Pow2Table()
    ensures Pow2(7) == 128 && Pow2(14) == 0x4000 && Pow2(21) == 0x20_0000 && Pow2(28) == 0x1000_0000
    ensures Pow2(8) == 256 && Pow2(16) == 0x1_0000 && Pow2(31) == 0x8000_0000
    ensures Pow2(32) == TWO_32 && Pow2(63) == 0x8000_0000_0000_0000 && Pow2(64) == TWO_64
  {
    assert Pow2(4) == 16;
    assert Pow2(7) == 128;
    assert Pow2(8) == 256;
    Pow2Add(7, 7);
    Pow2Add(14, 7);
    Pow2Add(21, 7);
    Pow2Add(8, 8);
    Pow2Add(16, 16);
    assert Pow2(32) == 2 * Pow2(31);
    Pow2Add(32, 32);
    assert Pow2(64) == 2 * Pow2(63);
  }

  /** x shifted right by k bits. */
  function ShiftRight(x: nat, k: nat): nat {
    if k == 0 then x else ShiftRight(x / 2, k - 1)
  }

  /** Bitwise inclusive or, bit by bit from the lowest. */
  function BitOr(a: nat, b: nat): (r: nat)
    decreases a + b
  {
    if a == 0 then b
    else if b == 0 then a
    else (if a % 2 == 1 || b % 2 == 1 then 1 else 0) + 2 * BitOr(a / 2, b / 2)
  }

  /** Whether bit k of w is set. */
  predicate BitSet(w: nat, k: nat) {
    if k == 0 then w % 2 == 1 else BitSet(w / 2, k - 1)
  }

  /** An or of values that share no bit is their sum. */
  lemma {:induction false} BitOrDisjoint(a: nat, c: nat, k: nat)
    requires a < Pow2(k)
    ensures c * Pow2(k) >= 0
    ensures BitOr(a, c * Pow2(k)) == a + c * Pow2(k)
    decreases k
  {
    var b := c * Pow2(k);
    if a != 0 && b != 0 {
      var half := c * Pow2(k - 1);
      assert b == 2 * half by {
        assert c * (2 * Pow2(k - 1)) == 2 * (c * Pow2(k - 1));
      }
      BitOrDisjoint(a / 2, c, k - 1);
      assert b % 2 == 0 && b / 2 == half;
      assert BitOr(a, b) == a % 2 + 2 * BitOr(a / 2, half);
    }
  }

  lemma {:induction false} BitOrBound(a: nat, b: nat, k: nat)
    requires a < Pow2(k) && b < Pow2(k)
    ensures BitOr(a, b) < Pow2(k)
    decreases k
  {
    if a != 0 && b != 0 {
      BitOrBound(a / 2, b / 2, k - 1);
    }
  }

  /** A bit of an or is set exactly when it is set on one side. */
  lemma {:induction false} BitOrBits(a: nat, b: nat, k: nat)
    ensures BitSet(BitOr(a, b), k) <==> BitSet(a, k) || BitSet(b, k)
    decreases k
  {
    if a == 0 {
      BitsOfZero(k);
    } else if b == 0 {
      BitsOfZero(k);
    } else {
      var r := BitOr(a, b);
      assert r / 2 == BitOr(a / 2, b / 2);
      if k > 0 {
        BitOrBits(a / 2, b / 2, k - 1);
      }
    }
  }

  lemma {:induction false} BitsOfZero(k: nat)
    ensures !BitSet(0, k)
  {
    if k > 0 {
      BitsOfZero(k - 1);
    }
  }

  lemma {:induction false} BitsOfPow2(j: nat, k: nat)
    ensures BitSet(Pow2(j), k) <==> j == k
    decreases k
  {
    if j == 0 {
      if k > 0 { BitsOfZero(k - 1); }
    } else if k > 0 {
      assert Pow2(j) / 2 == Pow2(j - 1);
      BitsOfPow2(j - 1, k - 1);
    }
  }

  /** The bits of 2^c - 1 are the c lowest. */
  lemma {:induction false} BitsOfOnes(c: nat, k: nat)
    ensures BitSet(Pow2(c) - 1, k) <==> k < c
    decreases k
  {
    if c == 0 {
      BitsOfZero(k);
    } else if k > 0 {
      assert (Pow2(c) - 1) / 2 == Pow2(c - 1) - 1;
      BitsOfOnes(c - 1, k - 1);
    }
  }

  /** A word is 2^c - 1 when its set bits are exactly the c lowest. */
  lemma {:induction false} OnesUnique(w: nat, c: nat)
    requires forall k: nat :: BitSet(w, k) <==> k < c
    ensures w == Pow2(c) - 1
    decreases c
  {
    if c == 0 {
      NoBits(w);
    } else {
      forall k: nat
        ensures BitSet(w / 2, k) <==> k < c - 1
      {
        assert BitSet(w, k + 1) <==> k + 1 < c;
      }
      OnesUnique(w / 2, c - 1);
      assert BitSet(w, 0);
    }
  }

  lemma {:induction false} NoBits(w: nat)
    requires forall k: nat :: !BitSet(w, k)
    ensures w == 0
  {
    if w != 0 {
      assert !BitSet(w, 0);
      forall k: nat
        ensures !BitSet(w / 2, k)
      {
        assert !BitSet(w, k + 1);
      }
      NoBits(w / 2);
    }
  }

  // ----- casts between the integer types of 1, 2, 4 and 8 bytes -----

  predicate IntSize(size: nat) {
    size == 1 || size == 2 || size == 4 || size == 8
  }

  /** A C cast to the unsigned integer type of the given size in bytes. */
  function Unsigned(x: int, size: nat): nat {
    if size == 1 then x % 0x100
    else if size == 2 then x % 0x1_0000
    else if size == 4 then x % 0x1_0000_0000
    else x % 0x1_0000_0000_0000_0000
  }

  /** A C cast to the two's complement integer type of the given size in bytes. */
  function Signed(x: int, size: nat): int {
    var u: int := Unsigned(x, size);
    if u < HalfRange(size) then u else u - 2 * HalfRange(size)
  }

  function HalfRange(size: nat): int {
    if size == 1 then 0x80
    else if size == 2 then 0x8000
    else if size == 4 then 0x8000_0000
    else 0x8000_0000_0000_0000
  }

  predicate FitsSigned(x: int, size: nat) {
    -HalfRange(size) <= x < HalfRange(size)
  }

  predicate FitsUnsigned(x: int, size: nat) {
    0 <= x < 2 * HalfRange(size)
  }

  /** A cast changes nothing exactly on the values that the target type holds. */
  lemma CastIdentity(x: int, size: nat)
    ensures Signed(x, size) == x <==> FitsSigned(x, size)
    ensures Unsigned(x, size) == x <==> FitsUnsigned(x, size)
  {
  }

  lemma UnsignedRange(x: int)
    ensures Unsigned(x, 4) < 0x1_0000_0000
    ensures Unsigned(x, 8) < 0x1_0000_0000_0000_0000
  {
  }
}
