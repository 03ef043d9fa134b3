/**
 The varint of a negative 32-bit integer on builds without 64-bit arithmetic: the encoder holds only
 32 bits and makes up the 32 sign bits above them as it shifts.
 */
module NegativeVarint {
  import opened Bits
  import opened Outcomes
  import opened Varints
  import opened OutputStream
  import opened Encoder

  const SIGN_BITS: nat := 32

  /** Bitwise exclusive or, bit by bit from the lowest. */
  function BitXor(a: nat, b: nat): (r: nat)
    decreases a + b
  {
    if a == 0 then b
    else if b == 0 then a
    else (if a % 2 != b % 2 then 1 else 0) + 2 * BitXor(a / 2, b / 2)
  }

  function ShiftLeft(x: nat, k: nat): nat {
    if k == 0 then x else 2 * ShiftLeft(x, k - 1)
  }

  lemma {:induction false} ShiftLeftValue(x: nat, k: nat)
    ensures ShiftLeft(x, k) == x * Pow2(k)
  {
    if k > 0 {
      ShiftLeftValue(x, k - 1);
      TimesTwice(x, Pow2(k - 1));
    }
  }

  lemma TimesTwice(x: nat, y: nat)
    ensures x * (2 * y) == 2 * (x * y)
  {
  }

  /** An exclusive or of values that share no bit is their sum. */
  lemma {:induction false} BitXorDisjoint(a: nat, c: nat, k: nat)
    requires a < Pow2(k)
    ensures BitXor(a, ShiftLeft(c, k)) == a + ShiftLeft(c, k)
    decreases k
  {
    if k > 0 {
      BitXorDisjoint(a / 2, c, k - 1);
      var half := ShiftLeft(c, k - 1);
      assert (2 * half) / 2 == half && (2 * half) % 2 == 0;
    }
  }

  /** The wide number that the loop stands for: value, below the sign bits still to come. */
  function Wide(value: nat, compensation: nat): nat {
    value + TWO_32 * (Pow2(compensation) - 1)
  }

  /** One round's compensation: the lowest of the sign bits still to come, at the top of the word. */
  function Compensated(value: U32, bits: nat): nat
    requires 0 < bits <= 7
  {
    BitXor(value, ShiftLeft(ShiftRight(0xFF, 8 - bits), 25))
  }

  lemma Mask(bits: nat)
    requires 0 < bits <= 7
    ensures ShiftRight(0xFF, 8 - bits) == Pow2(bits) - 1
  {
  }

  lemma CompensatedValue(value: nat, bits: nat)
    requires 0 < bits <= 7 && value < 0x200_0000
    ensures Compensated(value, bits) == value + 0x200_0000 * (Pow2(bits) - 1)
    ensures 0 < Compensated(value, bits) < TWO_32
  {
    hide ShiftRight, ShiftLeft, BitXor, Pow2;
    Mask(bits);
    ShiftLeftValue(Pow2(bits) - 1, 25);
    Pow2Table();
    assert Pow2(25) == 0x200_0000 by { Pow2Add(21, 4); SmallPowers(); }
    Pow2Monotone(bits, 7);
    assert Pow2(bits) >= 2 by { SmallPowers(); Pow2Monotone(1, bits); }
    BitXorDisjoint(value, Pow2(bits) - 1, 25);
  }

  lemma SmallPowers()
    ensures Pow2(0) == 1 && Pow2(1) == 2 && Pow2(4) == 16
  {
  }

  /** A round of the loop shifts the wide number by seven bits. */
  lemma RoundShifts(value: nat, compensation: nat)
    requires compensation > 0
    ensures var bits := if compensation > 7 then 7 else compensation;
            Wide(value / 128 + 0x200_0000 * (Pow2(bits) - 1), compensation - bits) == Wide(value, compensation) / 128
    ensures Wide(value, compensation) % 128 == value % 128
  {
    hide Pow2;
    var bits := if compensation > 7 then 7 else compensation;
    var q: nat := Pow2(compensation - bits);
    Pow2Add(bits, compensation - bits);
    Pow2Table();
    SmallPowers();
    assert Pow2(compensation) == if compensation > 7 then 128 * q else Pow2(bits);
  }

  lemma LastShift(value: U32)
    ensures Wide(value, 0) == value
  {
  }

  /** A word that held a sign bit is the low half of its own 64-bit sign extension. */
  lemma SignExtends(v: int)
    requires FitsSigned(v, 4) && v < 0
    ensures Unsigned(v, 4) >= 0x8000_0000
    ensures Wide(Unsigned(v, 4), SIGN_BITS) == Unsigned(v, 8)
  {
    Pow2Table();
  }

  lemma WideStart(value: U32)
    ensures Wide(value, 32) == value + (TWO_64 - TWO_32)
  {
    Pow2Table();
  }

  lemma RoundStep(word: U32, compensation: nat)
    requires word > 0
    ensures Wide(word, compensation) > 0 && LowGroup(Wide(word, compensation)) == LowGroup(word)
    ensures Shift7(word) < 0x200_0000
    ensures compensation == 0 ==> Wide(Shift7(word), 0) == Shift7(Wide(word, 0))
    ensures compensation > 0 ==>
      var bits := if compensation > 7 then 7 else compensation;
      var after := Compensated(Shift7(word), bits);
      0 < after < TWO_32 && Wide(after, compensation - bits) == Shift7(Wide(word, compensation))
  {
    hide Compensated;
    if compensation > 0 {
      RoundShifts(word, compensation);
      CompensatedValue(word / 128, if compensation > 7 then 7 else compensation);
    } else {
      LastShift(word);
      LastShift(word / 128);
    }
  }

  /** The loop after some groups: those that remain are the groups of the wide number. */
  ghost predicate Partway(wide: nat, filled: seq<Byte>, word: U32, compensation: nat) {
    && Groups(wide) == filled + Groups(Wide(word, compensation)) && |Groups(wide)| <= 10
    && (compensation > 0 ==> word > 0)
    && (word == 0 ==> filled != [] && Groups(wide) == filled)
  }

  lemma PartwayStart(value: U32)
    requires value > 0
    ensures Partway(value + (TWO_64 - TWO_32), [], value, SIGN_BITS)
    ensures var g, v := Groups(value + (TWO_64 - TWO_32)), Varint(value + (TWO_64 - TWO_32));
            g != [] && g[|g| - 1] >= 128 && v == g[..|g| - 1] + [g[|g| - 1] - 128]
  {
    hide Varint, Groups, Wide;
    WideStart(value);
    VarintSize(value + (TWO_64 - TWO_32));
    GroupsOfVarint(value + (TWO_64 - TWO_32));
  }

  lemma PartwayStep(wide: nat, filled: seq<Byte>, word: U32, compensation: nat)
    requires Partway(wide, filled, word, compensation) && word > 0
    ensures |filled| < 10
    ensures compensation == 0 ==> Partway(wide, filled + [LowGroup(word)], Shift7(word), 0)
    ensures compensation > 0 ==>
      var bits := if compensation > 7 then 7 else compensation;
      var after := Compensated(Shift7(word), bits);
      after < TWO_32 && Partway(wide, filled + [LowGroup(word)], after, compensation - bits)
  {
    hide Groups, Wide, LowGroup, Shift7, Compensated;
    GroupsStep(Wide(word, compensation));
    RoundStep(word, compensation);
    LastShift(0);
    GroupsStep(0);
  }

  /** Fills a ten-byte buffer low group first, then clears the last high bit. */
  method FillNegativeVarint(value: U32) returns (buffer: array<Byte>, i: nat)
    requires value > 0
    ensures fresh(buffer) && i <= buffer.Length && buffer[..i] == Varint(value + (TWO_64 - TWO_32))
  {
    hide Varint, Groups, Partway, LowGroup, Shift7, Compensated;
    buffer := new Byte[10];
    i := 0;
    var compensation: nat := SIGN_BITS;
    var word: U32 := value;
    ghost var wide: U64 := value + (TWO_64 - TWO_32);
    PartwayStart(value);
    assert buffer[..0] == [];
    while word != 0
      invariant i <= 10 && Partway(wide, buffer[..i], word, compensation)
      decreases 10 - i
    {
      PartwayStep(wide, buffer[..i], word, compensation);
      ghost var filled := buffer[..i];
      buffer[i] := LowGroup(word);
      assert buffer[..i + 1] == filled + [LowGroup(word)];
      word := Shift7(word);
      if compensation > 0 {
        var bits := if compensation > 7 then 7 else compensation;
        word := Compensated(word, bits);
        compensation := compensation - bits;
      }
      i := i + 1;
    }
    PartwayEnds(wide, buffer[..i], compensation);
    ClearLast(buffer, i);
  }

  lemma PartwayEnds(wide: nat, filled: seq<Byte>, compensation: nat)
    requires Partway(wide, filled, 0, compensation)
    ensures filled != [] && filled == Groups(wide)
  {
  }

  /**
   Writes the varint of the number whose low half is value and whose high half is all ones. For the
   32-bit cast of a negative integer that is the varint of its 64-bit sign extension.
   */
  method EncodeNegativeVarint(stream: OStream, value: U32) returns (ok: bool)
    requires stream.Valid() && value > 0
    modifies stream, stream.buf
    ensures stream.Valid()
    ensures Writes(old(stream.Now()), stream.Now(), Some(Varint(value + (TWO_64 - TWO_32))), ok)
    ensures value >= 0x8000_0000 ==>
      Writes(old(stream.Now()), stream.Now(), Some(Varint(Unsigned(Signed(value, 4), 8))), ok)
  {
    hide Writes, Varint;
    var buffer, i := FillNegativeVarint(value);
    ok := stream.Write(buffer[..i]);
    if value >= 0x8000_0000 {
      SignExtends(Signed(value, 4));
      WideStart(value);
    }
  }
}
