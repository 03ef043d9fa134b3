/** The two words in which the decoder notes required fields, against the set of fields seen. */
module Bitmap {
  import opened Bits
  import opened Descriptor
  import opened DecodeSpec

  const ALL_BITS: U32 := 0xFFFF_FFFF

  /** Index number k of word number w is in the set. */
  predicate Has(idx: set<nat>, w: nat, k: nat) {
    32 * w + k in idx
  }

  /** Word number w holds exactly the indices of idx that fall into it. */
  ghost predicate WordHolds(word: nat, w: nat, idx: set<nat>) {
    forall k: nat :: BitSet(word, k) <==> k < 32 && Has(idx, w, k)
  }

  ghost predicate Holds(words: seq<U32>, idx: set<nat>) {
    |words| == 2 && WordHolds(words[0], 0, idx) && WordHolds(words[1], 1, idx)
  }

  /** The required-field numbers, below the limit, of the entries seen. */
  function Indices(fs: seq<Field>, seen: set<nat>): set<nat> {
    set i | i in seen && i < |fs| && Checked(fs, i) :: RequiredBefore(fs, i)
  }

  lemma EmptyHolds(fs: seq<Field>)
    ensures Holds([0, 0], Indices(fs, {}))
  {
    forall k: nat
      ensures !BitSet(0, k)
    {
      BitsOfZero(k);
    }
  }

  /** Setting a bit adds one index. */
  lemma SetBitWord(word: U32, w: nat, idx: set<nat>, r: nat)
    requires WordHolds(word, w, idx) && r / 32 == w
    ensures WordHolds(BitOr(word, Pow2(r % 32)), w, idx + {r})
  {
    hide BitOr;
    forall k: nat
      ensures BitSet(BitOr(word, Pow2(r % 32)), k) <==> k < 32 && Has(idx + {r}, w, k)
    {
      BitOrBits(word, Pow2(r % 32), k);
      BitsOfPow2(r % 32, k);
    }
  }

  lemma OtherWord(word: U32, w: nat, idx: set<nat>, r: nat)
    requires WordHolds(word, w, idx) && r / 32 != w
    ensures WordHolds(word, w, idx + {r})
  {
  }

  lemma {:induction false} RequiredBeforeMonotone(fs: seq<Field>, i: nat, j: nat)
    requires i < j <= |fs|
    ensures RequiredBefore(fs, i) + (if fs[i].htype == Required then 1 else 0) <= RequiredBefore(fs, j)
    decreases j
  {
    if i + 1 < j {
      RequiredBeforeMonotone(fs, i, j - 1);
    }
  }

  /** Seeing one more required entry adds its number, if it is below the limit. */
  lemma IndicesGrow(fs: seq<Field>, seen: set<nat>, i: nat)
    requires i < |fs| && fs[i].htype == Required
    ensures Indices(fs, seen + {i})
         == if RequiredBefore(fs, i) < MAX_REQUIRED_FIELDS then Indices(fs, seen) + {RequiredBefore(fs, i)} else Indices(fs, seen)
  {
  }

  /** The check after the loop: whole words, then the remaining bits. */
  predicate WordsComplete(words: seq<U32>, count: nat)
    requires |words| == 2 && count <= MAX_REQUIRED_FIELDS
  {
    && (forall i :: 0 <= i < count / 32 ==> words[i] == ALL_BITS)
    && (count % 32 != 0 ==> words[count / 32] == ShiftRight(ALL_BITS, 32 - count % 32))
  }

  /** All bits of n + k, shifted right by k, are all bits of n. */
  lemma {:induction false} OnesShifted(n: nat, k: nat)
    ensures ShiftRight(Pow2(n + k) - 1, k) == Pow2(n) - 1
  {
    if k > 0 {
      assert Pow2(n + k) == 2 * Pow2(n + k - 1);
      OnesShifted(n, k - 1);
    }
  }

  /** A word that holds nothing from index c on is 2^c - 1 exactly when it holds all c before. */
  lemma WordFull(word: U32, w: nat, idx: set<nat>, c: nat)
    requires WordHolds(word, w, idx) && c <= 32
    requires forall k: nat :: k < 32 && Has(idx, w, k) ==> k < c
    ensures word == Pow2(c) - 1 <==> forall k: nat :: k < c ==> Has(idx, w, k)
  {
    if word == Pow2(c) - 1 {
      forall k: nat | k < c
        ensures Has(idx, w, k)
      {
        BitsOfOnes(c, k);
      }
    }
    if forall k: nat :: k < c ==> Has(idx, w, k) {
      OnesUnique(word, c);
    }
  }

  /** The words pass the check exactly when they hold every number below the count. */
  lemma CompleteWords(words: seq<U32>, idx: set<nat>, count: nat)
    requires Holds(words, idx) && count <= MAX_REQUIRED_FIELDS
    requires forall r :: r in idx ==> r < count
    ensures WordsComplete(words, count) <==> forall r: nat :: r < count ==> r in idx
  {
    hide WordHolds, WordsComplete;
    var low := if count < 32 then count else 32;
    WordFull(words[0], 0, idx, low);
    WordFull(words[1], 1, idx, count - low);
    WordBorders(words, count);
    forall r: nat | r < count
      ensures r in idx <==> if r < 32 then Has(idx, 0, r) else Has(idx, 1, r - 32)
    {
    }
    if forall r: nat :: r < count ==> r in idx {
      assert forall k: nat :: k < low ==> Has(idx, 0, k);
      assert forall k: nat :: k < count - low ==> Has(idx, 1, k);
    }
  }

  /** Which comparisons the check makes, for each position of the count between the word borders. */
  lemma WordBorders(words: seq<U32>, count: nat)
    requires |words| == 2 && count <= MAX_REQUIRED_FIELDS
    ensures var low := if count < 32 then count else 32;
            WordsComplete(words, count)
            <==> (count > 0 ==> words[0] == Pow2(low) - 1) && (count > 32 ==> words[1] == Pow2(count - low) - 1)
  {
    hide Pow2, ShiftRight;
    Pow2Table();
    OnesShifted(count % 32, 32 - count % 32);
    if count < 32 {
      assert count / 32 == 0 && count % 32 == count;
    } else if count < 64 {
      assert count / 32 == 1 && count % 32 == count - 32;
    } else {
      assert count / 32 == 2 && count % 32 == 0;
    }
  }

  /** The number of required entries whose presence is checked. */
  function CheckedCount(fs: seq<Field>): (n: nat)
    ensures n <= MAX_REQUIRED_FIELDS
  {
    if RequiredBefore(fs, |fs|) > MAX_REQUIRED_FIELDS then MAX_REQUIRED_FIELDS else RequiredBefore(fs, |fs|)
  }

  /** Required entries are numbered without gaps. */
  lemma {:induction false} EntryNumbered(fs: seq<Field>, n: nat, r: nat) returns (i: nat)
    requires n <= |fs| && r < RequiredBefore(fs, n)
    ensures i < n && fs[i].htype == Required && RequiredBefore(fs, i) == r
    decreases n
  {
    if fs[n - 1].htype == Required && RequiredBefore(fs, n - 1) == r {
      i := n - 1;
    } else {
      i := EntryNumbered(fs, n - 1, r);
    }
  }

  /**
   The bitmap is exact: it passes the check after the loop if and only if each of the first 64
   required fields has been seen, wherever the word border and the last field fall.
   */
  lemma BitmapExact(fs: seq<Field>, words: seq<U32>, seen: set<nat>)
    requires Holds(words, Indices(fs, seen))
    ensures WordsComplete(words, CheckedCount(fs)) <==> AllSeen(fs, seen)
  {
    hide Holds, WordsComplete;
    var idx, count := Indices(fs, seen), CheckedCount(fs);
    forall r | r in idx
      ensures r < count
    {
      var i :| i in seen && i < |fs| && Checked(fs, i) && RequiredBefore(fs, i) == r;
      RequiredBeforeMonotone(fs, i, |fs|);
    }
    CompleteWords(words, idx, count);
    if forall r: nat :: r < count ==> r in idx {
      forall i | 0 <= i < |fs| && Checked(fs, i)
        ensures i in seen
      {
        RequiredBeforeMonotone(fs, i, |fs|);
        assert RequiredBefore(fs, i) in idx;
        var k :| k in seen && k < |fs| && Checked(fs, k) && RequiredBefore(fs, k) == RequiredBefore(fs, i);
        if k < i { RequiredBeforeMonotone(fs, k, i); } else if i < k { RequiredBeforeMonotone(fs, i, k); }
      }
    }
    if AllSeen(fs, seen) {
      forall r: nat | r < count
        ensures r in idx
      {
        var i := EntryNumbered(fs, |fs|, r);
        assert Checked(fs, i);
      }
    }
  }
}
