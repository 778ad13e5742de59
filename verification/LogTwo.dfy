/**
 The base-two logarithm of a 32-bit word: smear its highest bit downwards, multiply by a De Bruijn constant and
 look the top five bits of the product up in a table.
 */
module LogTwo {
  import opened Powers

  const MULT_BRUIJN_BIT_POSITION: seq<nat> := [
    0, 9, 1, 10, 13, 21, 2, 29, 11, 14, 16, 18, 22, 25, 3, 30,
    8, 12, 20, 28, 15, 17, 24, 7, 19, 27, 23, 6, 26, 5, 4, 31]

  const MULTIPLIER: bv32 := 0x07C4_ACDD

  function Smear(v: bv32): bv32 {
    var v := v | (v >> 1);
    var v := v | (v >> 2);
    var v := v | (v >> 4);
    var v := v | (v >> 8);
    v | (v >> 16)
  }

  function TopFive(product: bv32): (index: nat)
    ensures index < 32
  {
    (product >> 27) as nat
  }

  function Lookup(smeared: bv32): nat {
    MULT_BRUIJN_BIT_POSITION[TopFive(smeared * MULTIPLIER)]
  }

  /** The number the lowest `bits` bits of a word stand for. */
  function Value(word: bv32, bits: nat): nat
    decreases bits
  {
    if bits == 0 then 0
    else 2 * Value(word >> 1, bits - 1) + (if word & 1 == 1 then 1 else 0)
  }

  /** For a non-zero word, the floor of its base-two logarithm. */
  method CalculateShift(word: bv32) returns (shift: nat)
    ensures word != 0 ==> Pow2(shift) <= Value(word, 32) < Pow2(shift + 1)
    ensures word == 0 ==> shift == 0
  {
    hide Lookup;
    var v := word;
    v := v | (v >> 1);
    v := v | (v >> 2);
    v := v | (v >> 4);
    v := v | (v >> 8);
    v := v | (v >> 16);
    assert v == Smear(word);
    ShiftIsFloorLog(word);
    return Lookup(v);
  }

  // ---------------------------------------------------------------------------------------------
  // Smearing

  /** The word with bits 0 to `k` set. */
  function OnesUpTo(k: nat): bv32 {
    if k == 0 then 1 else (OnesUpTo(k - 1) << 1) | 1
  }

  /** Smearing commutes with dropping the lowest bit, and sets that bit if there is any bit to smear. */
  lemma SmearHalves(word: bv32)
    ensures word > 1 ==> Smear(word) == (Smear(word >> 1) << 1) | 1
    ensures word <= 1 ==> Smear(word) == word
  {
  }

  predicate Fits(word: bv32, bits: nat)
    decreases bits
  {
    if bits == 0 then word == 0 else Fits(word >> 1, bits - 1)
  }

  predicate AtMost(word: bv32, limit: bv32) {
    word <= limit
  }

  lemma {:induction false} FitsBelow(word: bv32, limit: bv32, bits: nat)
    requires AtMost(word, limit) && Fits(limit, bits)
    ensures Fits(word, bits)
    decreases bits
  {
    hide Fits, AtMost;
    if bits > 0 {
      FitsHalved(limit, bits);
      FitsHalved(word, bits);
      ShiftKeepsOrder(word, limit);
      FitsBelow(word >> 1, limit >> 1, bits - 1);
    } else {
      FitsNothingBelow(word, limit);
    }
  }

  lemma FitsHalved(word: bv32, bits: nat)
    requires bits > 0
    ensures Fits(word, bits) <==> Fits(word >> 1, bits - 1)
  {
  }

  lemma {:induction false} FitsNothingBelow(word: bv32, limit: bv32)
    requires AtMost(word, limit) && Fits(limit, 0)
    ensures Fits(word, 0)
  {
  }

  lemma ShiftKeepsOrder(word: bv32, limit: bv32)
    requires AtMost(word, limit)
    ensures AtMost(word >> 1, limit >> 1)
  {
  }

  lemma {:induction false} FitsWord(word: bv32)
    ensures Fits(word, 32)
  {
    assert Fits(0x3, 2);
    assert Fits(0xF, 4);
    assert Fits(0x3F, 6);
    assert Fits(0xFF, 8);
    assert Fits(0x3FF, 10);
    assert Fits(0xFFF, 12);
    assert Fits(0x3FFF, 14);
    assert Fits(0xFFFF, 16);
    assert Fits(0x3FFFF, 18);
    assert Fits(0xFFFFF, 20);
    assert Fits(0x3FFFFF, 22);
    assert Fits(0xFFFFFF, 24);
    assert Fits(0x3FFFFFF, 26);
    assert Fits(0xFFFFFFF, 28);
    assert Fits(0x3FFFFFFF, 30);
    assert Fits(0xFFFFFFFF, 32);
    FitsBelow(word, 0xFFFF_FFFF, 32);
  }

  /** The smeared word has every bit set up to the highest bit of the word, whose place is the logarithm. */
  lemma {:induction false} SmearFills(word: bv32, bits: nat) returns (k: nat)
    requires word != 0 && Fits(word, bits)
    ensures k < bits && Smear(word) == OnesUpTo(k)
    ensures Pow2(k) <= Value(word, bits) < Pow2(k + 1)
    decreases bits
  {
    var half := word >> 1;
    SmearHalves(word);
    if half == 0 {
      k := 0;
      ZeroHasNoValue(bits - 1);
      assert word == 1;
    } else {
      k := SmearFills(half, bits - 1);
      k := k + 1;
    }
  }

  lemma {:induction false} ZeroHasNoValue(bits: nat)
    ensures Value(0, bits) == 0
    decreases bits
  {
    if bits > 0 {
      ZeroHasNoValue(bits - 1);
    }
  }

  // ---------------------------------------------------------------------------------------------
  // The table

  lemma TableFrom0()
    ensures Lookup(0x1) == 0
    ensures Lookup(0x3) == 1
    ensures Lookup(0x7) == 2
    ensures Lookup(0xF) == 3
    ensures Lookup(0x1F) == 4
    ensures Lookup(0x3F) == 5
    ensures Lookup(0x7F) == 6
    ensures Lookup(0xFF) == 7
  {
    assert TopFive(0x1 * MULTIPLIER) == 0;
    assert TopFive(0x3 * MULTIPLIER) == 2;
    assert TopFive(0x7 * MULTIPLIER) == 6;
    assert TopFive(0xF * MULTIPLIER) == 14;
    assert TopFive(0x1F * MULTIPLIER) == 30;
    assert TopFive(0x3F * MULTIPLIER) == 29;
    assert TopFive(0x7F * MULTIPLIER) == 27;
    assert TopFive(0xFF * MULTIPLIER) == 23;
  }

  lemma TableFrom8()
    ensures Lookup(0x1FF) == 8
    ensures Lookup(0x3FF) == 9
    ensures Lookup(0x7FF) == 10
    ensures Lookup(0xFFF) == 11
    ensures Lookup(0x1FFF) == 12
    ensures Lookup(0x3FFF) == 13
    ensures Lookup(0x7FFF) == 14
    ensures Lookup(0xFFFF) == 15
  {
    assert TopFive(0x1FF * MULTIPLIER) == 16;
    assert TopFive(0x3FF * MULTIPLIER) == 1;
    assert TopFive(0x7FF * MULTIPLIER) == 3;
    assert TopFive(0xFFF * MULTIPLIER) == 8;
    assert TopFive(0x1FFF * MULTIPLIER) == 17;
    assert TopFive(0x3FFF * MULTIPLIER) == 4;
    assert TopFive(0x7FFF * MULTIPLIER) == 9;
    assert TopFive(0xFFFF * MULTIPLIER) == 20;
  }

  lemma TableFrom16()
    ensures Lookup(0x1FFFF) == 16
    ensures Lookup(0x3FFFF) == 17
    ensures Lookup(0x7FFFF) == 18
    ensures Lookup(0xFFFFF) == 19
    ensures Lookup(0x1FFFFF) == 20
    ensures Lookup(0x3FFFFF) == 21
    ensures Lookup(0x7FFFFF) == 22
    ensures Lookup(0xFFFFFF) == 23
  {
    assert TopFive(0x1FFFF * MULTIPLIER) == 10;
    assert TopFive(0x3FFFF * MULTIPLIER) == 21;
    assert TopFive(0x7FFFF * MULTIPLIER) == 11;
    assert TopFive(0xFFFFF * MULTIPLIER) == 24;
    assert TopFive(0x1FFFFF * MULTIPLIER) == 18;
    assert TopFive(0x3FFFFF * MULTIPLIER) == 5;
    assert TopFive(0x7FFFFF * MULTIPLIER) == 12;
    assert TopFive(0xFFFFFF * MULTIPLIER) == 26;
  }

  lemma TableFrom24()
    ensures Lookup(0x1FFFFFF) == 24
    ensures Lookup(0x3FFFFFF) == 25
    ensures Lookup(0x7FFFFFF) == 26
    ensures Lookup(0xFFFFFFF) == 27
    ensures Lookup(0x1FFFFFFF) == 28
    ensures Lookup(0x3FFFFFFF) == 29
    ensures Lookup(0x7FFFFFFF) == 30
    ensures Lookup(0xFFFFFFFF) == 31
  {
    assert TopFive(0x1FFFFFF * MULTIPLIER) == 22;
    assert TopFive(0x3FFFFFF * MULTIPLIER) == 13;
    assert TopFive(0x7FFFFFF * MULTIPLIER) == 28;
    assert TopFive(0xFFFFFFF * MULTIPLIER) == 25;
    assert TopFive(0x1FFFFFFF * MULTIPLIER) == 19;
    assert TopFive(0x3FFFFFFF * MULTIPLIER) == 7;
    assert TopFive(0x7FFFFFFF * MULTIPLIER) == 15;
    assert TopFive(0xFFFFFFFF * MULTIPLIER) == 31;
  }

  /** The multiplier sends each of the 32 smeared words to its own place in the table. */
  lemma {:induction false} LookupOnes(k: nat)
    requires k < 32
    ensures Lookup(OnesUpTo(k)) == k
  {
    hide Lookup;
    TableFrom0();
    TableFrom8();
    TableFrom16();
    TableFrom24();
    assert OnesUpTo(1) == 0x3;
    assert OnesUpTo(3) == 0xF;
    assert OnesUpTo(5) == 0x3F;
    assert OnesUpTo(7) == 0xFF;
    assert OnesUpTo(9) == 0x3FF;
    assert OnesUpTo(11) == 0xFFF;
    assert OnesUpTo(13) == 0x3FFF;
    assert OnesUpTo(15) == 0xFFFF;
    assert OnesUpTo(17) == 0x3FFFF;
    assert OnesUpTo(19) == 0xFFFFF;
    assert OnesUpTo(21) == 0x3FFFFF;
    assert OnesUpTo(23) == 0xFFFFFF;
    assert OnesUpTo(25) == 0x3FFFFFF;
    assert OnesUpTo(27) == 0xFFFFFFF;
    assert OnesUpTo(29) == 0x3FFFFFFF;
    assert OnesUpTo(31) == 0xFFFFFFFF;
  }

  lemma {:induction false} ShiftIsFloorLog(word: bv32)
    ensures
      var shift := Lookup(Smear(word));
      && (word != 0 ==> Pow2(shift) <= Value(word, 32) < Pow2(shift + 1))
      && (word == 0 ==> shift == 0)
  {
    hide Lookup;
    if word != 0 {
      FitsWord(word);
      var k := SmearFills(word, 32);
      LookupOnes(k);
    } else {
      LookupZero();
    }
  }

  lemma LookupZero()
    ensures Lookup(Smear(0)) == 0
  {
    assert Smear(0) == 0;
    assert TopFive(0 * MULTIPLIER) == 0;
  }

  lemma LogIsUnique(value: nat, shift: nat, k: nat)
    requires value == Pow2(k) && Pow2(shift) <= value < Pow2(shift + 1)
    ensures shift == k
  {
    if shift < k {
      Pow2Grows(shift + 1, k);
    } else if k < shift {
      Pow2Grows(k + 1, shift);
      Pow2Grows(k, k);
    }
  }

  /** Shifting one by the result gives every power of two back. */
  lemma {:induction false} PowerOfTwoRecovered(word: bv32, k: nat)
    requires Value(word, 32) == Pow2(k)
    ensures Lookup(Smear(word)) == k
  {
    hide Lookup, Smear, Value, Pow2;
    Pow2Grows(0, k);
    ZeroHasNoValue(32);
    ShiftIsFloorLog(word);
    LogIsUnique(Value(word, 32), Lookup(Smear(word)), k);
  }
}
