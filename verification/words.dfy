/** Machine words and the numbers that stand for them in the other modules. */
module MachineWords {
  import opened Bits

  /** The number of the low `k` bits of a word. */
  function Value(w: bv32, k: nat): nat {
    if k == 0 then 0 else (if w & 1 == 1 then 1 else 0) + 2 * Value(w >> 1, k - 1)
  }

  /** All bits of `w` are among the low `k` ones. */
  predicate Narrow(w: bv32, k: nat) {
    if k == 0 then w == 0 else Narrow(w >> 1, k - 1)
  }

  /** Bit `k` is the only one in `w`. */
  predicate OnlyBit(w: bv32, k: nat) {
    if k == 0 then w == 1 else w & 1 == 0 && OnlyBit(w >> 1, k - 1)
  }

  // ---------------------------------------------------------------- the width of a word

  lemma NarrowOne(w: bv32, k: nat)
    ensures Narrow(w, k + 1) <==> Narrow(w >> 1, k)
    ensures Narrow(w, 0) <==> w == 0
  {}

  lemma ShiftTwo(w: bv32)
    ensures (w >> 1) >> 1 == w >> 2 && (w >> 1) >> 2 == w >> 3 && (w >> 2) >> 2 == w >> 4
  {}

  lemma Shifts(w: bv32)
    ensures (w >> 4) >> 4 == w >> 8 && (w >> 8) >> 8 == w >> 16 && (w >> 16) >> 16 == 0
  {}

  lemma NarrowTwo(w: bv32, k: nat)
    ensures Narrow(w, k + 2) <==> Narrow(w >> 2, k)
  {
    hide Narrow;
    ShiftTwo(w);
    NarrowOne(w, k + 1);
    NarrowOne(w >> 1, k);
  }

  lemma NarrowThree(w: bv32)
    ensures Narrow(w, 3) <==> w >> 3 == 0
  {
    hide Narrow;
    ShiftTwo(w);
    NarrowOne(w, 2);
    NarrowTwo(w >> 1, 0);
    NarrowOne(w >> 3, 0);
  }

  lemma NarrowFour(w: bv32, k: nat)
    ensures Narrow(w, k + 4) <==> Narrow(w >> 4, k)
  {
    hide Narrow;
    ShiftTwo(w);
    NarrowTwo(w, k + 2);
    NarrowTwo(w >> 2, k);
  }

  lemma NarrowEight(w: bv32, k: nat)
    ensures Narrow(w, k + 8) <==> Narrow(w >> 8, k)
  {
    hide Narrow;
    Shifts(w);
    NarrowFour(w, k + 4);
    NarrowFour(w >> 4, k);
  }

  lemma NarrowSixteen(w: bv32, k: nat)
    ensures Narrow(w, k + 16) <==> Narrow(w >> 16, k)
  {
    hide Narrow;
    Shifts(w);
    NarrowEight(w, k + 8);
    NarrowEight(w >> 8, k);
  }

  /** Every word is 32 bits wide. */
  lemma WordWidth(w: bv32)
    ensures Narrow(w, 32)
  {
    hide Narrow;
    Shifts(w);
    NarrowSixteen(w, 16);
    NarrowSixteen(w >> 16, 0);
    NarrowOne(0, 0);
  }

  /** A word of 31 bits has no top bit. */
  lemma TopClear(w: bv32)
    ensures Narrow(w, 31) <==> w & 0x8000_0000 == 0
  {
    hide Narrow;
    NarrowSixteen(w, 15);
    NarrowEight(w >> 16, 7);
    NarrowFour((w >> 16) >> 8, 3);
    NarrowThree(((w >> 16) >> 8) >> 4);
    Upper(w);
  }

  lemma Upper(w: bv32)
    ensures (((w >> 16) >> 8) >> 4) >> 3 == 0 <==> w & 0x8000_0000 == 0
  {}

  lemma {:induction false} Widen(w: bv32, k: nat, m: nat)
    requires k <= m && Narrow(w, k)
    ensures Narrow(w, m)
    decreases m
  {
    if k > 0 {
      Widen(w >> 1, k - 1, m - 1);
    } else if m > 0 {
      Widen(w >> 1, 0, m - 1);
    }
  }

  // ---------------------------------------------------------------- values

  lemma ValueFirst(w: bv32, k: nat)
    ensures Value(w, k + 1) == (if w & 1 == 1 then 1 else 0) + 2 * Value(w >> 1, k)
  {}

  lemma ValueHalf(w: bv32, k: nat)
    ensures Value(w, k + 1) / 2 == Value(w >> 1, k)
  {
    hide Value;
    ValueFirst(w, k);
  }

  lemma {:induction false} ZeroValue(k: nat)
    ensures Value(0, k) == 0
  {
    if k > 0 { ZeroValue(k - 1); }
  }

  lemma {:induction false} ValueBound(w: bv32, k: nat)
    ensures Value(w, k) < Pow2(k)
    decreases k
  {
    if k > 0 { ValueBound(w >> 1, k - 1); }
  }

  lemma {:induction false} NarrowValue(w: bv32, k: nat)
    requires Narrow(w, k)
    ensures Value(w, k + 1) == Value(w, k)
    decreases k
  {
    if k > 0 { NarrowValue(w >> 1, k - 1); }
  }

  /** Adding a bit on top of a word. */
  lemma {:induction false} ValueTop(x: bv32, y: bv32, k: nat)
    requires Narrow(x, k) && OnlyBit(y, k)
    ensures Value(x | y, k + 1) == Value(x, k) + Pow2(k)
    decreases k
  {
    if k > 0 {
      assert (x | y) & 1 == (x & 1) | (y & 1) && (x | y) >> 1 == (x >> 1) | (y >> 1);
      ValueTop(x >> 1, y >> 1, k - 1);
    }
  }

  lemma OnlyTwo(w: bv32, k: nat)
    requires w & 3 == 0 && OnlyBit(w >> 2, k)
    ensures OnlyBit(w, k + 2)
  {
    ShiftTwo(w);
    assert w & 1 == 0 && (w >> 1) & 1 == 0;
    assert OnlyBit(w >> 1, k + 1);
  }

  lemma OnlyFour(w: bv32, k: nat)
    requires w & 15 == 0 && OnlyBit(w >> 4, k)
    ensures OnlyBit(w, k + 4)
  {
    hide OnlyBit;
    ShiftTwo(w);
    assert w & 3 == 0 && (w >> 2) & 3 == 0;
    OnlyTwo(w >> 2, k);
    OnlyTwo(w, k + 2);
  }

  lemma TopBit()
    ensures OnlyBit(0x8000_0000, 31)
  {
    hide OnlyBit;
    SecondBit();
    OnlyTwo(8, 1);
    OnlyFour(0x80, 3);
    OnlyFour(0x800, 7);
    OnlyFour(0x8000, 11);
    OnlyFour(0x8_0000, 15);
    OnlyFour(0x80_0000, 19);
    OnlyFour(0x800_0000, 23);
    OnlyFour(0x8000_0000, 27);
  }

  lemma SecondBit()
    ensures OnlyBit(2, 1)
  {
    assert OnlyBit(1, 0);
    assert 2 as bv32 >> 1 == 1;
  }

  // ---------------------------------------------------------------- bit_reverse

  lemma TopOrNot(r: bv32)
    ensures (r >> 1) | ((1 as bv32) << 31) == (r >> 1) | 0x8000_0000 && (r >> 1) | ((0 as bv32) << 31) == r >> 1
    ensures (r >> 1) & 0x8000_0000 == 0
  {}

  lemma OneBit(b: bv32)
    requires b <= 1
    ensures b == 0 || b == 1
  {}

  /** Putting a bit on top of the upper 31 bits of a word. */
  lemma ShiftedIn(r: bv32, b: bv32)
    requires b <= 1
    ensures Value((r >> 1) | (b << 31), 32) == Value(r, 32) / 2 + Shl(if b == 1 then 1 else 0, 31)
  {
    hide Shl, Pow2, Narrow, OnlyBit, Value;
    TopOrNot(r);
    OneBit(b);
    TopClear(r >> 1);
    ValueHalf(r, 31);
    NarrowValue(r >> 1, 31);
    TopBit();
    ValueTop(r >> 1, 0x8000_0000, 31);
    Pow2Is(31);
  }

  lemma LastBit(w: bv32)
    ensures BitReverseWord(w) == (BitReverseWord(w >> 1) >> 1) | ((w & 1) << 31) && w & 1 <= 1
  {}

  lemma UpperValue(w: bv32)
    ensures Value(w >> 1, 32) == Value(w >> 1, 31) < Pow2(31)
  {
    hide Narrow, Value, Pow2;
    TopOrNot(w);
    TopClear(w >> 1);
    NarrowValue(w >> 1, 31);
    ValueBound(w >> 1, 31);
  }

  /** The word is shifted in bit by bit; each bit turns up on top of the reversed word and of the reversed number. */
  lemma {:induction false} Agree(w: bv32, k: nat)
    requires Narrow(w, k) && k <= 32
    ensures Value(BitReverseWord(w), 32) == BitReverse(Value(w, 32))
    decreases k
  {
    hide BitReverseWord, BitReverse, Value, Shl, Pow2;
    if k == 0 {
      AgreeZero();
    } else {
      Agree(w >> 1, k - 1);
      AgreeStep(w);
    }
  }

  lemma AgreeZero()
    ensures Value(BitReverseWord(0), 32) == BitReverse(Value(0, 32))
  {
    hide BitReverseWord, BitReverse, Value, Shl;
    Pow2Values();
    BitReverseWordShiftsIn(0, 0);
    BitReverseShiftsIn(0, 0);
    ZeroValue(32);
  }

  lemma AgreeStep(w: bv32)
    requires Value(BitReverseWord(w >> 1), 32) == BitReverse(Value(w >> 1, 32))
    ensures Value(BitReverseWord(w), 32) == BitReverse(Value(w, 32))
  {
    hide BitReverseWord, BitReverse, Value, Shl, Pow2;
    LastBit(w);
    ShiftedIn(BitReverseWord(w >> 1), w & 1);
    UpperValue(w);
    ValueFirst(w, 31);
    BitReverseShiftsIn(Value(w >> 1, 31), if w & 1 == 1 then 1 else 0);
  }

  /** `bit_reverse` on machine words is the reversal of numbers that the other modules use. */
  lemma ReversalsAgree(w: bv32)
    ensures Value(BitReverseWord(w), 32) == BitReverse(Value(w, 32))
  {
    WordWidth(w);
    Agree(w, 32);
  }

  lemma ShiftIn(v: bv32, bit: bool)
    requires v & 0x8000_0000 == 0
    ensures var w := (v << 1) | (if bit then 1 else 0); w >> 1 == v && (w & 1 == 1 <==> bit)
  {}

  /** Every number below 2^32 is the value of a word. */
  lemma {:induction false} WordOf(n: nat, k: nat) returns (w: bv32)
    requires n < Pow2(k) && k <= 32
    ensures Narrow(w, k) && Value(w, k) == n
    decreases k
  {
    if k == 0 {
      w := 0;
    } else {
      hide Pow2, Narrow, Value;
      Pow2Half(k, n);
      var v := WordOf(n / 2, k - 1);
      Widen(v, k - 1, 31);
      TopClear(v);
      ShiftIn(v, n % 2 == 1);
      w := (v << 1) | (if n % 2 == 1 then 1 else 0);
      NarrowOne(w, k - 1);
      ValueFirst(w, k - 1);
    }
  }
}
