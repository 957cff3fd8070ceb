/** Words, shifts and bit strings, as the Vorbis decoder uses them.

    A 32-bit word is modelled as a natural number below `WORD`.  The C shifts are repeated
    doubling and halving and `v & ((1 << n) - 1)` is `Low(v, n)`, so every fact about them is
    linear arithmetic.  A bit string is a `seq<bool>` in the order in which a Vorbis packet
    delivers its bits: least significant bit first.
 */
module Bits {

  const WORD: nat := 0x1_0000_0000

  type byte = x: int | 0 <= x < 256

  /** `v << n` on unbounded numbers. */
  function Shl(v: nat, n: nat): (r: nat)
    ensures v > 0 ==> r > 0
    ensures v == 0 ==> r == 0
  {
    if n == 0 then v else 2 * Shl(v, n - 1)
  }

  /** `v >> n`. */
  function Shr(v: nat, n: nat): (r: nat)
    ensures r <= v
  {
    if n == 0 then v else Shr(v / 2, n - 1)
  }

  function Pow2(n: nat): (p: nat)
    ensures p >= 1
  {
    Shl(1, n)
  }

  /** `v & ((1 << n) - 1)`. */
  function Low(v: nat, n: nat): (r: nat)
    ensures r <= v
    ensures r < Pow2(n)
  {
    if n == 0 then 0 else v % 2 + 2 * Low(v / 2, n - 1)
  }

  lemma {:induction false} Pow2Add(a: nat, b: nat)
    ensures Pow2(a + b) == Shl(Pow2(a), b)
  {
    if b > 0 { Pow2Add(a, b - 1); }
  }

  lemma Pow2Values()
    ensures Pow2(1) == 2
    ensures Pow2(2) == 4
    ensures Pow2(8) == 256
    ensures Pow2(10) == 1024
    ensures Pow2(16) == 65536
    ensures Pow2(24) == 0x100_0000
    ensures Pow2(31) == 0x8000_0000
    ensures Pow2(32) == WORD
  {
    assert Pow2(4) == 16;
    assert Pow2(8) == 256;
    assert Pow2(12) == 4096;
    assert Pow2(16) == 65536;
    assert Pow2(20) == 0x10_0000;
    assert Pow2(24) == 0x100_0000;
    assert Pow2(28) == 0x1000_0000;
  }

  lemma {:induction false} Pow2Mono(a: nat, b: nat)
    requires a <= b
    ensures Pow2(a) <= Pow2(b)
    ensures a < b ==> 2 * Pow2(a) <= Pow2(b)
  {
    if a < b { Pow2Mono(a, b - 1); }
  }

  lemma {:induction false} ShlAdd(v: nat, w: nat, n: nat)
    ensures Shl(v + w, n) == Shl(v, n) + Shl(w, n)
  {
    if n > 0 { ShlAdd(v, w, n - 1); }
  }

  lemma {:induction false} ShlMono(v: nat, w: nat, n: nat)
    requires v <= w
    ensures Shl(v, n) <= Shl(w, n)
    ensures v < w ==> Shl(v, n) + Pow2(n) <= Shl(w, n)
  {
    if n > 0 { ShlMono(v, w, n - 1); }
  }

  lemma {:induction false} ShlShl(v: nat, n: nat, m: nat)
    ensures Shl(Shl(v, n), m) == Shl(v, n + m)
  {
    if m > 0 { ShlShl(v, n, m - 1); }
  }

  /** A word is its low bits plus its high bits shifted back. */
  lemma {:induction false} LowHigh(v: nat, n: nat)
    ensures v == Low(v, n) + Shl(Shr(v, n), n)
    decreases n
  {
    if n > 0 { LowHigh(v / 2, n - 1); }
  }

  /** The converse: a low part and a shifted high part are recovered by `Low` and `Shr`. */
  lemma {:induction false} LowHighUnique(lo: nat, hi: nat, n: nat)
    requires lo < Pow2(n)
    ensures Low(lo + Shl(hi, n), n) == lo
    ensures Shr(lo + Shl(hi, n), n) == hi
    decreases n
  {
    if n > 0 {
      LowHighUnique(lo / 2, hi, n - 1);
      var v := lo + Shl(hi, n);
      assert v / 2 == lo / 2 + Shl(hi, n - 1) && v % 2 == lo % 2;
    }
  }

  lemma LowSmall(v: nat, n: nat)
    requires v < Pow2(n)
    ensures Low(v, n) == v && Shr(v, n) == 0
  {
    assert Shl(0, n) == 0;
    LowHighUnique(v, 0, n);
  }

  lemma {:induction false} ShrBound(v: nat, n: nat, m: nat)
    requires v < Pow2(n + m)
    ensures Shr(v, n) < Pow2(m)
    decreases n
  {
    if n > 0 { ShrBound(v / 2, n - 1, m); }
  }

  lemma LowUnfold(v: nat, n: nat)
    ensures Low(v, n) == if n == 0 then 0 else v % 2 + 2 * Low(v / 2, n - 1)
  {}

  lemma {:induction false} LowLow(v: nat, n: nat, m: nat)
    requires m <= n
    ensures Low(Low(v, n), m) == Low(v, m)
    decreases m
  {
    hide Pow2, Low;
    LowUnfold(v, n);
    LowUnfold(v, m);
    LowUnfold(Low(v, n), m);
    if m > 0 { LowLow(v / 2, n - 1, m - 1); }
  }

  // ---------------------------------------------------------------- bit strings

  /** The low `n` bits of `v`, least significant first. */
  function ToBits(v: nat, n: nat): (bs: seq<bool>)
    ensures |bs| == n
  {
    if n == 0 then [] else [v % 2 == 1] + ToBits(v / 2, n - 1)
  }

  /** The number whose bits are `bs`, least significant first. */
  function FromBits(bs: seq<bool>): (v: nat)
    ensures v < Pow2(|bs|)
  {
    if bs == [] then 0 else (if bs[0] then 1 else 0) + 2 * FromBits(bs[1..])
  }

  lemma {:induction false} FromToBits(v: nat, n: nat)
    ensures FromBits(ToBits(v, n)) == Low(v, n)
    decreases n
  {
    if n > 0 {
      FromToBits(v / 2, n - 1);
      assert ToBits(v, n)[1..] == ToBits(v / 2, n - 1);
    }
  }

  /** Joining a low and a high part is joining their bit strings. */
  lemma {:induction false} ToBitsJoin(lo: nat, hi: nat, n: nat, m: nat)
    requires lo < Pow2(n)
    ensures ToBits(lo + Shl(hi, n), n + m) == ToBits(lo, n) + ToBits(hi, m)
    decreases n
  {
    if n == 0 {
      assert ToBits(lo, 0) + ToBits(hi, m) == ToBits(hi, m);
    } else {
      hide ToBits, Shl, Pow2;
      var v := lo + Shl(hi, n);
      ShlUnfold(hi, n);
      Pow2Half(n, lo);
      ToBitsJoin(lo / 2, hi, n - 1, m);
      ToBitsFirst(v, n + m);
      ToBitsFirst(lo, n);
      assert [lo % 2 == 1] + (ToBits(lo / 2, n - 1) + ToBits(hi, m)) == [lo % 2 == 1] + ToBits(lo / 2, n - 1) + ToBits(hi, m);
    }
  }

  lemma ToBitsFirst(v: nat, n: nat)
    requires n > 0
    ensures ToBits(v, n) == [v % 2 == 1] + ToBits(v / 2, n - 1)
  {}

  lemma {:induction false} ToBitsLow(v: nat, n: nat)
    ensures ToBits(Low(v, n), n) == ToBits(v, n)
    decreases n
  {
    if n > 0 { ToBitsLow(v / 2, n - 1); }
  }

  lemma ToBitsTakeDrop(v: nat, n: nat, k: nat)
    requires k <= n
    ensures ToBits(v, n)[..k] == ToBits(v, k)
    ensures ToBits(v, n)[k..] == ToBits(Shr(v, k), n - k)
  {
    LowHigh(v, k);
    ToBitsJoin(Low(v, k), Shr(v, k), k, n - k);
    ToBitsLow(v, k);
  }

  lemma ToBitsInjective(a: nat, b: nat, n: nat)
    ensures ToBits(a, n) == ToBits(b, n) <==> Low(a, n) == Low(b, n)
  {
    FromToBits(a, n);
    FromToBits(b, n);
    ToBitsLow(a, n);
    ToBitsLow(b, n);
  }

  /** The bits of a byte string in the order in which a packet delivers them. */
  function BytesBits(bytes: seq<byte>): (bs: seq<bool>)
    ensures |bs| == 8 * |bytes|
  {
    if bytes == [] then [] else ToBits(bytes[0], 8) + BytesBits(bytes[1..])
  }

  // ---------------------------------------------------------------- bit reversal

  /** The low `k` bits of `n` in reverse order. */
  function Rev(k: nat, n: nat): nat
  {
    if k == 0 then 0 else Shl(n % 2, k - 1) + Rev(k - 1, n / 2)
  }

  lemma {:induction false} RevBound(k: nat, n: nat)
    ensures Rev(k, n) < Pow2(k)
  {
    if k > 0 {
      RevBound(k - 1, n / 2);
      ShlMono(n % 2, 1, k - 1);
    }
  }

  lemma {:induction false} RevZero(k: nat)
    ensures Rev(k, 0) == 0
  {
    if k > 0 { RevZero(k - 1); }
  }

  lemma ShlJoin(b: nat, x: nat, j: nat, d: nat)
    ensures Shl(Shl(b, j) + x, d) == Shl(b, j + d) + Shl(x, d)
  {
    ShlAdd(Shl(b, j), x, d);
    ShlShl(b, j, d);
  }

  lemma RevCons(k: nat, b: nat, h: nat)
    requires b <= 1
    ensures Rev(k + 1, b + 2 * h) == Shl(b, k) + Rev(k, h)
  {
    assert (b + 2 * h) % 2 == b && (b + 2 * h) / 2 == h;
  }

  lemma ShlUnfold(v: nat, n: nat)
    ensures Shl(v, n) == if n == 0 then v else 2 * Shl(v, n - 1)
  {}

  lemma Pow2Is(n: nat)
    ensures Pow2(n) == Shl(1, n)
  {}

  lemma RevNone(n: nat)
    ensures Rev(0, n) == 0 && Pow2(0) == 1
  {}

  lemma RevUnfold(k: nat, n: nat)
    requires k > 0
    ensures Rev(k, n) == Shl(n % 2, k - 1) + Rev(k - 1, n / 2)
  {}

  /** Reversing exchanges the low and the high part, each reversed. */
  lemma {:induction false} RevSplit(k: nat, j: nat, lo: nat, hi: nat)
    requires j <= k && lo < Pow2(j)
    ensures Rev(k, lo + Shl(hi, j)) == Shl(Rev(j, lo), k - j) + Rev(k - j, hi)
    decreases j
  {
    hide Rev, Shl, Pow2;
    ShlUnfold(hi, j);
    ShlUnfold(1, j);
    ShlUnfold(Rev(j, lo), k - j);
    RevNone(lo);
    assert Pow2(j) == Shl(1, j) by { Pow2Is(j); }
    if j > 0 {
      Pow2Is(j - 1);
      var b, h := lo % 2, lo / 2;
      assert lo + Shl(hi, j) == b + 2 * (h + Shl(hi, j - 1));
      RevSplit(k - 1, j - 1, h, hi);
      RevCons(k - 1, b, h + Shl(hi, j - 1));
      RevCons(j - 1, b, h);
      ShlJoin(b, Rev(j - 1, h), j - 1, k - j);
    }
  }

  /** A bit on top is reversed to the bottom. */
  lemma RevTop(k: nat, r: nat, b: nat)
    requires k > 0 && r < Pow2(k - 1) && b <= 1
    ensures Rev(k, Shl(b, k - 1) + r) == b + 2 * Rev(k - 1, r)
  {
    hide Shl, Pow2, Rev;
    RevSplit(k, k - 1, r, b);
    RevOne(b);
    ShlUnfold(Rev(k - 1, r), 1);
    ShlUnfold(Rev(k - 1, r), 0);
  }

  lemma Pow2Half(k: nat, n: nat)
    requires k > 0 && n < Pow2(k)
    ensures n / 2 < Pow2(k - 1) && n == n % 2 + 2 * (n / 2)
  {}

  lemma {:induction false} RevInvolution(k: nat, n: nat)
    requires n < Pow2(k)
    ensures Rev(k, Rev(k, n)) == n
    decreases k
  {
    if k > 0 {
      hide Shl, Pow2, Rev;
      Pow2Half(k, n);
      RevInvolution(k - 1, n / 2);
      RevUnfold(k, n);
      RevBound(k - 1, n / 2);
      RevTop(k, Rev(k - 1, n / 2), n % 2);
    } else {
      RevNone(Rev(0, n));
    }
  }

  lemma RevOne(b: nat)
    requires b <= 1
    ensures Rev(1, b) == b
  {
    assert Rev(0, b / 2) == 0;
  }

  // ---------------------------------------------------------------- bit_reverse

  /** The masked swaps of `bit_reverse`, on machine words. */
  function BitReverseWord(n0: bv32): bv32 {
    var n := ((n0 & 0xAAAAAAAA) >> 1) | ((n0 & 0x55555555) << 1);
    var n := ((n & 0xCCCCCCCC) >> 2) | ((n & 0x33333333) << 2);
    var n := ((n & 0xF0F0F0F0) >> 4) | ((n & 0x0F0F0F0F) << 4);
    var n := ((n & 0xFF00FF00) >> 8) | ((n & 0x00FF00FF) << 8);
    (n >> 16) | (n << 16)
  }

  /** Shifting a bit in at the bottom shifts its mirror image in at the top.  Every word arises
      from 0 by shifting in 32 bits, so this fixes `bit_reverse` as the reversal of 32 bits. */
  lemma BitReverseWordShiftsIn(w: bv32, b: bv32)
    requires b <= 1
    ensures BitReverseWord((w << 1) | b) == (BitReverseWord(w) >> 1) | (b << 31)
    ensures BitReverseWord(0) == 0
  {}

  /** `bit_reverse` on numbers below 2^32. */
  function BitReverse(n: nat): (r: nat)
    ensures r < WORD
  {
    Pow2Values();
    RevBound(32, n);
    Rev(32, n)
  }

  lemma {:induction false} RevHalf(k: nat, n: nat)
    requires n < Pow2(k)
    ensures Rev(k + 1, n) == 2 * Rev(k, n)
    decreases k
  {
    if k == 0 {
      RevZero(1);
    } else {
      RevHalf(k - 1, n / 2);
    }
  }

  /** The same recurrence on numbers. */
  lemma BitReverseShiftsIn(n: nat, b: nat)
    requires n < Pow2(31) && b <= 1
    ensures BitReverse(b + 2 * n) == BitReverse(n) / 2 + Shl(b, 31)
    ensures BitReverse(0) == 0
  {
    RevZero(32);
    RevHalf(31, n);
    RevCons(31, b, n);
  }

  lemma BitReverseInvolution(n: nat)
    requires n < WORD
    ensures BitReverse(BitReverse(n)) == n
  {
    Pow2Values();
    RevInvolution(32, n);
  }
}
