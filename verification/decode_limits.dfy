/** Codebooks that show the limits of the decoders: both are built, and both lose an entry. */
module DecodeLimits {
  import opened BitReader
  import opened Bits
  import opened CodebookBuild
  import opened Codebooks
  import opened Codewords
  import opened Decode
  import opened HuffmanTables
  import opened Wrappers

  // ---------------------------------------------------------------- a codeword of five bytes

  /** The packet with seven codewords of one bit and a codeword of 26 bits. */
  const LOST: seq<byte> := [128, 0, 0, 0, 0]

  const ENTRIES: seq<nat> := [0, 0, 0, 0, 0, 0, 0, 1]

  lemma TwoKraft()
    ensures KraftSum([1, 26], 2) <= WORD && ValidLengths([1, 26])
  {
    Pow2Values();
    Pow2Mono(6, 16);
    assert KraftSum([1, 26], 1) == KraftSum([1, 26], 0) + Span(1);
    assert KraftSum([1, 26], 2) == KraftSum([1, 26], 1) + Span(26);
  }

  /** The first entry takes the node 0, the second one the only free leaf. */
  lemma TwoCodes()
    requires ValidLengths([1, 26])
    ensures Assign([1, 26], 2).Some? && Assign([1, 26], 2).value.codes == [0, 0x8000_0000]
  {
    hide Pow2, Deepest;
    Pow2Values();
    var b := Build([0], FirstLeaves(1), true);
    assert [] + [0] == [0 as nat] && [0] + [0x8000_0000] == [0, 0x8000_0000 as nat];
    assert Assign([1, 26], 0) == Some(Build([], NoLeaves(), false));
    assert Assign([1, 26], 1) == Some(b);
    var z := Deepest(b.avail, 26);
    assert b.avail[1] == Pow2(31) != 0;
    assert z == 1;
    assert Place(b, 26).value.codes == [0, 0x8000_0000];
  }

  lemma TwoReversed()
    ensures BitReverse(0) == 0 && BitReverse(0x8000_0000) == 1
  {
    hide BitReverse;
    Pow2Values();
    BitReverseShiftsIn(0, 1);
    assert Shl(1, 31) == Pow2(31);
    BitReverseInvolution(1);
  }

  function Falses(n: nat): (bs: seq<bool>)
    ensures |bs| == n
  {
    seq(n, _ => false)
  }

  lemma {:induction false} ZeroBits(n: nat)
    ensures ToBits(0, n) == Falses(n)
  {
    if n > 0 { ZeroBits(n - 1); }
  }

  lemma LowBit(n: nat)
    requires n > 0
    ensures ToBits(1, n) == [true] + Falses(n - 1)
  {
    ZeroBits(n - 1);
  }

  lemma {:induction false} ZeroBytes(n: nat)
    ensures BytesBits(seq(n, _ => 0)) == Falses(8 * n)
  {
    ZeroBits(8);
    if n > 0 {
      ZeroBytes(n - 1);
      assert seq(n, _ => 0 as byte)[1..] == seq(n - 1, _ => 0 as byte);
    }
  }

  lemma LostBits()
    ensures BytesBits(LOST) == Falses(7) + [true] + Falses(32)
  {
    ZeroBytes(4);
    assert LOST[1..] == seq(4, _ => 0);
    ZeroBits(7);
    Pow2Values();
    assert Shl(1, 7) == 128;
    ToBitsJoin(0, 1, 7, 1);
    LowBit(1);
  }

  ghost predicate TwoBook(lens: seq<nat>, codes: seq<nat>) {
    lens == [1, 26] && codes == [0, 0x8000_0000]
  }

  lemma TwoBits(lens: seq<nat>, codes: seq<nat>)
    requires TwoBook(lens, codes)
    ensures |lens| == |codes| == 2 && Coded(lens, 0) && Coded(lens, 1)
    ensures CodeBits(lens, codes, 0) == [false] && CodeBits(lens, codes, 1) == [true] + Falses(25)
  {
    hide BitReverse;
    TwoReversed();
    LowBit(26);
    ZeroBits(1);
  }

  lemma {:induction false} ZerosEncode(lens: seq<nat>, codes: seq<nat>, n: nat)
    requires TwoBook(lens, codes)
    ensures Encode(lens, codes, Zeros(n) + [1]) == Falses(n) + ([true] + Falses(25))
  {
    hide CodeBits, Encode;
    TwoBits(lens, codes);
    var es := Zeros(n) + [1];
    EncodeFirst(lens, codes, es);
    if n > 0 {
      ZerosEncode(lens, codes, n - 1);
      assert es[1..] == Zeros(n - 1) + [1];
      assert Falses(n) + ([true] + Falses(25)) == [false] + (Falses(n - 1) + ([true] + Falses(25)));
    } else {
      NothingEncoded(lens, codes);
      assert es[1..] == [];
      assert Falses(0) + ([true] + Falses(25)) == [true] + Falses(25) + [];
    }
  }

  lemma NothingEncoded(lens: seq<nat>, codes: seq<nat>)
    requires |lens| == |codes|
    ensures Encode(lens, codes, []) == []
  {}

  lemma LostEncodes(lens: seq<nat>, codes: seq<nat>)
    requires TwoBook(lens, codes)
    ensures Encode(lens, codes, ENTRIES) <= BytesBits(LOST)
  {
    hide BytesBits, Encode, TwoBook;
    TwoBits(lens, codes);
    LostBits();
    ZerosEncode(lens, codes, 7);
    assert ENTRIES == Zeros(7) + [1];
    assert Falses(7) + [true] + Falses(32) == Falses(7) + ([true] + Falses(25)) + Falses(7);
  }

  /** The codebook is finished, the packet holds the codewords of the entries, and they are not what is decoded. */
  ghost predicate Loses(bk: Book, lens: seq<nat>, codes: seq<nat>, es: seq<nat>, packet: seq<byte>) {
    |codes| == |lens| && Ready(bk, lens, codes) && Usable(bk) && (forall i :: 0 <= i < |es| ==> Coded(lens, es[i])) &&
    Encode(lens, codes, es) <= BytesBits(packet) && DecodeRun(bk, Reader(0, 0, packet), |es|) != es
  }

  lemma LostInBook(bk: Book, lens: seq<nat>, codes: seq<nat>)
    requires TwoBook(lens, codes) && Ready(bk, lens, codes)
    ensures Loses(bk, lens, codes, ENTRIES, LOST)
  {
    hide Ready, Usable, Encode, BytesBits, DecodeRun;
    ReadyUsable(bk, lens, codes);
    LostEncodes(lens, codes);
    LostAtStart();
    LongCodewordLost(bk, lens, codes, ENTRIES, Reader(0, 0, LOST));
  }

  method LoseLongCodeword() returns (c: Codebook?)
    ensures c != null && Loses(BookOf(c), [1, 26], [0, 0x8000_0000], ENTRIES, LOST)
  {
    hide Assign, KraftSum, Ready, Loses;
    var lengths := new nat[2];
    lengths[0], lengths[1] := 1, 26;
    assert lengths[..] == [1, 26];
    TwoKraft();
    c := BuildCodebook(lengths, false);
    TwoCodes();
    LostInBook(BookOf(c), [1, 26], [0, 0x8000_0000]);
  }

  lemma LostAtStart()
    ensures Decode.At(Reader(0, 0, LOST), 0) && Pending(Reader(0, 0, LOST)) == BytesBits(LOST)
  {
    hide BytesBits;
  }

  // ---------------------------------------------------------------- an entry beyond the fast table

  /** 32767 entries of 31 bits, and behind them one of a single bit. */
  function ManyLong(): (lens: seq<nat>)
    ensures |lens| == FAST_LIMIT + 1
  {
    seq(FAST_LIMIT + 1, i => if i < FAST_LIMIT then 31 else 1)
  }

  lemma {:induction false} KraftLong(k: nat)
    requires k <= FAST_LIMIT
    ensures KraftSum(ManyLong(), k) == 2 * k
  {
    Pow2Values();
    if k > 0 { KraftLong(k - 1); }
  }

  lemma ManyKraft()
    ensures ValidLengths(ManyLong()) && KraftSum(ManyLong(), FAST_LIMIT + 1) <= WORD
  {
    Pow2Values();
    KraftLong(FAST_LIMIT);
  }

  /** In a dense codebook of these lengths the last entry is coded, and never decoded. */
  lemma LastEntryLost(bk: Book, codes: seq<nat>, s: Reader)
    requires Ready(bk, ManyLong(), codes) && !bk.sparse && s.valid >= 0
    ensures Coded(ManyLong(), FAST_LIMIT) && !Reached(bk, ManyLong(), FAST_LIMIT)
    ensures Usable(bk) && DecodeEntry(bk, s).0 != FAST_LIMIT
  {
    hide DecodeEntry, Usable, DenseReady, FastReady, VorbisCodes, SortedTable;
    var t := IncludedEntriesComplete(ManyLong(), false, FAST_LIMIT + 1, 0);
    ReadyUsable(bk, ManyLong(), codes);
    UnreachedLost(bk, ManyLong(), codes, FAST_LIMIT, s);
  }

  method BuildManyLong() returns (c: Codebook?, ghost codes: seq<nat>)
    ensures c != null && Ready(BookOf(c), ManyLong(), codes) && !c.sparse
  {
    hide KraftSum, Ready;
    var lengths := new nat[FAST_LIMIT + 1](i => if i < FAST_LIMIT then 31 else 1);
    assert lengths[..] == ManyLong();
    ManyKraft();
    c := BuildCodebook(lengths, false);
    codes := Assign(ManyLong(), FAST_LIMIT + 1).value.codes;
  }
}
