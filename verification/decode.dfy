/** Huffman decoding, and streams of codewords. */
module Decode {
  import opened Bits
  import opened Codewords
  import opened HuffmanTables
  import opened CodebookTables
  import opened CodebookBuild
  import opened BitReader

  // ---------------------------------------------------------------- prep_huffman

  /** A reader from which the decoders read: one that ran past its packet has nothing left to fetch. */
  predicate Live(s: Reader) {
    s.valid >= 0 || (s.valid == INVALID && s.rest == [])
  }

  function Top(s: Reader): Reader
    requires Live(s)
    decreases |s.rest|
  {
    if s.rest == [] then s
    else
      var t := Take(s);
      if t.valid <= 24 then Top(t) else t
  }

  /** `prep_huffman`: top the accumulator up to more than 24 bits, as far as the packet reaches. */
  function Prep(s: Reader): Reader
    requires Live(s)
  {
    if s.valid <= 24 then Top(Cleared(s)) else s
  }

  /** The buffered bits end on a byte boundary of the packet; `p` is the position of the next bit. */
  ghost predicate At(s: Reader, p: nat) {
    Sound(s) && s.valid >= 0 && (s.valid + p) % 8 == 0
  }

  lemma {:induction false} TopSame(s: Reader)
    requires 0 <= s.valid <= 24 && s.acc < Pow2(s.valid)
    ensures var r := Top(s);
            Pending(r) == Pending(s) && s.valid <= r.valid <= 32 && r.acc < Pow2(r.valid) &&
            (r.valid - s.valid) % 8 == 0 && (r.valid > 24 || r.rest == [])
    decreases |s.rest|
  {
    hide Pending, Pow2;
    if s.rest != [] {
      TakeSame(s);
      if Take(s).valid <= 24 { TopSame(Take(s)); }
    }
  }

  /** Preparing loses no bit and leaves either more than 24 bits or the whole rest of the packet. */
  lemma PrepSame(s: Reader)
    requires Sound(s) && s.valid >= 0
    ensures var r := Prep(s);
            Pending(r) == Pending(s) && s.valid <= r.valid <= 32 && r.acc < Pow2(r.valid) &&
            (r.valid - s.valid) % 8 == 0 && (r.valid > 24 || r.rest == [])
  {
    hide Pending, Top;
    ClearedSame(s);
    if s.valid <= 24 { TopSame(Cleared(s)); }
  }

  lemma Window(v: nat, p: nat, r: nat, n: nat)
    requires (v + p) % 8 == 0 && (r - v) % 8 == 0 && r <= 32 && (r > 24 || r == n)
    ensures r == 32 - p % 8 || r == n < 32 - p % 8
  {
    assert (r + p) % 8 == 0;
  }

  /** How many bits `prep_huffman` can offer: up to the last byte boundary within 32 bits. */
  lemma PrepWindow(s: Reader, p: nat)
    requires At(s, p)
    ensures Prep(s).valid == 32 - p % 8 || Prep(s).valid == |Pending(s)| < 32 - p % 8
  {
    hide Pending, Prep, Sound;
    PrepSame(s);
    PendingSize(s);
    PendingSize(Prep(s));
    Window(s.valid, p, Prep(s).valid, |Pending(s)|);
  }

  /** An accumulator of more than 24 bits is left as it is. */
  lemma PrepAgain(s: Reader)
    requires Live(s)
    ensures Live(Prep(s)) && (Prep(s).valid > 24 ==> Prep(Prep(s)) == Prep(s))
  {
    hide Top;
    PrepNotInvalid(s);
  }

  // ---------------------------------------------------------------- the decoders

  /** The linear scan of a small dense codebook, from entry `i`. */
  function Scan(lens: seq<nat>, words: seq<nat>, i: nat, s: Reader): (r: (int, Reader))
    requires i <= |lens| <= |words| && Live(s)
    ensures r.1.valid >= 0 && (r.0 == -1 || (i <= r.0 < |lens| && lens[r.0] <= s.valid))
    decreases |lens| - i
  {
    if i == |lens| then (-1, s.(valid := 0))
    else if lens[i] == NO_CODE then Scan(lens, words, i + 1, s)
    else if words[i] == Low(s.acc, lens[i]) then
      if s.valid >= lens[i] then (i, Drop(s, lens[i])) else (-1, s.(valid := 0))
    else Scan(lens, words, i + 1, s)
  }

  /** The shape of the tables that the decoder relies on. */
  ghost predicate Usable(bk: Book) {
    |bk.fast| == FAST_SIZE &&
    (forall z :: 0 <= z < FAST_SIZE ==> -1 <= bk.fast[z] < |bk.slotLens|) &&
    (bk.codewords.Some? ==> |bk.codewords.value| >= |bk.slotLens|) && (!bk.sparse ==> bk.entries == |bk.slotLens|) &&
    (bk.codewords.None? <==> bk.sparse) &&
    (bk.sortedCodewords.Some? <==> bk.sortedEntries > 0) &&
    (bk.sortedEntries > 0 ==> bk.sortedEntries <= |bk.sortedCodewords.value|) &&
    |bk.sortedValues| == bk.sortedEntries &&
    (bk.sparse ==> bk.sortedEntries <= |bk.slotLens| && forall z :: 0 <= z < FAST_SIZE ==> bk.fast[z] < bk.sortedEntries) &&
    (!bk.sparse ==> forall x :: 0 <= x < bk.sortedEntries ==> 0 <= bk.sortedValues[x] < |bk.slotLens|)
  }

  /** The binary search of the sorted table. */
  ghost function SearchSorted(bk: Book, s: Reader): (r: (int, Reader))
    requires Usable(bk) && Live(s) && bk.sortedCodewords.Some?
    ensures r.1.valid >= 0 && (r.0 == -1 || (0 <= r.0 < |bk.slotLens| && bk.slotLens[r.0] <= s.valid))
    ensures bk.sparse ==> r.0 < bk.sortedEntries
  {
    var n := bk.sortedEntries;
    var x := Search(bk.sortedCodewords.value[..n], BitReverse(s.acc), 0, n);
    var slot := if bk.sparse then x else bk.sortedValues[x];
    if s.valid >= bk.slotLens[slot] then (slot, Drop(s, bk.slotLens[slot])) else (-1, s.(valid := 0))
  }

  /** `codebook_decode_scalar_raw`: a slot, or -1. */
  ghost function DecodeRaw(bk: Book, s0: Reader): (r: (int, Reader))
    requires Usable(bk) && Live(s0)
    ensures Live(r.1) && (s0.valid >= 0 ==> r.1.valid >= 0)
    ensures r.0 == -1 || (0 <= r.0 < |bk.slotLens| && bk.slotLens[r.0] <= Prep(s0).valid)
    ensures bk.sparse ==> r.0 < bk.sortedEntries
  {
    var s := Prep(s0);
    PrepNotInvalid(s0);
    if bk.codewords.None? && bk.sortedCodewords.None? then (-1, s)
    else if (if bk.entries > 8 then bk.sortedCodewords.Some? else bk.codewords.None?) then
      SearchSorted(bk, s)
    else Scan(bk.slotLens, bk.codewords.value, 0, s)
  }

  lemma RawIs(bk: Book, s0: Reader)
    requires Usable(bk) && Live(s0)
    ensures Live(Prep(s0)) && |bk.slotLens| <= if bk.codewords.Some? then |bk.codewords.value| else |bk.slotLens|
    ensures DecodeRaw(bk, s0) ==
            if bk.codewords.None? && bk.sortedCodewords.None? then (-1, Prep(s0))
            else if (if bk.entries > 8 then bk.sortedCodewords.Some? else bk.codewords.None?) then SearchSorted(bk, Prep(s0))
            else Scan(bk.slotLens, bk.codewords.value, 0, Prep(s0))
  {
    hide Prep, SearchSorted, Scan;
    PrepNotInvalid(s0);
  }

  lemma {:induction false} TopNotInvalid(s: Reader)
    requires Live(s)
    ensures Top(s).valid >= s.valid && (s.valid < 0 ==> Top(s) == s)
    decreases |s.rest|
  {
    if s.rest != [] && Take(s).valid <= 24 { TopNotInvalid(Take(s)); }
  }

  lemma PrepNotInvalid(s: Reader)
    requires Live(s)
    ensures Live(Prep(s)) && Prep(s).valid >= s.valid && (s.valid < 0 ==> Prep(s) == s)
  {
    TopNotInvalid(Cleared(s));
  }

  /** The reader whose accumulator the fast table looks at. */
  function Ready10(s: Reader): Reader
    requires Live(s)
  {
    if s.valid < FAST_LENGTH then Prep(s) else s
  }

  /** The fast table, and then the slower decoders. */
  ghost function DecodeFrom(bk: Book, s: Reader): (r: (int, Reader))
    requires Usable(bk) && Live(s)
    ensures Live(r.1) && (s.valid >= 0 ==> r.1.valid >= 0) && -1 <= r.0 < |bk.slotLens|
    ensures bk.sparse ==> r.0 < bk.sortedEntries
  {
    IndexBound(s.acc);
    var slot := bk.fast[Low(s.acc, FAST_LENGTH)];
    if slot >= 0 then
      var n := bk.slotLens[slot];
      if s.valid < n then (-1, Reader(Shr(s.acc, n), 0, s.rest)) else (slot, Drop(s, n))
    else DecodeRaw(bk, s)
  }

  /** `DECODE_RAW`: the accumulator is topped up first if it may hold too little for the fast table. */
  ghost function DecodeSlot(bk: Book, s0: Reader): (r: (int, Reader))
    requires Usable(bk) && Live(s0)
    ensures Live(r.1) && (s0.valid >= 0 ==> r.1.valid >= 0) && -1 <= r.0 < |bk.slotLens|
    ensures bk.sparse ==> r.0 < bk.sortedEntries
  {
    PrepNotInvalid(s0);
    DecodeFrom(bk, Ready10(s0))
  }

  lemma FromIs(bk: Book, s: Reader)
    requires Usable(bk) && Live(s)
    ensures |bk.fast| == FAST_SIZE && Low(s.acc, FAST_LENGTH) < FAST_SIZE
    ensures var slot := bk.fast[Low(s.acc, FAST_LENGTH)];
            -1 <= slot < |bk.slotLens| && (bk.sparse ==> slot < bk.sortedEntries) &&
            DecodeFrom(bk, s) ==
            if slot < 0 then DecodeRaw(bk, s)
            else if s.valid < bk.slotLens[slot] then (-1, Reader(Shr(s.acc, bk.slotLens[slot]), 0, s.rest))
            else (slot, Drop(s, bk.slotLens[slot]))
  {
    hide Prep, Low, DecodeRaw;
    IndexBound(s.acc);
  }

  lemma IndexBound(acc: nat)
    ensures Low(acc, FAST_LENGTH) < FAST_SIZE
  {
    Pow2Values();
  }

  /** `DECODE`: the entry, or -1. */
  ghost function DecodeEntry(bk: Book, s: Reader): (r: (int, Reader))
    requires Usable(bk) && Live(s)
    ensures Live(r.1) && (s.valid >= 0 ==> r.1.valid >= 0)
  {
    var (slot, s') := DecodeSlot(bk, s);
    (if bk.sparse && 0 <= slot < |bk.sortedValues| then bk.sortedValues[slot] else slot, s')
  }

  // ---------------------------------------------------------------- one codeword

  /** The codeword of entry `e` as it stands in a packet. */
  ghost function CodeBits(lens: seq<nat>, codes: seq<nat>, e: nat): (bs: seq<bool>)
    requires |codes| == |lens| && Coded(lens, e)
    ensures |bs| == lens[e]
  {
    ToBits(BitReverse(codes[e]), lens[e])
  }

  /** The fast table reaches entry `e`, or the slower decoders catch it: fails only for a short
      codeword beyond the range of the 16-bit table in a dense codebook that also has long ones. */
  ghost predicate Reached(bk: Book, lens: seq<nat>, e: nat) {
    bk.sparse || bk.sortedEntries == 0 || bk.entries <= 8 || e < FAST_LIMIT || (e < |lens| && lens[e] > FAST_LENGTH)
  }

  /** The entry that a slot stands for. */
  ghost function SlotEntry(bk: Book, slot: int): int {
    if bk.sparse && 0 <= slot < |bk.sortedValues| then bk.sortedValues[slot] else slot
  }

  lemma ReadyUsable(bk: Book, lens: seq<nat>, codes: seq<nat>)
    requires Ready(bk, lens, codes)
    ensures Usable(bk)
  {
    hide ValidBook, IncludedEntries, FastTable, FastWords, BitReverse, Increasing;
    var n := FastCount(bk.sparse, bk.entries, bk.sortedEntries);
    forall z | 0 <= z < FAST_SIZE
      ensures -1 <= bk.fast[z] < n
    {
      FastTableEntry(bk.slotLens, FastWords(bk), n, z);
    }
    if bk.sortedEntries > 0 {
      var table := bk.sortedCodewords.value[..bk.sortedEntries];
      assert forall x :: 0 <= x < |table| ==> Included(lens, bk.sparse, bk.sortedValues[x]);
    }
  }

  /** A slot of the fast table stands for the entry whose codeword begins the bits. */
  lemma FastSlotBegins(bk: Book, lens: seq<nat>, codes: seq<nat>, i: int, acc: nat)
    requires Ready(bk, lens, codes)
    requires 0 <= i < FastCount(bk.sparse, bk.entries, bk.sortedEntries)
    requires ShortMatch(bk.slotLens, FastWords(bk), i, Low(acc, FAST_LENGTH))
    ensures Begins(lens, codes, SlotEntry(bk, i), acc) && bk.slotLens[i] == lens[SlotEntry(bk, i)]
  {
    hide VorbisCodes, IncludedEntries, FastTable, BitReverse, Increasing, Low;
    var len := bk.slotLens[i];
    LowLow(acc, FAST_LENGTH, len);
    if bk.sparse {
      var sc := bk.sortedCodewords.value;
      var table := sc[..bk.sortedEntries];
      var e := bk.sortedValues[i];
      assert table[i] == sc[i] && Included(lens, bk.sparse, e) && codes[e] == table[i];
      assert FastWords(bk)[i] == BitReverse(sc[i]);
    }
  }

  /** The converse: a short codeword within reach that begins the bits is in the fast table. */
  lemma ShortIsFast(bk: Book, lens: seq<nat>, codes: seq<nat>, e: nat, acc: nat)
    requires Ready(bk, lens, codes) && !bk.sparse
    requires Begins(lens, codes, e, acc) && lens[e] <= FAST_LENGTH && e < FAST_LIMIT
    ensures e < FastCount(bk.sparse, bk.entries, bk.sortedEntries)
    ensures ShortMatch(bk.slotLens, FastWords(bk), e, Low(acc, FAST_LENGTH))
  {
    hide VorbisCodes, IncludedEntries, FastTable, BitReverse, Low;
    LowLow(acc, FAST_LENGTH, lens[e]);
  }

  /** What the fast table says about bits that begin with the codeword of `e`. */
  lemma FastLookup(bk: Book, lens: seq<nat>, codes: seq<nat>, e: nat, acc: nat)
    requires Ready(bk, lens, codes) && acc < WORD
    requires Begins(lens, codes, e, acc)
    ensures Low(acc, FAST_LENGTH) < FAST_SIZE
    ensures var slot := bk.fast[Low(acc, FAST_LENGTH)];
            if slot >= 0 then
              slot < |bk.slotLens| && SlotEntry(bk, slot) == e && bk.slotLens[slot] == lens[e] <= FAST_LENGTH
            else slot == -1 && (bk.sparse || lens[e] > FAST_LENGTH || e >= FAST_LIMIT)
  {
    hide ValidBook, DenseReady, SortedReady, FastTable, FastWords, BitReverse, ShortMatch;
    IndexBound(acc);
    var z, n := Low(acc, FAST_LENGTH), FastCount(bk.sparse, bk.entries, bk.sortedEntries);
    FastTableEntry(bk.slotLens, FastWords(bk), n, z);
    var slot := bk.fast[z];
    if slot >= 0 {
      FastSlotBegins(bk, lens, codes, slot, acc);
      BeginsUnique(lens, codes, SlotEntry(bk, slot), e, acc);
      MatchIsShort(bk.slotLens, FastWords(bk), slot, z);
    } else if !bk.sparse && lens[e] <= FAST_LENGTH && e < FAST_LIMIT {
      ShortIsFast(bk, lens, codes, e, acc);
    }
  }

  lemma MatchIsShort(lens: seq<nat>, words: seq<nat>, i: int, z: nat)
    requires ShortMatch(lens, words, i, z)
    ensures 0 <= i < |lens| && lens[i] <= FAST_LENGTH
  {}

  // ---------------------------------------------------------------- the slower decoders

  /** The linear scan stops at the only entry whose codeword begins the bits. */
  lemma {:induction false} ScanFinds(bk: Book, lens: seq<nat>, codes: seq<nat>, i: nat, e: nat, s: Reader)
    requires Ready(bk, lens, codes) && !bk.sparse && s.valid >= 0 && s.acc < WORD
    requires i <= e < |lens| && Begins(lens, codes, e, s.acc) && lens[e] <= s.valid
    ensures DenseReady(bk, lens, codes) &&
            Scan(bk.slotLens, bk.codewords.value, i, s) == (e as int, Drop(s, lens[e]))
    decreases e - i
  {
    hide ValidBook, SortedReady, FastReady, BitReverse, Low;
    if i < e {
      if lens[i] != NO_CODE && bk.codewords.value[i] == Low(s.acc, lens[i]) {
        CodedIs(lens, codes, i);
        BeginsUnique(lens, codes, i, e, s.acc);
      }
      ScanFinds(bk, lens, codes, i + 1, e, s);
    }
  }

  lemma CodedIs(lens: seq<nat>, codes: seq<nat>, i: nat)
    requires ValidBook(lens, codes) && i < |lens| && lens[i] != NO_CODE
    ensures Coded(lens, i)
  {}

  /** The binary search finds an entry that the sorted table includes. */
  lemma BinaryFinds(bk: Book, lens: seq<nat>, codes: seq<nat>, e: nat, acc: nat)
    requires Ready(bk, lens, codes) && acc < WORD
    requires Begins(lens, codes, e, acc) && (bk.sparse || lens[e] > FAST_LENGTH)
    ensures bk.sortedEntries > 0 && bk.sortedEntries <= |bk.sortedCodewords.value|
    ensures var x := Search(bk.sortedCodewords.value[..bk.sortedEntries], BitReverse(acc), 0, bk.sortedEntries);
            x < |bk.sortedValues| && bk.sortedValues[x] == e &&
            (bk.sparse ==> x < |bk.slotLens| && bk.slotLens[x] == lens[e])
  {
    hide VorbisCodes, FastReady, BitReverse, Low, Increasing, Search;
    var t := IncludedEntriesComplete(lens, bk.sparse, |lens|, e);
    SearchDecodes(lens, codes, bk.sparse, bk.sortedCodewords.value[..bk.sortedEntries], bk.sortedValues, e, acc);
  }

  /** What a successful decoding of entry `e` returns. */
  ghost predicate Decoded(bk: Book, lens: seq<nat>, e: nat, s: Reader, r: (int, Reader))
    requires e < |lens| && lens[e] <= s.valid
  {
    SlotEntry(bk, r.0) == e && r.1 == Drop(s, lens[e])
  }

  /** `codebook_decode_scalar_raw` finds the codeword at the head of the prepared bits. */
  lemma RawFinds(bk: Book, lens: seq<nat>, codes: seq<nat>, e: nat, s: Reader)
    requires Ready(bk, lens, codes) && Usable(bk) && s.valid >= 0 && Prep(s).acc < WORD
    requires Begins(lens, codes, e, Prep(s).acc) && lens[e] <= Prep(s).valid
    requires bk.sparse || lens[e] > FAST_LENGTH || bk.sortedEntries == 0 || bk.entries <= 8
    ensures Decoded(bk, lens, e, Prep(s), DecodeRaw(bk, s))
  {
    hide ValidBook, SortedReady, FastReady, BitReverse, Low, Search, Scan, Prep;
    var r := Prep(s);
    PrepNotInvalid(s);
    if !bk.sparse { ScanFinds(bk, lens, codes, 0, e, r); }
    if bk.sparse || lens[e] > FAST_LENGTH { BinaryFinds(bk, lens, codes, e, r.acc); }
  }

  // ---------------------------------------------------------------- decoding from a packet

  /** If the packet goes on with a codeword and enough of it is buffered, the accumulator begins with it. */
  lemma PendingBegins(lens: seq<nat>, codes: seq<nat>, e: nat, s: Reader)
    requires ValidBook(lens, codes) && Coded(lens, e) && CodeBits(lens, codes, e) <= Pending(s)
    requires lens[e] <= s.valid <= 32 && s.acc < Pow2(s.valid)
    ensures s.acc < WORD && Begins(lens, codes, e, s.acc)
  {
    hide VorbisCodes, BitReverse, Low, ToBits, BytesBits;
    var len := lens[e];
    assert CodeBits(lens, codes, e) == Pending(s)[..len];
    assert Pending(s)[..len] == ToBits(s.acc, s.valid)[..len];
    ToBitsTakeDrop(s.acc, s.valid, len);
    ToBitsInjective(s.acc, BitReverse(codes[e]), len);
    CodeIsWord(lens, codes, e);
    NodeWord(codes[e], len);
    LowSmall(BitReverse(codes[e]), len);
    Pow2Mono(s.valid, 32);
    Pow2Values();
  }

  /** Preparing does not change the bits already buffered. */
  lemma PrepLow(s: Reader, n: nat)
    requires Sound(s) && n <= s.valid
    ensures Low(Prep(s).acc, n) == Low(s.acc, n)
  {
    hide Prep, ToBits, BytesBits, Low;
    PrepSame(s);
    var r := Prep(s);
    if s.valid > 0 {
      assert Pending(s)[..n] == ToBits(s.acc, s.valid)[..n];
      assert Pending(r)[..n] == ToBits(r.acc, r.valid)[..n];
      ToBitsTakeDrop(s.acc, s.valid, n);
      ToBitsTakeDrop(r.acc, r.valid, n);
      ToBitsInjective(s.acc, r.acc, n);
    } else {
      NoLow(s.acc, r.acc);
    }
  }

  lemma NoLow(a: nat, b: nat)
    ensures Low(a, 0) == Low(b, 0)
  {}

  lemma PrepTwice(s: Reader)
    requires Sound(s) && s.valid >= 0
    ensures Prep(s).valid >= 0 && Prep(Prep(s)) == Prep(s)
  {
    PrepSame(s);
    assert Pow2(0) == 1;
  }

  lemma Ready10Same(s: Reader)
    requires Sound(s) && s.valid >= 0
    ensures var t := Ready10(s);
            Sound(t) && t.valid >= s.valid && Prep(t) == Prep(s) && Pending(t) == Pending(s) &&
            (t.valid - s.valid) % 8 == 0 && t.valid <= Prep(s).valid &&
            (t.valid >= FAST_LENGTH || t == Prep(s)) && (t.valid > 0 ==> t.acc < Pow2(t.valid))
  {
    hide Pending, Prep;
    PrepSame(s);
    PrepTwice(s);
  }

  lemma Ready10Low(s: Reader)
    requires Sound(s) && s.valid >= 0
    ensures Low(Ready10(s).acc, FAST_LENGTH) == Low(Prep(s).acc, FAST_LENGTH)
  {
    hide Prep, Low;
    if s.valid >= FAST_LENGTH { PrepLow(s, FAST_LENGTH); }
  }

  /** The effect of reading the codeword of `e` on the reader. */
  ghost predicate Advanced(s: Reader, n: nat, s': Reader) {
    n <= |Pending(s)| && Sound(s') && 0 <= s'.valid < 32 && Pending(s') == Pending(s)[n..] && (s'.valid + n - s.valid) % 8 == 0
  }

  lemma DropAdvances(s: Reader, t: Reader, n: nat)
    requires Sound(t) && 0 < n <= t.valid && Pending(t) == Pending(s) && (t.valid - s.valid) % 8 == 0
    ensures Advanced(s, n, Drop(t, n))
  {
    hide Pending;
    SoundBound(t);
    DropReads(t, n);
    PendingSize(t);
  }

  /** A codeword that `prep_huffman` can buffer whole is decoded, and exactly its bits are consumed. */
  lemma DecodesBuffered(bk: Book, lens: seq<nat>, codes: seq<nat>, e: nat, s: Reader)
    requires Ready(bk, lens, codes) && Usable(bk) && Sound(s) && s.valid >= 0
    requires Coded(lens, e) && CodeBits(lens, codes, e) <= Pending(s) && lens[e] <= Prep(s).valid
    requires Reached(bk, lens, e)
    ensures DecodeEntry(bk, s).0 == e && Advanced(s, lens[e], DecodeEntry(bk, s).1)
  {
    hide ValidBook, DenseReady, SortedReady, FastReady, CodeBits, Pending, Prep, DecodeRaw, Begins, Advanced, Low, FastTable;
    var r, t := Prep(s), Ready10(s);
    PrepSame(s);
    Ready10Same(s);
    Ready10Low(s);
    PendingBegins(lens, codes, e, r);
    FastLookup(bk, lens, codes, e, r.acc);
    var slot := bk.fast[Low(r.acc, FAST_LENGTH)];
    PrepNotInvalid(s);
    IndexBound(t.acc);
    if slot >= 0 {
      DropAdvances(s, t, lens[e]);
    } else {
      RawFinds(bk, lens, codes, e, t);
      DropAdvances(s, r, lens[e]);
    }
  }

  /** Conversely, an entry is returned only if its codeword was buffered whole. */
  lemma OnlyBuffered(bk: Book, lens: seq<nat>, codes: seq<nat>, e: nat, s: Reader)
    requires Ready(bk, lens, codes) && Usable(bk) && Sound(s) && s.valid >= 0 && e < |lens|
    requires DecodeEntry(bk, s).0 == e
    ensures lens[e] <= Prep(s).valid
  {
    hide ValidBook, FastReady, SortedTable, Pending, Prep, DecodeRaw, Low, IncludedEntries, BitReverse;
    var t := Ready10(s);
    Ready10Same(s);
    PrepNotInvalid(s);
    var slot := DecodeSlot(bk, s).0;
    IndexBound(t.acc);
    assert slot == -1 || bk.slotLens[slot] <= Prep(s).valid;
    if bk.sparse && slot >= 0 { SlotLength(bk, lens, codes, slot); }
  }

  lemma {:induction false} ScanForgets(lens: seq<nat>, words: seq<nat>, i: nat, s: Reader)
    requires i <= |lens| <= |words| && Live(s) && Scan(lens, words, i, s).0 == -1
    ensures Scan(lens, words, i, s).1 == s.(valid := 0)
    decreases |lens| - i
  {
    hide Low;
    if i < |lens| && (lens[i] == NO_CODE || words[i] != Low(s.acc, lens[i])) { ScanForgets(lens, words, i + 1, s); }
  }

  lemma Forgotten(s: Reader, t: Reader, acc: nat)
    requires Pending(t) == Pending(s) && 0 <= t.valid
    ensures t.valid <= |Pending(s)| && Pending(Reader(acc, 0, t.rest)) == Pending(s)[t.valid..]
  {
    hide ToBits, BytesBits;
    if t.valid > 0 { assert Pending(t)[t.valid..] == BytesBits(t.rest); }
  }

  lemma RawForgets(bk: Book, s: Reader)
    requires Usable(bk) && Live(s) && (bk.codewords.Some? || bk.sortedCodewords.Some?) && DecodeRaw(bk, s).0 == -1
    ensures DecodeRaw(bk, s).1 == Prep(s).(valid := 0)
  {
    hide Prep, Scan, BitReverse, Search;
    RawIs(bk, s);
    if bk.codewords.Some? && Scan(bk.slotLens, bk.codewords.value, 0, Prep(s)).0 == -1 {
      ScanForgets(bk.slotLens, bk.codewords.value, 0, Prep(s));
    }
  }

  /** What a failed decoding leaves: no bits, and the bytes behind those that were buffered. */
  lemma FromForgets(bk: Book, s: Reader)
    requires Usable(bk) && Live(s) && (bk.codewords.Some? || bk.sortedCodewords.Some?) && DecodeFrom(bk, s).0 == -1
    ensures var r := DecodeFrom(bk, s).1; r.valid == 0 && (r.rest == s.rest || r.rest == Prep(s).rest)
  {
    hide DecodeFrom, DecodeRaw, Prep, Low, Usable;
    FromIs(bk, s);
    if DecodeRaw(bk, s).0 == -1 { RawForgets(bk, s); }
  }

  lemma StillAligned(v: nat, p: nat, n: nat)
    requires (v + p) % 8 == 0 && (n - v) % 8 == 0
    ensures (p + n) % 8 == 0
  {
    assert (v + p) + (n - v) == p + n;
  }

  /** A decoding that fails forgets all buffered bits: it skips at most 32 bits, to a byte boundary of the packet. */
  lemma FailedSkips(bk: Book, s: Reader, p: nat) returns (n: nat)
    requires Usable(bk) && At(s, p) && (bk.codewords.Some? || bk.sortedCodewords.Some?) && DecodeSlot(bk, s).0 == -1
    ensures n <= 32 && n <= |Pending(s)| && s.valid <= n && (p + n) % 8 == 0
    ensures DecodeSlot(bk, s).1.valid == 0 && Pending(DecodeSlot(bk, s).1) == Pending(s)[n..]
  {
    hide Pending, Prep, DecodeFrom, Usable, Ready10;
    Ready10Same(s);
    PrepSame(s);
    PrepNotInvalid(s);
    var t, u, r := Ready10(s), Prep(s), DecodeSlot(bk, s).1;
    FromForgets(bk, t);
    n := if r.rest == t.rest then t.valid else u.valid;
    StillAligned(s.valid, p, n);
    Forgotten(s, if r.rest == t.rest then t else u, r.acc);
  }

  lemma SlotLength(bk: Book, lens: seq<nat>, codes: seq<nat>, slot: nat)
    requires Ready(bk, lens, codes) && bk.sparse && slot < bk.sortedEntries
    ensures slot < |bk.slotLens| && 0 <= bk.sortedValues[slot] < |lens| && bk.slotLens[slot] == lens[bk.sortedValues[slot]]
  {
    hide ValidBook, FastReady, SortedTable, IncludedEntries, BitReverse;
  }

  /** The decoder reads at most four bytes ahead: a codeword is decoded exactly when it does not
      reach into a fifth byte. */
  lemma DecodesWithinWord(bk: Book, lens: seq<nat>, codes: seq<nat>, e: nat, s: Reader, p: nat)
    requires Ready(bk, lens, codes) && Usable(bk) && At(s, p)
    requires Coded(lens, e) && CodeBits(lens, codes, e) <= Pending(s) && Reached(bk, lens, e)
    ensures DecodeEntry(bk, s).0 == e <==> p % 8 + lens[e] <= 32
    ensures DecodeEntry(bk, s).0 == e ==> Advanced(s, lens[e], DecodeEntry(bk, s).1)
  {
    hide Ready, Usable, CodeBits, Pending, Prep, DecodeEntry, Advanced, Reached, Sound;
    PrepWindow(s, p);
    if DecodeEntry(bk, s).0 == e { OnlyBuffered(bk, lens, codes, e, s); }
    if lens[e] <= Prep(s).valid { DecodesBuffered(bk, lens, codes, e, s); }
    assert lens[e] <= |Pending(s)|;
  }

  /** Behind the end of its packet a decoder decodes nothing, and forgets that it ran past the end. */
  lemma NothingLeft(bk: Book, s: Reader)
    requires Usable(bk) && (bk.sparse ==> bk.sortedEntries > 0) && s.valid == INVALID && s.rest == []
    ensures DecodeEntry(bk, s).0 == -1 && DecodeEntry(bk, s).1.valid == 0 && DecodeEntry(bk, s).1.rest == []
  {
    hide Low, BitReverse, Search, Prep, Scan;
    PrepNotInvalid(s);
    IndexBound(s.acc);
    if bk.codewords.Some? { ScanLeavesRest(bk.slotLens, bk.codewords.value, 0, s); }
  }

  lemma {:induction false} ScanLeavesRest(lens: seq<nat>, words: seq<nat>, i: nat, s: Reader)
    requires i <= |lens| <= |words| && Live(s) && s.valid < 0
    ensures Scan(lens, words, i, s) == (-1, s.(valid := 0))
    decreases |lens| - i
  {
    hide Low;
    if i < |lens| { ScanLeavesRest(lens, words, i + 1, s); }
  }

  /** The range of the 16-bit fast table matters: an entry that it does not reach is never returned. */
  lemma UnreachedLost(bk: Book, lens: seq<nat>, codes: seq<nat>, e: nat, s: Reader)
    requires Ready(bk, lens, codes) && Usable(bk) && s.valid >= 0
    requires e < |lens| && !Reached(bk, lens, e)
    ensures DecodeEntry(bk, s).0 != e
  {
    hide ValidBook, DenseReady, FastTable, Prep, BitReverse, Low, IncludedEntries, Increasing;
    PrepNotInvalid(s);
    var t := Ready10(s);
    IndexBound(t.acc);
    FastTableEntry(bk.slotLens, FastWords(bk), FastCount(bk.sparse, bk.entries, bk.sortedEntries), Low(t.acc, FAST_LENGTH));
    if bk.fast[Low(t.acc, FAST_LENGTH)] < 0 {
      RawLong(bk, lens, codes, t);
    }
  }

  lemma RawLong(bk: Book, lens: seq<nat>, codes: seq<nat>, s: Reader)
    requires Ready(bk, lens, codes) && Usable(bk) && s.valid >= 0
    requires !bk.sparse && bk.sortedEntries > 0 && bk.entries > 8
    ensures DecodeRaw(bk, s).0 == -1 || (DecodeRaw(bk, s).0 < |lens| && lens[DecodeRaw(bk, s).0] > FAST_LENGTH)
  {
    hide ValidBook, DenseReady, FastReady, Prep, BitReverse, Search, IncludedEntries, Increasing;
    PrepNotInvalid(s);
    var n := bk.sortedEntries;
    var x := Search(bk.sortedCodewords.value[..n], BitReverse(Prep(s).acc), 0, n);
    assert Included(lens, false, bk.sortedValues[x]);
  }

  // ---------------------------------------------------------------- streams of codewords

  /** The bits of a sequence of codewords. */
  ghost function Encode(lens: seq<nat>, codes: seq<nat>, es: seq<nat>): seq<bool>
    requires |codes| == |lens| && forall i :: 0 <= i < |es| ==> Coded(lens, es[i])
  {
    if es == [] then [] else CodeBits(lens, codes, es[0]) + Encode(lens, codes, es[1..])
  }

  /** The first `k` results of `DECODE`. */
  ghost function DecodeRun(bk: Book, s: Reader, k: nat): (r: seq<int>)
    requires Usable(bk) && Live(s)
    ensures |r| == k
    decreases k
  {
    if k == 0 then [] else
    var (e, s') := DecodeEntry(bk, s);
    [e] + DecodeRun(bk, s', k - 1)
  }

  /** No codeword of the stream, which starts at bit `p`, reaches into a fifth byte. */
  ghost predicate Fits(lens: seq<nat>, es: seq<nat>, p: nat)
    requires forall i :: 0 <= i < |es| ==> es[i] < |lens|
  {
    es == [] || (p % 8 + lens[es[0]] <= 32 && Fits(lens, es[1..], p + lens[es[0]]))
  }

  lemma EncodeFirst(lens: seq<nat>, codes: seq<nat>, es: seq<nat>)
    requires |codes| == |lens| && es != [] && forall i :: 0 <= i < |es| ==> Coded(lens, es[i])
    ensures Encode(lens, codes, es) == CodeBits(lens, codes, es[0]) + Encode(lens, codes, es[1..])
  {}

  lemma RunFirst(bk: Book, s: Reader, k: nat)
    requires Usable(bk) && Live(s) && k > 0
    ensures DecodeRun(bk, s, k) == [DecodeEntry(bk, s).0] + DecodeRun(bk, DecodeEntry(bk, s).1, k - 1)
  {
    hide Usable, DecodeEntry;
  }

  lemma FitsFirst(lens: seq<nat>, es: seq<nat>, p: nat)
    requires es != [] && forall i :: 0 <= i < |es| ==> es[i] < |lens|
    ensures Fits(lens, es, p) <==> p % 8 + lens[es[0]] <= 32 && Fits(lens, es[1..], p + lens[es[0]])
  {}

  lemma AtLive(s: Reader, p: nat)
    requires At(s, p)
    ensures s.valid >= 0
  {}

  lemma AdvancedAt(s: Reader, n: nat, s': Reader, p: nat)
    requires At(s, p) && Advanced(s, n, s')
    ensures At(s', p + n) && s'.valid < 32 && n <= |Pending(s)| && Pending(s') == Pending(s)[n..]
  {
    hide Pending, Sound;
  }

  lemma NothingCoded(bk: Book, lens: seq<nat>, s: Reader, p: nat)
    requires Usable(bk) && Live(s)
    ensures DecodeRun(bk, s, 0) == [] && Fits(lens, [], p) && AllReached(bk, lens, [])
  {
    hide Usable, DecodeEntry, Reached;
  }

  lemma PrefixParts<T>(a: seq<T>, b: seq<T>, c: seq<T>)
    requires a + b <= c
    ensures a <= c && b <= c[|a|..]
  {
    assert c[..|a|] == (a + b)[..|a|] == a;
    assert c[|a|..][..|b|] == (a + b)[|a|..] == b;
  }

  lemma FirstOf(d: int, r: seq<int>, es: seq<nat>)
    requires es != []
    ensures [d] + r == es <==> d == es[0] && r == es[1..]
  {
    if [d] + r == es { assert ([d] + r)[1..] == r; }
    assert [es[0]] + es[1..] == es;
  }

  ghost predicate AllReached(bk: Book, lens: seq<nat>, es: seq<nat>) {
    forall i :: 0 <= i < |es| ==> Reached(bk, lens, es[i])
  }

  lemma ReachedFirst(bk: Book, lens: seq<nat>, es: seq<nat>)
    requires es != []
    ensures AllReached(bk, lens, es) <==> Reached(bk, lens, es[0]) && AllReached(bk, lens, es[1..])
  {
    hide Reached;
    if Reached(bk, lens, es[0]) && AllReached(bk, lens, es[1..]) {
      forall i | 0 <= i < |es|
        ensures Reached(bk, lens, es[i])
      {
        if i > 0 { assert es[i] == es[1..][i - 1]; }
      }
    }
  }

  /** One codeword at bit `p`: the decoder returns its entry exactly if the tables reach the entry and the codeword
      ends within four bytes, and then it consumes exactly the codeword. */
  lemma EntryDecodes(bk: Book, lens: seq<nat>, codes: seq<nat>, e: nat, s: Reader, p: nat)
    requires Ready(bk, lens, codes) && Usable(bk) && At(s, p)
    requires Coded(lens, e) && CodeBits(lens, codes, e) <= Pending(s)
    ensures DecodeEntry(bk, s).0 == e <==> Reached(bk, lens, e) && p % 8 + lens[e] <= 32
    ensures DecodeEntry(bk, s).0 == e ==> Advanced(s, lens[e], DecodeEntry(bk, s).1)
  {
    hide Ready, Usable, CodeBits, Pending, DecodeEntry, Reached, Advanced, Sound;
    if Reached(bk, lens, e) {
      DecodesWithinWord(bk, lens, codes, e, s, p);
    } else {
      UnreachedLost(bk, lens, codes, e, s);
    }
  }

  /** A concatenation of codewords decodes back to its symbols exactly when each is reached and fits four bytes. */
  lemma {:induction false} StreamDecodes(bk: Book, lens: seq<nat>, codes: seq<nat>, es: seq<nat>, s: Reader, p: nat)
    requires Ready(bk, lens, codes) && Usable(bk) && At(s, p)
    requires |codes| == |lens| && forall i :: 0 <= i < |es| ==> Coded(lens, es[i])
    requires Encode(lens, codes, es) <= Pending(s)
    ensures DecodeRun(bk, s, |es|) == es <==> AllReached(bk, lens, es) && Fits(lens, es, p)
    decreases |es|
  {
    hide Ready, Usable, CodeBits, Pending, Prep, DecodeEntry, Reached, AllReached, Encode, DecodeRun, Fits, At, Advanced;
    AtLive(s, p);
    NothingCoded(bk, lens, s, p);
    if es != [] {
      var e := es[0];
      var (d, s') := DecodeEntry(bk, s);
      EncodeFirst(lens, codes, es);
      PrefixParts(CodeBits(lens, codes, e), Encode(lens, codes, es[1..]), Pending(s));
      EntryDecodes(bk, lens, codes, e, s, p);
      RunFirst(bk, s, |es|);
      FirstOf(d, DecodeRun(bk, s', |es| - 1), es);
      FitsFirst(lens, es, p);
      ReachedFirst(bk, lens, es);
      if d == e {
        AdvancedAt(s, lens[e], s', p);
        StreamDecodes(bk, lens, codes, es[1..], s', p + lens[e]);
      }
    }
  }

  /** Codewords of at most 25 bits always fit. */
  lemma {:induction false} ShortFits(lens: seq<nat>, es: seq<nat>, p: nat)
    requires forall i :: 0 <= i < |es| ==> es[i] < |lens| && lens[es[i]] <= 25
    ensures Fits(lens, es, p)
    decreases |es|
  {
    if es != [] { ShortFits(lens, es[1..], p + lens[es[0]]); }
  }

  lemma {:induction false} FitsLater(lens: seq<nat>, es: seq<nat>, p: nat, k: nat)
    requires forall i :: 0 <= i < |es| ==> es[i] < |lens|
    requires k <= |es| && forall i :: 0 <= i < k ==> lens[es[i]] == 1
    requires Fits(lens, es, p)
    ensures Fits(lens, es[k..], p + k)
    decreases k
  {
    if k > 0 {
      FitsLater(lens, es[1..], p + 1, k - 1);
      assert es[1..][k - 1..] == es[k..];
    } else {
      assert es[0..] == es;
    }
  }

  /** A stream that the decoder loses: seven codewords of one bit, then one of 26 bits. */
  lemma LongCodewordLost(bk: Book, lens: seq<nat>, codes: seq<nat>, es: seq<nat>, s: Reader)
    requires lens == [1, 26] && es == [0, 0, 0, 0, 0, 0, 0, 1]
    requires Ready(bk, lens, codes) && Usable(bk) && At(s, 0) && |codes| == 2
    requires Encode(lens, codes, es) <= Pending(s)
    ensures DecodeRun(bk, s, |es|) != es
  {
    hide ValidBook, DenseReady, SortedReady, FastReady, Usable, Pending, DecodeEntry, DecodeRun, Encode, CodeBits;
    assert es[7..] == [1];
    StreamDecodes(bk, lens, codes, es, s, 0);
    if Fits(lens, es, 0) { FitsLater(lens, es, 0, 7); }
  }
}
