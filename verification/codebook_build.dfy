/** A finished codebook: what its tables say, and that the setup code establishes it.

    A codebook is sparse if few of its entries are coded; then it keeps the sorted table only.
    Otherwise it has a slot for every entry, and a sorted table for the long codewords.
 */
module CodebookBuild {
  import opened Bits
  import opened Codewords
  import opened HuffmanTables
  import opened Codebooks
  import opened CodebookTables
  import opened Wrappers

  /** The fields of a codebook that the decoder reads. */
  datatype Book = Book(
    entries: nat, sparse: bool, sortedEntries: nat, slotLens: seq<nat>, codewords: Option<seq<nat>>,
    fast: seq<int>, sortedCodewords: Option<seq<nat>>, sortedValues: seq<int>)

  function Nullable(a: array?<nat>): Option<seq<nat>>
    reads a
  {
    if a == null then None else Some(a[..])
  }

  function BookOf(c: Codebook): Book
    reads c, c.codewordLengths, c.codewords, c.fastHuffman, c.sortedCodewords, c.sortedValues
  {
    Book(c.entries, c.sparse, c.sortedEntries, c.codewordLengths[..], Nullable(c.codewords),
         c.fastHuffman[..], Nullable(c.sortedCodewords), Elems(c.sortedValues))
  }

  /** By entry, or in a sparse codebook by place in the sorted table: the codewords that the fast table covers. */
  function FastWords(bk: Book): seq<nat> {
    SlotWords(bk.sparse, if bk.codewords.None? then [] else bk.codewords.value,
              if bk.sortedCodewords.None? then [] else bk.sortedCodewords.value)
  }

  ghost predicate DenseReady(bk: Book, lens: seq<nat>, codes: seq<nat>)
    requires |codes| == |lens|
  {
    bk.codewords.Some? && |bk.codewords.value| == |lens| && bk.slotLens == lens &&
    forall i :: 0 <= i < |lens| && lens[i] != NO_CODE ==> bk.codewords.value[i] == BitReverse(codes[i])
  }

  ghost predicate SortedReady(bk: Book, lens: seq<nat>, codes: seq<nat>)
    requires |codes| == |lens|
  {
    bk.sortedEntries == |IncludedEntries(lens, bk.sparse, |lens|)| == |bk.sortedValues| &&
    (bk.sortedCodewords.Some? <==> bk.sortedEntries > 0) &&
    (bk.sortedEntries > 0 ==>
      |bk.sortedCodewords.value| == bk.sortedEntries + 1 &&
      bk.sortedCodewords.value[bk.sortedEntries] == 0xffffffff &&
      SortedTable(lens, codes, bk.sparse, bk.sortedCodewords.value[..bk.sortedEntries], bk.sortedValues) &&
      (bk.sparse ==> SlotLengths(lens, bk.sortedValues, bk.slotLens)))
  }

  ghost predicate FastReady(bk: Book) {
    var n := FastCount(bk.sparse, bk.entries, bk.sortedEntries);
    n <= |bk.slotLens| && n <= |FastWords(bk)| && bk.fast == FastTable(bk.slotLens, FastWords(bk), n)
  }

  /** The tables of `bk` hold the codewords `codes` of the lengths `lens`. */
  ghost predicate Ready(bk: Book, lens: seq<nat>, codes: seq<nat>) {
    ValidBook(lens, codes) && bk.entries == |lens| &&
    (if bk.sparse then bk.codewords.None? else DenseReady(bk, lens, codes)) &&
    SortedReady(bk, lens, codes) && FastReady(bk)
  }

  method CountCoded(lengths: array<nat>) returns (total: nat)
    ensures total == |CodedIndices(lengths[..], lengths.Length)|
  {
    total := 0;
    for j := 0 to lengths.Length
      invariant total == |CodedIndices(lengths[..], j)|
    {
      if lengths[j] != NO_CODE { total := total + 1; }
    }
  }

  method CountLong(lengths: array<nat>) returns (count: nat)
    ensures count == |IncludedEntries(lengths[..], false, lengths.Length)|
  {
    count := 0;
    for j := 0 to lengths.Length
      invariant count == |IncludedEntries(lengths[..], false, j)|
    {
      if lengths[j] > FAST_LENGTH && lengths[j] != NO_CODE { count := count + 1; }
    }
  }

  lemma DenseWordsFit(lens: seq<nat>, codes: seq<nat>, words: seq<nat>, n: nat)
    requires ValidBook(lens, codes) && n <= |lens| && |words| == |lens|
    requires forall i :: 0 <= i < |lens| && lens[i] != NO_CODE ==> words[i] == BitReverse(codes[i])
    ensures ShortWordsFit(lens, words, n)
  {
    hide VorbisCodes, BitReverse;
    forall i | 0 <= i < n && lens[i] <= FAST_LENGTH
      ensures words[i] < Pow2(lens[i])
    {
      CodeIsWord(lens, codes, i);
      NodeWord(codes[i], lens[i]);
    }
  }

  lemma SparseWordsFit(lens: seq<nat>, codes: seq<nat>, sorted: seq<nat>, values: seq<int>, slotLens: seq<nat>, n: nat)
    requires ValidBook(lens, codes) && n <= |values| && |values| + 1 == |sorted|
    requires SortedTable(lens, codes, true, sorted[..|values|], values) && SlotLengths(lens, values, slotLens)
    ensures ShortWordsFit(slotLens, Words(sorted), n)
  {
    hide VorbisCodes, BitReverse;
    forall i | 0 <= i < n && slotLens[i] <= FAST_LENGTH
      ensures Words(sorted)[i] < Pow2(slotLens[i])
    {
      var e := values[i];
      assert sorted[..|values|][i] == sorted[i] && Included(lens, true, e);
      CodeIsWord(lens, codes, e);
      NodeWord(codes[e], lens[e]);
    }
  }

  /** The short codewords of a finished codebook fit their lengths. */
  lemma FastWordsFit(bk: Book, lens: seq<nat>, codes: seq<nat>)
    requires ValidBook(lens, codes) && bk.entries == |lens| && SortedReady(bk, lens, codes)
    requires !bk.sparse ==> DenseReady(bk, lens, codes)
    ensures ShortWordsFit(bk.slotLens, FastWords(bk), FastCount(bk.sparse, bk.entries, bk.sortedEntries))
  {
    hide VorbisCodes, BitReverse, Words, ShortWordsFit, IncludedEntries;
    var n := FastCount(bk.sparse, bk.entries, bk.sortedEntries);
    if !bk.sparse {
      DenseWordsFit(lens, codes, bk.codewords.value, n);
    } else if bk.sortedEntries > 0 {
      SparseWordsFit(lens, codes, bk.sortedCodewords.value, bk.sortedValues, bk.slotLens, n);
    } else {
      NoWordsFit(bk.slotLens, FastWords(bk));
    }
  }

  lemma NoWordsFit(lens: seq<nat>, words: seq<nat>)
    ensures ShortWordsFit(lens, words, 0)
  {}

  lemma StoredDense(lens: seq<nat>, codes: seq<nat>, t: Tables)
    requires |codes| == |lens| && Stored(lens, false, Words(codes), t)
    ensures |t.codewords| == |lens|
    ensures forall i :: 0 <= i < |lens| && lens[i] != NO_CODE ==> t.codewords[i] == BitReverse(codes[i])
  {}

  /** The last steps: drop the temporary codewords of a sparse codebook and fill the fast table. */
  method FinishCodebook(c: Codebook, ghost lens: seq<nat>, ghost codes: seq<nat>)
    requires ValidBook(lens, codes) && c.entries == |lens| && c.fastHuffman.Length == FAST_SIZE
    requires !c.sparse ==> DenseReady(BookOf(c), lens, codes)
    requires SortedReady(BookOf(c), lens, codes)
    requires c.sortedValues == null || c.sortedValues != c.fastHuffman
    modifies c, c.fastHuffman
    ensures Ready(BookOf(c), lens, codes)
    ensures unchanged(c`codewordLengths, c`sparse)
  {
    hide ValidBook, SortedTable, ShortWordsFit, SlotLengths, FastTable, BitReverse, Words, IncludedEntries;
    if c.sparse { c.codewords := null; }
    ghost var bk := BookOf(c);
    FastWordsFit(bk, lens, codes);
    FitRoom(bk.slotLens, FastWords(bk), FastCount(bk.sparse, bk.entries, bk.sortedEntries));
    AccelerateHuffman(c, FastWords(bk));
  }

  lemma FitRoom(lens: seq<nat>, words: seq<nat>, n: nat)
    requires ShortWordsFit(lens, words, n)
    ensures n <= |lens| && n <= |words|
  {}

  /** Allocate and fill the sorted table, if it has entries. */
  method AddSortedTable(c: Codebook, lengths: array<nat>, values: array?<nat>, ghost codes: seq<nat>)
    requires ValidBook(lengths[..], codes) && c.Allocated(lengths, values)
    requires Stored(lengths[..], c.sparse, Words(codes), c.View(values))
    requires c.entries == lengths.Length && (!c.sparse ==> c.codewordLengths == lengths)
    requires c.sortedEntries == |IncludedEntries(lengths[..], c.sparse, lengths.Length)|
    requires c.sortedCodewords == null && c.sortedValues == null
    modifies c, if c.sparse then {c.codewordLengths} else {}
    ensures lengths[..] == old(lengths[..])
    ensures unchanged(c`entries, c`sparse, c`sortedEntries, c`codewordLengths, c`codewords, c`fastHuffman)
    ensures c.sortedValues == null || fresh(c.sortedValues)
    ensures SortedReady(BookOf(c), lengths[..], codes)
    ensures !c.sparse ==> DenseReady(BookOf(c), lengths[..], codes)
  {
    hide VorbisCodes, Stored, Words, SortedTable, SlotLengths, BitReverse, IncludedEntries;
    if !c.sparse { StoredDense(lengths[..], codes, c.View(values)); }
    if c.sortedEntries > 0 {
      c.sortedCodewords := new nat[c.sortedEntries + 1];
      c.sortedValues := new int[c.sortedEntries];
      ComputeSortedHuffman(c, lengths, values, codes, c.View(values));
    }
  }

  /** The setup of one codebook, from its lengths to its tables; null stands for the setup error. */
  method BuildCodebook(lengths: array<nat>, sparseFlag: bool) returns (c: Codebook?)
    requires ValidLengths(lengths[..])
    ensures lengths[..] == old(lengths[..])
    ensures c == null <==> KraftSum(lengths[..], lengths.Length) > WORD
    ensures c != null ==> c.sparse == (sparseFlag && |CodedIndices(lengths[..], lengths.Length)| < lengths.Length / 4)
    ensures c != null ==> fresh(c) && Assign(lengths[..], lengths.Length).Some? &&
                          Ready(BookOf(c), lengths[..], Assign(lengths[..], lengths.Length).value.codes)
  {
    hide KraftSum, Assign, VorbisCodes, Words, Stored, SortedReady, DenseReady, Ready, CodedIndices, IncludedEntries;
    ghost var lens := lengths[..];
    var total := CountCoded(lengths);
    // too many coded entries for a sparse codebook
    var sparse := sparseFlag && !(total >= lengths.Length / 4);
    var sortedCount := 0;
    if sparse { sortedCount := total; } else { sortedCount := CountLong(lengths); }
    SparseIncludesCoded(lens, |lens|);
    var slotLens := lengths;
    if sparse { slotLens := new nat[sortedCount]; }
    c := new Codebook(lengths.Length, sparse, sortedCount, slotLens);
    c.codewords := new nat[if sparse then sortedCount else lengths.Length];
    var values: array?<nat> := null;
    if sparse { values := new nat[sortedCount]; }
    var ok := ComputeCodewords(c, lengths, values);
    if !ok { return null; }
    AssignIsVorbis(lens);
    ghost var codes := Assign(lens, |lens|).value.codes;
    AddSortedTable(c, lengths, values, codes);
    FinishCodebook(c, lens, codes);
  }
}
