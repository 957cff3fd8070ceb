/** The fast table and the sorted table of a codebook, in place.

    `compute_accelerated_huffman` marks the indices that begin with each short codeword;
    `compute_sorted_huffman` sorts the codewords and then links each to its entry.
 */
module CodebookTables {
  import opened Bits
  import opened Codewords
  import opened HuffmanTables
  import opened Codebooks
  import opened Sequences
  import Sorting

  // ---------------------------------------------------------------- compute_accelerated_huffman

  /** Below `w + 2^len`, exactly `w` itself agrees with `w` in its lowest `len` bits; and so on upwards. */
  lemma SameLowBits(w: nat, len: nat, k: nat, y: nat)
    requires w < Pow2(len) && w + Shl(k, len) <= y < w + Shl(k + 1, len)
    ensures Low(y, len) == w <==> y == w + Shl(k, len)
  {
    hide Low, Shl, Shr, Pow2;
    LowHighUnique(w, k, len);
    LowHigh(y, len);
    var s := Shr(y, len);
    if Low(y, len) == w {
      if s < k { ShlMono(s, k, len); }
      if s > k { ShlMono(k + 1, s, len); }
    }
  }

  /** The inner loop: mark every index whose low bits are the codeword `word`. */
  method FillSlot(table: array<int>, word: nat, len: nat, i: int)
    requires table.Length == FAST_SIZE && len <= FAST_LENGTH && word < Pow2(len)
    modifies table
    ensures table[..] == Mark(old(table[..]), word, len, i)
  {
    ghost var before := table[..];
    var z := word;
    ghost var k := 0;
    assert Shl(0, len) == 0 by { ShlZero(len); }
    LowBelow(word, len);
    while z < FAST_SIZE
      invariant z == word + Shl(k, len)
      invariant forall y :: 0 <= y < FAST_SIZE ==> table[y] == if y < z && Low(y, len) == word then i else before[y]
      decreases FAST_SIZE - z
    {
      ShlAdd(k, 1, len);
      SlotStep(word, len, k);
      table[z] := i;
      z := z + Pow2(len);
      k := k + 1;
    }
  }

  lemma LowBelow(word: nat, len: nat)
    requires word < Pow2(len)
    ensures forall y: nat :: y < word ==> Low(y, len) != word
  {
    forall y: nat | y < word
      ensures Low(y, len) != word
    {
      LowSmall(y, len);
    }
  }

  lemma SlotStep(word: nat, len: nat, k: nat)
    requires word < Pow2(len)
    ensures forall y: nat :: word + Shl(k, len) <= y < word + Shl(k + 1, len) ==>
              (Low(y, len) == word <==> y == word + Shl(k, len))
  {
    forall y: nat | word + Shl(k, len) <= y < word + Shl(k + 1, len)
      ensures Low(y, len) == word <==> y == word + Shl(k, len)
    {
      SameLowBits(word, len, k, y);
    }
  }

  function Elems<T>(a: array?<T>): seq<T>
    reads a
  {
    if a == null then [] else a[..]
  }

  /** The codewords by slot: by entry, or in a sparse codebook by place in the sorted table. */
  function SlotWords(sparse: bool, codewords: seq<nat>, sortedCodewords: seq<nat>): seq<nat> {
    if sparse then Words(sortedCodewords) else codewords
  }

  ghost predicate ShortWordsFit(lens: seq<nat>, words: seq<nat>, n: nat) {
    n <= |lens| && n <= |words| &&
    forall i :: 0 <= i < n && lens[i] <= FAST_LENGTH ==> words[i] < Pow2(lens[i])
  }

  /** The number of slots that the fast table covers. */
  function FastCount(sparse: bool, entries: nat, sortedEntries: nat): nat {
    var len := if sparse then sortedEntries else entries;
    if len > FAST_LIMIT then FAST_LIMIT else len
  }

  /** `compute_accelerated_huffman`. */
  method AccelerateHuffman(c: Codebook, ghost words: seq<nat>)
    requires c.fastHuffman.Length == FAST_SIZE
    requires words == SlotWords(c.sparse, Elems(c.codewords), Elems(c.sortedCodewords))
    requires ShortWordsFit(c.codewordLengths[..], words, FastCount(c.sparse, c.entries, c.sortedEntries))
    modifies c.fastHuffman
    ensures c.fastHuffman[..] == FastTable(c.codewordLengths[..], words, FastCount(c.sparse, c.entries, c.sortedEntries))
  {
    hide BitReverse, Mark;
    for i := 0 to FAST_SIZE
      invariant forall z :: 0 <= z < i ==> c.fastHuffman[z] == -1
    {
      c.fastHuffman[i] := -1;
    }
    var len := if c.sparse then c.sortedEntries else c.entries;
    if len > FAST_LIMIT { len := FAST_LIMIT; }
    ghost var lens := c.codewordLengths[..];
    for i := 0 to len
      invariant c.codewordLengths[..] == lens
      invariant words == SlotWords(c.sparse, Elems(c.codewords), Elems(c.sortedCodewords))
      invariant c.fastHuffman[..] == FastTable(lens, words, i)
    {
      if c.codewordLengths[i] <= FAST_LENGTH {
        var z := if c.sparse then BitReverse(c.sortedCodewords[i]) else c.codewords[i];
        FillSlot(c.fastHuffman, z, c.codewordLengths[i], i);
      }
    }
  }

  // ---------------------------------------------------------------- compute_sorted_huffman

  function Itself(x: nat): int { x }

  /** The result of `qsort` on unsigned words. */
  function Sort(s: seq<nat>): (r: seq<nat>)
    ensures |r| == |s|
  {
    Sorting.Sort(s, Itself)
  }

  lemma SortSorts(s: seq<nat>)
    ensures Sorted(Sort(s)) && multiset(Sort(s)) == multiset(s)
  {
    hide Sorting.Sort;
    Sorting.SortSorts(s, Itself);
    var t := Sort(s);
    forall i, j | 0 <= i < j < |t|
      ensures t[i] <= t[j]
    {
      assert Itself(t[i]) <= Itself(t[j]);
    }
  }

  method QSort(a: array<nat>, n: nat)
    requires n <= a.Length
    modifies a
    ensures a[..n] == Sort(old(a[..n])) && a[n..] == old(a[n..])
  {
    var s := Sort(a[..n]);
    for i := 0 to n
      invariant a[..i] == s[..i] && a[n..] == old(a[n..])
    {
      a[i] := s[i];
    }
    assert s == s[..n];
  }

  /** The codewords that the sorted table holds, in the order of the entries. */
  function IncludedCodes(codes: seq<nat>, indices: seq<nat>): (r: seq<nat>)
    requires forall t :: 0 <= t < |indices| ==> indices[t] < |codes|
    ensures |r| == |indices|
    ensures forall t :: 0 <= t < |r| ==> r[t] == codes[indices[t]]
  {
    seq(|indices|, t requires 0 <= t < |indices| => codes[indices[t]])
  }

  lemma {:induction false} SparseIncludesCoded(lens: seq<nat>, k: nat)
    requires k <= |lens|
    ensures IncludedEntries(lens, true, k) == CodedIndices(lens, k)
  {
    if k > 0 { SparseIncludesCoded(lens, k - 1); }
  }

  lemma IncludedDistinct(lens: seq<nat>, codes: seq<nat>, sparse: bool, s: nat, t: nat)
    requires ValidBook(lens, codes) && s < |IncludedEntries(lens, sparse, |lens|)| && t < |IncludedEntries(lens, sparse, |lens|)|
    requires codes[IncludedEntries(lens, sparse, |lens|)[s]] == codes[IncludedEntries(lens, sparse, |lens|)[t]]
    ensures s == t
  {
    hide VorbisCodes;
    var r := IncludedEntries(lens, sparse, |lens|);
    CodesDistinct(lens, codes, r[s], r[t]);
    if s < t { IncludedEntriesIncrease(lens, sparse, |lens|, s, t); }
    if t < s { IncludedEntriesIncrease(lens, sparse, |lens|, t, s); }
  }

  /** The sorted codewords of the included entries, strictly increasing. */
  lemma SortIncreases(lens: seq<nat>, codes: seq<nat>, sparse: bool)
    requires ValidBook(lens, codes)
    ensures var s := IncludedCodes(codes, IncludedEntries(lens, sparse, |lens|));
            Increasing(Sort(s)) && (forall x :: x in Sort(s) <==> x in s)
  {
    hide VorbisCodes, IncludedEntries, Sort;
    var s := IncludedCodes(codes, IncludedEntries(lens, sparse, |lens|));
    SortSorts(s);
    forall i, j | 0 <= i < j < |s|
      ensures s[i] != s[j]
    {
      if s[i] == s[j] { IncludedDistinct(lens, codes, sparse, i, j); }
    }
    PermutedDistinct(s, Sort(s));
    forall x
      ensures x in Sort(s) <==> x in s
    {
      SameElements(s, Sort(s), x);
    }
  }

  /** The binary search loop, shared by the table construction and the decoder. */
  method BinarySearch(a: array<nat>, count: nat, code: nat) returns (x: nat)
    requires 1 <= count <= a.Length
    ensures x == Search(a[..count], code, 0, count)
    ensures x < count
  {
    hide Search;
    ghost var table := a[..count];
    var n := count;
    x := 0;
    while n > 1
      invariant 1 <= n && x + n <= count
      invariant Search(table, code, x, n) == Search(table, code, 0, count)
    {
      SearchUnfold(table, code, x, n);
      var m := x + n / 2;
      if a[m] <= code {
        x := m;
        n := n - n / 2;
      } else {
        n := n / 2;
      }
    }
    SearchUnfold(table, code, x, 1);
  }

  lemma SearchExact(table: seq<nat>, p: nat)
    requires Increasing(table) && p < |table|
    ensures Search(table, table[p], 0, |table|) == p
  {
    SearchFinds(table, table[p], 0, |table|, p);
  }

  lemma StoredPath(lens: seq<nat>, codes: seq<nat>, sparse: bool, t: Tables, i: nat)
    requires ValidBook(lens, codes) && Stored(lens, sparse, Words(codes), t)
    ensures sparse && i < |CodedIndices(lens, |lens|)| ==>
              i < |t.codewords| && i < |t.values| && i < |t.codewordLengths| &&
              var e := CodedIndices(lens, |lens|)[i];
              t.values[i] == e && t.codewordLengths[i] == lens[e] && BitReverse(t.codewords[i]) == codes[e]
    ensures !sparse && i < |lens| && lens[i] != NO_CODE ==>
              i < |t.codewords| && t.codewords[i] == BitReverse(codes[i]) && BitReverse(t.codewords[i]) == codes[i]
  {
    hide BitReverse, IsNode;
    if sparse && i < |CodedIndices(lens, |lens|)| {
      var e := CodedIndices(lens, |lens|)[i];
      assert t.values[..|CodedIndices(lens, |lens|)|][i] == e;
      assert StoredAt(lens, Words(codes), t, i, e);
      CodeIsWord(lens, codes, e);
      BitReverseInvolution(codes[e]);
    }
    if !sparse && i < |lens| && lens[i] != NO_CODE {
      CodeIsWord(lens, codes, i);
      BitReverseInvolution(codes[i]);
    }
  }

  lemma CodeIsWord(lens: seq<nat>, codes: seq<nat>, e: nat)
    requires ValidBook(lens, codes) && e < |lens| && lens[e] != NO_CODE
    ensures codes[e] < WORD && IsNode(codes[e], lens[e])
  {
    assert LowestUnused(lens, codes, e);
  }

  /** Collect the codewords of the sorted table: the first loop of `compute_sorted_huffman`. */
  method Gather(c: Codebook, lengths: array<nat>, ghost codes: seq<nat>, ghost t: Tables)
    requires ValidBook(lengths[..], codes) && Stored(lengths[..], c.sparse, Words(codes), t)
    requires c.entries == lengths.Length && c.codewords != null && t.codewords == c.codewords[..]
    requires c.sortedEntries == |IncludedEntries(lengths[..], c.sparse, lengths.Length)|
    requires c.sortedCodewords != null && c.sortedCodewords.Length == c.sortedEntries + 1
    requires c.sortedCodewords !in {lengths, c.codewords, c.codewordLengths}
    modifies c.sortedCodewords
    ensures c.sortedCodewords[..c.sortedEntries] ==
            IncludedCodes(codes, IncludedEntries(lengths[..], c.sparse, lengths.Length))
  {
    hide VorbisCodes, Stored, BitReverse, Words, IncludedCodes, CodedIndices;
    ghost var lens := lengths[..];
    if !c.sparse {
      var k := 0;
      for i := 0 to c.entries
        invariant lengths[..] == lens && t.codewords == c.codewords[..]
        invariant k == |IncludedEntries(lens, false, i)| <= c.sortedEntries
        invariant c.sortedCodewords[..k] == IncludedCodes(codes, IncludedEntries(lens, false, i))
      {
        IncludedCodesNext(lens, codes, false, i);
        if IncludeInSort(c.sparse, lengths[i]) {
          StoredPath(lens, codes, false, t, i);
          c.sortedCodewords[k] := BitReverse(c.codewords[i]);
          k := k + 1;
        }
      }
    } else {
      SparseIncludesCoded(lens, |lens|);
      ghost var r := IncludedCodes(codes, IncludedEntries(lens, true, |lens|));
      for i := 0 to c.sortedEntries
        invariant lengths[..] == lens && t.codewords == c.codewords[..]
        invariant c.sortedCodewords[..i] == r[..i]
      {
        StoredPath(lens, codes, true, t, i);
        c.sortedCodewords[i] := BitReverse(c.codewords[i]);
      }
    }
  }

  lemma IncludedCodesNext(lens: seq<nat>, codes: seq<nat>, sparse: bool, k: nat)
    requires k < |lens| && |codes| == |lens|
    ensures var a, b := IncludedEntries(lens, sparse, k), IncludedEntries(lens, sparse, k + 1);
            IncludedCodes(codes, b) == IncludedCodes(codes, a) + if Included(lens, sparse, k) then [codes[k]] else []
    ensures |IncludedEntries(lens, sparse, k + 1)| <= |IncludedEntries(lens, sparse, |lens|)|
  {
    IncludedEntriesGrow(lens, sparse, k + 1, |lens|);
  }

  lemma {:induction false} IncludedEntriesGrow(lens: seq<nat>, sparse: bool, j: nat, k: nat)
    requires j <= k <= |lens|
    ensures IncludedEntries(lens, sparse, j) <= IncludedEntries(lens, sparse, k)
  {
    if j < k { IncludedEntriesGrow(lens, sparse, j, k - 1); }
  }

  /** The places of the entries in `done` name their entries, and in a sparse codebook their lengths. */
  ghost predicate Linked(lens: seq<nat>, codes: seq<nat>, sparse: bool, table: seq<nat>, done: seq<nat>,
                         values: seq<int>, slotLens: seq<nat>)
  {
    |values| >= |table| && (sparse ==> |slotLens| >= |table|) &&
    forall x, t :: 0 <= x < |table| && 0 <= t < |done| ==> LinkedAt(lens, codes, sparse, table, done, values, slotLens, x, t)
  }

  ghost predicate LinkedAt(lens: seq<nat>, codes: seq<nat>, sparse: bool, table: seq<nat>, done: seq<nat>,
                           values: seq<int>, slotLens: seq<nat>, x: nat, t: nat)
    requires x < |table| <= |values| && t < |done| && (sparse ==> x < |slotLens|)
  {
    done[t] < |codes| && done[t] < |lens| &&
    (codes[done[t]] == table[x] ==> values[x] == done[t] && (sparse ==> slotLens[x] == lens[done[t]]))
  }

  lemma LinkNext(lens: seq<nat>, codes: seq<nat>, sparse: bool, table: seq<nat>, done: seq<nat>,
                 values: seq<int>, slotLens: seq<nat>, e: nat, p: nat)
    requires ValidBook(lens, codes) && Increasing(table) && e < |lens| && lens[e] != NO_CODE
    requires forall t :: 0 <= t < |done| ==> done[t] < |lens| && lens[done[t]] != NO_CODE
    requires p < |table| && table[p] == codes[e]
    requires Linked(lens, codes, sparse, table, done, values, slotLens)
    ensures Linked(lens, codes, sparse, table, done + [e], values[p := e], if sparse then slotLens[p := lens[e]] else slotLens)
  {
    hide VorbisCodes;
    var values', slotLens', done' := values[p := e], if sparse then slotLens[p := lens[e]] else slotLens, done + [e];
    forall x, t | 0 <= x < |table| && 0 <= t < |done'|
      ensures LinkedAt(lens, codes, sparse, table, done', values', slotLens', x, t)
    {
      if t < |done| {
        assert LinkedAt(lens, codes, sparse, table, done, values, slotLens, x, t);
        if x == p && codes[done[t]] == table[x] { CodesDistinct(lens, codes, done[t], e); }
      }
    }
  }

  /** In a sparse codebook the lengths are kept in the order of the sorted table. */
  ghost predicate SlotLengths(lens: seq<nat>, values: seq<int>, slotLens: seq<nat>) {
    |values| <= |slotLens| &&
    forall x :: 0 <= x < |values| ==> 0 <= values[x] < |lens| && slotLens[x] == lens[values[x]]
  }

  /** Once all included entries are linked, the sorted table is complete. */
  lemma LinkedTable(lens: seq<nat>, codes: seq<nat>, sparse: bool, values: seq<int>, slotLens: seq<nat>)
    requires ValidBook(lens, codes)
    requires var r := IncludedEntries(lens, sparse, |lens|);
             var table := Sort(IncludedCodes(codes, r));
             |values| == |table| && Linked(lens, codes, sparse, table, r, values, slotLens)
    ensures var table := Sort(IncludedCodes(codes, IncludedEntries(lens, sparse, |lens|)));
            SortedTable(lens, codes, sparse, table, values) &&
            (sparse ==> SlotLengths(lens, values, slotLens))
  {
    hide VorbisCodes, IncludedEntries, Sort, Increasing;
    var r := IncludedEntries(lens, sparse, |lens|);
    var s := IncludedCodes(codes, r);
    var table := Sort(s);
    SortIncreases(lens, codes, sparse);
    forall x | 0 <= x < |table|
      ensures Included(lens, sparse, values[x]) && codes[values[x]] == table[x]
      ensures sparse ==> slotLens[x] == lens[values[x]]
    {
      assert table[x] in s;
      var t :| 0 <= t < |s| && s[t] == table[x];
      assert LinkedAt(lens, codes, sparse, table, r, values, slotLens, x, t);
    }
    forall e | Included(lens, sparse, e)
      ensures codes[e] in table
    {
      var t := IncludedEntriesComplete(lens, sparse, |lens|, e);
      assert s[t] == codes[e];
    }
  }

  /** One turn of the second loop of `compute_sorted_huffman`. */
  method LinkEntry(c: Codebook, lengths: array<nat>, e: nat, code: nat, ghost codes: seq<nat>, ghost done: seq<nat>)
    requires ValidBook(lengths[..], codes) && e < lengths.Length && lengths[e] != NO_CODE && code == codes[e]
    requires forall t :: 0 <= t < |done| ==> done[t] < lengths.Length && lengths[done[t]] != NO_CODE
    requires c.sortedCodewords != null && c.sortedValues != null && c.sortedEntries <= c.sortedCodewords.Length
    requires c.sortedValues.Length == c.sortedEntries
    requires Increasing(c.sortedCodewords[..c.sortedEntries]) && code in c.sortedCodewords[..c.sortedEntries]
    requires c.sparse ==> c.codewordLengths != lengths && c.codewordLengths != c.sortedCodewords
    requires Linked(lengths[..], codes, c.sparse, c.sortedCodewords[..c.sortedEntries], done, c.sortedValues[..], c.codewordLengths[..])
    modifies c.sortedValues, if c.sparse then {c.codewordLengths} else {}
    ensures Linked(lengths[..], codes, c.sparse, c.sortedCodewords[..c.sortedEntries], done + [e], c.sortedValues[..], c.codewordLengths[..])
  {
    hide VorbisCodes, Linked, Increasing, Search;
    ghost var table := c.sortedCodewords[..c.sortedEntries];
    ghost var values, slotLens := c.sortedValues[..], c.codewordLengths[..];
    ghost var p :| 0 <= p < |table| && table[p] == code;
    SearchExact(table, p);
    LinkNext(lengths[..], codes, c.sparse, table, done, values, slotLens, e, p);
    LinkedRoom(lengths[..], codes, c.sparse, table, done, values, slotLens);
    var x := BinarySearch(c.sortedCodewords, c.sortedEntries, code);
    c.sortedValues[x] := e;
    if c.sparse { c.codewordLengths[x] := lengths[e]; }
    assert c.sortedValues[..] == values[p := e];
  }

  lemma LinkedRoom(lens: seq<nat>, codes: seq<nat>, sparse: bool, table: seq<nat>, done: seq<nat>, values: seq<int>, slotLens: seq<nat>)
    requires Linked(lens, codes, sparse, table, done, values, slotLens)
    ensures |values| >= |table| && (sparse ==> |slotLens| >= |table|)
  {}

  /** `compute_sorted_huffman`; `t` names the tables that `compute_codewords` left behind. */
  method ComputeSortedHuffman(c: Codebook, lengths: array<nat>, values: array?<nat>, ghost codes: seq<nat>, ghost t: Tables)
    requires ValidBook(lengths[..], codes) && c.Allocated(lengths, values)
    requires t == c.View(values) && Stored(lengths[..], c.sparse, Words(codes), t)
    requires c.entries == lengths.Length
    requires c.sortedEntries == |IncludedEntries(lengths[..], c.sparse, lengths.Length)|
    requires c.sortedCodewords != null && c.sortedCodewords.Length == c.sortedEntries + 1
    requires c.sortedCodewords !in {lengths, c.codewords, c.codewordLengths} && c.sortedCodewords != values
    requires c.sortedValues != null && c.sortedValues.Length == c.sortedEntries
    modifies c.sortedCodewords, c.sortedValues, if c.sparse then {c.codewordLengths} else {}
    ensures lengths[..] == old(lengths[..])
    ensures c.sortedCodewords[c.sortedEntries] == 0xffffffff
    ensures SortedTable(lengths[..], codes, c.sparse, c.sortedCodewords[..c.sortedEntries], c.sortedValues[..])
    ensures c.sparse ==> SlotLengths(lengths[..], c.sortedValues[..], c.codewordLengths[..])
  {
    hide VorbisCodes, Stored, BitReverse, Words, IncludedCodes, Sort, SortedTable;
    ghost var lens := lengths[..];
    Gather(c, lengths, codes, t);
    QSort(c.sortedCodewords, c.sortedEntries);
    c.sortedCodewords[c.sortedEntries] := 0xffffffff;
    SortIncreases(lens, codes, c.sparse);
    LinkAll(c, lengths, values, codes, t);
    LinkedTable(lens, codes, c.sparse, c.sortedValues[..], c.codewordLengths[..]);
  }

  /** One turn of the second loop of `compute_sorted_huffman`. */
  method LinkSlot(c: Codebook, lengths: array<nat>, values: array?<nat>, i: nat, ghost codes: seq<nat>, ghost t: Tables, ghost done: seq<nat>)
    requires ValidBook(lengths[..], codes) && c.Allocated(lengths, values)
    requires t.codewords == c.codewords[..] && (c.sparse ==> t.values == values[..])
    requires Stored(lengths[..], c.sparse, Words(codes), t)
    requires i < if c.sparse then |CodedIndices(lengths[..], lengths.Length)| else lengths.Length
    requires c.sortedCodewords != null && c.sortedCodewords.Length == c.sortedEntries + 1
    requires c.sortedCodewords !in {lengths, c.codewords, c.codewordLengths}
    requires c.sortedValues != null && c.sortedValues.Length == c.sortedEntries
    requires c.sortedCodewords[..c.sortedEntries] == Sort(IncludedCodes(codes, IncludedEntries(lengths[..], c.sparse, lengths.Length)))
    requires forall t :: 0 <= t < |done| ==> done[t] < lengths.Length && lengths[done[t]] != NO_CODE
    requires Linked(lengths[..], codes, c.sparse, c.sortedCodewords[..c.sortedEntries], done, c.sortedValues[..], c.codewordLengths[..])
    modifies c.sortedValues, if c.sparse then {c.codewordLengths} else {}
    ensures lengths[..] == old(lengths[..])
    ensures Linked(lengths[..], codes, c.sparse, c.sortedCodewords[..c.sortedEntries],
                   done + (if c.sparse then [CodedIndices(lengths[..], lengths.Length)[i]]
                           else if Included(lengths[..], false, i) then [i] else []),
                   c.sortedValues[..], c.codewordLengths[..])
  {
    hide VorbisCodes, Stored, BitReverse, Words, IncludedCodes, Sort, Linked;
    ghost var lens := lengths[..];
    SortIncreases(lens, codes, c.sparse);
    StoredPath(lens, codes, c.sparse, t, i);
    var huffLen := if c.sparse then lengths[values[i]] else lengths[i];
    if IncludeInSort(c.sparse, huffLen) {
      var e := if c.sparse then values[i] else i;
      var code := BitReverse(c.codewords[i]);
      IncludedInTable(lens, codes, c.sparse, c.sortedCodewords[..c.sortedEntries], e);
      LinkEntry(c, lengths, e, code, codes, done);
    } else {
      assert done + [] == done;
    }
  }

  /** The second loop of `compute_sorted_huffman`: for each entry find its place. */
  method LinkAll(c: Codebook, lengths: array<nat>, values: array?<nat>, ghost codes: seq<nat>, ghost t: Tables)
    requires ValidBook(lengths[..], codes) && c.Allocated(lengths, values)
    requires t == c.View(values) && Stored(lengths[..], c.sparse, Words(codes), t)
    requires c.entries == lengths.Length
    requires c.sortedEntries == |IncludedEntries(lengths[..], c.sparse, lengths.Length)|
    requires c.sortedCodewords != null && c.sortedCodewords.Length == c.sortedEntries + 1
    requires c.sortedCodewords !in {lengths, c.codewords, c.codewordLengths} && c.sortedCodewords != values
    requires c.sortedValues != null && c.sortedValues.Length == c.sortedEntries
    requires c.sortedCodewords[..c.sortedEntries] == Sort(IncludedCodes(codes, IncludedEntries(lengths[..], c.sparse, lengths.Length)))
    modifies c.sortedValues, if c.sparse then {c.codewordLengths} else {}
    ensures lengths[..] == old(lengths[..])
    ensures Linked(lengths[..], codes, c.sparse, c.sortedCodewords[..c.sortedEntries],
                   IncludedEntries(lengths[..], c.sparse, lengths.Length), c.sortedValues[..], c.codewordLengths[..])
  {
    hide ValidBook, Stored, BitReverse, Words, IncludedCodes, Sort, Linked, IncludedEntries, CodedIndices, Included;
    ghost var lens := lengths[..];
    ghost var r := IncludedEntries(lens, c.sparse, |lens|);
    ghost var table := c.sortedCodewords[..c.sortedEntries];
    SparseIncludesCoded(lens, |lens|);
    RoomForSparse(lens, c.sparse, Words(codes), t);
    NothingLinked(lens, codes, c.sparse, table, c.sortedValues[..], c.codewordLengths[..]);
    IncludedStep(lens, false, 0);
    ghost var done := [];
    var len := if c.sparse then c.sortedEntries else c.entries;
    for i := 0 to len
      invariant lengths[..] == lens && t.codewords == c.codewords[..] && (c.sparse ==> t.values == values[..])
      invariant c.sortedCodewords[..c.sortedEntries] == table
      invariant done == if c.sparse then r[..i] else IncludedEntries(lens, false, i)
      invariant Linked(lens, codes, c.sparse, table, done, c.sortedValues[..], c.codewordLengths[..])
    {
      IncludedStep(lens, false, if c.sparse then 0 else i);
      LinkSlot(c, lengths, values, i, codes, t, done);
      done := done + if c.sparse then [r[i]] else if Included(lens, false, i) then [i] else [];
    }
    assert r[..|r|] == r;
  }

  lemma IncludedStep(lens: seq<nat>, sparse: bool, k: nat)
    requires k <= |lens|
    ensures IncludedEntries(lens, sparse, 0) == []
    ensures k < |lens| ==>
              IncludedEntries(lens, sparse, k + 1) == IncludedEntries(lens, sparse, k) + if Included(lens, sparse, k) then [k] else []
    ensures forall t :: 0 <= t < |IncludedEntries(lens, sparse, k)| ==> lens[IncludedEntries(lens, sparse, k)[t]] != NO_CODE
  {}

  lemma IncludedInTable(lens: seq<nat>, codes: seq<nat>, sparse: bool, table: seq<nat>, e: nat)
    requires ValidBook(lens, codes) && Included(lens, sparse, e)
    requires table == Sort(IncludedCodes(codes, IncludedEntries(lens, sparse, |lens|)))
    ensures codes[e] in table
  {
    SortIncreases(lens, codes, sparse);
    var t := IncludedEntriesComplete(lens, sparse, |lens|, e);
    assert IncludedCodes(codes, IncludedEntries(lens, sparse, |lens|))[t] == codes[e];
  }

  lemma RoomForSparse(lens: seq<nat>, sparse: bool, words: seq<nat>, t: Tables)
    requires Stored(lens, sparse, words, t)
    ensures sparse ==> var m := |CodedIndices(lens, |lens|)|; m <= |t.codewords| && m <= |t.codewordLengths| && m <= |t.values|
  {}

  lemma NothingLinked(lens: seq<nat>, codes: seq<nat>, sparse: bool, table: seq<nat>, values: seq<int>, slotLens: seq<nat>)
    requires |values| >= |table| && (sparse ==> |slotLens| >= |table|)
    ensures Linked(lens, codes, sparse, table, [], values, slotLens)
  {}
}