/** What the lookup tables of a codebook mean, on values. */
module HuffmanTables {
  import opened Bits
  import opened Codewords

  const FAST_LENGTH: nat := 10
  const FAST_SIZE: nat := 1024
  const FAST_LIMIT: nat := 32767   // the largest index that fits the 16-bit fast table

  ghost predicate ValidBook(lens: seq<nat>, codes: seq<nat>) {
    ValidLengths(lens) && |codes| == |lens| && VorbisCodes(lens, codes)
  }

  /** The bits in `acc`, first bit lowest, begin with the codeword of entry `e`. */
  ghost predicate Begins(lens: seq<nat>, codes: seq<nat>, e: int, acc: nat)
    requires |codes| == |lens|
  {
    Coded(lens, e) && Low(acc, lens[e]) == BitReverse(codes[e])
  }

  // ---------------------------------------------------------------- codewords and intervals

  /** A node, reversed, is a word of its length. */
  lemma NodeWord(code: nat, len: nat)
    requires len <= 32 && IsNode(code, len)
    ensures code == Shl(Shr(code, 32 - len), 32 - len)
    ensures Shr(code, 32 - len) < Pow2(len)
    ensures BitReverse(code) == Rev(len, Shr(code, 32 - len))
    ensures BitReverse(code) < Pow2(len)
  {
    hide Shl, Shr, Low, Rev, Pow2;
    var q := Shr(code, 32 - len);
    LowHigh(code, 32 - len);
    Pow2Values();
    Pow2Is(32 - len);
    ShrBound(code, 32 - len, len);
    RevSplit(32, 32 - len, 0, q);
    RevZero(32 - len);
    RevBound(len, q);
    ShlZero(len);
  }

  lemma {:induction false} ShlZero(n: nat)
    ensures Shl(0, n) == 0
  {
    if n > 0 { ShlZero(n - 1); }
  }

  /** Buffered bits begin with a codeword exactly when, read as a path, they lie in its interval. */
  lemma PrefixIsInterval(code: nat, len: nat, acc: nat)
    requires len <= 32 && IsNode(code, len) && acc < WORD
    ensures Low(acc, len) == BitReverse(code) <==> code <= BitReverse(acc) < code + Span(len)
  {
    hide BitReverse, Low, Shr;
    var n := 32 - len;
    var q, lo, hi := Shr(code, n), Low(acc, len), Shr(acc, len);
    NodeWord(code, len);
    LowHigh(acc, len);
    RevPath(lo, hi, len, acc);
    var p := Rev(len, lo);
    RevBound(n, hi);
    if p < q { ShlMono(p, q, n); }
    if q < p { ShlMono(q, p, n); }
    RevInvolution(len, lo);
    RevInvolution(len, q);
  }

  lemma RevPath(lo: nat, hi: nat, len: nat, acc: nat)
    requires len <= 32 && lo < Pow2(len) && acc == lo + Shl(hi, len)
    ensures BitReverse(acc) == Shl(Rev(len, lo), 32 - len) + Rev(32 - len, hi)
  {
    RevSplit(32, len, lo, hi);
  }

  lemma BeginsInterval(lens: seq<nat>, codes: seq<nat>, e: nat, acc: nat)
    requires ValidBook(lens, codes) && Coded(lens, e) && acc < WORD
    ensures Begins(lens, codes, e, acc) <==> codes[e] <= BitReverse(acc) < codes[e] + Span(lens[e])
  {
    assert LowestUnused(lens, codes, e);
    PrefixIsInterval(codes[e], lens[e], acc);
  }

  /** The codewords are prefix-free: buffered bits begin with at most one of them. */
  lemma BeginsUnique(lens: seq<nat>, codes: seq<nat>, d: nat, e: nat, acc: nat)
    requires ValidBook(lens, codes) && acc < WORD
    requires Begins(lens, codes, d, acc) && Begins(lens, codes, e, acc)
    ensures d == e
  {
    hide VorbisCodes, BitReverse;
    BeginsInterval(lens, codes, d, acc);
    BeginsInterval(lens, codes, e, acc);
    if d < e { PrefixFree(lens, codes, d, e); }
    if e < d { PrefixFree(lens, codes, e, d); }
  }

  lemma CodesDistinct(lens: seq<nat>, codes: seq<nat>, d: nat, e: nat)
    requires ValidBook(lens, codes) && Coded(lens, d) && Coded(lens, e) && codes[d] == codes[e]
    ensures d == e
  {
    hide VorbisCodes;
    if d < e { PrefixFree(lens, codes, d, e); }
    if e < d { PrefixFree(lens, codes, e, d); }
  }

  // ---------------------------------------------------------------- the fast table

  function Mark(table: seq<int>, word: nat, len: nat, i: int): (t: seq<int>)
    requires |table| == FAST_SIZE
    ensures |t| == FAST_SIZE
  {
    seq(FAST_SIZE, z requires 0 <= z < FAST_SIZE => if Low(z, len) == word then i else table[z])
  }

  /** The fast table after the first `k` slots: each short codeword marks all indices it begins. */
  function FastTable(lens: seq<nat>, words: seq<nat>, k: nat): (t: seq<int>)
    requires k <= |lens| && k <= |words|
    ensures |t| == FAST_SIZE
  {
    if k == 0 then seq(FAST_SIZE, _ => -1)
    else if lens[k - 1] <= FAST_LENGTH then Mark(FastTable(lens, words, k - 1), words[k - 1], lens[k - 1], k - 1)
    else FastTable(lens, words, k - 1)
  }

  ghost predicate ShortMatch(lens: seq<nat>, words: seq<nat>, i: int, z: nat) {
    0 <= i < |lens| && i < |words| && lens[i] <= FAST_LENGTH && Low(z, lens[i]) == words[i]
  }

  /** An entry of the fast table names a short codeword that begins the index, if there is any. */
  lemma {:induction false} FastTableEntry(lens: seq<nat>, words: seq<nat>, k: nat, z: nat)
    requires k <= |lens| && k <= |words| && z < FAST_SIZE
    ensures var i := FastTable(lens, words, k)[z];
            (i == -1 || (0 <= i < k && ShortMatch(lens, words, i, z))) &&
            (i == -1 ==> forall j :: 0 <= j < k ==> !ShortMatch(lens, words, j, z))
  {
    if k > 0 { FastTableEntry(lens, words, k - 1, z); }
  }

  // ---------------------------------------------------------------- the sorted table

  /** `include_in_sort`; a sparse codebook asks only about coded entries. */
  predicate IncludeInSort(sparse: bool, len: nat) {
    if sparse then true else if len == NO_CODE then false else len > FAST_LENGTH
  }

  predicate Included(lens: seq<nat>, sparse: bool, e: int) {
    0 <= e < |lens| && lens[e] != NO_CODE && IncludeInSort(sparse, lens[e])
  }

  /** The entries that the sorted table holds, in order. */
  function IncludedEntries(lens: seq<nat>, sparse: bool, k: nat): (r: seq<nat>)
    requires k <= |lens|
    ensures |r| <= k
    ensures forall t :: 0 <= t < |r| ==> r[t] < k && Included(lens, sparse, r[t])
  {
    if k == 0 then [] else
    IncludedEntries(lens, sparse, k - 1) + if Included(lens, sparse, k - 1) then [k - 1] else []
  }

  lemma {:induction false} IncludedEntriesComplete(lens: seq<nat>, sparse: bool, k: nat, e: nat) returns (t: nat)
    requires e < k <= |lens| && Included(lens, sparse, e)
    ensures t < |IncludedEntries(lens, sparse, k)| && IncludedEntries(lens, sparse, k)[t] == e
  {
    if e == k - 1 {
      t := |IncludedEntries(lens, sparse, k - 1)|;
    } else {
      t := IncludedEntriesComplete(lens, sparse, k - 1, e);
    }
  }

  lemma {:induction false} IncludedEntriesIncrease(lens: seq<nat>, sparse: bool, k: nat, s: nat, t: nat)
    requires k <= |lens| && s < t < |IncludedEntries(lens, sparse, k)|
    ensures IncludedEntries(lens, sparse, k)[s] < IncludedEntries(lens, sparse, k)[t]
  {
    if t < |IncludedEntries(lens, sparse, k - 1)| { IncludedEntriesIncrease(lens, sparse, k - 1, s, t); }
  }

  ghost predicate Sorted(s: seq<nat>) {
    forall i, j :: 0 <= i < j < |s| ==> s[i] <= s[j]
  }

  ghost predicate Increasing(s: seq<nat>) {
    forall i, j :: 0 <= i < j < |s| ==> s[i] < s[j]
  }

  /** `table[x]` is the codeword of entry `values[x]`, in increasing order, for every included entry. */
  ghost predicate SortedTable(lens: seq<nat>, codes: seq<nat>, sparse: bool, table: seq<nat>, values: seq<int>)
    requires |codes| == |lens|
  {
    |values| == |table| && Increasing(table) &&
    (forall x :: 0 <= x < |table| ==> Included(lens, sparse, values[x]) && codes[values[x]] == table[x]) &&
    (forall e :: Included(lens, sparse, e) ==> codes[e] in table)
  }

  /** The binary search that the table construction and the decoder share. */
  function Search(table: seq<nat>, code: nat, x: nat, n: nat): (r: nat)
    requires n >= 1 && x + n <= |table|
    ensures x <= r < x + n
    decreases n
  {
    if n <= 1 then x
    else
      var m := x + n / 2;
      if table[m] <= code then Search(table, code, m, n - n / 2) else Search(table, code, x, n / 2)
  }

  lemma SearchUnfold(table: seq<nat>, code: nat, x: nat, n: nat)
    requires n >= 1 && x + n <= |table|
    ensures Search(table, code, x, n) ==
            if n == 1 then x
            else if table[x + n / 2] <= code then Search(table, code, x + n / 2, n - n / 2)
            else Search(table, code, x, n / 2)
  {}

  lemma NotAbove(table: seq<nat>, i: nat, j: nat)
    requires Increasing(table) && i <= j < |table|
    ensures table[i] <= table[j]
  {}

  lemma {:induction false} SearchFinds(table: seq<nat>, code: nat, x: nat, n: nat, p: nat)
    requires n >= 1 && x + n <= |table| && Increasing(table)
    requires x <= p < x + n && table[p] <= code
    requires p + 1 < |table| ==> code < table[p + 1]
    ensures Search(table, code, x, n) == p
    decreases n
  {
    hide Increasing, Search;
    SearchUnfold(table, code, x, n);
    if n > 1 {
      var m := x + n / 2;
      if table[m] <= code {
        if p < m { NotAbove(table, p + 1, m); }
        SearchFinds(table, code, m, n - n / 2, p);
      } else {
        if m <= p { NotAbove(table, m, p); }
        SearchFinds(table, code, x, n / 2, p);
      }
    }
  }

  /** Searching for bits that begin with an included codeword finds its place in the table. */
  lemma SearchDecodes(lens: seq<nat>, codes: seq<nat>, sparse: bool, table: seq<nat>, values: seq<int>, e: nat, acc: nat)
    requires ValidBook(lens, codes) && SortedTable(lens, codes, sparse, table, values)
    requires Included(lens, sparse, e) && Begins(lens, codes, e, acc) && acc < WORD
    ensures |table| > 0 && values[Search(table, BitReverse(acc), 0, |table|)] == e
  {
    hide VorbisCodes, BitReverse, Begins, Search;
    var code := BitReverse(acc);
    BeginsInterval(lens, codes, e, acc);
    var p :| 0 <= p < |table| && table[p] == codes[e];
    CodesDistinct(lens, codes, e, values[p]);
    if p + 1 < |table| {
      NextIsAbove(lens, codes, e, values[p + 1], acc);
    }
    SearchFinds(table, code, 0, |table|, p);
  }

  lemma NextIsAbove(lens: seq<nat>, codes: seq<nat>, e: nat, d: nat, acc: nat)
    requires ValidBook(lens, codes) && acc < WORD
    requires Begins(lens, codes, e, acc) && Coded(lens, d) && codes[e] < codes[d]
    ensures BitReverse(acc) < codes[d]
  {
    hide VorbisCodes, BitReverse;
    BeginsInterval(lens, codes, e, acc);
    if d < e { PrefixFree(lens, codes, d, e); } else { PrefixFree(lens, codes, e, d); }
  }
}
