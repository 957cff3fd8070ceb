/** The codebook of a Vorbis stream, in place: its tables, and `compute_codewords`.

    The tables hold the codewords with their bits reversed, at the entry itself or, in a sparse
    codebook, at the number of the coded entry.
 */
module Codebooks {
  import opened Bits
  import opened Codewords
  import opened HuffmanTables
  import opened Wrappers

  /** The indices of the coded entries among the first `k`, in order. */
  function CodedIndices(lens: seq<nat>, k: nat): (r: seq<nat>)
    requires k <= |lens|
    ensures |r| <= k
    ensures forall t :: 0 <= t < |r| ==> r[t] < k && lens[r[t]] != NO_CODE
  {
    if k == 0 then [] else
    CodedIndices(lens, k - 1) + if lens[k - 1] == NO_CODE then [] else [k - 1]
  }

  /** The arrays that `compute_codewords` fills; the last two only in a sparse codebook. */
  datatype Tables = Tables(codewords: seq<nat>, codewordLengths: seq<nat>, values: seq<nat>)

  /** `add_entry` on values. */
  function StoreEntry(t: Tables, sparse: bool, huffCode: nat, symbol: nat, count: nat, len: nat): Tables
    requires (if sparse then count else symbol) < |t.codewords|
    requires sparse ==> count < |t.codewordLengths| && count < |t.values|
  {
    if sparse then
      Tables(t.codewords[count := huffCode], t.codewordLengths[count := len], t.values[count := symbol])
    else t.(codewords := t.codewords[symbol := huffCode])
  }

  /** The tables are large enough for the coded entries of `lens`. */
  ghost predicate Roomy(lens: seq<nat>, sparse: bool, t: Tables) {
    if sparse then
      var m := |CodedIndices(lens, |lens|)|;
      m <= |t.codewords| && m <= |t.codewordLengths| && m <= |t.values|
    else |t.codewords| == |lens|
  }

  /** Codewords as they are stored: with the bit that is read first in the lowest place. */
  function Words(codes: seq<nat>): (w: seq<nat>)
    ensures |w| == |codes|
    ensures forall i :: 0 <= i < |codes| ==> w[i] == BitReverse(codes[i])
  {
    seq(|codes|, i requires 0 <= i < |codes| => BitReverse(codes[i]))
  }

  lemma WordsNext(codes: seq<nat>, code: nat)
    ensures Words(codes + [code]) == Words(codes) + [BitReverse(code)]
  {}

  /** The tables hold the codewords `words` of the first `|words|` entries. */
  ghost predicate Stored(lens: seq<nat>, sparse: bool, words: seq<nat>, t: Tables) {
    |words| <= |lens| && Roomy(lens, sparse, t) &&
    if sparse then
      var indices := CodedIndices(lens, |words|);
      |indices| <= |t.values| && t.values[..|indices|] == indices &&
      forall k :: 0 <= k < |indices| ==> StoredAt(lens, words, t, k, indices[k])
    else
      forall i :: 0 <= i < |words| && lens[i] != NO_CODE ==> t.codewords[i] == words[i]
  }

  ghost predicate StoredAt(lens: seq<nat>, words: seq<nat>, t: Tables, k: nat, i: nat) {
    k < |t.codewords| && k < |t.codewordLengths| && i < |words| && i < |lens| &&
    t.codewords[k] == words[i] && t.codewordLengths[k] == lens[i]
  }

  lemma NothingStored(lens: seq<nat>, sparse: bool, t: Tables)
    requires ValidLengths(lens) && Roomy(lens, sparse, t)
    ensures Stored(lens, sparse, [], t) && CodedIndices(lens, 0) == []
    ensures Assign(lens, 0) == Some(Build([], NoLeaves(), false)) && Words([]) == []
  {}

  lemma IndicesNext(lens: seq<nat>, k: nat)
    requires k < |lens|
    ensures CodedIndices(lens, k + 1) == CodedIndices(lens, k) + if lens[k] == NO_CODE then [] else [k]
  {}

  lemma StoredLonger(lens: seq<nat>, words: seq<nat>, word: nat, t: Tables, k: nat, i: nat)
    requires StoredAt(lens, words, t, k, i)
    ensures StoredAt(lens, words + [word], t, k, i)
  {}

  /** Storing an entry behind the stored ones changes none of them. */
  lemma StoredElsewhere(lens: seq<nat>, words: seq<nat>, word: nat, t: Tables, m: nat, len: nat, j: nat, i: nat)
    requires StoredAt(lens, words, t, j, i) && j < m
    requires m < |t.codewords| && m < |t.codewordLengths| && m < |t.values|
    ensures StoredAt(lens, words + [word], StoreEntry(t, true, word, |words|, m, len), j, i)
  {}

  lemma StoredHere(lens: seq<nat>, words: seq<nat>, word: nat, t: Tables, m: nat)
    requires m < |t.codewords| && m < |t.codewordLengths| && m < |t.values| && |words| < |lens|
    ensures StoredAt(lens, words + [word], StoreEntry(t, true, word, |words|, m, lens[|words|]), m, |words|)
  {}

  lemma StoredNext(lens: seq<nat>, sparse: bool, words: seq<nat>, word: nat, t: Tables)
    requires Stored(lens, sparse, words, t) && |words| < |lens| && lens[|words|] != NO_CODE
    ensures var k, m := |words|, |CodedIndices(lens, |words|)|;
            (if sparse then m < |t.codewords| && m < |t.codewordLengths| && m < |t.values| else k < |t.codewords|) &&
            Stored(lens, sparse, words + [word], StoreEntry(t, sparse, word, k, m, lens[k]))
    ensures |CodedIndices(lens, |words| + 1)| == |CodedIndices(lens, |words|)| + 1
  {
    hide CodedIndices, StoredAt;
    var k := |words|;
    var a, b := CodedIndices(lens, k), CodedIndices(lens, k + 1);
    IndicesNext(lens, k);
    if sparse {
      CodedIndicesGrow(lens, k + 1, |lens|);
      var t' := StoreEntry(t, sparse, word, k, |a|, lens[k]);
      assert t'.values[..|b|] == t.values[..|a|] + [k];
      forall j | 0 <= j < |b|
        ensures StoredAt(lens, words + [word], t', j, b[j])
      {
        if j < |a| {
          assert b[j] == a[j];
          StoredElsewhere(lens, words, word, t, |a|, lens[k], j, a[j]);
        } else {
          StoredHere(lens, words, word, t, |a|);
        }
      }
    }
  }

  lemma StoredSkip(lens: seq<nat>, sparse: bool, words: seq<nat>, word: nat, t: Tables)
    requires Stored(lens, sparse, words, t) && |words| < |lens| && lens[|words|] == NO_CODE
    ensures Stored(lens, sparse, words + [word], t)
    ensures CodedIndices(lens, |words| + 1) == CodedIndices(lens, |words|)
  {
    hide CodedIndices, StoredAt;
    var a := CodedIndices(lens, |words|);
    IndicesNext(lens, |words|);
    assert CodedIndices(lens, |words| + 1) == a;
    if sparse {
      forall j | 0 <= j < |a|
        ensures StoredAt(lens, words + [word], t, j, a[j])
      {
        StoredLonger(lens, words, word, t, j, a[j]);
      }
    }
  }

  lemma {:induction false} CodedIndicesGrow(lens: seq<nat>, j: nat, k: nat)
    requires j <= k <= |lens|
    ensures CodedIndices(lens, j) <= CodedIndices(lens, k)
  {
    if j < k { CodedIndicesGrow(lens, j, k - 1); }
  }

  lemma {:induction false} AssignStops(lens: seq<nat>, j: nat, k: nat)
    requires ValidLengths(lens) && j <= k <= |lens| && Assign(lens, j).None?
    ensures Assign(lens, k).None?
  {
    if j < k { AssignStops(lens, j, k - 1); }
  }

  class Codebook {
    var entries: nat
    var sparse: bool
    var sortedEntries: nat
    var codewordLengths: array<nat>
    var codewords: array?<nat>
    var fastHuffman: array<int>
    var sortedCodewords: array?<nat>
    var sortedValues: array?<int>

    constructor (entries: nat, sparse: bool, sortedEntries: nat, codewordLengths: array<nat>)
      ensures this.entries == entries && this.sparse == sparse && this.sortedEntries == sortedEntries
      ensures this.codewordLengths == codewordLengths
      ensures codewords == null && sortedCodewords == null && sortedValues == null
      ensures fresh(fastHuffman) && fastHuffman.Length == FAST_SIZE
    {
      this.entries, this.sparse, this.sortedEntries := entries, sparse, sortedEntries;
      this.codewordLengths := codewordLengths;
      codewords, sortedCodewords, sortedValues := null, null, null;
      fastHuffman := new int[FAST_SIZE];
    }

    /** The arrays that `compute_codewords` fills have the sizes and are as distinct as the caller makes them. */
    ghost predicate Allocated(len: array<nat>, values: array?<nat>)
      reads this
    {
      codewords != null && codewords != len &&
      (sparse ==>
        values != null && values != len && values != codewords &&
        codewordLengths != len && codewordLengths != codewords && codewordLengths != values)
    }

    ghost function View(values: array?<nat>): Tables
      requires codewords != null && (sparse ==> values != null)
      reads this, codewords, codewordLengths, values
    {
      if sparse then Tables(codewords[..], codewordLengths[..], values[..]) else Tables(codewords[..], [], [])
    }

    /** `add_entry`: store the codeword of `symbol`, the `count`-th coded entry. */
    method AddEntry(huffCode: nat, symbol: nat, count: nat, len: nat, lengths: array<nat>, values: array?<nat>)
      requires Allocated(lengths, values)
      requires (if sparse then count else symbol) < codewords.Length
      requires sparse ==> count < codewordLengths.Length && count < values.Length
      modifies codewords, if sparse then {codewordLengths, values} else {}
      ensures View(values) == StoreEntry(old(View(values)), sparse, huffCode, symbol, count, len)
    {
      if !sparse {
        codewords[symbol] := huffCode;
      } else {
        codewords[count] := huffCode;
        codewordLengths[count] := len;
        values[count] := symbol;
      }
    }
  }

  /** The search for a free leaf: up from depth `len` to the first filled slot. */
  method FindLeaf(available: array<nat>, len: nat) returns (z: nat)
    requires available.Length == 32 && len <= 31
    ensures z == Deepest(available[..], len)
  {
    z := len;
    while z > 0 && available[z] == 0
      invariant z <= len
      invariant Deepest(available[..], len) == Deepest(available[..], z)
    {
      z := z - 1;
    }
  }

  /** Take leaf `z` and make the right siblings below it available. */
  method CutLeaf(available: array<nat>, z: nat, len: nat) returns (res: nat)
    requires available.Length == 32 && z <= len <= 31
    requires forall y :: z < y <= len ==> available[y] == 0
    modifies available
    ensures res == old(available[z])
    ensures available[..] == Cut(old(available[..]), z, len)
  {
    res := available[z];
    available[z] := 0;
    if z != len {
      var y := len;
      while y > z
        invariant z <= y <= len
        invariant available[z] == 0
        invariant forall x :: y < x <= len ==> available[x] == res + Pow2(32 - x)
        invariant forall x :: 0 <= x < 32 && x != z && !(y < x <= len) ==> available[x] == old(available[x])
      {
        available[y] := res + Pow2(32 - y);
        y := y - 1;
      }
    }
  }

  /** The leaves left over by the first codeword. */
  method InitLeaves(available: array<nat>, len: nat)
    requires available.Length == 32 && 1 <= len <= 31
    requires forall y :: 0 <= y < 32 ==> available[y] == 0
    modifies available
    ensures available[..] == FirstLeaves(len)
  {
    for i := 1 to len + 1
      invariant forall y :: 0 <= y < 32 ==> available[y] == if 1 <= y < i then Pow2(32 - y) else 0
    {
      available[i] := Pow2(32 - i);
    }
  }

  /** One turn of the main loop of `compute_codewords`, for a coded entry: entry `i` gets the
      deepest free leaf at or above its depth; 0 means that there is none. */
  method PlaceEntry(c: Codebook, len: array<nat>, values: array?<nat>, available: array<nat>, i: nat, m: nat, ghost words: seq<nat>)
    returns (z: nat, res: nat)
    requires c.Allocated(len, values) && available.Length == 32
    requires available !in {len, c.codewords, c.codewordLengths} && available != values
    requires i == |words| < len.Length && 1 <= len[i] <= 31
    requires Stored(len[..], c.sparse, words, c.View(values)) && m == |CodedIndices(len[..], i)|
    modifies available, c.codewords, if c.sparse then {c.codewordLengths, values} else {}
    ensures len[..] == old(len[..])
    ensures z == Deepest(old(available[..]), len[i])
    ensures z > 0 ==> res == old(available[z]) && available[..] == Cut(old(available[..]), z, len[i])
    ensures z > 0 ==> Stored(len[..], c.sparse, words + [BitReverse(res)], c.View(values))
    ensures z > 0 ==> m + 1 == |CodedIndices(len[..], i + 1)|
  {
    hide BitReverse, Deepest, Cut;
    z := FindLeaf(available, len[i]);
    if z == 0 { return 0, 0; }
    res := CutLeaf(available, z, len[i]);
    var huffCode := BitReverse(res);
    StoredNext(len[..], c.sparse, words, huffCode, c.View(values));
    c.AddEntry(huffCode, i, m, len[i], len, values);
  }

  lemma AssignSkip(lens: seq<nat>, i: nat, b: Build)
    requires ValidLengths(lens) && i < |lens| && Assign(lens, i) == Some(b) && lens[i] == NO_CODE
    ensures Assign(lens, i + 1) == Some(b.(codes := b.codes + [0]))
    ensures Words(b.codes + [0]) == Words(b.codes) + [BitReverse(0)]
  {
    WordsNext(b.codes, 0);
  }

  lemma AssignPlace(lens: seq<nat>, i: nat, b: Build, z: nat)
    requires ValidLengths(lens) && i < |lens| && Assign(lens, i) == Some(b) && b.started && 1 <= lens[i] <= 31
    requires z == Deepest(b.avail, lens[i])
    ensures z > 0 ==> Assign(lens, i + 1) == Some(Build(b.codes + [b.avail[z]], Cut(b.avail, z, lens[i]), true))
    ensures z > 0 ==> Words(b.codes + [b.avail[z]]) == Words(b.codes) + [BitReverse(b.avail[z])]
    ensures z == 0 ==> Assign(lens, |lens|).None?
  {
    if z == 0 {
      AssignStops(lens, i + 1, |lens|);
    } else {
      WordsNext(b.codes, b.avail[z]);
    }
  }

  /** After `k` entries, of which one is coded: the words stored so far and the slots. */
  ghost predicate Started(lens: seq<nat>, k: nat, words: seq<nat>, available: seq<nat>)
    requires ValidLengths(lens) && k <= |lens|
  {
    var b := Assign(lens, k);
    b.Some? && b.value.started && b.value.avail == available && words == Words(b.value.codes)
  }

  /** The main loop of `compute_codewords`, from entry `k`. */
  method ComputeRest(c: Codebook, len: array<nat>, values: array?<nat>, available: array<nat>, k: nat, m0: nat, ghost words0: seq<nat>)
    returns (ok: bool)
    requires c.Allocated(len, values) && available.Length == 32
    requires available !in {len, c.codewords, c.codewordLengths} && available != values
    requires ValidLengths(len[..]) && k <= len.Length && m0 == |CodedIndices(len[..], k)|
    requires Started(len[..], k, words0, available[..]) && Stored(len[..], c.sparse, words0, c.View(values))
    modifies available, c.codewords, if c.sparse then {c.codewordLengths, values} else {}
    ensures len[..] == old(len[..])
    ensures ok <==> Assign(len[..], len.Length).Some?
    ensures ok ==> Stored(len[..], c.sparse, Words(Assign(len[..], len.Length).value.codes), c.View(values))
  {
    hide Stored, Deepest, Cut, Place, Assign, Words, CodedIndices, BitReverse;
    ghost var lens := len[..];
    ghost var b := Assign(lens, k).value;
    ghost var words := words0;
    var m := m0;
    for i := k to len.Length
      invariant len[..] == lens && m == |CodedIndices(lens, i)|
      invariant Assign(lens, i) == Some(b) && b.started && b.avail == available[..]
      invariant |b.codes| == |words| == i && words == Words(b.codes)
      invariant Stored(lens, c.sparse, words, c.View(values))
    {
      if len[i] == NO_CODE {
        StoredSkip(lens, c.sparse, words, BitReverse(0), c.View(values));
        AssignSkip(lens, i, b);
        b, words := b.(codes := b.codes + [0]), words + [BitReverse(0)];
      } else {
        var z, res := PlaceEntry(c, len, values, available, i, m, words);
        AssignPlace(lens, i, b, z);
        if z == 0 { return false; }
        b, words := Build(b.codes + [res], available[..], true), words + [BitReverse(res)];
        m := m + 1;
      }
    }
    return true;
  }

  /** `compute_codewords`.  `values` is used only by sparse codebooks. */
  method ComputeCodewords(c: Codebook, len: array<nat>, values: array?<nat>) returns (ok: bool)
    requires ValidLengths(len[..]) && c.Allocated(len, values)
    requires Roomy(len[..], c.sparse, c.View(values))
    modifies c.codewords, if c.sparse then {c.codewordLengths, values} else {}
    ensures len[..] == old(len[..])
    ensures ok <==> KraftSum(len[..], len.Length) <= WORD
    ensures ok ==> Assign(len[..], len.Length).Some?
    ensures ok ==> Stored(len[..], c.sparse, Words(Assign(len[..], len.Length).value.codes), c.View(values))
  {
    hide Stored, Roomy, Assign, Place, Words, KraftSum, BitReverse, CodedIndices, Started;
    var n := len.Length;
    ghost var lens, words := len[..], [];
    AssignIffKraft(lens);
    NothingStored(lens, c.sparse, c.View(values));
    // leading entries without a codeword
    var k := 0;
    while k < n && len[k] == NO_CODE
      invariant k <= n && |words| == k && CodedIndices(lens, k) == []
      invariant Assign(lens, k).Some? && !Assign(lens, k).value.started && words == Words(Assign(lens, k).value.codes)
      invariant Stored(lens, c.sparse, words, c.View(values))
    {
      AssignSkip(lens, k, Assign(lens, k).value);
      StoredSkip(lens, c.sparse, words, BitReverse(0), c.View(values));
      words := words + [BitReverse(0)];
      k := k + 1;
    }
    if k == n { return true; }
    var available := new nat[32](_ => 0);
    PlaceFirst(c, len, values, available, k, words);
    ok := ComputeRest(c, len, values, available, k + 1, 1, words + [BitReverse(0)]);
  }

  lemma AssignFirst(lens: seq<nat>, k: nat, b: Build)
    requires ValidLengths(lens) && k < |lens| && lens[k] != NO_CODE
    requires Assign(lens, k) == Some(b) && !b.started && CodedIndices(lens, k) == []
    ensures BitReverse(0) == 0 && Words(b.codes + [0]) == Words(b.codes) + [0]
    ensures Assign(lens, k + 1) == Some(Build(b.codes + [0], FirstLeaves(lens[k]), true))
    ensures |CodedIndices(lens, k + 1)| == 1
  {
    RevZero(32);
    WordsNext(b.codes, 0);
  }

  /** The first coded entry gets the codeword 0. */
  method PlaceFirst(c: Codebook, len: array<nat>, values: array?<nat>, available: array<nat>, k: nat, ghost words: seq<nat>)
    requires c.Allocated(len, values) && available.Length == 32 && forall y :: 0 <= y < 32 ==> available[y] == 0
    requires available !in {len, c.codewords, c.codewordLengths} && available != values
    requires ValidLengths(len[..]) && k == |words| < len.Length && len[k] != NO_CODE && CodedIndices(len[..], k) == []
    requires Assign(len[..], k).Some? && !Assign(len[..], k).value.started && words == Words(Assign(len[..], k).value.codes)
    requires Stored(len[..], c.sparse, words, c.View(values))
    modifies available, c.codewords, if c.sparse then {c.codewordLengths, values} else {}
    ensures len[..] == old(len[..])
    ensures Started(len[..], k + 1, words + [BitReverse(0)], available[..])
    ensures Stored(len[..], c.sparse, words + [BitReverse(0)], c.View(values)) && |CodedIndices(len[..], k + 1)| == 1
  {
    hide Stored, Words, BitReverse, FirstLeaves, Assign, CodedIndices;
    AssignFirst(len[..], k, Assign(len[..], k).value);
    StoredNext(len[..], c.sparse, words, 0, c.View(values));
    c.AddEntry(0, k, 0, len[k], len, values);
    InitLeaves(available, len[k]);
  }
}
