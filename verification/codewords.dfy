/** Huffman codewords for unsorted lengths. */
module Codewords {
  import opened Bits
  import opened Wrappers

  // Section 3.2.1 of the Vorbis I specification.  A codeword of length `len` is a node of the binary
  // tree of depth `len`.  It is kept as a 32-bit number whose top `len` bits are the path from the
  // root, so that it owns the interval of `Span(len)` numbers that start with that path.  Each entry
  // must get the lowest valued node of its length that no earlier entry has used.  The program finds
  // that node with one slot of free leaves per level; this module proves that it always does.

  const NO_CODE: nat := 255

  predicate ValidLengths(lens: seq<nat>) {
    forall i :: 0 <= i < |lens| ==> lens[i] == NO_CODE || 1 <= lens[i] <= 31
  }

  /** How many 32-bit numbers start with a given path of length `len`. */
  function Span(len: nat): (s: nat)
    requires len <= 32
    ensures s >= 1
  {
    Pow2(32 - len)
  }

  /** `v` is the number of a node of depth `len`: all bits below the path are zero. */
  ghost predicate IsNode(v: nat, len: nat)
    requires len <= 32
  {
    Low(v, 32 - len) == 0 && v + Span(len) <= WORD
  }

  /** Neither node is above, below or equal to the other. */
  ghost predicate Apart(v: nat, len: nat, u: nat, len': nat)
    requires len <= 32 && len' <= 32
  {
    v + Span(len) <= u || u + Span(len') <= v
  }

  ghost predicate Coded(lens: seq<nat>, j: int) {
    0 <= j < |lens| && 1 <= lens[j] <= 31
  }

  /** `v` is a node of the length of entry `i` that no entry before `i` uses, wholly or in part. */
  ghost predicate Unused(lens: seq<nat>, codes: seq<nat>, i: nat, v: nat)
    requires Coded(lens, i) && i <= |codes|
  {
    IsNode(v, lens[i]) &&
    forall j :: 0 <= j < i && Coded(lens, j) ==> Apart(codes[j], lens[j], v, lens[i])
  }

  /** What the specification asks of entry `i`: the lowest valued unused node of its length. */
  ghost predicate LowestUnused(lens: seq<nat>, codes: seq<nat>, i: nat)
    requires Coded(lens, i) && i < |codes|
  {
    Unused(lens, codes, i, codes[i]) &&
    forall v :: Unused(lens, codes, i, v) ==> codes[i] <= v
  }

  /** `codes` is the assignment that the specification asks for, on the first `|codes|` entries. */
  ghost predicate VorbisCodes(lens: seq<nat>, codes: seq<nat>) {
    |codes| <= |lens| &&
    forall i :: 0 <= i < |codes| && Coded(lens, i) ==> LowestUnused(lens, codes, i)
  }

  /** Kraft's sum, scaled by 2^32, of the first `k` entries. */
  function KraftSum(lens: seq<nat>, k: nat): nat
    requires k <= |lens|
  {
    if k == 0 then 0 else KraftSum(lens, k - 1) + if 1 <= lens[k - 1] <= 31 then Span(lens[k - 1]) else 0
  }

  // ---------------------------------------------------------------- the algorithm on values

  /** The free leaves, one slot per depth; 0 marks an empty slot. */
  type Leaves = s: seq<nat> | |s| == 32 witness seq(32, i => 0)

  function NoLeaves(): Leaves { seq(32, i => 0) }

  /** The leaves that remain when the first codeword, of length `len`, takes the node 0. */
  function FirstLeaves(len: nat): Leaves {
    seq(32, y requires 0 <= y < 32 => if 1 <= y <= len then Pow2(32 - y) else 0)
  }

  /** The depth of the deepest free leaf at or above depth `z`, 0 if there is none. */
  function Deepest(avail: Leaves, z: nat): (r: nat)
    requires z <= 31
    ensures r <= z
    ensures r > 0 ==> avail[r] != 0
    ensures forall y :: r < y <= z ==> avail[y] == 0
  {
    if z > 0 && avail[z] == 0 then Deepest(avail, z - 1) else z
  }

  /** Leaf `z` is cut down to its leftmost node of depth `len`; the right siblings become free. */
  function Cut(avail: Leaves, z: nat, len: nat): Leaves
    requires z <= 31
  {
    seq(32, y requires 0 <= y < 32 =>
      if y == z then 0 else if z < y <= len then avail[z] + Pow2(32 - y) else avail[y])
  }

  datatype Build = Build(codes: seq<nat>, avail: Leaves, started: bool)

  /** One turn of the main loop: the state after an entry of length `len`. */
  function Place(b: Build, len: nat): Option<Build>
    requires len == NO_CODE || 1 <= len <= 31
  {
    if len == NO_CODE then Some(b.(codes := b.codes + [0]))
    else if !b.started then Some(Build(b.codes + [0], FirstLeaves(len), true))
    else
      var z := Deepest(b.avail, len);
      if z == 0 then None
      else Some(Build(b.codes + [b.avail[z]], Cut(b.avail, z, len), true))
  }

  /** The state after the first `k` entries, or `None` if some entry found no free leaf. */
  function Assign(lens: seq<nat>, k: nat): (r: Option<Build>)
    requires k <= |lens| && ValidLengths(lens)
    ensures r.Some? ==> |r.value.codes| == k
  {
    if k == 0 then Some(Build([], NoLeaves(), false))
    else
      var b := Assign(lens, k - 1);
      if b.None? then None else Place(b.value, lens[k - 1])
  }

  // ---------------------------------------------------------------- arithmetic of nodes

  lemma SpanDouble(len: nat)
    requires 0 < len <= 32
    ensures Span(len - 1) == 2 * Span(len)
  {}

  lemma SpanOrder(a: nat, b: nat)
    requires a <= b <= 32
    ensures Span(b) <= Span(a)
    ensures a < b ==> 2 * Span(b) <= Span(a)
  {
    Pow2Mono(32 - b, 32 - a);
  }

  /** A node is also a node of every greater depth: its own leftmost descendant. */
  lemma NodeDescends(v: nat, a: nat, b: nat)
    requires a <= b <= 32 && IsNode(v, a)
    ensures IsNode(v, b)
  {
    LowLow(v, 32 - a, 32 - b);
    RevZeroLow(32 - b);
    SpanOrder(a, b);
  }

  lemma {:induction false} RevZeroLow(n: nat)
    ensures Low(0, n) == 0
  {
    if n > 0 { RevZeroLow(n - 1); }
  }

  /** The right sibling on the leftmost path below a node. */
  lemma RightSibling(v: nat, a: nat, b: nat)
    requires a < b <= 32 && IsNode(v, a)
    ensures IsNode(v + Span(b), b)
    ensures v + 2 * Span(b) <= v + Span(a)
  {
    hide Low, Shl, Shr;
    NodeDescends(v, a, b);
    SpanOrder(a, b);
    LowHigh(v, 32 - b);
    ShlAdd(Shr(v, 32 - b), 1, 32 - b);
    LowHighUnique(0, Shr(v, 32 - b) + 1, 32 - b);
  }

  lemma {:induction false} AlignedNest(a: nat, n: nat, v: nat, m: nat, p: nat)
    requires m <= n
    requires Low(a, n) == 0 && Low(v, m) == 0
    requires a <= p < a + Pow2(n) && v <= p < v + Pow2(m)
    ensures a <= v && v + Pow2(m) <= a + Pow2(n)
    decreases m
  {
    if m > 0 {
      AlignedNest(a / 2, n - 1, v / 2, m - 1, p / 2);
    }
  }

  /** Two nodes that share a number are nested. */
  lemma NodesNest(a: nat, y: nat, v: nat, len: nat, p: nat)
    requires y <= len <= 32 && IsNode(a, y) && IsNode(v, len)
    requires a <= p < a + Span(y) && v <= p < v + Span(len)
    ensures a <= v && v + Span(len) <= a + Span(y)
  {
    AlignedNest(a, 32 - y, v, 32 - len, p);
  }

  // ---------------------------------------------------------------- the partition

  ghost predicate Taken(lens: seq<nat>, codes: seq<nat>, j: int, p: nat) {
    0 <= j < |codes| && Coded(lens, j) && codes[j] <= p < codes[j] + Span(lens[j])
  }

  ghost predicate InLeaf(avail: Leaves, y: int, p: nat) {
    0 <= y < 32 && avail[y] != 0 && avail[y] <= p < avail[y] + Span(y)
  }

  ghost predicate Covered(lens: seq<nat>, codes: seq<nat>, avail: Leaves, p: nat) {
    (exists j :: Taken(lens, codes, j, p)) || (exists y :: InLeaf(avail, y, p))
  }

  /** Every slot holds a node of its depth, and deeper leaves have smaller values. */
  ghost predicate LeavesOrdered(avail: Leaves) {
    avail[0] == 0 &&
    (forall y :: 0 < y < 32 && avail[y] != 0 ==> IsNode(avail[y], y)) &&
    (forall x, y :: 0 < x < y < 32 && avail[x] != 0 && avail[y] != 0 ==> avail[y] + Span(y) <= avail[x])
  }

  ghost predicate LeavesUnused(lens: seq<nat>, codes: seq<nat>, avail: Leaves) {
    forall j, y :: 0 <= j < |codes| && Coded(lens, j) && 0 < y < 32 && avail[y] != 0 ==>
      Apart(codes[j], lens[j], avail[y], y)
  }

  /** Assigned codewords and free leaves partition the 2^32 numbers. */
  ghost predicate Partition(lens: seq<nat>, codes: seq<nat>, avail: Leaves) {
    |codes| <= |lens| &&
    VorbisCodes(lens, codes) &&
    LeavesOrdered(avail) &&
    LeavesUnused(lens, codes, avail) &&
    (forall p: nat :: p < WORD ==> Covered(lens, codes, avail, p)) &&
    KraftSum(lens, |codes|) + FreeSum(avail, 32) == WORD
  }

  /** The numbers in the free leaves of depth less than `n`. */
  ghost function FreeSum(avail: Leaves, n: nat): nat
    requires n <= 32
  {
    if n == 0 then 0 else FreeSum(avail, n - 1) + if avail[n - 1] != 0 then Span(n - 1) else 0
  }

  // ---------------------------------------------------------------- one step keeps the partition

  /** What is known when leaf `z` of `avail` is cut for an entry of length `len`. */
  ghost predicate CanCut(avail: Leaves, z: nat, len: nat) {
    LeavesOrdered(avail) && 1 <= z <= len <= 31 && avail[z] != 0 &&
    forall y :: z < y <= len ==> avail[y] == 0
  }

  lemma CutLeaf(avail: Leaves, z: nat, len: nat, y: nat)
    requires CanCut(avail, z, len) && 0 < y < 32 && Cut(avail, z, len)[y] != 0
    ensures y != z
    ensures IsNode(Cut(avail, z, len)[y], y)
    ensures z < y <= len ==> avail[z] + Span(len) <= Cut(avail, z, len)[y]
    ensures z < y <= len ==> Cut(avail, z, len)[y] + Span(y) <= avail[z] + Span(z)
    ensures !(z < y <= len) ==> Cut(avail, z, len)[y] == avail[y]
  {
    hide Low, Pow2;
    if z < y <= len {
      RightSibling(avail[z], z, y);
      SpanOrder(y, len);
    }
  }

  lemma CutKeepsPairs(avail: Leaves, z: nat, len: nat, x: nat, y: nat)
    requires CanCut(avail, z, len) && 0 < x < y < 32
    requires Cut(avail, z, len)[x] != 0 && Cut(avail, z, len)[y] != 0
    ensures Cut(avail, z, len)[y] + Span(y) <= Cut(avail, z, len)[x]
  {
    hide IsNode, Pow2;
    CutLeaf(avail, z, len, x);
    CutLeaf(avail, z, len, y);
    if z < x && y <= len { SpanOrder(x, y); }
  }

  lemma CutKeepsOrder(avail: Leaves, z: nat, len: nat)
    requires CanCut(avail, z, len)
    ensures LeavesOrdered(Cut(avail, z, len))
  {
    var a := Cut(avail, z, len);
    forall y | 0 < y < 32 && a[y] != 0
      ensures IsNode(a[y], y)
    {
      CutLeaf(avail, z, len, y);
    }
    forall x, y | 0 < x < y < 32 && a[x] != 0 && a[y] != 0
      ensures a[y] + Span(y) <= a[x]
    {
      CutKeepsPairs(avail, z, len, x, y);
    }
  }

  /** A leaf of the new list lies inside a leaf of the old one. */
  lemma CutInside(avail: Leaves, z: nat, len: nat, y: nat) returns (x: nat)
    requires CanCut(avail, z, len) && 0 < y < 32 && Cut(avail, z, len)[y] != 0
    ensures 0 < x < 32 && avail[x] != 0
    ensures avail[x] <= Cut(avail, z, len)[y] && Cut(avail, z, len)[y] + Span(y) <= avail[x] + Span(x)
  {
    CutLeaf(avail, z, len, y);
    x := if z < y <= len then z else y;
  }

  lemma CutKeepsUnused(lens: seq<nat>, codes: seq<nat>, avail: Leaves, z: nat, len: nat)
    requires |codes| < |lens| && lens[|codes|] == len
    requires CanCut(avail, z, len) && LeavesUnused(lens, codes, avail)
    ensures LeavesUnused(lens, codes + [avail[z]], Cut(avail, z, len))
  {
    hide IsNode, Pow2, Cut;
    var codes', a := codes + [avail[z]], Cut(avail, z, len);
    forall j, y | 0 <= j < |codes'| && Coded(lens, j) && 0 < y < 32 && a[y] != 0
      ensures Apart(codes'[j], lens[j], a[y], y)
    {
      if j < |codes| {
        var x := CutInside(avail, z, len, y);
        assert Apart(codes[j], lens[j], avail[x], x);
      } else {
        CutLeaf(avail, z, len, y);
        SpanOrder(z, len);
      }
    }
  }

  /** The new codeword and the new leaves tile the leaf that was cut. */
  lemma {:induction false} FindSlot(d: nat, z: nat, len: nat) returns (y: nat)
    requires z <= len <= 31
    requires Span(len) <= d < Span(z)
    ensures z < y <= len && Span(y) <= d < 2 * Span(y)
    decreases len
  {
    if d < 2 * Span(len) {
      y := len;
    } else {
      SpanDouble(len);
      y := FindSlot(d, z, len - 1);
    }
  }

  lemma CutAt(avail: Leaves, z: nat, len: nat, y: nat)
    requires z <= 31 && y < 32
    ensures Cut(avail, z, len)[y] == if y == z then 0 else if z < y <= len then avail[z] + Span(y) else avail[y]
  {}

  lemma CutKeepsCover(lens: seq<nat>, codes: seq<nat>, avail: Leaves, z: nat, len: nat, p: nat)
    requires |codes| < |lens| && lens[|codes|] == len
    requires CanCut(avail, z, len) && Covered(lens, codes, avail, p)
    ensures Covered(lens, codes + [avail[z]], Cut(avail, z, len), p)
  {
    hide Span, LeavesOrdered, Cut;
    var codes', a := codes + [avail[z]], Cut(avail, z, len);
    if j :| Taken(lens, codes, j, p) {
      assert Taken(lens, codes', j, p);
    } else {
      var y :| InLeaf(avail, y, p);
      CutAt(avail, z, len, y);
      if y != z {
        assert InLeaf(a, y, p);
      } else if p < avail[z] + Span(len) {
        assert Taken(lens, codes', |codes|, p);
      } else {
        var x := FindSlot(p - avail[z], z, len);
        CutAt(avail, z, len, x);
        assert InLeaf(a, x, p);
      }
    }
  }

  lemma {:induction false} FreeSumSame(a: Leaves, b: Leaves, n: nat)
    requires n <= 32 && forall y :: 0 <= y < n ==> a[y] == b[y]
    ensures FreeSum(a, n) == FreeSum(b, n)
  {
    if n > 0 { FreeSumSame(a, b, n - 1); }
  }

  lemma CutSlot(avail: Leaves, z: nat, len: nat, y: nat)
    requires CanCut(avail, z, len) && z < y < 32
    ensures y <= len ==> avail[y] == 0 && Cut(avail, z, len)[y] != 0
    ensures y > len ==> Cut(avail, z, len)[y] == avail[y]
  {
    hide IsNode, LeavesOrdered;
  }

  lemma {:induction false} CutFreeSum(avail: Leaves, z: nat, len: nat, n: nat)
    requires CanCut(avail, z, len) && z < n <= 32
    ensures FreeSum(Cut(avail, z, len), n) + Span(if n - 1 <= len then n - 1 else len) == FreeSum(avail, n)
    decreases n
  {
    hide Span, LeavesOrdered, Shl, Pow2;
    var a := Cut(avail, z, len);
    if n == z + 1 {
      FreeSumSame(a, avail, z);
      assert a[z] == 0;
    } else {
      CutFreeSum(avail, z, len, n - 1);
      CutSlot(avail, z, len, n - 1);
      if n - 1 <= len { SpanDouble(n - 1); }
    }
  }

  /** An unused node lies inside one of the free leaves at or above its depth: the free space
      below its depth is too small, and too ordered, to hold it. */
  lemma {:induction false} UnusedInLeaf(lens: seq<nat>, codes: seq<nat>, avail: Leaves, v: nat, d: nat) returns (y: nat)
    requires Partition(lens, codes, avail)
    requires 1 <= d <= 31 && IsNode(v, d)
    requires forall j :: 0 <= j < |codes| && Coded(lens, j) ==> Apart(codes[j], lens[j], v, d)
    ensures 1 <= y <= d && avail[y] != 0 && avail[y] <= v && v + Span(d) <= avail[y] + Span(y)
    decreases 31 - d
  {
    hide IsNode, Apart, Span, VorbisCodes, LeavesOrdered, LeavesUnused, Covered;
    if d == 31 {
      y := LeafOf(lens, codes, avail, v, d, v);
      LeafHolds(lens, codes, avail, y, v, d, v);
    } else {
      var w := v + Span(d + 1);
      ApartBelow(lens, codes, v, d);
      var y0 := UnusedInLeaf(lens, codes, avail, v, d + 1);
      var y1 := UnusedInLeaf(lens, codes, avail, w, d + 1);
      // one slot cannot hold both halves, so that one of the leaves is not below depth d
      if y0 <= d {
        y := y0;
        LeafHolds(lens, codes, avail, y, v, d, v);
      } else {
        y := y1;
        LeafHolds(lens, codes, avail, y, v, d, w);
      }
    }
  }

  /** What is apart from a node is apart from its two halves. */
  lemma ApartBelow(lens: seq<nat>, codes: seq<nat>, v: nat, d: nat)
    requires d < 31 && IsNode(v, d) && |codes| <= |lens|
    requires forall j :: 0 <= j < |codes| && Coded(lens, j) ==> Apart(codes[j], lens[j], v, d)
    ensures Span(d) == 2 * Span(d + 1) && Span(d + 1) > 0
    ensures IsNode(v, d + 1) && IsNode(v + Span(d + 1), d + 1)
    ensures forall j :: 0 <= j < |codes| && Coded(lens, j) ==>
              Apart(codes[j], lens[j], v, d + 1) && Apart(codes[j], lens[j], v + Span(d + 1), d + 1)
  {
    hide IsNode, Pow2;
    SpanDouble(d + 1);
    NodeDescends(v, d, d + 1);
    RightSibling(v, d, d + 1);
  }

  /** A leaf at or above the depth of a node that shares a number with it holds the node. */
  lemma LeafHolds(lens: seq<nat>, codes: seq<nat>, avail: Leaves, y: nat, v: nat, d: nat, p: nat)
    requires Partition(lens, codes, avail) && 0 < y <= d <= 31 && avail[y] != 0 && IsNode(v, d)
    requires avail[y] <= p < avail[y] + Span(y) && v <= p < v + Span(d)
    ensures avail[y] <= v && v + Span(d) <= avail[y] + Span(y)
  {
    hide IsNode, Pow2, VorbisCodes, LeavesUnused;
    NodesNest(avail[y], y, v, d, p);
  }

  lemma LeafOf(lens: seq<nat>, codes: seq<nat>, avail: Leaves, v: nat, d: nat, p: nat) returns (y: nat)
    requires Partition(lens, codes, avail)
    requires 1 <= d <= 31 && IsNode(v, d) && v <= p < v + Span(d)
    requires forall j :: 0 <= j < |codes| && Coded(lens, j) ==> Apart(codes[j], lens[j], v, d)
    ensures 1 <= y <= 31 && InLeaf(avail, y, p)
  {
    assert Covered(lens, codes, avail, p);
    forall j
      ensures !Taken(lens, codes, j, p)
    {
      assert 0 <= j < |codes| && Coded(lens, j) ==> Apart(codes[j], lens[j], v, d);
    }
    y :| InLeaf(avail, y, p);
  }

  /** The deepest free leaf at or above depth `len` starts with the lowest unused node. */
  lemma DeepestIsLowest(lens: seq<nat>, codes: seq<nat>, avail: Leaves, z: nat)
    requires |codes| < |lens| && Coded(lens, |codes|)
    requires Partition(lens, codes, avail)
    requires z == Deepest(avail, lens[|codes|]) && z > 0
    ensures LowestUnused(lens, codes + [avail[z]], |codes|)
  {
    var i, len, res := |codes|, lens[|codes|], avail[z];
    var codes' := codes + [res];
    NodeDescends(res, z, len);
    SpanOrder(z, len);
    forall j | 0 <= j < i && Coded(lens, j)
      ensures Apart(codes'[j], lens[j], res, len)
    {
      assert Apart(codes[j], lens[j], avail[z], z);
    }
    forall v | Unused(lens, codes', i, v)
      ensures res <= v
    {
      forall j | 0 <= j < |codes| && Coded(lens, j)
        ensures Apart(codes[j], lens[j], v, len)
      {
        assert codes'[j] == codes[j];
      }
      var y := UnusedInLeaf(lens, codes, avail, v, len);
    }
  }

  lemma VorbisCodesGrow(lens: seq<nat>, codes: seq<nat>, c: nat)
    requires VorbisCodes(lens, codes) && |codes| < |lens|
    requires Coded(lens, |codes|) ==> LowestUnused(lens, codes + [c], |codes|)
    ensures VorbisCodes(lens, codes + [c])
  {
    var codes' := codes + [c];
    forall i | 0 <= i < |codes'| && Coded(lens, i)
      ensures LowestUnused(lens, codes', i)
    {
      if i < |codes| {
        forall v: nat
          ensures Unused(lens, codes', i, v) <==> Unused(lens, codes, i, v)
        {
          assert forall j :: 0 <= j < i ==> codes'[j] == codes[j];
        }
      }
    }
  }

  /** Placing an entry keeps the partition, and gives the entry its lowest unused node. */
  lemma PlaceKeepsPartition(lens: seq<nat>, codes: seq<nat>, avail: Leaves)
    requires Partition(lens, codes, avail)
    requires |codes| < |lens| && Coded(lens, |codes|)
    requires Deepest(avail, lens[|codes|]) > 0
    ensures var z := Deepest(avail, lens[|codes|]);
            Partition(lens, codes + [avail[z]], Cut(avail, z, lens[|codes|]))
  {
    hide Shl, Pow2, Span, Cut, LeavesOrdered, Covered;
    var len := lens[|codes|];
    var z := Deepest(avail, len);
    var codes', a := codes + [avail[z]], Cut(avail, z, len);
    CutKeepsOrder(avail, z, len);
    CutKeepsUnused(lens, codes, avail, z, len);
    forall p: nat | p < WORD
      ensures Covered(lens, codes', a, p)
    {
      assert Covered(lens, codes, avail, p);
      CutKeepsCover(lens, codes, avail, z, len, p);
    }
    CutFreeSum(avail, z, len, 32);
    DeepestIsLowest(lens, codes, avail, z);
    VorbisCodesGrow(lens, codes, avail[z]);
  }

  // ---------------------------------------------------------------- whole runs

  lemma ZeroNode(len: nat)
    requires len <= 32
    ensures IsNode(0, len)
  {
    RevZeroLow(32 - len);
    Pow2Values();
    Pow2Mono(32 - len, 32);
  }

  lemma FirstLeaf(len: nat, y: nat)
    requires 0 < y <= len <= 31
    ensures IsNode(Span(y), y) && FirstLeaves(len)[y] == Span(y)
  {
    hide Shl, Low;
    ZeroNode(0);
    RightSibling(0, 0, y);
  }

  lemma FirstLeavesOrdered(len: nat)
    requires 1 <= len <= 31
    ensures LeavesOrdered(FirstLeaves(len))
  {
    hide Shl, Pow2, IsNode;
    var a := FirstLeaves(len);
    forall y | 0 < y < 32 && a[y] != 0
      ensures IsNode(a[y], y) && a[y] == Span(y)
    {
      FirstLeaf(len, y);
    }
    forall x, y | 0 < x < y < 32 && a[x] != 0 && a[y] != 0
      ensures a[y] + Span(y) <= a[x]
    {
      SpanOrder(x, y);
      FirstLeaf(len, x);
      FirstLeaf(len, y);
    }
  }

  lemma {:induction false} FirstFreeSum(len: nat, n: nat)
    requires 1 <= len <= 31 && 1 <= n <= 32
    ensures FreeSum(FirstLeaves(len), n) + Span(if n - 1 <= len then n - 1 else len) == WORD
  {
    hide Shl;
    var a := FirstLeaves(len);
    assert a[0] == 0;
    if n == 1 {
      Pow2Values();
      assert FreeSum(a, 0) == 0;
    } else {
      FirstFreeSum(len, n - 1);
      if n - 1 <= len { SpanDouble(n - 1); }
    }
  }

  lemma FirstCover(lens: seq<nat>, codes: seq<nat>, p: nat)
    requires |codes| < |lens| && Coded(lens, |codes|) && p < WORD
    ensures Covered(lens, codes + [0], FirstLeaves(lens[|codes|]), p)
  {
    hide Shl, Pow2;
    Pow2Values();
    var len := lens[|codes|];
    if p < Span(len) {
      assert Taken(lens, codes + [0], |codes|, p);
    } else {
      var y := FindSlot(p, 0, len);
      assert InLeaf(FirstLeaves(len), y, p);
    }
  }

  lemma {:induction false} KraftUncoded(lens: seq<nat>, k: nat)
    requires k <= |lens| && forall j :: 0 <= j < k ==> !Coded(lens, j)
    ensures KraftSum(lens, k) == 0
  {
    if k > 0 {
      KraftUncoded(lens, k - 1);
      assert !Coded(lens, k - 1);
    }
  }

  lemma FirstPartition(lens: seq<nat>, codes: seq<nat>)
    requires |codes| < |lens| && Coded(lens, |codes|)
    requires forall j :: 0 <= j < |codes| ==> !Coded(lens, j)
    ensures Partition(lens, codes + [0], FirstLeaves(lens[|codes|]))
  {
    hide Shl, Pow2, IsNode, LeavesOrdered, Covered;
    var len := lens[|codes|];
    var codes', a := codes + [0], FirstLeaves(len);
    FirstLeavesOrdered(len);
    FirstFreeSum(len, 32);
    KraftUncoded(lens, |codes|);
    ZeroNode(len);
    assert LowestUnused(lens, codes', |codes|);
    forall j, y | 0 <= j < |codes'| && Coded(lens, j) && 0 < y < 32 && a[y] != 0
      ensures Apart(codes'[j], lens[j], a[y], y)
    {
      SpanOrder(y, len);
    }
    forall p: nat | p < WORD
      ensures Covered(lens, codes', a, p)
    {
      FirstCover(lens, codes, p);
    }
  }

  lemma SkipKeepsPartition(lens: seq<nat>, codes: seq<nat>, avail: Leaves)
    requires Partition(lens, codes, avail)
    requires |codes| < |lens| && lens[|codes|] == NO_CODE
    ensures Partition(lens, codes + [0], avail)
  {
    var codes' := codes + [0];
    VorbisCodesGrow(lens, codes, 0);
    forall p: nat | p < WORD
      ensures Covered(lens, codes', avail, p)
    {
      assert Covered(lens, codes, avail, p);
      if j :| Taken(lens, codes, j, p) {
        assert Taken(lens, codes', j, p);
      }
    }
    assert KraftSum(lens, |codes'|) == KraftSum(lens, |codes|);
  }

  /** What holds after any number of entries. */
  ghost predicate BuildInv(lens: seq<nat>, b: Build) {
    |b.codes| <= |lens| &&
    if b.started then Partition(lens, b.codes, b.avail)
    else forall j :: 0 <= j < |b.codes| ==> !Coded(lens, j)
  }

  /** While the codewords are computed, codewords and free leaves partition the code space. */
  lemma {:induction false} AssignKeepsPartition(lens: seq<nat>, k: nat)
    requires k <= |lens| && ValidLengths(lens)
    ensures Assign(lens, k).Some? ==> BuildInv(lens, Assign(lens, k).value)
  {
    if k > 0 && Assign(lens, k).Some? {
      AssignKeepsPartition(lens, k - 1);
      PlaceInv(lens, Assign(lens, k - 1).value);
    }
  }

  lemma PlaceInv(lens: seq<nat>, b: Build)
    requires ValidLengths(lens) && BuildInv(lens, b) && |b.codes| < |lens|
    ensures Place(b, lens[|b.codes|]).Some? ==> BuildInv(lens, Place(b, lens[|b.codes|]).value)
  {
    if lens[|b.codes|] == NO_CODE {
      if b.started { SkipKeepsPartition(lens, b.codes, b.avail); }
    } else if !b.started {
      FirstPartition(lens, b.codes);
    } else if Deepest(b.avail, lens[|b.codes|]) > 0 {
      PlaceKeepsPartition(lens, b.codes, b.avail);
    }
  }

  /** With no free leaf at or above depth `len`, fewer than `Span(len)` numbers are free. */
  lemma {:induction false} FreeSumBelow(avail: Leaves, len: nat, n: nat)
    requires LeavesOrdered(avail) && 1 <= len <= 31 && Deepest(avail, len) == 0
    requires len < n <= 32
    ensures FreeSum(avail, n) + Span(n - 1) <= Span(len)
    decreases n
  {
    if n == len + 1 {
      FreeSumZero(avail, n);
    } else {
      FreeSumBelow(avail, len, n - 1);
      SpanDouble(n - 1);
    }
  }

  lemma {:induction false} FreeSumZero(avail: Leaves, n: nat)
    requires n <= 32 && forall y :: 0 <= y < n ==> avail[y] == 0
    ensures FreeSum(avail, n) == 0
  {
    if n > 0 { FreeSumZero(avail, n - 1); }
  }

  lemma {:induction false} AssignFailsOverKraft(lens: seq<nat>, k: nat)
    requires k <= |lens| && ValidLengths(lens) && Assign(lens, k).None?
    ensures KraftSum(lens, k) > WORD
  {
    if Assign(lens, k - 1).None? {
      AssignFailsOverKraft(lens, k - 1);
    } else {
      AssignKeepsPartition(lens, k - 1);
      FreeSumBelow(Assign(lens, k - 1).value.avail, lens[k - 1], 32);
    }
  }

  /** An assignment is found exactly when Kraft's inequality holds: one free leaf per level
      never makes the program reject a satisfiable list of lengths. */
  lemma AssignIffKraft(lens: seq<nat>)
    requires ValidLengths(lens)
    ensures Assign(lens, |lens|).Some? <==> KraftSum(lens, |lens|) <= WORD
  {
    if Assign(lens, |lens|).Some? {
      AssignKeepsPartition(lens, |lens|);
      if !Assign(lens, |lens|).value.started { KraftUncoded(lens, |lens|); }
    } else {
      AssignFailsOverKraft(lens, |lens|);
    }
  }

  /** The codewords found are the ones the specification asks for. */
  lemma AssignIsVorbis(lens: seq<nat>)
    requires ValidLengths(lens) && KraftSum(lens, |lens|) <= WORD
    ensures Assign(lens, |lens|).Some?
    ensures VorbisCodes(lens, Assign(lens, |lens|).value.codes)
  {
    AssignIffKraft(lens);
    AssignKeepsPartition(lens, |lens|);
  }

  /** The specification leaves no choice. */
  lemma {:induction false} VorbisCodesUnique(lens: seq<nat>, c: seq<nat>, d: seq<nat>, i: nat)
    requires VorbisCodes(lens, c) && VorbisCodes(lens, d) && |c| == |d|
    requires i < |c| && Coded(lens, i)
    ensures c[i] == d[i]
    decreases i
  {
    forall j | 0 <= j < i && Coded(lens, j)
      ensures c[j] == d[j]
    {
      VorbisCodesUnique(lens, c, d, j);
    }
    assert Unused(lens, c, i, d[i]) && Unused(lens, d, i, c[i]) by {
      assert LowestUnused(lens, c, i) && LowestUnused(lens, d, i);
    }
    assert LowestUnused(lens, c, i) && LowestUnused(lens, d, i);
  }

  /** No codeword is a prefix of another. */
  lemma PrefixFree(lens: seq<nat>, codes: seq<nat>, i: nat, j: nat)
    requires VorbisCodes(lens, codes) && i < j < |codes| && Coded(lens, i) && Coded(lens, j)
    ensures Apart(codes[i], lens[i], codes[j], lens[j])
    ensures IsNode(codes[i], lens[i]) && IsNode(codes[j], lens[j])
  {
    assert LowestUnused(lens, codes, i) && LowestUnused(lens, codes, j);
  }
}
