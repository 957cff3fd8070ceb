/** Floor 1 setup and amplitude unwrapping. */
module Floor1Amplitudes {
  import opened Arithmetic
  import opened Floor1
  import opened Sequences
  import Sorting
  import opened Wrappers

  // ---------------------------------------------------------------- neighbors

  /** `low` is the position of the greatest earlier X below `xs[n]`, `high` of the least above it. */
  ghost predicate Brackets(xs: seq<nat>, n: nat, low: nat, high: nat) {
    low < n && high < n && n < |xs| && xs[low] < xs[n] < xs[high] &&
    forall i :: 0 <= i < n ==> xs[i] <= xs[low] || xs[i] >= xs[high] || xs[i] == xs[n]
  }

  /** `neighbors`; a side on which there is no X keeps the index 0 that the caller passes in. */
  method Neighbors(xs: array<nat>, n: nat) returns (plow: nat, phigh: nat)
    requires n < xs.Length && forall i :: 0 <= i <= n ==> xs[i] < 65536
    ensures if exists i :: 0 <= i < n && xs[i] < xs[n] then
              plow < n && xs[plow] < xs[n] && forall i :: 0 <= i < n && xs[i] < xs[n] ==> xs[i] <= xs[plow]
            else plow == 0
    ensures if exists i :: 0 <= i < n && xs[i] > xs[n] then
              phigh < n && xs[phigh] > xs[n] && forall i :: 0 <= i < n && xs[i] > xs[n] ==> xs[i] >= xs[phigh]
            else phigh == 0
  {
    plow, phigh := 0, 0;
    var low: int, high: int := -1, 65536;
    for i := 0 to n
      invariant if low == -1 then plow == 0 && forall k :: 0 <= k < i ==> xs[k] >= xs[n]
                else plow < i && xs[plow] == low < xs[n] && forall k :: 0 <= k < i && xs[k] < xs[n] ==> xs[k] <= low
      invariant if high == 65536 then phigh == 0 && forall k :: 0 <= k < i ==> xs[k] <= xs[n]
                else phigh < i && xs[phigh] == high > xs[n] && forall k :: 0 <= k < i && xs[k] > xs[n] ==> xs[k] >= high
    {
      if xs[i] > low && xs[i] < xs[n] {
        plow := i;
        low := xs[i];
      }
      if xs[i] < high && xs[i] > xs[n] {
        phigh := i;
        high := xs[i];
      }
    }
  }

  // ---------------------------------------------------------------- setup

  /** The X list of a floor: 0, the end point, and points strictly below the end point. */
  ghost predicate XList(xs: seq<nat>) {
    |xs| >= 2 && xs[0] == 0 && xs[1] < 65536 && forall i :: 2 <= i < |xs| ==> xs[i] < xs[1]
  }

  /** With distinct X values both neighbors exist: every X lies strictly between them. */
  lemma NeighborsBracket(xs: seq<nat>, n: nat, low: nat, high: nat)
    requires XList(xs) && Distinct(xs) && 2 <= n < |xs|
    requires if exists i :: 0 <= i < n && xs[i] < xs[n] then
               low < n && xs[low] < xs[n] && forall i :: 0 <= i < n && xs[i] < xs[n] ==> xs[i] <= xs[low]
             else low == 0
    requires if exists i :: 0 <= i < n && xs[i] > xs[n] then
               high < n && xs[high] > xs[n] && forall i :: 0 <= i < n && xs[i] > xs[n] ==> xs[i] >= xs[high]
             else high == 0
    ensures Brackets(xs, n, low, high)
  {
    assert xs[0] != xs[n];
    assert 0 <= 0 < n && xs[0] < xs[n];
    assert 0 <= 1 < n && xs[1] > xs[n];
  }

  ghost predicate NeighborsOk(xs: seq<nat>, neighbors: seq<(nat, nat)>) {
    |neighbors| == |xs| && forall j :: 2 <= j < |xs| ==> Brackets(xs, j, neighbors[j].0, neighbors[j].1)
  }

  /** A point of the list that is sorted: its X value and its index. */
  datatype Pair = Pair(x: nat, id: nat)

  function PairX(p: Pair): int { p.x }

  function Pairs(xs: seq<nat>): (ps: seq<Pair>)
    ensures |ps| == |xs| && forall i :: 0 <= i < |ps| ==> ps[i] == Pair(xs[i], i)
  {
    seq(|xs|, i requires 0 <= i < |xs| => Pair(xs[i], i))
  }

  /** The indices by increasing X. */
  function Order(xs: seq<nat>): (r: seq<nat>)
    ensures |r| == |xs|
  {
    var ps := Sorting.Sort(Pairs(xs), PairX);
    seq(|xs|, i requires 0 <= i < |xs| => ps[i].id)
  }

  /** Ids by increasing X, each once. */
  ghost predicate Ordered(xs: seq<nat>, order: seq<nat>) {
    (forall q :: 0 <= q < |order| ==> order[q] < |xs|) &&
    forall q, r :: 0 <= q < r < |order| ==> xs[order[q]] <= xs[order[r]] && order[q] != order[r]
  }

  /** Sorting the pairs orders the indices, and loses none. */
  lemma OrderSorts(xs: seq<nat>)
    ensures Ordered(xs, Order(xs)) && forall q :: 0 <= q < |xs| ==> Order(xs)[q] < |xs|
    ensures forall i :: 0 <= i < |xs| ==> i in Order(xs)
  {
    hide Sorting.Sort;
    var ps := Sorting.Sort(Pairs(xs), PairX);
    Sorting.SortSorts(Pairs(xs), PairX);
    PermutedDistinct(Pairs(xs), ps);
    forall q | 0 <= q < |xs|
      ensures ps[q].id < |xs| && ps[q].x == xs[ps[q].id]
    {
      SameElements(Pairs(xs), ps, ps[q]);
    }
    forall q, r | 0 <= q < r < |xs|
      ensures xs[ps[q].id] <= xs[ps[r].id] && ps[q].id != ps[r].id
    {
      assert PairX(ps[q]) <= PairX(ps[r]) && ps[q] != ps[r];
    }
    forall i | 0 <= i < |xs|
      ensures i in Order(xs)
    {
      assert Pairs(xs)[i] in Pairs(xs);
      SameElements(Pairs(xs), ps, Pair(xs[i], i));
      var q :| 0 <= q < |ps| && ps[q] == Pair(xs[i], i);
      assert Order(xs)[q] == i;
    }
  }

  /** Comparing sorted neighbors finds every duplicate. */
  lemma DuplicatesAdjacent(xs: seq<nat>, order: seq<nat>)
    requires Ordered(xs, order) && |order| == |xs| && forall i :: 0 <= i < |xs| ==> i in order
    ensures Distinct(xs) <==> forall q :: 0 <= q < |order| - 1 ==> xs[order[q]] != xs[order[q + 1]]
  {
    if !Distinct(xs) {
      var i, j :| 0 <= i < j < |xs| && xs[i] == xs[j];
      assert i in order && j in order;
      var a :| 0 <= a < |order| && order[a] == i;
      var b :| 0 <= b < |order| && order[b] == j;
      var q := if a < b then a else b;
      assert xs[order[q]] == xs[order[q + 1]];
    }
  }

  lemma OrderFirst(xs: seq<nat>, order: seq<nat>)
    requires |xs| > 0 && xs[0] == 0 && Distinct(xs) && Ordered(xs, order) && |order| == |xs| && 0 in order
    ensures order[0] == 0
    ensures forall q, r :: 0 <= q < r < |order| ==> xs[order[q]] < xs[order[r]]
  {
    forall r | 0 < r < |order|
      ensures order[r] != 0
    {
      assert xs[order[0]] <= xs[order[r]] && order[0] != order[r];
    }
  }

  /** The loop that looks for duplicates. */
  method AllDifferent(xs: seq<nat>, order: seq<nat>) returns (ok: bool)
    requires order != [] && forall q :: 0 <= q < |order| ==> order[q] < |xs|
    ensures ok <==> forall q :: 0 <= q < |order| - 1 ==> xs[order[q]] != xs[order[q + 1]]
  {
    for j := 0 to |order| - 1
      invariant forall q :: 0 <= q < j ==> xs[order[q]] != xs[order[q + 1]]
    {
      if xs[order[j]] == xs[order[j + 1]] { return false; }
    }
    return true;
  }

  /** The loop that fills the neighbor table. */
  method AllNeighbors(xlist: array<nat>) returns (neighbors: seq<(nat, nat)>)
    requires XList(xlist[..]) && Distinct(xlist[..])
    ensures NeighborsOk(xlist[..], neighbors)
  {
    hide Brackets, Distinct;
    neighbors := seq(xlist.Length, _ => (0, 0));
    for j := 2 to xlist.Length
      invariant |neighbors| == xlist.Length
      invariant forall i :: 2 <= i < j ==> Brackets(xlist[..], i, neighbors[i].0, neighbors[i].1)
    {
      var low, hi := Neighbors(xlist, j);
      NeighborsBracket(xlist[..], j, low, hi);
      neighbors := neighbors[j := (low, hi)];
    }
  }

  ghost predicate Precomputed(xs: seq<nat>, g: Setup) {
    xs != [] && g.xlist == xs && SortedOrder(g) && g.order[0] == 0 && (forall i :: 0 <= i < |xs| ==> i in g.order) &&
    NeighborsOk(xs, g.neighbors)
  }

  /** The precomputation for one floor: it fails exactly on duplicate X values, and otherwise
      leaves the order and the neighbors that decoding relies on. */
  method Precompute(xlist: array<nat>, multiplier: nat) returns (g: Option<Setup>)
    requires XList(xlist[..])
    ensures g.Some? <==> Distinct(xlist[..])
    ensures g.Some? ==> g.value.multiplier == multiplier && Precomputed(xlist[..], g.value)
  {
    hide NeighborsOk, Distinct, Ordered, Order;
    var order := Order(xlist[..]);
    OrderSorts(xlist[..]);
    DuplicatesAdjacent(xlist[..], order);
    var ok := AllDifferent(xlist[..], order);
    if !ok { return None; }
    OrderFirst(xlist[..], order);
    var neighbors := AllNeighbors(xlist);
    g := Some(Setup(xlist[..], order, neighbors, multiplier));
  }

  // ---------------------------------------------------------------- one amplitude

  /** The final amplitude for a coded value, given the prediction. */
  function Unwrap(range: int, pred: int, val: int): int {
    var highroom, lowroom := range - pred, pred;
    var room := if highroom < lowroom then highroom * 2 else lowroom * 2;
    if val == 0 then pred
    else if val >= room then (if highroom > lowroom then val - lowroom + pred else pred - val + highroom - 1)
    else if val % 2 == 1 then pred - (val + 1) / 2
    else pred + val / 2
  }

  /** The coded value that an encoder sends for a final amplitude. */
  function Wrap(range: int, pred: int, y: int): int {
    var highroom, lowroom := range - pred, pred;
    var room := 2 * Min(highroom, lowroom);
    var d := y - pred;
    if d >= 0 && 2 * d < room then 2 * d
    else if d == 0 then 0
    else if d < 0 && -2 * d <= room then -2 * d - 1
    else if highroom > lowroom then y
    else range - 1 - y
  }

  /** For a fixed prediction the amplitude map permutes [0, range): it stays inside and `Wrap` undoes it. */
  lemma UnwrapPermutes(range: int, pred: int, val: int)
    requires 0 <= pred < range && 0 <= val < range
    ensures 0 <= Unwrap(range, pred, val) < range
    ensures Wrap(range, pred, Unwrap(range, pred, val)) == val
  {}

  /** Coded values list the amplitudes by their distance from the prediction, the lower of two first: with the range this
      determines the map. */
  lemma NearestFirst(range: int, pred: int, v: int, w: int)
    requires 0 <= pred < range && 0 <= v < w < range
    ensures var a, b := Unwrap(range, pred, v), Unwrap(range, pred, w);
            Abs(a - pred) <= Abs(b - pred) && (Abs(a - pred) == Abs(b - pred) ==> a < pred < b)
  {}

  /** A coded value outside [0, range) never gives an amplitude inside it. */
  lemma UnwrapStaysOutside(range: int, pred: int, val: nat)
    requires 0 <= pred < range
    ensures 0 <= Unwrap(range, pred, val) < range <==> val < range
  {}

  lemma WrapPermutes(range: int, pred: int, y: int)
    requires 0 <= pred < range && 0 <= y < range
    ensures 0 <= Wrap(range, pred, y) < range
    ensures Unwrap(range, pred, Wrap(range, pred, y)) == y
  {}

  // ---------------------------------------------------------------- all amplitudes of a floor

  ghost predicate InRange(ys: seq<int>, range: int) {
    forall j :: 0 <= j < |ys| ==> 0 <= ys[j] < range
  }

  /** The prediction for point `j` from the amplitudes before it. */
  function Prediction(xs: seq<nat>, nb: seq<(nat, nat)>, ys: seq<int>, j: nat): int
    requires NeighborsOk(xs, nb) && 2 <= j < |xs| && j <= |ys|
  {
    assert Brackets(xs, j, nb[j].0, nb[j].1);
    PredictPoint(xs[j], xs[nb[j].0], xs[nb[j].1], ys[nb[j].0], ys[nb[j].1])
  }

  /** A value stored in 16 bits. */
  function Short(v: int): (r: int)
    ensures -0x8000 <= r < 0x8000 && (-0x8000 <= v < 0x8000 ==> r == v)
  {
    (v + 0x8000) % 0x1_0000 - 0x8000
  }

  /** The final amplitudes of the first `k` points. */
  function Amps(xs: seq<nat>, nb: seq<(nat, nat)>, range: int, coded: seq<int>, k: nat): (ys: seq<int>)
    requires NeighborsOk(xs, nb) && k <= |coded| <= |xs|
    ensures |ys| == k
  {
    if k <= 2 then coded[..k]
    else
      var ys := Amps(xs, nb, range, coded, k - 1);
      ys + [Short(Unwrap(range, Prediction(xs, nb, ys, k - 1), coded[k - 1]))]
  }

  /** The coded values that lead to the amplitudes `ys`. */
  function Codes(xs: seq<nat>, nb: seq<(nat, nat)>, range: int, ys: seq<int>, k: nat): (coded: seq<int>)
    requires NeighborsOk(xs, nb) && k <= |ys| <= |xs|
    ensures |coded| == k
  {
    if k <= 2 then ys[..k]
    else Codes(xs, nb, range, ys, k - 1) + [Wrap(range, Prediction(xs, nb, ys[..k - 1], k - 1), ys[k - 1])]
  }

  lemma PredictionInRange(xs: seq<nat>, nb: seq<(nat, nat)>, range: int, ys: seq<int>, j: nat)
    requires NeighborsOk(xs, nb) && 2 <= j < |xs| && j <= |ys| && InRange(ys, range)
    ensures 0 <= Prediction(xs, nb, ys, j) < range
  {
    assert Brackets(xs, j, nb[j].0, nb[j].1);
    PredictBetween(xs[j], xs[nb[j].0], xs[nb[j].1], ys[nb[j].0], ys[nb[j].1]);
  }

  /** Every final amplitude lies in [0, range), and 16 bits are enough for it. */
  lemma {:induction false} AmpsInRange(xs: seq<nat>, nb: seq<(nat, nat)>, range: int, coded: seq<int>, k: nat)
    requires range <= 0x8000 && NeighborsOk(xs, nb) && k <= |coded| <= |xs| && InRange(coded, range)
    ensures InRange(Amps(xs, nb, range, coded, k), range)
  {
    hide PredictPoint, NeighborsOk, Unwrap, Prediction, Short;
    if k > 2 {
      var ys := Amps(xs, nb, range, coded, k - 1);
      AmpsInRange(xs, nb, range, coded, k - 1);
      PredictionInRange(xs, nb, range, ys, k - 1);
      UnwrapPermutes(range, Prediction(xs, nb, ys, k - 1), coded[k - 1]);
    }
  }

  lemma {:induction false} AmpsPrefix(xs: seq<nat>, nb: seq<(nat, nat)>, range: int, coded: seq<int>, k: nat)
    requires NeighborsOk(xs, nb) && 0 < k <= |coded| <= |xs|
    ensures Amps(xs, nb, range, coded, k)[..k - 1] == Amps(xs, nb, range, coded, k - 1)
  {
    hide NeighborsOk, Unwrap, Prediction, Short;
  }

  /** The encoder undoes the decoder on every list of coded values ... */
  lemma {:induction false} AmpsStay(xs: seq<nat>, nb: seq<(nat, nat)>, range: int, coded: seq<int>, j: nat, k: nat)
    requires NeighborsOk(xs, nb) && j <= k <= |coded| <= |xs|
    ensures forall i :: 0 <= i < j ==> Amps(xs, nb, range, coded, k)[i] == Amps(xs, nb, range, coded, j)[i]
    decreases k
  {
    hide NeighborsOk, Unwrap, Prediction, Short, Amps;
    if j < k {
      AmpsPrefix(xs, nb, range, coded, k);
      AmpsStay(xs, nb, range, coded, j, k - 1);
      assert forall i :: 0 <= i < j ==> Amps(xs, nb, range, coded, k)[..k - 1][i] == Amps(xs, nb, range, coded, k)[i];
    }
  }

  lemma NextAmp(xs: seq<nat>, nb: seq<(nat, nat)>, range: int, coded: seq<int>, j: nat)
    requires NeighborsOk(xs, nb) && 2 <= j < |coded| <= |xs|
    ensures Amps(xs, nb, range, coded, j + 1)[j] ==
            Short(Unwrap(range, Prediction(xs, nb, Amps(xs, nb, range, coded, j), j), coded[j]))
  {
    hide NeighborsOk, Unwrap, Prediction, Short;
  }

  lemma SameNeighbors(xs: seq<nat>, nb: seq<(nat, nat)>, j: nat, low: nat, high: nat)
    requires NeighborsOk(xs, nb) && Distinct(xs) && 2 <= j < |xs| && Brackets(xs, j, low, high)
    ensures nb[j] == (low, high)
  {
    assert Brackets(xs, j, nb[j].0, nb[j].1);
    assert xs[low] == xs[nb[j].0] && xs[high] == xs[nb[j].1];
  }

  /** Each later amplitude comes from its coded value and the point, at its X, of the line between the amplitudes at the
      closest earlier X values on both sides. */
  lemma AmplitudeIs(xs: seq<nat>, nb: seq<(nat, nat)>, range: int, coded: seq<int>, j: nat, low: nat, high: nat)
    requires NeighborsOk(xs, nb) && Distinct(xs) && 2 <= j < |coded| <= |xs| && Brackets(xs, j, low, high)
    ensures var ys := Amps(xs, nb, range, coded, |coded|);
            ys[j] == Short(Unwrap(range, PredictPoint(xs[j], xs[low], xs[high], ys[low], ys[high]), coded[j]))
  {
    hide PredictPoint, Unwrap, Short, NeighborsOk, Distinct, Amps;
    SameNeighbors(xs, nb, j, low, high);
    AmpsStay(xs, nb, range, coded, j, j + 1);
    AmpsStay(xs, nb, range, coded, j + 1, |coded|);
    NextAmp(xs, nb, range, coded, j);
    var ys, before, now := Amps(xs, nb, range, coded, |coded|), Amps(xs, nb, range, coded, j), Amps(xs, nb, range, coded, j + 1);
    assert ys[j] == now[j] && ys[low] == now[low] == before[low] && ys[high] == now[high] == before[high];
  }

  lemma {:induction false} CodesOfAmps(xs: seq<nat>, nb: seq<(nat, nat)>, range: int, coded: seq<int>, ys: seq<int>, k: nat)
    requires range <= 0x8000 && NeighborsOk(xs, nb) && k <= |coded| <= |xs| && InRange(coded, range)
    requires |ys| == |coded| && ys[..k] == Amps(xs, nb, range, coded, k)
    ensures Codes(xs, nb, range, ys, k) == coded[..k]
  {
    hide NeighborsOk, Unwrap, Wrap, Prediction, Short;
    if k > 2 {
      var before := Amps(xs, nb, range, coded, k - 1);
      AmpsPrefix(xs, nb, range, coded, k);
      assert ys[..k - 1] == ys[..k][..k - 1];
      CodesOfAmps(xs, nb, range, coded, ys, k - 1);
      AmpsInRange(xs, nb, range, coded, k - 1);
      PredictionInRange(xs, nb, range, before, k - 1);
      UnwrapPermutes(range, Prediction(xs, nb, before, k - 1), coded[k - 1]);
      assert ys[k - 1] == ys[..k][k - 1];
      assert coded[..k] == coded[..k - 1] + [coded[k - 1]];
    }
  }

  /** ... and the decoder undoes the encoder on every list of amplitudes. */
  lemma {:induction false} AmpsOfCodes(xs: seq<nat>, nb: seq<(nat, nat)>, range: int, ys: seq<int>, coded: seq<int>, k: nat)
    requires range <= 0x8000 && NeighborsOk(xs, nb) && k <= |ys| <= |xs| && InRange(ys, range)
    requires |coded| == |ys| && coded[..k] == Codes(xs, nb, range, ys, k)
    ensures Amps(xs, nb, range, coded, k) == ys[..k]
    ensures InRange(coded[..k], range)
  {
    hide NeighborsOk, Unwrap, Wrap, Prediction, Short;
    if k > 2 {
      assert coded[..k - 1] == coded[..k][..k - 1];
      AmpsOfCodes(xs, nb, range, ys, coded, k - 1);
      PredictionInRange(xs, nb, range, ys[..k - 1], k - 1);
      WrapPermutes(range, Prediction(xs, nb, ys[..k - 1], k - 1), ys[k - 1]);
      assert coded[k - 1] == coded[..k][k - 1];
      assert coded[..k] == coded[..k - 1] + [coded[k - 1]];
      assert ys[..k] == ys[..k - 1] + [ys[k - 1]];
    }
  }

  /** Unwrapping all amplitudes of a floor is a bijection on the lists over [0, range). */
  lemma UnwrappingIsBijection(xs: seq<nat>, nb: seq<(nat, nat)>, range: int, coded: seq<int>, ys: seq<int>)
    requires range <= 0x8000 && NeighborsOk(xs, nb) && |coded| == |ys| == |xs| && InRange(coded, range) && InRange(ys, range)
    ensures InRange(Amps(xs, nb, range, coded, |xs|), range) && InRange(Codes(xs, nb, range, ys, |xs|), range)
    ensures ys == Amps(xs, nb, range, coded, |xs|) <==> coded == Codes(xs, nb, range, ys, |xs|)
  {
    hide NeighborsOk, Amps, Codes;
    var n := |xs|;
    AmpsInRange(xs, nb, range, coded, n);
    assert ys[..n] == ys && coded[..n] == coded;
    var back := Codes(xs, nb, range, ys, n);
    assert back[..n] == back;
    AmpsOfCodes(xs, nb, range, ys, back, n);
    var there := Amps(xs, nb, range, coded, n);
    assert there[..n] == there;
    CodesOfAmps(xs, nb, range, coded, there, n);
  }

  // ---------------------------------------------------------------- the amplitude loop

  /** Neighbors are earlier points. */
  ghost predicate Earlier(nb: seq<(nat, nat)>) {
    forall j :: 2 <= j < |nb| ==> nb[j].0 < j && nb[j].1 < j
  }

  /** Which points are used, after the first `k` coded values. */
  function Flags(nb: seq<(nat, nat)>, coded: seq<int>, k: nat): (f: seq<bool>)
    requires 2 <= k <= |coded| <= |nb| && Earlier(nb)
    ensures |f| == k
  {
    if k == 2 then [true, true]
    else
      var f := Flags(nb, coded, k - 1);
      if coded[k - 1] != 0 then f[nb[k - 1].0 := true][nb[k - 1].1 := true] + [true] else f + [false]
  }

  /** A point is used exactly when it is an end point, was coded, or is a neighbor of a coded point. */
  lemma {:induction false} FlagsMean(nb: seq<(nat, nat)>, coded: seq<int>, k: nat, j: nat)
    requires 2 <= k <= |coded| <= |nb| && Earlier(nb) && j < k
    ensures Flags(nb, coded, k)[j] <==>
            j < 2 || coded[j] != 0 || exists i :: j < i < k && coded[i] != 0 && (nb[i].0 == j || nb[i].1 == j)
  {
    if k > 2 && j < k - 1 {
      FlagsMean(nb, coded, k - 1, j);
      if i :| j < i < k && coded[i] != 0 && (nb[i].0 == j || nb[i].1 == j) {
        assert i == k - 1 || i < k - 1;
      }
    }
  }

  /** Everything that the loop knows about the first `j` points. */
  ghost predicate Unwrapped(xs: seq<nat>, nb: seq<(nat, nat)>, range: int, coded: seq<int>, now: seq<int>,
                            flags: seq<bool>, j: nat)
    requires NeighborsOk(xs, nb) && Earlier(nb) && 2 <= j <= |coded| == |now| == |xs| && j <= |flags|
  {
    now[..j] == Amps(xs, nb, range, coded, j) && now[j..] == coded[j..] && flags[..j] == Flags(nb, coded, j)
  }

  lemma NeighborsAt(xs: seq<nat>, nb: seq<(nat, nat)>, j: nat)
    requires NeighborsOk(xs, nb) && 2 <= j < |xs|
    ensures |nb| == |xs| && nb[j].0 < j && nb[j].1 < j && xs[nb[j].0] < xs[j] < xs[nb[j].1]
  {
    assert Brackets(xs, j, nb[j].0, nb[j].1);
  }

  lemma UnwrapStep(xs: seq<nat>, nb: seq<(nat, nat)>, range: int, coded: seq<int>, now: seq<int>,
                   flags: seq<bool>, j: nat)
    requires NeighborsOk(xs, nb) && Earlier(nb) && 2 <= j < |coded| == |now| == |xs| && |xs| <= |flags|
    requires Unwrapped(xs, nb, range, coded, now, flags, j)
    ensures var pred := PredictPoint(xs[j], xs[nb[j].0], xs[nb[j].1], now[nb[j].0], now[nb[j].1]);
            var f := if now[j] != 0 then flags[nb[j].0 := true][nb[j].1 := true][j := true] else flags[j := false];
            Unwrapped(xs, nb, range, coded, now[j := Short(Unwrap(range, pred, now[j]))], f, j + 1)
  {
    hide PredictPoint, NeighborsOk, Unwrap, Short;
    NeighborsAt(xs, nb, j);
    assert now[j] == now[j..][0] == coded[j];
    var low, high := nb[j].0, nb[j].1;
    assert now[low] == now[..j][low] && now[high] == now[..j][high];
    var pred := Prediction(xs, nb, now[..j], j);
    var next := now[j := Short(Unwrap(range, pred, now[j]))];
    assert next[..j + 1] == now[..j] + [Short(Unwrap(range, pred, coded[j]))];
    assert next[j + 1..] == coded[j + 1..];
    var f := if now[j] != 0 then flags[low := true][high := true][j := true] else flags[j := false];
    assert f[..j + 1] == (if now[j] != 0 then flags[..j][low := true][high := true] + [true] else flags[..j] + [false]);
  }

  lemma UnwrapStart(xs: seq<nat>, nb: seq<(nat, nat)>, range: int, coded: seq<int>, flags: seq<bool>)
    requires NeighborsOk(xs, nb) && Earlier(nb) && 2 <= |coded| == |xs| && 2 <= |flags| && flags[..2] == [true, true]
    ensures Unwrapped(xs, nb, range, coded, coded, flags, 2)
  {}

  lemma UnwrapEnd(xs: seq<nat>, nb: seq<(nat, nat)>, range: int, coded: seq<int>, now: seq<int>, flags: seq<bool>)
    requires NeighborsOk(xs, nb) && Earlier(nb) && 2 <= |coded| == |now| == |xs| <= |flags|
    requires Unwrapped(xs, nb, range, coded, now, flags, |xs|)
    ensures now == Amps(xs, nb, range, coded, |xs|) && flags[..|xs|] == Flags(nb, coded, |xs|)
  {
    assert now[..|xs|] == now;
  }

  /** The loop that defers the floor: unused points get -1. */
  method MarkUnused(finalY: array<int>, flags: array<bool>)
    requires finalY.Length <= flags.Length
    modifies finalY
    ensures forall i :: 0 <= i < finalY.Length ==> finalY[i] == if flags[i] then old(finalY[i]) else -1
  {
    for j := 0 to finalY.Length
      invariant forall i :: 0 <= i < finalY.Length ==>
                  finalY[i] == if i < j && !flags[i] then -1 else old(finalY[i])
    {
      if !flags[j] { finalY[j] := -1; }
    }
  }

  /** The value that the loop stores for a point. */
  method FinalAmplitude(range: int, pred: int, val: int) returns (y: int)
    ensures y == Unwrap(range, pred, val)
  {
    var highroom, lowroom := range - pred, pred;
    var room := if highroom < lowroom then highroom * 2 else lowroom * 2;
    if val == 0 { return pred; }
    if val >= room {
      if highroom > lowroom { return val - lowroom + pred; }
      return pred - val + highroom - 1;
    }
    // the last bit and the shift, which agree with remainder and quotient for negative values too
    if val % 2 == 1 { return pred - (val + 1) / 2; }
    return pred + val / 2;
  }

  /** The amplitude loop: `finalY` holds the coded values before, and afterwards -1 at the unused points. */
  method UnwrapAmplitudes(xs: seq<nat>, nb: seq<(nat, nat)>, range: int, finalY: array<int>)
    requires NeighborsOk(xs, nb) && Earlier(nb) && 2 <= |xs| == finalY.Length <= 256
    modifies finalY
    ensures forall j :: 0 <= j < finalY.Length ==>
              finalY[j] == if Flags(nb, old(finalY[..]), |xs|)[j] then Amps(xs, nb, range, old(finalY[..]), |xs|)[j] else -1
  {
    hide PredictPoint, NeighborsOk, Amps, Flags, Unwrapped, Unwrap, Short;
    ghost var coded := finalY[..];
    var flags := new bool[256];
    flags[0], flags[1] := true, true;
    assert flags[..2] == [true, true] && finalY[..2] == coded[..2];
    UnwrapStart(xs, nb, range, coded, flags[..]);
    for j := 2 to finalY.Length
      invariant Unwrapped(xs, nb, range, coded, finalY[..], flags[..], j)
    {
      UnwrapStep(xs, nb, range, coded, finalY[..], flags[..], j);
      NeighborsAt(xs, nb, j);
      ghost var ys, fs := finalY[..], flags[..];
      var low, high := nb[j].0, nb[j].1;
      var pred := PredictPoint(xs[j], xs[low], xs[high], finalY[low], finalY[high]);
      var val := finalY[j];
      if val != 0 {
        flags[low] := true;
        flags[high] := true;
        flags[j] := true;
      } else {
        flags[j] := false;
      }
      var y := FinalAmplitude(range, pred, val);
      finalY[j] := Short(y);
      assert finalY[..] == ys[j := Short(Unwrap(range, pred, val))];
      assert flags[..] == if val != 0 then fs[low := true][high := true][j := true] else fs[j := false];
    }
    UnwrapEnd(xs, nb, range, coded, finalY[..], flags[..]);
    MarkUnused(finalY, flags);
    assert forall i :: 0 <= i < finalY.Length ==> flags[i] == flags[..|xs|][i];
  }

  /** `range_list` */
  function RangeOf(multiplier: nat): (r: int)
    requires 1 <= multiplier <= 4
    ensures (r - 1) * multiplier < 256 <= r * multiplier
  {
    [256, 128, 86, 64][multiplier - 1]
  }

  /** The end point has the greatest X value, so that it comes last in the sorted order. */
  lemma EndIsLast(g: Setup)
    requires SortedOrder(g) && XList(g.xlist) && 1 in g.order
    ensures g.order[|g.order| - 1] == 1
  {
    var q :| 0 <= q < |g.order| && g.order[q] == 1;
    if q < |g.order| - 1 { assert g.xlist[g.order[q]] < g.xlist[g.order[|g.order| - 1]]; }
  }

  /** What is drawn behind the last point is the amplitude of the end point. */
  lemma EndIsDrawable(g: Setup, finalY: seq<int>, n2: nat)
    requires SortedOrder(g) && XList(g.xlist) && 1 in g.order && |finalY| == |g.xlist|
    requires 0 <= finalY[1] && finalY[1] * g.multiplier < 256
    ensures TailInTable(g, finalY, n2)
  {
    EndIsLast(g);
    assert 0 <= finalY[1] * g.multiplier by { MulMono(0, finalY[1], g.multiplier); }
  }

  /** What the amplitude loop leaves behind can be drawn, whatever the codebook returns: the amplitude of the end point,
      which is read directly, is the only one that the drawing uses as a table index without a mask.  If all coded
      values are in range, no index needs the mask. */
  lemma UnwrappedIsDrawable(g: Setup, coded: seq<int>, finalY: seq<int>, n2: nat)
    requires XList(g.xlist) && Precomputed(g.xlist, g) && Earlier(g.neighbors)
    requires |g.xlist| == |g.neighbors| == |coded| == |finalY| && 1 <= g.multiplier <= 4
    requires 0 <= coded[1] < RangeOf(g.multiplier)
    requires forall j :: 0 <= j < |finalY| ==>
               finalY[j] == if Flags(g.neighbors, coded, |coded|)[j]
                            then Amps(g.xlist, g.neighbors, RangeOf(g.multiplier), coded, |coded|)[j] else -1
    ensures finalY[0] == coded[0] && finalY[1] == coded[1]
    ensures TailInTable(g, finalY, n2)
    ensures InRange(coded, RangeOf(g.multiplier)) ==>
              forall j :: 0 <= j < |finalY| && finalY[j] >= 0 ==> finalY[j] * g.multiplier < 256
  {
    hide NeighborsOk, Amps, Flags, TailInTable, SortedOrder;
    var n, range := |coded|, RangeOf(g.multiplier);
    AmpsStart(g.xlist, g.neighbors, range, coded, n);
    FlagsMean(g.neighbors, coded, n, 0);
    FlagsMean(g.neighbors, coded, n, 1);
    EndIsDrawable(g, finalY, n2);
    if InRange(coded, range) { AmpsInRange(g.xlist, g.neighbors, range, coded, n); }
  }

  lemma {:induction false} AmpsStart(xs: seq<nat>, nb: seq<(nat, nat)>, range: int, coded: seq<int>, k: nat)
    requires NeighborsOk(xs, nb) && 2 <= k <= |coded| <= |xs|
    ensures Amps(xs, nb, range, coded, k)[..2] == coded[..2]
    ensures Amps(xs, nb, range, coded, k)[0] == coded[0] && Amps(xs, nb, range, coded, k)[1] == coded[1]
  {
    hide NeighborsOk, Unwrap, Prediction, Short;
    if k > 2 { AmpsStart(xs, nb, range, coded, k - 1); }
  }
}
