/** Floor 1 of Vorbis: lines and the curve. */
module Floor1 {
  import opened Arithmetic

  function Abs(x: int): nat { if x < 0 then -x else x }

  /** C division, which truncates toward zero. */
  function CDiv(a: int, b: int): int
    requires b != 0
  {
    if a >= 0 then (if b > 0 then a / b else -(a / -b)) else if b > 0 then -(-a / b) else -a / -b
  }

  /** `predict_point`. */
  function PredictPoint(x: int, x0: int, x1: int, y0: int, y1: int): int
    requires x0 != x1
  {
    var dy, adx := y1 - y0, x1 - x0;
    var err := Abs(dy) * (x - x0);
    var off := CDiv(err, adx);
    if dy < 0 then y0 - off else y0 + off
  }

  // ---------------------------------------------------------------- arithmetic

  lemma MulNext(a: int, b: int, d: int)
    requires a < b && d >= 0
    ensures a * d + d <= b * d
  {
    MulMono(a + 1, b, d);
  }

  lemma QuotientSign(n: nat, d: int)
    requires d > 0
    ensures n / d >= 0
  {
    if n / d < 0 { MulNext(n / d, 0, d); }
  }

  lemma DivUnique(n: int, d: int, q: int, r: int)
    requires d > 0 && 0 <= r < d && n == q * d + r
    ensures n / d == q && n % d == r
  {
    var q', r' := n / d, n % d;
    assert n == q' * d + r';
    if q' < q { MulNext(q', q, d); }
    if q < q' { MulNext(q, q', d); }
  }

  /** A prediction inside its interval lies between the values at the ends. */
  lemma PredictBetween(x: int, x0: int, x1: int, y0: int, y1: int)
    requires x0 <= x <= x1 && x0 < x1
    ensures y0 <= y1 ==> y0 <= PredictPoint(x, x0, x1, y0, y1) <= y1
    ensures y1 <= y0 ==> y1 <= PredictPoint(x, x0, x1, y0, y1) <= y0
  {
    var d, k, adx := Abs(y1 - y0), x - x0, x1 - x0;
    MulMono(0, k, d);
    MulMono(k, adx, d);
    var off := (d * k) / adx;
    assert d * k == off * adx + (d * k) % adx;
    QuotientSign(d * k, adx);
    if off > d { MulNext(d, off, adx); }
  }

  /** A prediction is the exact point of the line, rounded toward the value at the start. */
  lemma PredictRounds(x: int, x0: int, x1: int, y0: int, y1: int)
    requires x0 <= x && x0 < x1
    ensures var off := Abs(PredictPoint(x, x0, x1, y0, y1) - y0);
            off * (x1 - x0) <= Abs(y1 - y0) * (x - x0) < off * (x1 - x0) + (x1 - x0) &&
            (if y1 < y0 then PredictPoint(x, x0, x1, y0, y1) <= y0 else y0 <= PredictPoint(x, x0, x1, y0, y1))
  {
    var d, k, adx := Abs(y1 - y0), x - x0, x1 - x0;
    MulMono(0, k, d);
    QuotientSign(d * k, adx);
    assert d * k == (d * k) / adx * adx + (d * k) % adx;
  }

  // ---------------------------------------------------------------- draw_line

  /** The state of the line drawer at `x`: `off` is the distance from `y0`, `err` the remainder. */
  ghost predicate OnLine(dist: nat, adx: int, k: int, off: int, err: int) {
    0 <= err < adx && off * adx + err == dist * k
  }

  lemma LineStep(dist: nat, adx: int, k: int, off: int, err: int, base: int, ady: int)
    requires OnLine(dist, adx, k, off, err)
    requires base == dist / adx && ady == dist - base * adx
    ensures if err + ady >= adx then OnLine(dist, adx, k + 1, off + base + 1, err + ady - adx)
            else OnLine(dist, adx, k + 1, off + base, err + ady)
  {
    assert 0 <= ady < adx;
    assert (off + base) * adx == off * adx + base * adx;
    assert (off + base + 1) * adx == off * adx + base * adx + adx;
    assert dist * (k + 1) == dist * k + dist;
  }

  lemma LinePoint(x: int, x0: int, x1: int, y0: int, y1: int, off: int, err: int)
    requires x0 < x1 && x0 <= x
    requires OnLine(Abs(y1 - y0), x1 - x0, x - x0, off, err)
    ensures PredictPoint(x, x0, x1, y0, y1) == if y1 < y0 then y0 - off else y0 + off
  {
    var d, k := Abs(y1 - y0), x - x0;
    MulMono(0, k, d);
    DivUnique(d * k, x1 - x0, off, err);
  }

  /** One step of the line drawer, and the point that it reaches. */
  lemma LineNext(x: int, x0: int, x1: int, y0: int, y1: int, y: int, err: int, base: int, ady: int, sy: int)
    requires x0 < x1 && x0 < x && base == CDiv(y1 - y0, x1 - x0) && ady == Abs(y1 - y0) - Abs(base) * (x1 - x0)
    requires sy == if y1 < y0 then base - 1 else base + 1
    requires OnLine(Abs(y1 - y0), x1 - x0, x - 1 - x0, if y1 < y0 then y0 - y else y - y0, err)
    ensures var up := err + ady >= x1 - x0;
            var next := if up then y + sy else y + base;
            next == PredictPoint(x, x0, x1, y0, y1) &&
            OnLine(Abs(y1 - y0), x1 - x0, x - x0, if y1 < y0 then y0 - next else next - y0,
                   if up then err + ady - (x1 - x0) else err + ady)
  {
    hide PredictPoint, OnLine, CDiv, Abs;
    var dist, adx, off := Abs(y1 - y0), x1 - x0, if y1 < y0 then y0 - y else y - y0;
    BaseIs(y1 - y0, adx);
    LineStep(dist, adx, x - 1 - x0, off, err, Abs(base), ady);
    var up := err + ady >= adx;
    LinePoint(x, x0, x1, y0, y1, if up then off + Abs(base) + 1 else off + Abs(base), if up then err + ady - adx else err + ady);
  }

  /** `LINE_OP`: one sample is scaled by the table, whose index is masked. */
  function LineOp(before: real, table: seq<real>, y: int): real
    requires |table| == 256
  {
    before * table[y % 256]
  }

  /** Values below 256 are table indices, others are taken modulo 256. */
  lemma LineOpIs(before: real, table: seq<real>, y: int, k: int)
    requires |table| == 256 && 0 <= y < 256
    ensures LineOp(before, table, y + 256 * k) == before * table[y]
  {
    DivUnique(y + 256 * k, 256, k, y);
  }

  /** The running y of the line drawer is the value of the division formula, for every slope. */
  method DrawLine(output: array<real>, x0: int, y0: int, x1: int, y1: int, n: nat, table: seq<real>)
    requires 0 <= x0 < x1 && n <= output.Length && |table| == 256
    modifies output
    ensures forall x :: 0 <= x < output.Length ==>
              output[x] == if x0 <= x < x1 && x < n then LineOp(old(output[x]), table, PredictPoint(x, x0, x1, y0, y1))
                           else old(output[x])
  {
    hide PredictPoint, OnLine, CDiv, Abs, LineOp;
    var dy, adx := y1 - y0, x1 - x0;
    var ady := Abs(dy);
    var base := CDiv(dy, adx);
    var sy := if dy < 0 then base - 1 else base + 1;
    ady := ady - Abs(base) * adx;
    var x, y, err := x0, y0, 0;
    LineStart(Abs(dy), adx);
    var end := if x1 > n then n else x1;
    if x < end {
      LinePoint(x, x0, x1, y0, y1, 0, 0);
      output[x] := LineOp(output[x], table, y);
      x := x + 1;
      while x < end
        invariant x0 < x <= end
        invariant OnLine(Abs(dy), adx, x - 1 - x0, if dy < 0 then y0 - y else y - y0, err)
        invariant forall i :: 0 <= i < output.Length ==>
                    output[i] == if x0 <= i < x then LineOp(old(output[i]), table, PredictPoint(i, x0, x1, y0, y1)) else old(output[i])
      {
        LineNext(x, x0, x1, y0, y1, y, err, base, ady, sy);
        err := err + ady;
        if err >= adx {
          err := err - adx;
          y := y + sy;
        } else {
          y := y + base;
        }
        output[x] := LineOp(output[x], table, y);
        x := x + 1;
      }
    }
  }

  lemma LineStart(dist: nat, adx: int)
    requires adx > 0
    ensures OnLine(dist, adx, 0, 0, 0)
  {}

  lemma BaseIs(dy: int, adx: int)
    requires adx > 0
    ensures Abs(dy) == if dy < 0 then -dy else dy
    ensures Abs(CDiv(dy, adx)) == Abs(dy) / adx
    ensures CDiv(dy, adx) == if dy < 0 then -(Abs(dy) / adx) else Abs(dy) / adx
  {
    QuotientSign(Abs(dy), adx);
  }

  // ---------------------------------------------------------------- the curve

  /** A point of the curve. */
  datatype Point = Point(x: nat, y: int)

  ghost predicate Rising(pts: seq<Point>) {
    forall i, j :: 0 <= i < j < |pts| ==> pts[i].x < pts[j].x
  }

  /** The value of the curve at `x`: on the line between the points around `x`, constant after the last. */
  function CurveAt(pts: seq<Point>, x: nat): int
    requires pts != [] && Rising(pts)
  {
    if |pts| == 1 then pts[0].y
    else if x < pts[1].x then PredictPoint(x, pts[0].x, pts[1].x, pts[0].y, pts[1].y)
    else CurveAt(pts[1..], x)
  }

  /** A point added at the end changes the curve only behind the last point before it. */
  lemma {:induction false} CurveExtends(pts: seq<Point>, p: Point, x: nat)
    requires pts != [] && Rising(pts) && pts[|pts| - 1].x < p.x && x < p.x
    ensures Rising(pts + [p])
    ensures var q := pts[|pts| - 1];
            CurveAt(pts + [p], x) == if x >= q.x || |pts| == 1 then PredictPoint(x, q.x, p.x, q.y, p.y) else CurveAt(pts, x)
    decreases |pts|
  {
    hide PredictPoint;
    var all := pts + [p];
    if |pts| > 1 {
      assert all[1..] == pts[1..] + [p];
      if x >= pts[1].x { CurveExtends(pts[1..], p, x); }
    }
  }

  /** Behind the last point the curve is constant. */
  lemma {:induction false} CurveTail(pts: seq<Point>, x: nat)
    requires pts != [] && Rising(pts) && pts[|pts| - 1].x <= x
    ensures CurveAt(pts, x) == pts[|pts| - 1].y
    decreases |pts|
  {
    if |pts| > 1 { CurveTail(pts[1..], x); }
  }

  /** Between two of its points the curve is the line from one to the next, which starts in the first. */
  lemma {:induction false} CurveBetween(pts: seq<Point>, i: nat, x: nat)
    requires Rising(pts) && i + 1 < |pts| && pts[i].x <= x < pts[i + 1].x
    ensures CurveAt(pts, x) == PredictPoint(x, pts[i].x, pts[i + 1].x, pts[i].y, pts[i + 1].y)
    ensures x == pts[i].x ==> CurveAt(pts, x) == pts[i].y
    decreases i
  {
    hide PredictPoint;
    PredictStart(pts[i].x, pts[i + 1].x, pts[i].y, pts[i + 1].y);
    if i > 0 {
      assert pts[1..][i - 1] == pts[i] && pts[1..][i] == pts[i + 1];
      CurveBetween(pts[1..], i - 1, x);
    }
  }

  lemma PredictStart(x0: int, x1: int, y0: int, y1: int)
    requires x0 < x1
    ensures PredictPoint(x0, x0, x1, y0, y1) == y0
  {
    LinePoint(x0, x0, x1, y0, y1, 0, 0);
  }

  /** The curve passes through each of its points. */
  lemma CurveThrough(pts: seq<Point>, i: nat)
    requires Rising(pts) && i < |pts|
    ensures CurveAt(pts, pts[i].x) == pts[i].y
  {
    hide PredictPoint;
    if i + 1 < |pts| { CurveBetween(pts, i, pts[i].x); } else { CurveTail(pts, pts[i].x); }
  }

  /** What the floor setup leaves behind. */
  datatype Setup = Setup(xlist: seq<nat>, order: seq<nat>, neighbors: seq<(nat, nat)>, multiplier: nat)

  /** `sorted_order` lists the indices of the distinct X values by increasing X. */
  ghost predicate SortedOrder(g: Setup) {
    |g.order| == |g.xlist| && (forall q :: 0 <= q < |g.order| ==> g.order[q] < |g.xlist|) &&
    forall q, r :: 0 <= q < r < |g.order| ==> g.xlist[g.order[q]] < g.xlist[g.order[r]]
  }

  /** The used points among the first `q` of the sorted order; the first is always used. */
  ghost function UsedPoints(g: Setup, finalY: seq<int>, q: nat): (pts: seq<Point>)
    requires SortedOrder(g) && |finalY| == |g.xlist| && 1 <= q <= |g.order|
    ensures pts != [] && Rising(pts) && pts[|pts| - 1].x <= g.xlist[g.order[q - 1]]
  {
    if q == 1 then [Point(g.xlist[g.order[0]], finalY[g.order[0]] * g.multiplier)]
    else
      var j := g.order[q - 1];
      UsedPoints(g, finalY, q - 1) + if finalY[j] >= 0 then [Point(g.xlist[j], finalY[j] * g.multiplier)] else []
  }

  lemma UsedStart(g: Setup, finalY: seq<int>)
    requires SortedOrder(g) && |finalY| == |g.xlist| >= 1 && g.order[0] == 0 && g.xlist[0] == 0
    ensures UsedPoints(g, finalY, 1) == [Point(0, finalY[0] * g.multiplier)]
  {}

  lemma {:induction false} UsedFirst(g: Setup, finalY: seq<int>, q: nat)
    requires SortedOrder(g) && |finalY| == |g.xlist| && 1 <= q <= |g.order|
    ensures UsedPoints(g, finalY, q)[0].x == g.xlist[g.order[0]]
  {
    if q > 1 { UsedFirst(g, finalY, q - 1); }
  }

  /** The curve has a point for the first of the sorted order and for each other whose amplitude is not negative, of that
      amplitude times the multiplier, and no others. */
  lemma {:induction false} UsedMean(g: Setup, finalY: seq<int>, q: nat, p: Point)
    requires SortedOrder(g) && |finalY| == |g.xlist| && 1 <= q <= |g.order|
    ensures p in UsedPoints(g, finalY, q) <==>
            exists r :: 0 <= r < q && IsUsed(finalY, g.order, r) && p == Point(g.xlist[g.order[r]], finalY[g.order[r]] * g.multiplier)
    decreases q
  {
    if q > 1 { UsedMean(g, finalY, q - 1, p); }
    assert p == Point(g.xlist[g.order[q - 1]], finalY[g.order[q - 1]] * g.multiplier) && IsUsed(finalY, g.order, q - 1) ==>
        p in UsedPoints(g, finalY, q);
  }

  ghost predicate IsUsed(finalY: seq<int>, order: seq<nat>, r: nat) {
    r == 0 || (r < |order| && order[r] < |finalY| && finalY[order[r]] >= 0)
  }

  /** At the X value of a used point, the curve has its amplitude times the multiplier. */
  lemma CurveThroughUsed(g: Setup, finalY: seq<int>, r: nat)
    requires SortedOrder(g) && |finalY| == |g.xlist| && r < |g.order| && IsUsed(finalY, g.order, r)
    ensures CurveAt(UsedPoints(g, finalY, |g.order|), g.xlist[g.order[r]]) == finalY[g.order[r]] * g.multiplier
  {
    hide CurveAt, UsedPoints;
    var pts, p := UsedPoints(g, finalY, |g.order|), Point(g.xlist[g.order[r]], finalY[g.order[r]] * g.multiplier);
    UsedMean(g, finalY, |g.order|, p);
    var i :| 0 <= i < |pts| && pts[i] == p;
    CurveThrough(pts, i);
  }

  lemma UsedStep(g: Setup, finalY: seq<int>, q: nat)
    requires SortedOrder(g) && |finalY| == |g.xlist| && 1 <= q < |g.order|
    ensures var pts, j := UsedPoints(g, finalY, q), g.order[q];
            pts[|pts| - 1].x < g.xlist[j] && Rising(pts) && pts[0].x == g.xlist[g.order[0]] &&
            UsedPoints(g, finalY, q + 1) ==
            if finalY[j] >= 0 then pts + [Point(g.xlist[j], finalY[j] * g.multiplier)] else pts
  {
    UsedFirst(g, finalY, q);
  }

  lemma ExtendAll(pts: seq<Point>, p: Point)
    requires pts != [] && Rising(pts) && pts[|pts| - 1].x < p.x && pts[0].x == 0
    ensures Rising(pts + [p])
    ensures var q := pts[|pts| - 1];
            forall x: nat :: x < p.x ==>
              CurveAt(pts + [p], x) == if x >= q.x then PredictPoint(x, q.x, p.x, q.y, p.y) else CurveAt(pts, x)
  {
    hide PredictPoint, CurveAt;
    CurveExtends(pts, p, 0);
    forall x: nat | x < p.x
      ensures var q := pts[|pts| - 1];
              CurveAt(pts + [p], x) == if x >= q.x then PredictPoint(x, q.x, p.x, q.y, p.y) else CurveAt(pts, x)
    {
      CurveExtends(pts, p, x);
    }
  }

  lemma TailAll(pts: seq<Point>)
    requires pts != [] && Rising(pts)
    ensures forall x: nat :: pts[|pts| - 1].x <= x ==> CurveAt(pts, x) == pts[|pts| - 1].y
  {
    forall x: nat | pts[|pts| - 1].x <= x
      ensures CurveAt(pts, x) == pts[|pts| - 1].y
    {
      CurveTail(pts, x);
    }
  }

  /** What drawing the curve does to one sample. */
  ghost function Scaled(pts: seq<Point>, table: seq<real>, x: nat, before: real): real
    requires pts != [] && Rising(pts) && |table| == 256
  {
    LineOp(before, table, CurveAt(pts, x))
  }

  /** The constant part behind the last point. */
  method DrawTail(target: array<real>, lx: nat, ly: int, n2: nat, table: seq<real>)
    requires lx <= n2 <= target.Length && 0 <= ly < |table|
    modifies target
    ensures forall x :: 0 <= x < target.Length ==>
              target[x] == if lx <= x < n2 then old(target[x]) * table[ly] else old(target[x])
  {
    for j := lx to n2
      invariant forall x :: 0 <= x < target.Length ==>
                  target[x] == if lx <= x < j then old(target[x]) * table[ly] else old(target[x])
    {
      target[j] := target[j] * table[ly];
    }
  }

  /** The first samples, up to `x1`, are scaled by the curve. */
  ghost predicate Drawn(was: seq<real>, now: seq<real>, pts: seq<Point>, table: seq<real>, x1: nat)
    requires pts != [] && Rising(pts) && |table| == 256
  {
    |now| == |was| &&
    forall x :: 0 <= x < |now| ==> now[x] == if x < x1 then Scaled(pts, table, x, was[x]) else was[x]
  }

  /** A line to the next point. */
  lemma DrawnLine(was: seq<real>, mid: seq<real>, now: seq<real>, pts: seq<Point>, p: Point, table: seq<real>, n2: nat)
    requires pts != [] && Rising(pts) && pts[|pts| - 1].x < p.x && pts[0].x == 0 && |table| == 256 && |now| == |mid|
    requires Drawn(was, mid, pts, table, Min(pts[|pts| - 1].x, n2))
    requires var q := pts[|pts| - 1];
             forall x :: 0 <= x < |now| ==>
               now[x] == if q.x <= x < p.x && x < n2 then LineOp(mid[x], table, PredictPoint(x, q.x, p.x, q.y, p.y)) else mid[x]
    ensures Rising(pts + [p]) && Drawn(was, now, pts + [p], table, Min(p.x, n2))
  {
    hide PredictPoint, CurveAt, Rising;
    ExtendAll(pts, p);
  }

  /** The constant part. */
  lemma DrawnTail(was: seq<real>, mid: seq<real>, now: seq<real>, pts: seq<Point>, table: seq<real>, n2: nat)
    requires pts != [] && Rising(pts) && |table| == 256 && |now| == |mid| && pts[|pts| - 1].x <= n2
    requires Drawn(was, mid, pts, table, pts[|pts| - 1].x) && 0 <= pts[|pts| - 1].y < 256
    requires var q := pts[|pts| - 1];
             forall x :: 0 <= x < |now| ==> now[x] == if q.x <= x < n2 then mid[x] * table[q.y] else mid[x]
    ensures Drawn(was, now, pts, table, n2)
  {
    hide CurveAt, Rising;
    TailAll(pts);
  }

  /** The value behind the last used point is read from the table as it is, if it is read at all. */
  ghost predicate TailInTable(g: Setup, finalY: seq<int>, n2: nat)
    requires SortedOrder(g) && |finalY| == |g.xlist| >= 1
  {
    var pts := UsedPoints(g, finalY, |finalY|);
    pts[|pts| - 1].x < n2 ==> 0 <= pts[|pts| - 1].y < 256
  }

  /** One line of the curve, from its last point so far. */
  method DrawTo(target: array<real>, lx: nat, ly: int, hx: nat, hy: int, n2: nat, table: seq<real>,
                ghost was: seq<real>, ghost pts: seq<Point>)
    requires pts != [] && Rising(pts) && pts[|pts| - 1] == Point(lx, ly) && lx < hx && pts[0].x == 0
    requires n2 <= target.Length && |table| == 256 && Drawn(was, target[..], pts, table, Min(lx, n2))
    modifies target
    ensures Rising(pts + [Point(hx, hy)]) && Drawn(was, target[..], pts + [Point(hx, hy)], table, Min(hx, n2))
  {
    hide PredictPoint, Rising, Drawn;
    ghost var mid := target[..];
    DrawLine(target, lx, ly, hx, hy, n2, table);
    DrawnLine(was, mid, target[..], pts, Point(hx, hy), table, n2);
  }

  /** The constant end of the curve. */
  method DrawRest(target: array<real>, lx: nat, ly: int, n2: nat, table: seq<real>, ghost was: seq<real>, ghost pts: seq<Point>)
    requires pts != [] && Rising(pts) && pts[|pts| - 1] == Point(lx, ly) && 0 <= ly < 256
    requires lx <= n2 <= target.Length && |table| == 256 && Drawn(was, target[..], pts, table, lx)
    modifies target
    ensures Drawn(was, target[..], pts, table, n2)
  {
    hide Rising, Drawn;
    ghost var mid := target[..];
    DrawTail(target, lx, ly, n2, table);
    DrawnTail(was, mid, target[..], pts, table, n2);
  }

  lemma NothingDrawn(was: seq<real>, pts: seq<Point>, table: seq<real>)
    requires pts != [] && Rising(pts) && |table| == 256
    ensures Drawn(was, was, pts, table, 0)
  {}

  /** `do_floor`: every sample below `n2` is scaled exactly once, by the value of the curve there. */
  method DoFloor(g: Setup, n: nat, target: array<real>, finalY: array<int>, table: seq<real>)
    requires SortedOrder(g) && |g.xlist| == finalY.Length >= 1 && g.order[0] == 0 && g.xlist[0] == 0
    requires n / 2 <= target.Length && |table| == 256 && TailInTable(g, finalY[..], n / 2)
    modifies target
    ensures Drawn(old(target[..]), target[..], UsedPoints(g, finalY[..], finalY.Length), table, n / 2)
  {
    hide PredictPoint, Rising, UsedPoints, Drawn;
    var n2 := n / 2;
    ghost var ys, was := finalY[..], target[..];
    UsedStart(g, ys);
    ghost var pts := UsedPoints(g, ys, 1);
    NothingDrawn(was, pts, table);
    var lx: nat, ly := 0, finalY[0] * g.multiplier;
    for q := 1 to finalY.Length
      invariant finalY[..] == ys && pts == UsedPoints(g, ys, q)
      invariant pts[|pts| - 1] == Point(lx, ly) && Drawn(was, target[..], pts, table, Min(lx, n2))
    {
      UsedStep(g, ys, q);
      var j := g.order[q];
      if finalY[j] >= 0 {
        var hy := finalY[j] * g.multiplier;
        var hx := g.xlist[j];
        if lx != hx { DrawTo(target, lx, ly, hx, hy, n2, table, was, pts); }
        pts := pts + [Point(hx, hy)];
        lx, ly := hx, hy;
      }
    }
    if lx < n2 { DrawRest(target, lx, ly, n2, table, was, pts); }
  }
}
