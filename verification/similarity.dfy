/** String similarity: the two-row table computes the edit distance. */
module Similarity {
  import opened Arithmetic
  import opened Wrappers

  type Text = seq<char>

  // ---------------------------------------------------------------- edit scripts

  /** One step of a script: copy or delete a character of the source, or write one of the target. */
  datatype Edit = Keep | Substitute(c: char) | Insert(c: char) | Delete

  /** What a script makes of `s`; `None` when it does not fit `s`. */
  function Apply(script: seq<Edit>, s: Text): (r: Option<Text>)
    decreases |script|
  {
    if script == [] then (if s == [] then Some([]) else None)
    else
      var before, e := script[..|script| - 1], script[|script| - 1];
      if e.Insert? then Write(Apply(before, s), e.c)
      else if s == [] then None
      else
        var t := Apply(before, s[..|s| - 1]);
        if e.Delete? then t else Write(t, if e.Keep? then s[|s| - 1] else e.c)
  }

  function Write(t: Option<Text>, c: char): Option<Text> {
    match t case None => None case Some(u) => Some(u + [c])
  }

  /** Every step but `Keep` costs one. */
  function Cost(script: seq<Edit>): nat {
    if script == [] then 0 else Cost(script[..|script| - 1]) + if script[|script| - 1] == Keep then 0 else 1
  }

  ghost predicate Turns(script: seq<Edit>, s: Text, t: Text) {
    Apply(script, s) == Some(t)
  }

  // ---------------------------------------------------------------- the recurrence

  function Distance(s: Text, t: Text): (d: nat)
    decreases |s| + |t|
  {
    if s == [] then |t|
    else if t == [] then |s|
    else
      var s1, t1 := s[..|s| - 1], t[..|t| - 1];
      Min(Min(1 + Distance(s, t1), 1 + Distance(s1, t)),
          Distance(s1, t1) + if s[|s| - 1] == t[|t| - 1] then 0 else 1)
  }

  // ---------------------------------------------------------------- the method

  /** One row of the table: the distances of `s` to all prefixes of `t`. */
  ghost predicate Row(row: seq<int>, s: Text, t: Text) {
    |row| == |t| + 1 && forall j :: 0 <= j <= |t| ==> row[j] == Distance(s, t[..j])
  }

  lemma LastCell(s: Text, t: Text)
    requires s != [] && t != []
    ensures var s1, t1 := s[..|s| - 1], t[..|t| - 1];
            Distance(s, t) == Min(Min(1 + Distance(s, t1), 1 + Distance(s1, t)),
                                  Distance(s1, t1) + if s[|s| - 1] == t[|t| - 1] then 0 else 1)
  {}

  lemma NextCell(s: Text, t: Text, i: nat, j: nat)
    requires 1 <= i <= |s| && 1 <= j <= |t|
    ensures Distance(s[..i], t[..j]) ==
            Min(Min(1 + Distance(s[..i], t[..j - 1]), 1 + Distance(s[..i - 1], t[..j])),
                Distance(s[..i - 1], t[..j - 1]) + if s[i - 1] == t[j - 1] then 0 else 1)
  {
    hide Distance, Min;
    LastCell(s[..i], t[..j]);
    assert s[..i][..i - 1] == s[..i - 1];
    assert t[..j][..j - 1] == t[..j - 1];
  }

  /** The inner loop of one row; row 0 comes out as it was. */
  method NextRow(s0: Text, s1: Text, i: nat, col: array<int>, prevCol: array<int>)
    requires i <= |s0| && col != prevCol && col.Length == prevCol.Length == |s1| + 1
    requires Row(prevCol[..], s0[..if i == 0 then 0 else i - 1], s1)
    modifies col
    ensures Row(col[..], s0[..i], s1)
  {
    hide Distance;
    ghost var p := if i == 0 then 0 else i - 1;
    Borders(s0, s1, i);
    col[0] := i;
    for j := 1 to col.Length
      invariant forall k :: 0 <= k < j ==> col[k] == Distance(s0[..i], s1[..k])
      invariant forall k :: 0 <= k < prevCol.Length ==> prevCol[k] == Distance(s0[..p], s1[..k])
    {
      if i > 0 { NextCell(s0, s1, i, j); }
      FirstRow(s0, s1, j);
      FirstRow(s0, s1, j - 1);
      var a, b, c := 1 + col[j - 1], 1 + prevCol[j], prevCol[j - 1] + if i > 0 && s0[i - 1] == s1[j - 1] then 0 else 1;
      var m := if a < b then a else b;
      col[j] := if m < c then m else c;
    }
  }

  lemma Borders(s: Text, t: Text, i: nat)
    requires i <= |s|
    ensures Distance(s[..i], t[..0]) == i
  {}

  lemma FirstRow(s: Text, t: Text, j: nat)
    requires j <= |t|
    ensures Distance(s[..0], t[..j]) == j
  {}

  /** `similarity`: one minus the distance over the longer length; two empty strings have no similarity,
      since the original divides zero by zero. */
  method Similar(s0: Text, s1: Text) returns (r: Option<real>)
    ensures s0 == [] && s1 == [] ==> r == None
    ensures s0 != [] || s1 != [] ==>
              r == Some(1.0 - Distance(s0, s1) as real / (if |s0| > |s1| then |s0| else |s1|) as real)
  {
    hide Distance;
    var len0, len1 := |s0| + 1, |s1| + 1;
    var col := new int[len1](_ => 0);
    var prevCol := new int[len1](_ => 0);
    for i := 0 to len1
      invariant forall k :: 0 <= k < i ==> prevCol[k] == k
    {
      prevCol[i] := i;
    }
    forall j | 0 <= j <= |s1|
      ensures prevCol[j] == Distance(s0[..0], s1[..j])
    {
      FirstRow(s0, s1, j);
    }
    for i := 0 to len0
      invariant col != prevCol && col.Length == prevCol.Length == len1 && fresh(col) && fresh(prevCol)
      invariant Row(prevCol[..], s0[..if i == 0 then 0 else i - 1], s1)
    {
      NextRow(s0, s1, i, col, prevCol);
      col, prevCol := prevCol, col;
    }
    assert s0[..|s0|] == s0 && s1[..|s1|] == s1;
    var dist := prevCol[len1 - 1];
    var longer := if |s0| > |s1| then |s0| else |s1|;
    if longer == 0 { return None; }
    return Some(1.0 - dist as real / longer as real);
  }

  // ---------------------------------------------------------------- the distance is the least cost

  lemma ApplyMore(script: seq<Edit>, e: Edit, s: Text)
    ensures Cost(script + [e]) == Cost(script) + if e == Keep then 0 else 1
    ensures Apply(script + [e], s) ==
            if e.Insert? then Write(Apply(script, s), e.c)
            else if s == [] then None
            else if e.Delete? then Apply(script, s[..|s| - 1])
            else Write(Apply(script, s[..|s| - 1]), if e.Keep? then s[|s| - 1] else e.c)
  {
    assert (script + [e])[..|script|] == script;
  }

  /** Some script has the cost of the distance ... */
  lemma {:induction false} BestScript(s: Text, t: Text) returns (script: seq<Edit>)
    ensures Turns(script, s, t) && Cost(script) == Distance(s, t)
    decreases |s| + |t|
  {
    hide Apply, Cost;
    if s == [] && t == [] {
      script := [];
      NoScript();
    } else {
      var s1, t1 := if s == [] then s else s[..|s| - 1], if t == [] then t else t[..|t| - 1];
      assert s != [] ==> s == s1 + [s[|s| - 1]];
      assert t != [] ==> t == t1 + [t[|t| - 1]];
      if t != [] && (s == [] || Distance(s, t) == 1 + Distance(s, t1)) {
        var before := BestScript(s, t1);
        ApplyMore(before, Insert(t[|t| - 1]), s);
        script := before + [Insert(t[|t| - 1])];
      } else if t == [] || Distance(s, t) == 1 + Distance(s1, t) {
        var before := BestScript(s1, t);
        ApplyMore(before, Delete, s);
        script := before + [Delete];
      } else {
        var before := BestScript(s1, t1);
        var e := if s[|s| - 1] == t[|t| - 1] then Keep else Substitute(t[|t| - 1]);
        ApplyMore(before, e, s);
        script := before + [e];
      }
    }
  }

  lemma NoScript()
    ensures Apply([], []) == Some([]) && Cost([]) == 0
  {}

  /** ... and none costs less. */
  lemma {:induction false} NoCheaperScript(script: seq<Edit>, s: Text, t: Text)
    requires Turns(script, s, t)
    ensures Distance(s, t) <= Cost(script)
    decreases |script|
  {
    if script != [] {
      var n := |script| - 1;
      var before := script[..n];
      if script[n].Insert? {
        NoCheaperScript(before, s, t[..|t| - 1]);
      } else if script[n].Delete? {
        NoCheaperScript(before, s[..|s| - 1], t);
      } else {
        NoCheaperScript(before, s[..|s| - 1], t[..|t| - 1]);
      }
    }
  }

  /** The final cell is the minimum over all scripts. */
  lemma DistanceIsMinimum(s: Text, t: Text)
    ensures exists script :: Turns(script, s, t) && Cost(script) == Distance(s, t)
    ensures forall script :: Turns(script, s, t) ==> Distance(s, t) <= Cost(script)
  {
    hide Turns, Distance;
    var best := BestScript(s, t);
    forall script | Turns(script, s, t)
      ensures Distance(s, t) <= Cost(script)
    {
      NoCheaperScript(script, s, t);
    }
  }

  lemma {:induction false} Symmetric(s: Text, t: Text)
    ensures Distance(s, t) == Distance(t, s)
    decreases |s| + |t|
  {
    if s != [] && t != [] {
      Symmetric(s, t[..|t| - 1]);
      Symmetric(s[..|s| - 1], t);
      Symmetric(s[..|s| - 1], t[..|t| - 1]);
    }
  }

  lemma {:induction false} ZeroIffEqual(s: Text, t: Text)
    ensures Distance(s, t) == 0 <==> s == t
    decreases |s| + |t|
  {
    if s != [] && t != [] {
      ZeroIffEqual(s[..|s| - 1], t[..|t| - 1]);
      assert s == s[..|s| - 1] + [s[|s| - 1]] && t == t[..|t| - 1] + [t[|t| - 1]];
    }
  }

  lemma {:induction false} AtMostLonger(s: Text, t: Text)
    ensures Distance(s, t) <= if |s| > |t| then |s| else |t|
    decreases |s| + |t|
  {
    if s != [] && t != [] { AtMostLonger(s[..|s| - 1], t[..|t| - 1]); }
  }

  /** Going through a third string is never shorter. */
  lemma {:induction false} Triangle(s: Text, t: Text, u: Text)
    ensures Distance(s, u) <= Distance(s, t) + Distance(t, u)
    decreases |s| + |t| + |u|
  {
    if s != [] && t != [] && u != [] {
      var s1, t1, u1 := s[..|s| - 1], t[..|t| - 1], u[..|u| - 1];
      Triangle(s1, t, u);
      Triangle(s, t, u1);
      Triangle(s, t1, u);
      Triangle(s1, t1, u1);
      Triangle(s, t1, u1);
      Triangle(s1, t1, u);
    } else if t == [] {
      AtMostSum(s, u);
    } else {
      LengthGap(s, t);
      LengthGap(t, u);
    }
  }

  lemma {:induction false} AtMostSum(s: Text, t: Text)
    ensures Distance(s, t) <= |s| + |t|
  {
    AtMostLonger(s, t);
  }

  lemma {:induction false} LengthGap(s: Text, t: Text)
    ensures |s| <= |t| + Distance(s, t) && |t| <= |s| + Distance(s, t)
    decreases |s| + |t|
  {
    if s != [] && t != [] {
      LengthGap(s, t[..|t| - 1]);
      LengthGap(s[..|s| - 1], t);
      LengthGap(s[..|s| - 1], t[..|t| - 1]);
    }
  }

  /** The similarity of strings that are not both empty lies between 0 and 1, and is 1 only for equal ones. */
  lemma SimilarityRange(s: Text, t: Text)
    requires s != [] || t != []
    ensures var longer := if |s| > |t| then |s| else |t|;
            var r := 1.0 - Distance(s, t) as real / longer as real;
            0.0 <= r <= 1.0 && (r == 1.0 <==> s == t)
  {
    hide Distance;
    AtMostLonger(s, t);
    ZeroIffEqual(s, t);
    var longer := if |s| > |t| then |s| else |t|;
    QuotientRange(Distance(s, t) as real, longer as real);
  }

  lemma QuotientRange(a: real, b: real)
    requires 0.0 <= a <= b && b > 0.0
    ensures 0.0 <= a / b <= 1.0 && (a / b == 0.0 <==> a == 0.0)
  {}
}
