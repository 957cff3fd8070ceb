/** The order in which tables are migrated: referenced tables first. */
module TableOrder {
  import opened Sequences

  type Table = string

  /** The referenced tables of each table, in the order of its foreign keys. */
  type References = map<Table, seq<Table>>

  ghost predicate Planned(tables: seq<Table>, refs: References) {
    Distinct(tables) && forall t :: t in tables ==> t in refs
  }

  /** `t` references the other listed table `d`. */
  predicate Edge(tables: seq<Table>, refs: References, d: Table, t: Table) {
    d in tables && t in tables && d != t && t in refs && d in refs[t]
  }

  /** A sequence of tables in which each references the one before it. */
  ghost predicate Walk(tables: seq<Table>, refs: References, p: seq<Table>) {
    forall i :: 0 <= i < |p| - 1 ==> Edge(tables, refs, p[i], p[i + 1])
  }

  ghost predicate Cyclic(tables: seq<Table>, refs: References) {
    exists p :: |p| > 1 && Walk(tables, refs, p) && p[0] == p[|p| - 1]
  }

  /** Every table comes behind the tables that it references. */
  ghost predicate Respects(tables: seq<Table>, refs: References, order: seq<Table>) {
    forall i, d :: 0 <= i < |order| && Edge(tables, refs, d, order[i]) ==> d in order[..i]
  }

  // ---------------------------------------------------------------- cycles

  ghost predicate HasPred(tables: seq<Table>, refs: References, r: set<Table>, t: Table) {
    exists d :: d in r && Edge(tables, refs, d, t)
  }

  /** Every table of a set references another one of it. */
  ghost predicate Stuck(tables: seq<Table>, refs: References, r: set<Table>) {
    r != {} && forall t :: t in r ==> HasPred(tables, refs, r, t)
  }

  /** Where every table has a predecessor, walks of any length lead backwards. */
  lemma {:induction false} LongWalk(tables: seq<Table>, refs: References, r: set<Table>, n: nat) returns (p: seq<Table>)
    requires Stuck(tables, refs, r)
    ensures |p| == n + 1 && Walk(tables, refs, p) && forall k :: 0 <= k < |p| ==> p[k] in r
  {
    hide Edge, HasPred;
    if n == 0 {
      var t :| t in r;
      p := [t];
    } else {
      var q := LongWalk(tables, refs, r, n - 1);
      var d := OnePred(tables, refs, r, q[0]);
      p := [d] + q;
    }
  }

  lemma OnePred(tables: seq<Table>, refs: References, r: set<Table>, t: Table) returns (d: Table)
    requires HasPred(tables, refs, r, t)
    ensures d in r && Edge(tables, refs, d, t)
  {
    hide Edge;
    d :| d in r && Edge(tables, refs, d, t);
  }

  lemma StuckIsCyclic(tables: seq<Table>, refs: References, r: set<Table>)
    requires Stuck(tables, refs, r)
    ensures Cyclic(tables, refs)
  {
    hide Edge, Stuck;
    var p := LongWalk(tables, refs, r, |r|);
    var i, j := Pigeonhole(p, r);
    var c := p[i..j + 1];
    assert |c| > 1 && Walk(tables, refs, c) && c[0] == c[|c| - 1];
  }

  /** Along a walk the positions in a respecting order increase. */
  lemma {:induction false} WalkRises(tables: seq<Table>, refs: References, order: seq<Table>, p: seq<Table>, k: nat)
    returns (i: nat, j: nat)
    requires Distinct(order) && Respects(tables, refs, order) && Elements(tables) <= Elements(order)
    requires Walk(tables, refs, p) && 0 < k < |p|
    ensures i < j < |order| && order[i] == p[0] && order[j] == p[k]
  {
    assert Edge(tables, refs, p[k - 1], p[k]);
    assert p[k] in Elements(tables);
    j :| 0 <= j < |order| && order[j] == p[k];
    assert p[k - 1] in order[..j];
    var m: nat :| m < j && order[m] == p[k - 1];
    if k == 1 {
      i := m;
    } else {
      var m2: nat;
      i, m2 := WalkRises(tables, refs, order, p, k - 1);
    }
  }

  lemma OrderedIsAcyclic(tables: seq<Table>, refs: References, order: seq<Table>)
    requires Distinct(order) && Respects(tables, refs, order) && Elements(tables) <= Elements(order)
    ensures !Cyclic(tables, refs)
  {
    forall p | |p| > 1 && Walk(tables, refs, p)
      ensures p[0] != p[|p| - 1]
    {
      var i, j := WalkRises(tables, refs, order, p, |p| - 1);
    }
  }

  // ---------------------------------------------------------------- the graph

  /** The tables that are referenced by `t`, among those that have a list of referrers. */
  ghost function Preds(deps: map<Table, seq<Table>>, t: Table): set<Table> {
    set d | d in deps && t in deps[d]
  }

  ghost predicate IsGraph(tables: seq<Table>, refs: References, deps: map<Table, seq<Table>>) {
    deps.Keys == Elements(tables) &&
    (forall d :: d in deps ==> Distinct(deps[d])) &&
    forall d, t :: d in deps ==> (t in deps[d] <==> Edge(tables, refs, d, t))
  }

  /** After the first `i` tables and the first `j` foreign keys of the next. */
  predicate Seen(tables: seq<Table>, refs: References, i: nat, j: nat, d: Table, t: Table)
    requires i <= |tables|
  {
    t in tables[..i] || (i < |tables| && t == tables[i] && t in refs && j <= |refs[t]| && d in refs[t][..j])
  }

  /** The count of a table is the number of tables that it references. */
  ghost predicate Counted(deps: map<Table, seq<Table>>, indegree: map<Table, int>) {
    forall t :: t in indegree ==> indegree[t] == |Preds(deps, t)|
  }

  ghost predicate PartGraph(tables: seq<Table>, refs: References, deps: map<Table, seq<Table>>, indegree: map<Table, int>,
                            i: nat, j: nat)
    requires i <= |tables|
  {
    deps.Keys == Elements(tables) && indegree.Keys == Elements(tables) &&
    (forall d :: d in deps ==> Distinct(deps[d])) &&
    (forall d, t :: d in deps ==> (t in deps[d] <==> Edge(tables, refs, d, t) && Seen(tables, refs, i, j, d, t))) &&
    Counted(deps, indegree)
  }

  lemma AddEdge(deps: map<Table, seq<Table>>, dep: Table, table: Table, t: Table)
    requires dep in deps && table !in deps[dep]
    ensures Preds(deps[dep := deps[dep] + [table]], t) == if t == table then Preds(deps, t) + {dep} else Preds(deps, t)
  {}

  /** What the next foreign key adds to what was seen. */
  lemma SeenMore(tables: seq<Table>, refs: References, i: nat, j: nat, d: Table, t: Table)
    requires Planned(tables, refs) && i < |tables| && j < |refs[tables[i]]|
    ensures Seen(tables, refs, i, j + 1, d, t) <==>
            Seen(tables, refs, i, j, d, t) || (t == tables[i] && d == refs[t][j])
  {
    var r := refs[tables[i]];
    assert r[..j + 1] == r[..j] + [r[j]];
  }

  /** One foreign key. */
  method AddReference(tables: seq<Table>, refs: References, i: nat, j: nat,
                      deps0: map<Table, seq<Table>>, indegree0: map<Table, int>)
    returns (deps: map<Table, seq<Table>>, indegree: map<Table, int>)
    requires Planned(tables, refs) && i < |tables| && j < |refs[tables[i]]|
    requires PartGraph(tables, refs, deps0, indegree0, i, j)
    ensures PartGraph(tables, refs, deps, indegree, i, j + 1)
  {
    hide Seen, Preds, Counted;
    deps, indegree := deps0, indegree0;
    var table := tables[i];
    var dep := refs[table][j];
    forall d, t
      ensures Seen(tables, refs, i, j + 1, d, t) <==> Seen(tables, refs, i, j, d, t) || (t == table && d == dep)
    {
      SeenMore(tables, refs, i, j, d, t);
    }
    if dep !in deps || dep == table { return; }
    if table !in deps[dep] {
      CountEdge(deps, indegree, dep, table);
      deps := deps[dep := deps[dep] + [table]];
      indegree := indegree[table := indegree[table] + 1];
    }
  }

  lemma CountEdge(deps: map<Table, seq<Table>>, indegree: map<Table, int>, dep: Table, table: Table)
    requires Counted(deps, indegree) && dep in deps && table !in deps[dep] && table in indegree
    ensures Counted(deps[dep := deps[dep] + [table]], indegree[table := indegree[table] + 1])
  {
    hide Preds;
    NotPred(deps, dep, table);
    forall t
      ensures Preds(deps[dep := deps[dep] + [table]], t) == if t == table then Preds(deps, t) + {dep} else Preds(deps, t)
    {
      AddEdge(deps, dep, table, t);
    }
  }

  lemma NotPred(deps: map<Table, seq<Table>>, d: Table, t: Table)
    requires d in deps && t !in deps[d]
    ensures d !in Preds(deps, t)
  {}

  lemma SeenEnds(tables: seq<Table>, refs: References, i: nat, d: Table, t: Table)
    requires Planned(tables, refs) && i < |tables|
    ensures Edge(tables, refs, d, t) ==>
              (Seen(tables, refs, i, |refs[tables[i]]|, d, t) <==> Seen(tables, refs, i + 1, 0, d, t))
  {
    var table := tables[i];
    assert refs[table][..|refs[table]|] == refs[table];
    assert tables[..i + 1] == tables[..i] + [table];
  }

  /** The loops that collect the edges. */
  method BuildGraph(tables: seq<Table>, refs: References)
    returns (deps: map<Table, seq<Table>>, indegree: map<Table, int>)
    requires Planned(tables, refs)
    ensures IsGraph(tables, refs, deps) && indegree.Keys == Elements(tables)
    ensures forall t :: t in indegree ==> indegree[t] == |Preds(deps, t)|
  {
    hide Edge, Preds, Seen, PartGraph;
    deps, indegree := NoEdges(tables, refs);
    for i := 0 to |tables|
      invariant PartGraph(tables, refs, deps, indegree, i, 0)
    {
      var fks := refs[tables[i]];
      for j := 0 to |fks|
        invariant PartGraph(tables, refs, deps, indegree, i, j)
      {
        deps, indegree := AddReference(tables, refs, i, j, deps, indegree);
      }
      NextTable(tables, refs, deps, indegree, i);
    }
    AllSeen(tables, refs, deps, indegree);
  }

  method NoEdges(tables: seq<Table>, refs: References)
    returns (deps: map<Table, seq<Table>>, indegree: map<Table, int>)
    ensures PartGraph(tables, refs, deps, indegree, 0, 0)
  {
    deps, indegree := map[], map[];
    for i := 0 to |tables|
      invariant deps.Keys == indegree.Keys == Elements(tables[..i])
      invariant forall t :: t in deps ==> deps[t] == [] && indegree[t] == 0
    {
      assert tables[..i + 1] == tables[..i] + [tables[i]];
      deps := deps[tables[i] := []];
      indegree := indegree[tables[i] := 0];
    }
    assert tables[..|tables|] == tables;
    forall t
      ensures Preds(deps, t) == {}
    {}
    forall d, t
      ensures !(Edge(tables, refs, d, t) && Seen(tables, refs, 0, 0, d, t))
    {}
  }

  lemma NextTable(tables: seq<Table>, refs: References, deps: map<Table, seq<Table>>, indegree: map<Table, int>, i: nat)
    requires Planned(tables, refs) && i < |tables| && PartGraph(tables, refs, deps, indegree, i, |refs[tables[i]]|)
    ensures PartGraph(tables, refs, deps, indegree, i + 1, 0)
  {
    hide Edge, Preds, Seen;
    forall d, t
      ensures Edge(tables, refs, d, t) ==>
                (Seen(tables, refs, i, |refs[tables[i]]|, d, t) <==> Seen(tables, refs, i + 1, 0, d, t))
    {
      SeenEnds(tables, refs, i, d, t);
    }
  }

  lemma AllSeen(tables: seq<Table>, refs: References, deps: map<Table, seq<Table>>, indegree: map<Table, int>)
    requires PartGraph(tables, refs, deps, indegree, |tables|, 0)
    ensures IsGraph(tables, refs, deps) && indegree.Keys == Elements(tables)
    ensures forall t :: t in indegree ==> indegree[t] == |Preds(deps, t)|
  {
    hide Preds;
    assert tables[..|tables|] == tables;
  }

  // ---------------------------------------------------------------- taking tables off the queue

  /** The tables that are referenced by `t` and not yet done. */
  ghost function Missing(deps: map<Table, seq<Table>>, t: Table, done: set<Table>): set<Table> {
    Preds(deps, t) - done
  }

  /** `done` and `queue` together hold each table at most once, exactly those without missing references. */
  ghost predicate Progress(tables: seq<Table>, refs: References, deps: map<Table, seq<Table>>, indegree: map<Table, int>,
                           result: seq<Table>, queue: seq<Table>) {
    Distinct(result + queue) && Elements(result + queue) <= Elements(tables) && indegree.Keys == Elements(tables) &&
    Respects(tables, refs, result) &&
    forall t :: t in tables ==>
      indegree[t] == |Missing(deps, t, Elements(result))| && (t in result + queue <==> indegree[t] == 0)
  }

  /** In the middle of the children of `current`, which is the last of `result`; `todo` are still to come. */
  ghost predicate Between(tables: seq<Table>, refs: References, deps: map<Table, seq<Table>>, indegree: map<Table, int>,
                          result: seq<Table>, queue: seq<Table>, before: set<Table>, todo: seq<Table>) {
    Distinct(result + queue) && Elements(result + queue) <= Elements(tables) && indegree.Keys == Elements(tables) &&
    forall t :: t in tables ==>
      indegree[t] == |Missing(deps, t, if t in todo then before else Elements(result))| &&
      (t in result + queue <==> indegree[t] == 0)
  }

  /** One child of the current table. */
  method Release(tables: seq<Table>, refs: References, deps: map<Table, seq<Table>>, indegree0: map<Table, int>,
                 result: seq<Table>, queue0: seq<Table>, ghost before: set<Table>, child: Table, ghost todo: seq<Table>)
    returns (indegree: map<Table, int>, queue: seq<Table>)
    requires child in tables && result != [] && child !in todo
    requires Elements(result) == before + {result[|result| - 1]} && result[|result| - 1] !in before
    requires result[|result| - 1] in Preds(deps, child)
    requires Between(tables, refs, deps, indegree0, result, queue0, before, [child] + todo)
    ensures Between(tables, refs, deps, indegree, result, queue, before, todo)
  {
    hide Missing, Distinct, Elements;
    indegree, queue := indegree0, queue0;
    OneLess(deps, child, before, Elements(result), result[|result| - 1]);
    KeepKeys(indegree0, child, 0, tables);
    indegree := indegree[child := indegree[child] - 1];
    if indegree[child] == 0 { queue := queue + [child]; }
    KeepKeys(indegree0, child, indegree[child], tables);
    ReleaseKeeps(tables, result, queue0, queue, child, indegree[child] == 0);
    forall t
      ensures t in [child] + todo <==> t == child || t in todo
    {}
  }

  lemma OneLess(deps: map<Table, seq<Table>>, t: Table, before: set<Table>, after: set<Table>, current: Table)
    requires current in Preds(deps, t) && current !in before && after == before + {current}
    ensures |Missing(deps, t, before)| == |Missing(deps, t, after)| + 1
  {
    hide Preds;
    assert Missing(deps, t, before) == Missing(deps, t, after) + {current};
  }

  lemma KeepKeys(indegree: map<Table, int>, t: Table, v: int, tables: seq<Table>)
    requires indegree.Keys == Elements(tables) && t in tables
    ensures t in indegree && indegree[t := v].Keys == Elements(tables)
  {}

  lemma ReleaseKeeps(tables: seq<Table>, result: seq<Table>, queue0: seq<Table>, queue: seq<Table>, child: Table, added: bool)
    requires Distinct(result + queue0) && Elements(result + queue0) <= Elements(tables) && child in tables
    requires child !in result + queue0 && queue == if added then queue0 + [child] else queue0
    ensures Distinct(result + queue) && Elements(result + queue) <= Elements(tables)
    ensures forall t :: t in result + queue <==> t in result + queue0 || (added && t == child)
  {
    if added { assert result + queue == (result + queue0) + [child]; }
  }

  lemma InsideTables(tables: seq<Table>, s: seq<Table>)
    requires Distinct(s) && Elements(s) <= Elements(tables) && Distinct(tables)
    ensures |s| <= |tables|
  {
    DistinctSize(s);
    DistinctSize(tables);
    SubsetSize(Elements(s), Elements(tables));
  }

  lemma NotInFront<T>(a: seq<T>, b: seq<T>, k: nat)
    requires Distinct(a + b) && k < |b|
    ensures b[k] !in a
  {
    forall i | 0 <= i < |a|
      ensures a[i] != b[k]
    {
      assert (a + b)[i] != (a + b)[|a| + k];
    }
  }

  /** The front of the queue references nothing that is missing. */
  lemma TakeCurrent(tables: seq<Table>, refs: References, deps: map<Table, seq<Table>>, indegree: map<Table, int>,
                    result: seq<Table>, queue: seq<Table>)
    requires IsGraph(tables, refs, deps) && Progress(tables, refs, deps, indegree, result, queue) && queue != []
    ensures var current := queue[0];
            current in tables && current in deps && current !in result && Missing(deps, current, Elements(result)) == {} &&
            result + [current] + queue[1..] == result + queue && Elements(result + [current]) == Elements(result) + {current}
  {
    hide Edge, Respects, Preds, Missing;
    var current := queue[0];
    assert (result + queue)[|result|] == current;
    assert current in Elements(result + queue);
    NotInFront(result, queue, 0);
    assert indegree[current] == 0;
  }

  lemma TakeRespects(tables: seq<Table>, refs: References, deps: map<Table, seq<Table>>, result: seq<Table>, current: Table)
    requires IsGraph(tables, refs, deps) && Respects(tables, refs, result) && current in deps
    requires Missing(deps, current, Elements(result)) == {}
    ensures Respects(tables, refs, result + [current])
  {
    var r2 := result + [current];
    forall i, d | 0 <= i < |r2| && Edge(tables, refs, d, r2[i])
      ensures d in r2[..i]
    {
      if i < |result| {
        assert r2[..i] == result[..i];
      } else {
        assert r2[..i] == result;
        InDeps(tables, refs, deps, d, current);
        assert d !in Missing(deps, current, Elements(result));
        assert d in Elements(result);
      }
    }
  }

  lemma InDeps(tables: seq<Table>, refs: References, deps: map<Table, seq<Table>>, d: Table, t: Table)
    requires IsGraph(tables, refs, deps) && Edge(tables, refs, d, t)
    ensures d in Preds(deps, t)
  {
    assert d in Elements(tables);
  }

  /** Taking `current` from the queue changes what is missing for its children only. */
  lemma TakeKeeps(tables: seq<Table>, refs: References, deps: map<Table, seq<Table>>, indegree: map<Table, int>,
                  result: seq<Table>, queue: seq<Table>)
    requires IsGraph(tables, refs, deps) && Progress(tables, refs, deps, indegree, result, queue) && queue != []
    ensures queue[0] in deps
    ensures Between(tables, refs, deps, indegree, result + [queue[0]], queue[1..], Elements(result), deps[queue[0]])
  {
    hide Edge, Distinct, Elements, Missing, Respects;
    TakeCurrent(tables, refs, deps, indegree, result, queue);
    var current := queue[0];
    forall t | t !in deps[current]
      ensures Missing(deps, t, Elements(result)) == Missing(deps, t, Elements(result + [current]))
    {
      NotMissing(deps, t, Elements(result), current);
    }
  }

  lemma NotMissing(deps: map<Table, seq<Table>>, t: Table, done: set<Table>, current: Table)
    requires current in deps && t !in deps[current]
    ensures Missing(deps, t, done) == Missing(deps, t, done + {current})
  {}

  lemma BetweenEnds(tables: seq<Table>, refs: References, deps: map<Table, seq<Table>>, indegree: map<Table, int>,
                    result: seq<Table>, queue: seq<Table>, before: set<Table>)
    requires Between(tables, refs, deps, indegree, result, queue, before, []) && Respects(tables, refs, result)
    ensures Progress(tables, refs, deps, indegree, result, queue)
  {
    hide Missing, Distinct, Elements, Respects;
  }

  /** The inner loop: the children of the table that was taken last. */
  method ReleaseAll(tables: seq<Table>, refs: References, deps: map<Table, seq<Table>>, indegree0: map<Table, int>,
                    result: seq<Table>, queue0: seq<Table>, ghost before: set<Table>, children: seq<Table>)
    returns (indegree: map<Table, int>, queue: seq<Table>)
    requires IsGraph(tables, refs, deps) && result != [] && result[|result| - 1] in deps
    requires children == deps[result[|result| - 1]] && Respects(tables, refs, result)
    requires Elements(result) == before + {result[|result| - 1]} && result[|result| - 1] !in before
    requires Between(tables, refs, deps, indegree0, result, queue0, before, children)
    ensures Progress(tables, refs, deps, indegree, result, queue)
  {
    hide Between, Progress, Respects, Elements, Edge;
    indegree, queue := indegree0, queue0;
    for i := 0 to |children|
      invariant Between(tables, refs, deps, indegree, result, queue, before, children[i..])
    {
      var child := children[i];
      assert children[i..] == [child] + children[i + 1..];
      ChildOf(tables, refs, deps, result[|result| - 1], child);
      indegree, queue := Release(tables, refs, deps, indegree, result, queue, before, child, children[i + 1..]);
    }
    BetweenEnds(tables, refs, deps, indegree, result, queue, before);
  }

  lemma ChildOf(tables: seq<Table>, refs: References, deps: map<Table, seq<Table>>, d: Table, t: Table)
    requires IsGraph(tables, refs, deps) && d in deps && t in deps[d]
    ensures t in tables && d in Preds(deps, t)
  {}

  /** When the queue is empty and tables are left, they reference each other in a circle. */
  lemma LeftIsCyclic(tables: seq<Table>, refs: References, deps: map<Table, seq<Table>>, indegree: map<Table, int>,
                     result: seq<Table>)
    requires IsGraph(tables, refs, deps) && Progress(tables, refs, deps, indegree, result, [])
    requires Distinct(tables) && |result| != |tables|
    ensures Cyclic(tables, refs)
  {
    hide Edge, Respects, IsGraph, Missing, HasPred, Cyclic, Distinct;
    var left := Elements(tables) - Elements(result);
    assert result + [] == result;
    SomeLeft(tables, result);
    forall t | t in left
      ensures HasPred(tables, refs, left, t)
    {
      assert t in tables && t !in result + [];
      LeftHasPred(tables, refs, deps, result, t);
    }
    StuckIsCyclic(tables, refs, left);
  }

  lemma SomeLeft(tables: seq<Table>, result: seq<Table>)
    requires Distinct(tables) && Distinct(result) && Elements(result) <= Elements(tables) && |result| != |tables|
    ensures Elements(tables) - Elements(result) != {}
  {
    hide Distinct;
    DistinctSize(result);
    DistinctSize(tables);
    assert Elements(tables) == Elements(result) + (Elements(tables) - Elements(result));
  }

  lemma LeftHasPred(tables: seq<Table>, refs: References, deps: map<Table, seq<Table>>, result: seq<Table>, t: Table)
    requires IsGraph(tables, refs, deps) && t in tables && |Missing(deps, t, Elements(result))| != 0
    ensures HasPred(tables, refs, Elements(tables) - Elements(result), t)
  {
    assert Missing(deps, t, Elements(result)) != {};
    var d :| d in Missing(deps, t, Elements(result));
    assert d in deps && Edge(tables, refs, d, t);
  }

  /** `topologicalSortTables`: a permutation of the tables that puts referenced tables first; the configured
      order is used, with a warning, exactly when the references are circular. */
  method TopologicalSortTables(tables: seq<Table>, refs: References) returns (order: seq<Table>, warned: bool)
    requires Planned(tables, refs)
    ensures multiset(order) == multiset(tables)
    ensures warned <==> Cyclic(tables, refs)
    ensures if warned then order == tables else Respects(tables, refs, order)
  {
    hide Edge, Respects, Between, IsGraph, Cyclic, Preds, Progress, Missing;
    var deps, indegree := BuildGraph(tables, refs);
    var queue := FirstTables(tables, refs, deps, indegree);
    var result: seq<Table> := [];
    while queue != []
      invariant Progress(tables, refs, deps, indegree, result, queue)
      decreases |tables| - |result|
    {
      var current := queue[0];
      TakeCurrent(tables, refs, deps, indegree, result, queue);
      TakeKeeps(tables, refs, deps, indegree, result, queue);
      ProgressRespects(tables, refs, deps, indegree, result, queue);
      TakeRespects(tables, refs, deps, result, current);
      ghost var before := Elements(result);
      queue := queue[1..];
      result := result + [current];
      indegree, queue := ReleaseAll(tables, refs, deps, indegree, result, queue, before, deps[current]);
      ProgressInside(tables, refs, deps, indegree, result, queue);
    }
    ProgressEnds(tables, refs, deps, indegree, result);
    if |result| != |tables| {
      LeftIsCyclic(tables, refs, deps, indegree, result);
      return tables, true;
    }
    return result, false;
  }

  /** The tables that reference nothing, in the configured order. */
  method FirstTables(tables: seq<Table>, refs: References, ghost deps: map<Table, seq<Table>>, indegree: map<Table, int>)
    returns (queue: seq<Table>)
    requires Distinct(tables) && indegree.Keys == Elements(tables)
    requires forall t :: t in indegree ==> indegree[t] == |Preds(deps, t)|
    ensures Progress(tables, refs, deps, indegree, [], queue)
  {
    hide Edge, Preds, Missing, Respects;
    queue := [];
    for i := 0 to |tables|
      invariant Distinct(queue) && forall t :: t in queue <==> t in tables[..i] && t in indegree && indegree[t] == 0
    {
      assert tables[..i + 1] == tables[..i] + [tables[i]];
      if indegree[tables[i]] == 0 { queue := queue + [tables[i]]; }
    }
    assert tables[..|tables|] == tables && [] + queue == queue;
    assert Elements<Table>([]) == {};
    NothingDone(tables, refs, deps);
  }

  lemma NothingDone(tables: seq<Table>, refs: References, deps: map<Table, seq<Table>>)
    ensures Respects(tables, refs, []) && forall t :: Missing(deps, t, {}) == Preds(deps, t)
  {}

  lemma ProgressRespects(tables: seq<Table>, refs: References, deps: map<Table, seq<Table>>, indegree: map<Table, int>,
                         result: seq<Table>, queue: seq<Table>)
    requires Progress(tables, refs, deps, indegree, result, queue)
    ensures Respects(tables, refs, result)
  {}

  lemma ProgressInside(tables: seq<Table>, refs: References, deps: map<Table, seq<Table>>, indegree: map<Table, int>,
                       result: seq<Table>, queue: seq<Table>)
    requires Progress(tables, refs, deps, indegree, result, queue) && Distinct(tables)
    ensures |result| <= |tables|
  {
    hide Edge, Respects, Missing;
    InsideTables(tables, result + queue);
  }

  lemma ProgressEnds(tables: seq<Table>, refs: References, deps: map<Table, seq<Table>>, indegree: map<Table, int>,
                     result: seq<Table>)
    requires Progress(tables, refs, deps, indegree, result, []) && Distinct(tables)
    ensures |result| == |tables| ==>
              multiset(result) == multiset(tables) && Respects(tables, refs, result) && !Cyclic(tables, refs)
  {
    hide Edge, Respects, Missing, Cyclic;
    assert result + [] == result;
    if |result| == |tables| {
      DistinctSize(result);
      DistinctSize(tables);
      SubsetSize(Elements(result), Elements(tables));
      DistinctPermutation(result, tables);
      OrderedIsAcyclic(tables, refs, result);
    }
  }
}
