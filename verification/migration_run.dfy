/** Whole runs of the migration over all tables. */
module MigrationRun {
  import opened MigrationPasses
  import opened MigrationStore
  import opened Sequences
  import opened TableOrder
  import opened Wrappers

  datatype World = World(stores: map<string, Store>, minted: nat)

  type Plans = map<Table, Plan>
  type Source = map<Table, seq<Row>>

  /** Every table has its own collection. */
  ghost predicate PlansOk(plans: Plans) {
    (forall t :: t in plans ==> PlanOk(plans[t])) &&
    forall t, u :: t in plans && u in plans && t != u ==> plans[t].pbCollection != plans[u].pbCollection
  }

  ghost predicate WorldOk(w: World, plans: Plans) {
    forall t :: t in plans ==>
      plans[t].pbCollection in w.stores && StoreOk(w.stores[plans[t].pbCollection], w.minted) &&
      UniqueKeys(w.stores[plans[t].pbCollection])
  }

  function Start(w: World, coll: string): Pass
    requires coll in w.stores
  {
    Pass(w.stores[coll], w.minted, AllKeys(w.stores[coll]))
  }

  function RowsOf(source: Source, t: Table): seq<Row> { if t in source then source[t] else [] }

  function Pass1Table(w: World, plan: Plan, rows: seq<Row>, convert: Conversion): World {
    if plan.pbCollection !in w.stores then w
    else
      var p := PassRows(Start(w, plan.pbCollection), rows, plan, convert);
      World(w.stores[plan.pbCollection := p.store], p.minted)
  }

  function Pass1All(w: World, order: seq<Table>, plans: Plans, source: Source, convert: Conversion): World {
    if order == [] then w
    else
      var n := |order| - 1;
      var v := Pass1All(w, order[..n], plans, source, convert);
      if order[n] in plans then Pass1Table(v, plans[order[n]], RowsOf(source, order[n]), convert) else v
  }

  function MapsOf(w: World, plans: Plans): Maps {
    map t | t in plans :: if plans[t].pbCollection in w.stores then AllKeys(w.stores[plans[t].pbCollection]) else map[]
  }

  function Pass2Table(w: World, plan: Plan, plans: Plans): World {
    if plan.pbCollection !in w.stores then w
    else w.(stores := w.stores[plan.pbCollection := Pass2(w.stores[plan.pbCollection], plan, MapsOf(w, plans))])
  }

  function Pass2All(w: World, order: seq<Table>, plans: Plans): World {
    if order == [] then w
    else
      var n := |order| - 1;
      var v := Pass2All(w, order[..n], plans);
      if order[n] in plans then Pass2Table(v, plans[order[n]], plans) else v
  }

  function Migrate(w: World, order: seq<Table>, plans: Plans, source: Source, convert: Conversion): World {
    Pass2All(Pass1All(w, order, plans, source, convert), order, plans)
  }

  // ---------------------------------------------------------------- after pass 1

  /** The collection of a table before and after pass 1. */
  ghost predicate TableDone(w: World, v: World, plan: Plan, rows: seq<Row>, convert: Conversion)
    requires plan.pbCollection in w.stores && plan.pbCollection in v.stores
  {
    Closed(Start(w, plan.pbCollection), rows, plan, convert, Start(v, plan.pbCollection))
  }

  ghost predicate Pass1Done(w: World, v: World, done: set<Table>, plans: Plans, source: Source, convert: Conversion) {
    w.minted <= v.minted && v.stores.Keys == w.stores.Keys && WorldOk(v, plans) &&
    (forall t :: t in plans && plans[t].pbCollection in w.stores ==>
       if t in done then TableDone(w, v, plans[t], RowsOf(source, t), convert)
       else v.stores[plans[t].pbCollection] == w.stores[plans[t].pbCollection]) &&
    forall c :: c in w.stores && (forall t :: t in done && t in plans ==> plans[t].pbCollection != c) ==> v.stores[c] == w.stores[c]
  }

  lemma MoreMinted(s: Store, a: nat, b: nat)
    requires StoreOk(s, a) && a <= b
    ensures StoreOk(s, b)
  {}

  lemma RecordsMoreMinted(p0: Pass, rows: seq<Row>, plan: Plan, convert: Conversion, p: Pass, from: nat, to: nat)
    requires ClosedRecords(p0, rows, plan, convert, p)
    ensures ClosedRecords(p0.(minted := from), rows, plan, convert, p.(minted := to))
  {
    hide LastPayload, Overwritten;
    forall k | k in p.existing
      ensures p.store.records[p.existing[k]] ==
              Overwritten(Before(p0.(minted := from), k), LastPayload(rows, plan, convert, k))
    {
      assert Before(p0.(minted := from), k) == Before(p0, k);
    }
  }

  lemma KeysMoreMinted(p0: Pass, rows: seq<Row>, plan: Plan, convert: Conversion, p: Pass, from: nat, to: nat)
    requires ClosedKeys(p0, rows, plan, convert, p)
    ensures ClosedKeys(p0.(minted := from), rows, plan, convert, p.(minted := to))
  {
    hide LastPayload;
  }

  lemma RestMoreMinted(p0: Pass, p: Pass, from: nat, to: nat)
    requires ClosedRest(p0, p) && from <= p0.minted && p.minted <= to
    ensures ClosedRest(p0.(minted := from), p.(minted := to))
  {
    hide KeyOf;
  }

  /** Minting more ids elsewhere does not matter. */
  lemma ClosedMoreMinted(p0: Pass, rows: seq<Row>, plan: Plan, convert: Conversion, p: Pass, from: nat, to: nat)
    requires Closed(p0, rows, plan, convert, p) && from <= p0.minted && p.minted <= to
    ensures Closed(p0.(minted := from), rows, plan, convert, p.(minted := to))
  {
    hide StoreOk, Keyed, ClosedRecords, ClosedKeys, ClosedRest;
    MoreMinted(p.store, p.minted, to);
    RecordsMoreMinted(p0, rows, plan, convert, p, from, to);
    KeysMoreMinted(p0, rows, plan, convert, p, from, to);
    RestMoreMinted(p0, p, from, to);
  }

  lemma StartOk(w: World, plan: Plan)
    requires plan.pbCollection in w.stores && StoreOk(w.stores[plan.pbCollection], w.minted)
    requires UniqueKeys(w.stores[plan.pbCollection])
    ensures PassOk(Start(w, plan.pbCollection))
  {
    hide StoreOk, UniqueKeys, AllKeys, Keyed;
    AllKeysKeyed(w.stores[plan.pbCollection], w.minted);
  }

  /** Pass 1 of one table, from a world that was reached from `w`. */
  lemma TableIsDone(w: World, v: World, plan: Plan, rows: seq<Row>, convert: Conversion)
    requires PlanOk(plan) && plan.pbCollection in v.stores && plan.pbCollection in w.stores
    requires v.stores[plan.pbCollection] == w.stores[plan.pbCollection] && w.minted <= v.minted
    requires StoreOk(v.stores[plan.pbCollection], v.minted) && UniqueKeys(v.stores[plan.pbCollection])
    ensures var u := Pass1Table(v, plan, rows, convert);
            u.stores.Keys == v.stores.Keys && v.minted <= u.minted && TableDone(w, u, plan, rows, convert) &&
            StoreOk(u.stores[plan.pbCollection], u.minted) && UniqueKeys(u.stores[plan.pbCollection])
  {
    hide PlanOk, PassOk, ClosedKeys, ClosedRecords, StoreOk, UniqueKeys, AllKeys, Keyed, PassRows;
    StartOk(v, plan);
    var p0 := Start(v, plan.pbCollection);
    PassRowsClosed(p0, rows, plan, convert);
    var p := PassRows(p0, rows, plan, convert);
    PassOkParts(p);
    KeyedIsAllKeys(p.store, p.minted, p.existing);
    KeyedIsUnique(p.store, p.existing);
    ClosedMoreMinted(p0, rows, plan, convert, p, w.minted, p.minted);
    ClosedGrows(p0, rows, plan, convert, p);
  }

  lemma PassOkParts(p: Pass)
    requires PassOk(p)
    ensures StoreOk(p.store, p.minted) && Keyed(p.store, p.existing)
  {}

  lemma ClosedGrows(p0: Pass, rows: seq<Row>, plan: Plan, convert: Conversion, p: Pass)
    requires Closed(p0, rows, plan, convert, p)
    ensures p0.minted <= p.minted
  {}

  lemma {:induction false} Pass1AllDone(w: World, order: seq<Table>, plans: Plans, source: Source, convert: Conversion)
    requires PlansOk(plans) && WorldOk(w, plans) && Distinct(order) && Elements(order) <= plans.Keys
    ensures Pass1Done(w, Pass1All(w, order, plans, source, convert), Elements(order), plans, source, convert)
    decreases |order|
  {
    hide Pass1Table, TableDone, PlanOk, StoreOk, UniqueKeys;
    if order != [] {
      var n := |order| - 1;
      var t := order[n];
      Pass1AllDone(w, order[..n], plans, source, convert);
      var v := Pass1All(w, order[..n], plans, source, convert);
      assert Elements(order) == Elements(order[..n]) + {t};
      assert t in Elements(order);
      TableIsDone(w, v, plans[t], RowsOf(source, t), convert);
      OthersKept(w, v, order[..n], t, plans, source, convert);
    }
  }

  /** The other tables keep what they have. */
  lemma OthersKept(w: World, v: World, done: seq<Table>, t: Table, plans: Plans, source: Source, convert: Conversion)
    requires PlansOk(plans) && WorldOk(w, plans) && t in plans && t !in done
    requires Pass1Done(w, v, Elements(done), plans, source, convert)
    requires var u := Pass1Table(v, plans[t], RowsOf(source, t), convert);
             u.stores.Keys == v.stores.Keys && v.minted <= u.minted && TableDone(w, u, plans[t], RowsOf(source, t), convert) &&
             StoreOk(u.stores[plans[t].pbCollection], u.minted) && UniqueKeys(u.stores[plans[t].pbCollection])
    ensures Pass1Done(w, Pass1Table(v, plans[t], RowsOf(source, t), convert), Elements(done) + {t}, plans, source, convert)
  {
    hide PlanOk, StoreOk, UniqueKeys, TableDone, PassRows, Start;
    var u := Pass1Table(v, plans[t], RowsOf(source, t), convert);
    forall s | s in plans && s != t
      ensures u.stores[plans[s].pbCollection] == v.stores[plans[s].pbCollection]
      ensures StoreOk(u.stores[plans[s].pbCollection], u.minted) && UniqueKeys(u.stores[plans[s].pbCollection])
      ensures TableDone(w, v, plans[s], RowsOf(source, s), convert) ==> TableDone(w, u, plans[s], RowsOf(source, s), convert)
    {
      MoreMinted(v.stores[plans[s].pbCollection], v.minted, u.minted);
      DoneElsewhere(w, v, u, plans[s], RowsOf(source, s), convert);
    }
  }

  lemma DoneElsewhere(w: World, v: World, u: World, plan: Plan, rows: seq<Row>, convert: Conversion)
    requires plan.pbCollection in w.stores && plan.pbCollection in v.stores && plan.pbCollection in u.stores
    requires u.stores[plan.pbCollection] == v.stores[plan.pbCollection] && v.minted <= u.minted
    ensures TableDone(w, v, plan, rows, convert) ==> TableDone(w, u, plan, rows, convert)
  {
    hide Closed, AllKeys;
    if TableDone(w, v, plan, rows, convert) {
      ClosedMoreMinted(Start(w, plan.pbCollection), rows, plan, convert, Start(v, plan.pbCollection), w.minted, u.minted);
    }
  }

  // ---------------------------------------------------------------- after pass 2

  ghost predicate Pass2Tables(v: World, u: World, done: set<Table>, plans: Plans)
    requires u.stores.Keys == v.stores.Keys
  {
    forall t :: t in plans && plans[t].pbCollection in v.stores ==>
      u.stores[plans[t].pbCollection] ==
      if t in done then Pass2(v.stores[plans[t].pbCollection], plans[t], MapsOf(v, plans)) else v.stores[plans[t].pbCollection]
  }

  ghost predicate Pass2Others(v: World, u: World, done: set<Table>, plans: Plans)
    requires u.stores.Keys == v.stores.Keys
  {
    forall c :: c in v.stores && (forall t :: t in done && t in plans ==> plans[t].pbCollection != c) ==> u.stores[c] == v.stores[c]
  }

  /** The collections of the tables in `done` went through pass 2, with the maps of the world before it. */
  ghost predicate Pass2Done(v: World, u: World, done: set<Table>, plans: Plans) {
    u.minted == v.minted && u.stores.Keys == v.stores.Keys && MapsOf(u, plans) == MapsOf(v, plans) &&
    Pass2Tables(v, u, done, plans) && Pass2Others(v, u, done, plans)
  }

  lemma {:induction false} Pass2AllDone(v: World, order: seq<Table>, plans: Plans)
    requires PlansOk(plans) && WorldOk(v, plans) && Distinct(order) && Elements(order) <= plans.Keys
    ensures Pass2Done(v, Pass2All(v, order, plans), Elements(order), plans)
    decreases |order|
  {
    hide Pass2Table, PlanOk, StoreOk, UniqueKeys, MapsOf, Pass2;
    if order != [] {
      var n := |order| - 1;
      Pass2AllDone(v, order[..n], plans);
      assert Elements(order) == Elements(order[..n]) + {order[n]};
      assert order[n] in Elements(order);
      Pass2Step(v, Pass2All(v, order[..n], plans), order[..n], order[n], plans);
    }
  }

  /** Pass 2 of one table changes its collection only, and no keys. */
  lemma Pass2TableOnly(u: World, t: Table, plans: Plans)
    requires PlansOk(plans) && t in plans && plans[t].pbCollection in u.stores
    requires StoreOk(u.stores[plans[t].pbCollection], u.minted)
    ensures var w, c := Pass2Table(u, plans[t], plans), plans[t].pbCollection;
            w == World(u.stores[c := Pass2(u.stores[c], plans[t], MapsOf(u, plans))], u.minted) &&
            w.stores.Keys == u.stores.Keys && MapsOf(w, plans) == MapsOf(u, plans)
  {
    hide PlanOk, StoreOk, UniqueKeys, Pass2, MapsOf, AllKeys;
    Pass2StoreOk(u.stores[plans[t].pbCollection], u.minted, plans[t], MapsOf(u, plans));
    SameMaps(u, Pass2Table(u, plans[t], plans), plans);
  }

  lemma Pass2Step(v: World, u: World, done: seq<Table>, t: Table, plans: Plans)
    requires PlansOk(plans) && WorldOk(v, plans) && t in plans && t !in done
    requires Pass2Done(v, u, Elements(done), plans)
    ensures Pass2Done(v, Pass2Table(u, plans[t], plans), Elements(done) + {t}, plans)
  {
    hide PlanOk, StoreOk, UniqueKeys, Pass2, MapsOf, AllKeys, Pass2Table, Pass2Others;
    Pass2TableOnly(u, t, plans);
    StepOthers(v, u, Pass2Table(u, plans[t], plans), Elements(done), t, plans);
  }

  lemma StepOthers(v: World, u: World, w: World, done: set<Table>, t: Table, plans: Plans)
    requires u.stores.Keys == v.stores.Keys == w.stores.Keys && t in plans && Pass2Others(v, u, done, plans)
    requires forall c :: c in v.stores && c != plans[t].pbCollection ==> w.stores[c] == u.stores[c]
    ensures Pass2Others(v, w, done + {t}, plans)
  {
    forall c | c in v.stores && forall s :: s in done + {t} && s in plans ==> plans[s].pbCollection != c
      ensures w.stores[c] == v.stores[c]
    {
      assert t in done + {t};
    }
  }

  lemma SameMaps(u: World, w: World, plans: Plans)
    requires u.stores.Keys == w.stores.Keys
    requires forall t :: t in plans && plans[t].pbCollection in u.stores ==>
               AllKeys(u.stores[plans[t].pbCollection]) == AllKeys(w.stores[plans[t].pbCollection])
    ensures MapsOf(u, plans) == MapsOf(w, plans)
  {
    hide AllKeys;
  }

  /** The world of a run stays in order. */
  lemma Pass2Ok(v: World, u: World, order: seq<Table>, plans: Plans)
    requires PlansOk(plans) && WorldOk(v, plans) && Pass2Done(v, u, Elements(order), plans)
    ensures WorldOk(u, plans)
  {
    hide PlanOk, StoreOk, UniqueKeys, MapsOf, Pass2;
    forall t | t in plans
      ensures StoreOk(u.stores[plans[t].pbCollection], u.minted) && UniqueKeys(u.stores[plans[t].pbCollection])
    {
      Pass2StoreOk(v.stores[plans[t].pbCollection], v.minted, plans[t], MapsOf(v, plans));
    }
  }

  // ---------------------------------------------------------------- every reference

  lemma {:induction false} PayloadAt(row: Row, columns: seq<Column>, convert: Conversion, i: nat, name: string)
    requires NamesApart(columns) && i < |columns| && name in ColumnNames(columns[i])
    requires forall j :: 0 <= j < |columns| ==> columns[j].isForeignKey == columns[j].fkTempField.Some?
    ensures FieldOf(Payload(row, columns, convert), name) == FieldOf(ColumnFields(row, columns[i], convert), name)
    decreases |columns|
  {
    var n := |columns| - 1;
    if i < n {
      PayloadAt(row, columns[..n], convert, i, name);
      assert name !in ColumnFields(row, columns[n], convert);
    } else {
      assert name in ColumnFields(row, columns[n], convert);
    }
  }

  /** What pass 1 writes for a foreign key: no reference yet, and the old one in the temporary field. */
  lemma PassWritesReference(row: Row, plan: Plan, convert: Conversion, key: string, base: Fields, i: nat)
    requires PlanOk(plan) && i < |plan.columns| && plan.columns[i].isForeignKey
    ensures var rec := base + FullPayload(row, plan, convert, key);
            var col := plan.columns[i];
            FieldOf(rec, col.pbField) == Null &&
            FieldOf(rec, col.fkTempField.value) == Reference(FieldOf(row, col.source))
  {
    hide Payload, Reference, FieldOf;
    var col := plan.columns[i];
    PayloadAt(row, plan.columns, convert, i, col.pbField);
    PayloadAt(row, plan.columns, convert, i, col.fkTempField.value);
    FieldsNamed(row, plan.columns, convert, i);
    FieldIn(base, FullPayload(row, plan, convert, key), col.pbField);
    FieldIn(base, FullPayload(row, plan, convert, key), col.fkTempField.value);
    FieldKept(Payload(row, plan.columns, convert), key, col.pbField);
    FieldKept(Payload(row, plan.columns, convert), key, col.fkTempField.value);
    TwoFields(col.pbField, col.fkTempField.value, Reference(FieldOf(row, col.source)));
  }

  lemma TwoFields(a: string, b: string, v: Value)
    requires a != b
    ensures FieldOf(map[a := Null, b := v], a) == Null && FieldOf(map[a := Null, b := v], b) == v
  {}

  lemma FieldIn(base: Fields, f: Fields, name: string)
    requires name in f
    ensures FieldOf(base + f, name) == FieldOf(f, name)
  {}

  lemma FieldKept(f: Fields, key: string, name: string)
    requires name != OLD_ID
    ensures FieldOf(f[OLD_ID := Text(key)], name) == FieldOf(f, name)
  {}

  lemma FieldsNamed(row: Row, columns: seq<Column>, convert: Conversion, i: nat)
    requires i < |columns| && forall j :: 0 <= j < |columns| ==> columns[j].isForeignKey == columns[j].fkTempField.Some?
    ensures ColumnNames(columns[i]) <= Payload(row, columns, convert).Keys
  {
    PayloadNames(row, columns, convert);
    WrittenHas(columns, i);
  }

  lemma {:induction false} WrittenHas(columns: seq<Column>, i: nat)
    requires i < |columns|
    ensures ColumnNames(columns[i]) <= Written(columns)
  {
    if i < |columns| - 1 { WrittenHas(columns[..|columns| - 1], i); }
  }

  /** A reference after the run: it points to the record that it names, or waits in the temporary field. */
  ghost predicate ReferenceKept(rec: Fields, col: Column, raw: Value, maps: Maps)
    requires col.fkTempField.Some?
  {
    match NormalizeOldId(raw)
    case None => FieldOf(rec, col.pbField) == Null && FieldOf(rec, col.fkTempField.value) == Null
    case Some(r) =>
      if col.target in maps && r in maps[col.target] && maps[col.target][r] != [] then
        FieldOf(rec, col.pbField) == Text(maps[col.target][r]) && FieldOf(rec, col.fkTempField.value) == Null
      else
        FieldOf(rec, col.pbField) == Null && FieldOf(rec, col.fkTempField.value) == Text(r)
  }

  lemma ReferenceIsKept(row: Row, plan: Plan, convert: Conversion, key: string, base: Fields, maps: Maps, i: nat)
    requires PlanOk(plan) && i < |plan.columns| && plan.columns[i].isForeignKey
    ensures plan.columns[i].fkTempField.Some?
    ensures var rec := base + FullPayload(row, plan, convert, key);
            ReferenceKept(rec + Patch(rec, plan.columns, maps), plan.columns[i], FieldOf(row, plan.columns[i].source), maps)
  {
    hide FullPayload, Patch, FieldOf;
    var rec := base + FullPayload(row, plan, convert, key);
    PassWritesReference(row, plan, convert, key, base, i);
    Pass2Column(rec, plan, maps, i);
    var raw := FieldOf(row, plan.columns[i].source);
    if NormalizeOldId(raw).Some? { NormalizeTwice(raw); }
  }

  function CollectionOf(w: World, plan: Plan): Store {
    if plan.pbCollection in w.stores then w.stores[plan.pbCollection] else Store([], map[])
  }

  /** `id` is a record of the table's collection with the given old id. */
  ghost predicate HasKey(w: World, plans: Plans, t: Table, id: Id, key: string) {
    t in plans && var s := CollectionOf(w, plans[t]); id in s.records && KeyOf(s.records[id]) == Some(key)
  }

  /** A reference after the run, without the maps: it points to the record of the target with the old id that it
      names; if there is none, the old id waits in the temporary field. */
  ghost predicate LinkKept(w: World, plans: Plans, rec: Fields, col: Column, raw: Value)
    requires col.fkTempField.Some?
  {
    match NormalizeOldId(raw)
    case None => FieldOf(rec, col.pbField) == Null && FieldOf(rec, col.fkTempField.value) == Null
    case Some(r) =>
      (forall id :: HasKey(w, plans, col.target, id, r) ==>
         FieldOf(rec, col.pbField) == Text(id) && FieldOf(rec, col.fkTempField.value) == Null) &&
      ((forall id :: !HasKey(w, plans, col.target, id, r)) ==>
         FieldOf(rec, col.pbField) == Null && FieldOf(rec, col.fkTempField.value) == Text(r))
  }

  /** In a world in order, the maps find exactly the records with an old id. */
  lemma MapsFind(w: World, plans: Plans, t: Table, key: string)
    requires WorldOk(w, plans)
    ensures t in MapsOf(w, plans) && key in MapsOf(w, plans)[t] ==>
              HasKey(w, plans, t, MapsOf(w, plans)[t][key], key) && MapsOf(w, plans)[t][key] != []
    ensures forall id :: HasKey(w, plans, t, id, key) ==>
              t in MapsOf(w, plans) && key in MapsOf(w, plans)[t] && MapsOf(w, plans)[t][key] == id
  {
    hide KeyOf, AllKeys, UniqueKeys;
    if t in plans { AllKeysKeyed(w.stores[plans[t].pbCollection], w.minted); }
  }

  lemma LinkIsKept(w: World, plans: Plans, rec: Fields, col: Column, raw: Value)
    requires WorldOk(w, plans) && col.fkTempField.Some? && ReferenceKept(rec, col, raw, MapsOf(w, plans))
    ensures LinkKept(w, plans, rec, col, raw)
  {
    hide MapsOf, HasKey, WorldOk, FieldOf, NormalizeOldId;
    if NormalizeOldId(raw).Some? { MapsFind(w, plans, col.target, NormalizeOldId(raw).value); }
  }

  /** The one record of the key keeps the reference. */
  ghost predicate RecordKept(s: Store, key: string, col: Column, raw: Value, maps: Maps) {
    UniqueKeys(s) && key in AllKeys(s) && AllKeys(s)[key] in s.records && KeyOf(s.records[AllKeys(s)[key]]) == Some(key) &&
    col.fkTempField.Some? && ReferenceKept(s.records[AllKeys(s)[key]], col, raw, maps)
  }

  /** The fields that both passes leave in the record of a row. */
  ghost function AfterRun(base: Fields, row: Row, plan: Plan, convert: Conversion, key: string, maps: Maps): Fields {
    var rec := base + FullPayload(row, plan, convert, key);
    rec + Patch(rec, plan.columns, maps)
  }

  /** After a run the record of a source key holds what the last row of the key left there. */
  lemma RecordAfter(w: World, order: seq<Table>, plans: Plans, source: Source, convert: Conversion, t: Table, key: string)
    requires PlansOk(plans) && WorldOk(w, plans) && Distinct(order) && Elements(order) == plans.Keys && t in plans
    requires LastRow(RowsOf(source, t), plans[t], key).Some?
    ensures plans[t].pbCollection in w.stores
    ensures var u := Migrate(w, order, plans, source, convert); var s := CollectionOf(u, plans[t]);
            WorldOk(u, plans) && UniqueKeys(s) && key in AllKeys(s) && AllKeys(s)[key] in s.records &&
            KeyOf(s.records[AllKeys(s)[key]]) == Some(key) &&
            s.records[AllKeys(s)[key]] ==
            AfterRun(Before(Start(w, plans[t].pbCollection), key), LastRow(RowsOf(source, t), plans[t], key).value, plans[t],
                     convert, key, MapsOf(u, plans))
  {
    hide Pass1All, Pass2All, PlanOk, StoreOk, UniqueKeys, AllKeys, MapsOf, FieldOf, KeyOf, FullPayload, Patch, LastRow, Before;
    var v := Pass1All(w, order, plans, source, convert);
    Pass1AllDone(w, order, plans, source, convert);
    Pass2AllDone(v, order, plans);
    var u := Migrate(w, order, plans, source, convert);
    Pass2Ok(v, u, order, plans);
    var c := plans[t].pbCollection;
    assert t in Elements(order);
    assert TableDone(w, v, plans[t], RowsOf(source, t), convert);
    DoneRecord(Start(w, c), RowsOf(source, t), plans[t], convert, Start(v, c), key);
    Pass2StoreOk(v.stores[c], v.minted, plans[t], MapsOf(v, plans));
    Pass2Keys(v.stores[c].records[AllKeys(v.stores[c])[key]], plans[t], MapsOf(v, plans));
  }

  /** No reference is lost: after a run, the record of each key of a table's source holds each reference of the last
      row with that key, as a link to the record that it names or else in the temporary field. */
  lemma MigrationKeepsReferences(w: World, order: seq<Table>, plans: Plans, source: Source, convert: Conversion,
                                 t: Table, key: string, i: nat)
    requires PlansOk(plans) && WorldOk(w, plans) && Distinct(order) && Elements(order) == plans.Keys && t in plans
    requires LastRow(RowsOf(source, t), plans[t], key).Some?
    requires i < |plans[t].columns| && plans[t].columns[i].isForeignKey
    ensures var u := Migrate(w, order, plans, source, convert);
            var s, col := CollectionOf(u, plans[t]), plans[t].columns[i];
            var raw := FieldOf(LastRow(RowsOf(source, t), plans[t], key).value, col.source);
            RecordKept(s, key, col, raw, MapsOf(u, plans)) && LinkKept(u, plans, s.records[AllKeys(s)[key]], col, raw)
  {
    hide Migrate, WorldOk, StoreOk, UniqueKeys, AllKeys, MapsOf, FieldOf, KeyOf, ReferenceKept, LinkKept, LastRow, Before, PlanOk,
      FullPayload, Patch;
    RecordAfter(w, order, plans, source, convert, t, key);
    var u := Migrate(w, order, plans, source, convert);
    var s, col := CollectionOf(u, plans[t]), plans[t].columns[i];
    var row := LastRow(RowsOf(source, t), plans[t], key).value;
    ReferenceIsKept(row, plans[t], convert, key, Before(Start(w, plans[t].pbCollection), key), MapsOf(u, plans), i);
    LinkIsKept(u, plans, s.records[AllKeys(s)[key]], col, FieldOf(row, col.source));
  }

  /** What pass 1 writes for another column stays there. */
  lemma ValueIsKept(row: Row, plan: Plan, convert: Conversion, key: string, base: Fields, maps: Maps, i: nat)
    requires PlanOk(plan) && i < |plan.columns| && !plan.columns[i].isForeignKey
    ensures var col := plan.columns[i];
            FieldOf(AfterRun(base, row, plan, convert, key, maps), col.pbField) == convert(FieldOf(row, col.source), col.pbType)
  {
    hide Payload, FieldOf, Patch;
    var col := plan.columns[i];
    PayloadAt(row, plan.columns, convert, i, col.pbField);
    FieldsNamed(row, plan.columns, convert, i);
    FieldIn(base, FullPayload(row, plan, convert, key), col.pbField);
    FieldKept(Payload(row, plan.columns, convert), key, col.pbField);
    Pass2Column(base + FullPayload(row, plan, convert, key), plan, maps, i);
    OneField(col.pbField, convert(FieldOf(row, col.source), col.pbType));
  }

  lemma OneField(a: string, v: Value)
    ensures FieldOf(map[a := v], a) == v
  {}

  /** A column of the record: the converted value, or the reference. */
  ghost predicate ColumnKept(w: World, plans: Plans, rec: Fields, col: Column, row: Row, convert: Conversion) {
    if col.isForeignKey then col.fkTempField.Some? && LinkKept(w, plans, rec, col, FieldOf(row, col.source))
    else FieldOf(rec, col.pbField) == convert(FieldOf(row, col.source), col.pbType)
  }

  /** No row is lost: after a run, every source key of every table has exactly one record, and it holds all columns of
      the last row with that key. */
  lemma MigrationKeepsRows(w: World, order: seq<Table>, plans: Plans, source: Source, convert: Conversion, t: Table, key: string)
    returns (id: Id)
    requires PlansOk(plans) && WorldOk(w, plans) && Distinct(order) && Elements(order) == plans.Keys && t in plans
    requires LastRow(RowsOf(source, t), plans[t], key).Some?
    ensures var u := Migrate(w, order, plans, source, convert);
            HasKey(u, plans, t, id, key) && (forall j :: HasKey(u, plans, t, j, key) ==> j == id) &&
            forall i :: 0 <= i < |plans[t].columns| ==>
              ColumnKept(u, plans, CollectionOf(u, plans[t]).records[id], plans[t].columns[i],
                         LastRow(RowsOf(source, t), plans[t], key).value, convert)
  {
    hide Migrate, WorldOk, StoreOk, UniqueKeys, AllKeys, MapsOf, FieldOf, KeyOf, LinkKept, LastRow, Before, AfterRun, PlanOk, RecordKept;
    RecordAfter(w, order, plans, source, convert, t, key);
    var u := Migrate(w, order, plans, source, convert);
    var s := CollectionOf(u, plans[t]);
    id := AllKeys(s)[key];
    OnlyRecord(s, id, key);
    forall i | 0 <= i < |plans[t].columns|
      ensures ColumnKept(u, plans, s.records[id], plans[t].columns[i], LastRow(RowsOf(source, t), plans[t], key).value, convert)
    {
      if plans[t].columns[i].isForeignKey {
        MigrationKeepsReferences(w, order, plans, source, convert, t, key, i);
        KeptHasField(s, key, plans[t].columns[i], FieldOf(LastRow(RowsOf(source, t), plans[t], key).value,
                     plans[t].columns[i].source), MapsOf(u, plans));
      } else {
        ValueIsKept(LastRow(RowsOf(source, t), plans[t], key).value, plans[t], convert, key,
                    Before(Start(w, plans[t].pbCollection), key), MapsOf(u, plans), i);
      }
    }
  }

  lemma KeptHasField(s: Store, key: string, col: Column, raw: Value, maps: Maps)
    requires RecordKept(s, key, col, raw, maps)
    ensures col.fkTempField.Some?
  {
    hide ReferenceKept, KeyOf, AllKeys, UniqueKeys;
  }

  lemma OnlyRecord(s: Store, id: Id, key: string)
    requires UniqueKeys(s) && id in s.records && KeyOf(s.records[id]) == Some(key)
    ensures forall j :: j in s.records && KeyOf(s.records[j]) == Some(key) ==> j == id
  {
    hide KeyOf;
  }

  lemma DoneRecord(p0: Pass, rows: seq<Row>, plan: Plan, convert: Conversion, p: Pass, key: string)
    requires Closed(p0, rows, plan, convert, p) && LastRow(rows, plan, key).Some?
    ensures key in p.existing && p.existing[key] in p.store.records && KeyOf(p.store.records[p.existing[key]]) == Some(key)
    ensures p.store.records[p.existing[key]] ==
            Before(p0, key) + FullPayload(LastRow(rows, plan, key).value, plan, convert, key)
  {
    hide KeyOf, StoreOk, FullPayload, LastRow, Before;
    assert LastPayload(rows, plan, convert, key).Some?;
  }

  // ---------------------------------------------------------------- running twice

  /** What the second pass 1 does to a collection that went through both passes: it puts the records of the
      source back to where pass 2 found them, and leaves the others alone. */
  lemma SecondPass1(p0: Pass, rows: seq<Row>, plan: Plan, convert: Conversion, p: Pass, maps: Maps, q0: Pass, q: Pass)
    requires PlanOk(plan) && Closed(p0, rows, plan, convert, p) && Closed(q0, rows, plan, convert, q)
    requires q0.store == Pass2(p.store, plan, maps) && q0.existing == p.existing && q.store.order == q0.store.order
    requires StoreOk(q.store, q.minted) && StoreOk(q0.store, q.minted)
    ensures q.store.records.Keys == p.store.records.Keys
    ensures forall id :: id in p.store.records ==>
              q.store.records[id] == p.store.records[id] || q.store.records[id] == q0.store.records[id]
  {
    hide PlanOk, KeyOf, Patch, FullPayload, LastRow, Before, Closed;
    ClosedParts(p0, rows, plan, convert, p);
    ClosedParts(q0, rows, plan, convert, q);
    forall id | id in p.store.records
      ensures id in q.store.records
      ensures q.store.records[id] == p.store.records[id] || q.store.records[id] == q0.store.records[id]
    {
      SecondRecord(p0, rows, plan, convert, p, maps, q0, q, id);
    }
  }

  lemma ClosedParts(p0: Pass, rows: seq<Row>, plan: Plan, convert: Conversion, p: Pass)
    requires Closed(p0, rows, plan, convert, p)
    ensures PassOk(p) && ClosedKeys(p0, rows, plan, convert, p) && ClosedRecords(p0, rows, plan, convert, p) && ClosedRest(p0, p)
  {}

  lemma SecondRecord(p0: Pass, rows: seq<Row>, plan: Plan, convert: Conversion, p: Pass, maps: Maps, q0: Pass, q: Pass, id: Id)
    requires PlanOk(plan) && Closed(p0, rows, plan, convert, p) && Closed(q0, rows, plan, convert, q)
    requires q0.store == Pass2(p.store, plan, maps) && q0.existing == p.existing && id in p.store.records
    ensures id in q.store.records
    ensures q.store.records[id] == p.store.records[id] || q.store.records[id] == q0.store.records[id]
  {
    hide PlanOk, KeyOf, Patch, FullPayload, LastRow, StoreOk;
    var rec := q.store.records[id];
    match KeyOf(rec)
    case None => assert rec == q0.store.records[id];
    case Some(k) =>
      assert k in q.existing && q.existing[k] == id;
      assert rec == Overwritten(Before(q0, k), LastPayload(rows, plan, convert, k));
      match LastPayload(rows, plan, convert, k)
      case None => assert k in q0.existing && rec == q0.store.records[id];
      case Some(f) =>
        assert k in p.existing && p.existing[k] == id;
        assert p.store.records[id] == Before(p0, k) + f;
        LastPayloadNames(rows, plan, convert, k);
        PatchNames(p.store.records[id], plan.columns, maps);
        PayloadUndoesPatch(Before(p0, k), f, Patch(p.store.records[id], plan.columns, maps));
  }

  /** Patching a record, or its patched form, gives the patched form. */
  lemma PatchedAgain(rec: Fields, now: Fields, plan: Plan, maps: Maps)
    requires PlanOk(plan) && (now == rec || now == rec + Patch(rec, plan.columns, maps))
    ensures now + Patch(now, plan.columns, maps) == rec + Patch(rec, plan.columns, maps) && KeyOf(now) == KeyOf(rec)
  {
    hide PlanOk, KeyOf, Patch;
    Pass2Keys(rec, plan, maps);
    Pass2Twice(rec, plan, maps);
    assert now + map[] == now;
  }

  /** The second pass 2 ends where the first one did. */
  lemma SecondPass2(p0: Pass, rows: seq<Row>, plan: Plan, convert: Conversion, p: Pass, maps: Maps, q0: Pass, q: Pass)
    requires PlanOk(plan) && Closed(p0, rows, plan, convert, p) && Closed(q0, rows, plan, convert, q)
    requires q0.store == Pass2(p.store, plan, maps) && q0.existing == p.existing && q.store.order == q0.store.order
    requires StoreOk(q.store, q.minted) && StoreOk(q0.store, q.minted)
    ensures Pass2(q.store, plan, maps) == q0.store && AllKeys(q.store) == AllKeys(p.store)
  {
    hide PlanOk, KeyOf, Patch, Closed, StoreOk, KeyMap;
    SecondPass1(p0, rows, plan, convert, p, maps, q0, q);
    forall id | id in p.store.records
      ensures q.store.records[id] + Patch(q.store.records[id], plan.columns, maps) == q0.store.records[id]
      ensures KeyOf(q.store.records[id]) == KeyOf(p.store.records[id])
    {
      PatchedAgain(p.store.records[id], q.store.records[id], plan, maps);
    }
    SameKeyMap(q.store, p.store, |q.store.order|);
  }

  /** All keys of the source are known. */
  ghost predicate KeysKnown(w: World, plan: Plan, rows: seq<Row>) {
    plan.pbCollection in w.stores &&
    forall i :: 0 <= i < |rows| && RowKey(rows[i], plan).Some? ==>
      RowKey(rows[i], plan).value in AllKeys(w.stores[plan.pbCollection])
  }

  /** Nothing was created: ids and listings are as before. */
  ghost predicate SameListing(w: World, v: World) {
    v.minted == w.minted && v.stores.Keys == w.stores.Keys && forall c :: c in w.stores ==> v.stores[c].order == w.stores[c].order
  }

  lemma TableCreatesNothing(w: World, plan: Plan, rows: seq<Row>, convert: Conversion)
    requires KeysKnown(w, plan, rows)
    ensures SameListing(w, Pass1Table(w, plan, rows, convert))
  {
    hide RowKey, PassRows, AllKeys;
    NothingCreated(Start(w, plan.pbCollection), rows, plan, convert);
  }

  lemma {:induction false} AllCreateNothing(w: World, order: seq<Table>, plans: Plans, source: Source, convert: Conversion)
    requires PlansOk(plans) && WorldOk(w, plans) && Distinct(order) && Elements(order) <= plans.Keys
    requires forall t :: t in order ==> KeysKnown(w, plans[t], RowsOf(source, t))
    ensures SameListing(w, Pass1All(w, order, plans, source, convert))
    decreases |order|
  {
    hide Pass1Table, KeysKnown, WorldOk, PlansOk, TableDone;
    if order != [] {
      var n := |order| - 1;
      var t := order[n];
      AllCreateNothing(w, order[..n], plans, source, convert);
      Pass1AllDone(w, order[..n], plans, source, convert);
      var v := Pass1All(w, order[..n], plans, source, convert);
      KnownStill(w, v, plans, t, source, order[..n], convert);
      TableCreatesNothing(v, plans[t], RowsOf(source, t), convert);
    }
  }

  lemma KnownStill(w: World, v: World, plans: Plans, t: Table, source: Source, done: seq<Table>, convert: Conversion)
    requires t in plans && t !in done && KeysKnown(w, plans[t], RowsOf(source, t))
    requires Pass1Done(w, v, Elements(done), plans, source, convert)
    ensures KeysKnown(v, plans[t], RowsOf(source, t))
  {
    hide TableDone, WorldOk, AllKeys, RowKey;
  }

  /** After a run all keys of the source are known. */
  lemma KnownAfter(w: World, v: World, u: World, order: seq<Table>, plans: Plans, source: Source, convert: Conversion, t: Table)
    requires PlansOk(plans) && WorldOk(w, plans) && t in plans && t in order
    requires Pass1Done(w, v, Elements(order), plans, source, convert) && Pass2Done(v, u, Elements(order), plans)
    ensures KeysKnown(u, plans[t], RowsOf(source, t))
  {
    hide PlanOk, StoreOk, UniqueKeys, MapsOf, Pass2, AllKeys, RowKey, LastRow, FullPayload, ClosedRecords, ClosedRest, PassOk;
    var c, rows := plans[t].pbCollection, RowsOf(source, t);
    assert TableDone(w, v, plans[t], rows, convert);
    Pass2StoreOk(v.stores[c], v.minted, plans[t], MapsOf(v, plans));
    forall i | 0 <= i < |rows| && RowKey(rows[i], plans[t]).Some?
      ensures RowKey(rows[i], plans[t]).value in AllKeys(u.stores[c])
    {
      LastRowFound(rows, plans[t], i, RowKey(rows[i], plans[t]).value);
    }
  }

  /** One table in a second run. */
  lemma SecondTable(w: World, v: World, u: World, v2: World, order: seq<Table>, plans: Plans, source: Source,
                    convert: Conversion, t: Table)
    requires PlansOk(plans) && WorldOk(w, plans) && WorldOk(v, plans) && WorldOk(u, plans) && t in plans && t in order
    requires Pass1Done(w, v, Elements(order), plans, source, convert) && Pass2Done(v, u, Elements(order), plans)
    requires Pass1Done(u, v2, Elements(order), plans, source, convert) && SameListing(u, v2)
    ensures var c := plans[t].pbCollection;
            c in v2.stores && c in u.stores && c in v.stores &&
            Pass2(v2.stores[c], plans[t], MapsOf(v, plans)) == u.stores[c] && AllKeys(v2.stores[c]) == AllKeys(v.stores[c])
  {
    hide PlanOk, StoreOk, UniqueKeys, MapsOf, Pass2, AllKeys, Closed;
    var c, rows := plans[t].pbCollection, RowsOf(source, t);
    assert t in Elements(order);
    assert TableDone(w, v, plans[t], rows, convert) && TableDone(u, v2, plans[t], rows, convert);
    Pass2StoreOk(v.stores[c], v.minted, plans[t], MapsOf(v, plans));
    SecondPass2(Start(w, c), rows, plans[t], convert, Start(v, c), MapsOf(v, plans), Start(u, c), Start(v2, c));
  }

  /** The migration can be run again: a second run leaves everything as it is. */
  lemma MigrationIsIdempotent(w: World, order: seq<Table>, plans: Plans, source: Source, convert: Conversion)
    requires PlansOk(plans) && WorldOk(w, plans) && Distinct(order) && Elements(order) == plans.Keys
    ensures var u := Migrate(w, order, plans, source, convert);
            Migrate(u, order, plans, source, convert) == u
  {
    hide Pass1All, Pass2All, WorldOk, PlansOk, Pass1Done, Pass2Done, KeysKnown, SameListing;
    var v := Pass1All(w, order, plans, source, convert);
    Pass1AllDone(w, order, plans, source, convert);
    DoneOk(w, v, Elements(order), plans, source, convert);
    var u := Pass2All(v, order, plans);
    Pass2AllDone(v, order, plans);
    Pass2Ok(v, u, order, plans);
    forall t | t in order
      ensures KeysKnown(u, plans[t], RowsOf(source, t))
    {
      assert t in Elements(order);
      KnownAfter(w, v, u, order, plans, source, convert, t);
    }
    AllCreateNothing(u, order, plans, source, convert);
    var v2 := Pass1All(u, order, plans, source, convert);
    Pass1AllDone(u, order, plans, source, convert);
    DoneOk(u, v2, Elements(order), plans, source, convert);
    Pass2AllDone(v2, order, plans);
    SameWorld(w, v, u, v2, Pass2All(v2, order, plans), order, plans, source, convert);
  }

  lemma DoneOk(w: World, v: World, done: set<Table>, plans: Plans, source: Source, convert: Conversion)
    requires Pass1Done(w, v, done, plans, source, convert)
    ensures WorldOk(v, plans)
  {}

  lemma SameWorld(w: World, v: World, u: World, v2: World, u2: World, order: seq<Table>, plans: Plans, source: Source,
                  convert: Conversion)
    requires PlansOk(plans) && WorldOk(w, plans) && WorldOk(v, plans) && WorldOk(u, plans) && Elements(order) == plans.Keys
    requires Pass1Done(w, v, Elements(order), plans, source, convert) && Pass2Done(v, u, Elements(order), plans)
    requires Pass1Done(u, v2, Elements(order), plans, source, convert) && SameListing(u, v2)
    requires Pass2Done(v2, u2, Elements(order), plans)
    ensures u2 == u
  {
    hide MapsOf, Pass2, AllKeys, TableDone, PlansOk, WorldOk;
    forall t | t in plans
      ensures plans[t].pbCollection in v2.stores && plans[t].pbCollection in u.stores && plans[t].pbCollection in v.stores
      ensures Pass2(v2.stores[plans[t].pbCollection], plans[t], MapsOf(v, plans)) == u.stores[plans[t].pbCollection]
      ensures AllKeys(v2.stores[plans[t].pbCollection]) == AllKeys(v.stores[plans[t].pbCollection])
    {
      assert t in Elements(order);
      SecondTable(w, v, u, v2, order, plans, source, convert, t);
    }
    SameMaps(v2, v, plans);
    forall c | c in u.stores
      ensures u2.stores[c] == u.stores[c]
    {
      if t :| t in plans && plans[t].pbCollection == c {
        assert t in Elements(order);
      } else {
        assert v2.stores[c] == u.stores[c];
      }
    }
    assert u2.stores == u.stores;
  }
}
