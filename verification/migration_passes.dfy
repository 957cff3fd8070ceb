/** The two passes as functions on collections, and what they promise. */
module MigrationPasses {
  import opened MigrationStore
  import opened Sequences
  import opened TableOrder
  import opened Wrappers

  // ---------------------------------------------------------------- plans

  /** A column: a foreign key has a target table, and a field that keeps the old reference for pass 2. */
  datatype Column = Column(source: string, pbField: string, pbType: string, isForeignKey: bool, target: Table,
                           fkTempField: Option<string>)

  datatype Plan = Plan(table: Table, pbCollection: string, primaryKey: string, columns: seq<Column>)

  type Row = map<string, Value>

  /** How other values are converted; the migration treats the result as it is. */
  type Conversion = (Value, string) -> Value

  function ColumnNames(col: Column): set<string> {
    {col.pbField} + match col.fkTempField case Some(t) => {t} case None => {}
  }

  /** Field names are distinct, none is `old_id`, and every foreign key has its temporary field. */
  ghost predicate PlanOk(plan: Plan) {
    (forall i :: 0 <= i < |plan.columns| ==>
       OLD_ID !in ColumnNames(plan.columns[i]) && Some(plan.columns[i].pbField) != plan.columns[i].fkTempField &&
       plan.columns[i].isForeignKey == plan.columns[i].fkTempField.Some?) &&
    forall i, j :: 0 <= i < j < |plan.columns| ==> ColumnNames(plan.columns[i]) !! ColumnNames(plan.columns[j])
  }

  // ---------------------------------------------------------------- pass 1

  /** A reference in its temporary field. */
  function Reference(raw: Value): Value {
    match NormalizeOldId(raw) case None => Null case Some(n) => Text(n)
  }

  function ColumnFields(row: Row, col: Column, convert: Conversion): (f: Fields) {
    var raw := FieldOf(row, col.source);
    if !col.isForeignKey then map[col.pbField := convert(raw, col.pbType)]
    else match col.fkTempField
      case Some(t) => map[col.pbField := Null, t := Reference(raw)]
      case None => map[col.pbField := Reference(raw)]
  }

  function Payload(row: Row, columns: seq<Column>, convert: Conversion): (f: Fields) {
    if columns == [] then map[]
    else
      var n := |columns| - 1;
      Payload(row, columns[..n], convert) + ColumnFields(row, columns[n], convert)
  }

  function RowKey(row: Row, plan: Plan): Option<string> {
    NormalizeOldId(FieldOf(row, plan.primaryKey))
  }

  /** All fields that pass 1 writes for a row with a key. */
  function FullPayload(row: Row, plan: Plan, convert: Conversion, key: string): Fields {
    Payload(row, plan.columns, convert)[OLD_ID := Text(key)]
  }

  /** The state of pass 1 on one collection. */
  datatype Pass = Pass(store: Store, minted: nat, existing: KeyIds)

  function Updated(s: Store, id: Id, patch: Fields): Store {
    if id in s.records then s.(records := s.records[id := s.records[id] + patch]) else s
  }

  /** One row: the record of its key is updated, or a new one is created. */
  function PassRow(p: Pass, row: Row, plan: Plan, convert: Conversion): Pass {
    match RowKey(row, plan)
    case None => p
    case Some(k) =>
      var payload := FullPayload(row, plan, convert, k);
      if k in p.existing then p.(store := Updated(p.store, p.existing[k], payload))
      else
        var id := NewId(p.minted);
        Pass(Store(p.store.order + [id], p.store.records[id := payload]), p.minted + 1, p.existing[k := id])
  }

  function PassRows(p: Pass, rows: seq<Row>, plan: Plan, convert: Conversion): Pass {
    if rows == [] then p
    else PassRow(PassRows(p, rows[..|rows| - 1], plan, convert), rows[|rows| - 1], plan, convert)
  }

  // ---------------------------------------------------------------- what pass 1 leaves behind

  /** The last row with the key: its values are the ones that stay. */
  function LastRow(rows: seq<Row>, plan: Plan, key: string): Option<Row> {
    if rows == [] then None
    else if RowKey(rows[|rows| - 1], plan) == Some(key) then Some(rows[|rows| - 1])
    else LastRow(rows[..|rows| - 1], plan, key)
  }

  function LastPayload(rows: seq<Row>, plan: Plan, convert: Conversion, key: string): Option<Fields> {
    match LastRow(rows, plan, key) case None => None case Some(row) => Some(FullPayload(row, plan, convert, key))
  }

  function Overwritten(base: Fields, patch: Option<Fields>): Fields {
    match patch case None => base case Some(f) => base + f
  }

  /** The fields of the record of a key before pass 1, none for a new one. */
  function Before(p: Pass, key: string): Fields {
    if key in p.existing && p.existing[key] in p.store.records then p.store.records[p.existing[key]] else map[]
  }

  ghost predicate PassOk(p: Pass) {
    StoreOk(p.store, p.minted) && Keyed(p.store, p.existing)
  }

  /** The keys afterwards are those of the collection and of the source; known keys keep their record. */
  ghost predicate ClosedKeys(p0: Pass, rows: seq<Row>, plan: Plan, convert: Conversion, p: Pass) {
    (forall k :: k in p.existing <==> k in p0.existing || LastPayload(rows, plan, convert, k).Some?) &&
    forall k :: k in p0.existing ==> k in p.existing && p.existing[k] == p0.existing[k]
  }

  /** The record of a key was written by the last row of the key. */
  ghost predicate ClosedRecords(p0: Pass, rows: seq<Row>, plan: Plan, convert: Conversion, p: Pass) {
    forall k :: k in p.existing ==>
      p.existing[k] in p.store.records &&
      p.store.records[p.existing[k]] == Overwritten(Before(p0, k), LastPayload(rows, plan, convert, k))
  }

  /** Records keep their ids and their places, and those without a key keep everything. */
  ghost predicate ClosedRest(p0: Pass, p: Pass) {
    p0.store.order <= p.store.order && p0.minted <= p.minted &&
    (forall id :: id in p0.store.records ==> id in p.store.records) &&
    forall id :: id in p.store.records && KeyOf(p.store.records[id]) == None ==>
      id in p0.store.records && p.store.records[id] == p0.store.records[id]
  }

  /** Pass 1 in closed form: one record for every key of the source and of the collection. */
  ghost predicate Closed(p0: Pass, rows: seq<Row>, plan: Plan, convert: Conversion, p: Pass) {
    PassOk(p) && ClosedKeys(p0, rows, plan, convert, p) && ClosedRecords(p0, rows, plan, convert, p) && ClosedRest(p0, p)
  }

  /** The names that pass 1 writes, the same for every row. */
  function Written(columns: seq<Column>): set<string> {
    if columns == [] then {} else Written(columns[..|columns| - 1]) + ColumnNames(columns[|columns| - 1])
  }

  lemma {:induction false} PayloadNames(row: Row, columns: seq<Column>, convert: Conversion)
    requires forall i :: 0 <= i < |columns| ==> columns[i].isForeignKey == columns[i].fkTempField.Some?
    ensures Payload(row, columns, convert).Keys == Written(columns)
  {
    if columns != [] { PayloadNames(row, columns[..|columns| - 1], convert); }
  }

  lemma FullPayloadNames(row: Row, plan: Plan, convert: Conversion, key: string)
    requires PlanOk(plan)
    ensures FullPayload(row, plan, convert, key).Keys == Written(plan.columns) + {OLD_ID}
    ensures FieldOf(FullPayload(row, plan, convert, key), OLD_ID) == Text(key)
  {
    hide Payload, Written;
    PayloadNames(row, plan.columns, convert);
  }

  lemma {:induction false} LastPayloadNames(rows: seq<Row>, plan: Plan, convert: Conversion, key: string)
    requires PlanOk(plan) && LastPayload(rows, plan, convert, key).Some?
    ensures LastPayload(rows, plan, convert, key).value.Keys == Written(plan.columns) + {OLD_ID}
    ensures FieldOf(LastPayload(rows, plan, convert, key).value, OLD_ID) == Text(key)
    ensures NormalizeOldId(Text(key)) == Some(key)
  {
    hide Written, FullPayload, NormalizeOldId, PlanOk, FieldOf;
    var row := rows[|rows| - 1];
    if RowKey(row, plan) == Some(key) {
      FullPayloadNames(row, plan, convert, key);
      NormalizeTwice(FieldOf(row, plan.primaryKey));
    } else {
      LastPayloadNames(rows[..|rows| - 1], plan, convert, key);
    }
  }

  /** Of two payloads for the same key, only the later one counts. */
  lemma OverwriteTwice(base: Fields, a: Option<Fields>, b: Fields)
    requires a.Some? ==> a.value.Keys == b.Keys
    ensures Overwritten(base, a) + b == base + b
  {}

  lemma KeyWritten(base: Fields, patch: Fields, key: string)
    requires OLD_ID in patch && patch[OLD_ID] == Text(key) && NormalizeOldId(Text(key)) == Some(key)
    ensures KeyOf(base + patch) == Some(key)
  {}

  lemma StoreOkUpdated(s: Store, minted: nat, id: Id, patch: Fields)
    requires StoreOk(s, minted) && id in s.records
    ensures StoreOk(Updated(s, id, patch), minted)
  {
    assert s.records[id := s.records[id] + patch].Keys == s.records.Keys;
  }

  lemma StoreOkCreated(s: Store, minted: nat, rec: Fields)
    requires StoreOk(s, minted)
    ensures NewId(minted) !in s.records
    ensures StoreOk(Store(s.order + [NewId(minted)], s.records[NewId(minted) := rec]), minted + 1)
  {
    var id := NewId(minted);
    assert id in s.records ==> |id| <= minted;
    assert id !in Elements(s.order);
  }

  /** Updating the record of a key keeps the keys. */
  lemma KeyedUpdated(s: Store, m: KeyIds, k: string, patch: Fields)
    requires Keyed(s, m) && k in m && KeyOf(s.records[m[k]] + patch) == Some(k)
    ensures Keyed(Updated(s, m[k], patch), m)
  {
    hide KeyOf;
  }

  lemma KeyedCreated(s: Store, m: KeyIds, k: string, id: Id, rec: Fields)
    requires Keyed(s, m) && k !in m && id !in s.records && KeyOf(rec) == Some(k)
    ensures Keyed(Store(s.order + [id], s.records[id := rec]), m[k := id])
  {
    hide KeyOf;
  }

  lemma RowStart(p: Pass, plan: Plan, convert: Conversion)
    requires PassOk(p)
    ensures Closed(p, [], plan, convert, p)
  {
    hide KeyOf, StoreOk;
  }

  lemma LastPayloadMore(rows: seq<Row>, row: Row, plan: Plan, convert: Conversion, k: string)
    ensures LastPayload(rows + [row], plan, convert, k) ==
            if RowKey(row, plan) == Some(k) then Some(FullPayload(row, plan, convert, k)) else LastPayload(rows, plan, convert, k)
  {
    assert (rows + [row])[..|rows|] == rows;
  }

  /** A row without a key changes nothing. */
  lemma RowSkipped(p0: Pass, rows: seq<Row>, row: Row, plan: Plan, convert: Conversion, p: Pass)
    requires Closed(p0, rows, plan, convert, p) && RowKey(row, plan) == None
    ensures Closed(p0, rows + [row], plan, convert, p)
  {
    hide PassOk, RowKey, FullPayload, LastPayload, ClosedRest, Before;
    forall k
      ensures LastPayload(rows + [row], plan, convert, k) == LastPayload(rows, plan, convert, k)
    {
      LastPayloadMore(rows, row, plan, convert, k);
    }
  }

  /** The facts about the payload of a row with a key. */
  lemma RowPayload(p0: Pass, rows: seq<Row>, row: Row, plan: Plan, convert: Conversion, k: string)
    requires PlanOk(plan) && RowKey(row, plan) == Some(k)
    ensures forall base :: KeyOf(base + FullPayload(row, plan, convert, k)) == Some(k)
    ensures Overwritten(Before(p0, k), LastPayload(rows, plan, convert, k)) + FullPayload(row, plan, convert, k) ==
            Before(p0, k) + FullPayload(row, plan, convert, k)
  {
    hide PlanOk, FullPayload, LastPayload, KeyOf, Before, NormalizeOldId, Written, FieldOf;
    FullPayloadNames(row, plan, convert, k);
    NormalizeTwice(FieldOf(row, plan.primaryKey));
    var f := FullPayload(row, plan, convert, k);
    OldIdIn(f, k);
    forall base
      ensures KeyOf(base + f) == Some(k)
    {
      KeyWritten(base, f, k);
    }
    if LastPayload(rows, plan, convert, k).Some? { LastPayloadNames(rows, plan, convert, k); }
    OverwriteTwice(Before(p0, k), LastPayload(rows, plan, convert, k), f);
  }

  lemma OldIdIn(f: Fields, k: string)
    requires FieldOf(f, OLD_ID) == Text(k)
    ensures OLD_ID in f && f[OLD_ID] == Text(k)
  {}

  /** The records after an update: only the record of the key changed. */
  lemma UpdatedRecords(p0: Pass, rows: seq<Row>, row: Row, plan: Plan, convert: Conversion, p: Pass, k: string, f: Fields)
    requires Keyed(p.store, p.existing) && ClosedRecords(p0, rows, plan, convert, p) && k in p.existing
    requires RowKey(row, plan) == Some(k) && f == FullPayload(row, plan, convert, k)
    requires Overwritten(Before(p0, k), LastPayload(rows, plan, convert, k)) + f == Before(p0, k) + f
    ensures ClosedRecords(p0, rows + [row], plan, convert, p.(store := Updated(p.store, p.existing[k], f)))
  {
    hide RowKey, FullPayload, LastPayload, KeyOf, Before, Keyed;
    OneIdPerKey(p.store, p.existing, k);
    var p2 := p.(store := Updated(p.store, p.existing[k], f));
    forall j | j in p2.existing
      ensures p2.existing[j] in p2.store.records
      ensures p2.store.records[p2.existing[j]] == Overwritten(Before(p0, j), LastPayload(rows + [row], plan, convert, j))
    {
      LastPayloadMore(rows, row, plan, convert, j);
    }
  }

  /** The keys of the source grow by the key of the row. */
  lemma KeysGrow(p0: Pass, rows: seq<Row>, row: Row, plan: Plan, convert: Conversion, p: Pass, k: string, q: Pass)
    requires ClosedKeys(p0, rows, plan, convert, p) && RowKey(row, plan) == Some(k)
    requires q.existing == p.existing || (k !in p.existing && q.existing == p.existing[k := NewId(p.minted)])
    requires k in q.existing
    ensures ClosedKeys(p0, rows + [row], plan, convert, q)
  {
    hide RowKey, FullPayload, LastPayload;
    forall j
      ensures j in q.existing <==> j in p0.existing || LastPayload(rows + [row], plan, convert, j).Some?
    {
      LastPayloadMore(rows, row, plan, convert, j);
    }
  }

  lemma UpdatedRest(p0: Pass, p: Pass, id: Id, f: Fields)
    requires ClosedRest(p0, p) && id in p.store.records && KeyOf(p.store.records[id] + f).Some?
    ensures ClosedRest(p0, p.(store := Updated(p.store, id, f)))
  {
    hide KeyOf;
  }

  lemma RowUpdates(p0: Pass, rows: seq<Row>, row: Row, plan: Plan, convert: Conversion, p: Pass, k: string)
    requires PlanOk(plan) && Closed(p0, rows, plan, convert, p) && RowKey(row, plan) == Some(k) && k in p.existing
    ensures Closed(p0, rows + [row], plan, convert, p.(store := Updated(p.store, p.existing[k], FullPayload(row, plan, convert, k))))
  {
    hide PlanOk, RowKey, FullPayload, LastPayload, KeyOf, StoreOk, Before, Keyed, ClosedRecords, ClosedKeys, ClosedRest, Updated;
    RowPayload(p0, rows, row, plan, convert, k);
    var f, id := FullPayload(row, plan, convert, k), p.existing[k];
    UpdatedRecords(p0, rows, row, plan, convert, p, k, f);
    OneIdPerKey(p.store, p.existing, k);
    StoreOkUpdated(p.store, p.minted, id, f);
    KeyedUpdated(p.store, p.existing, k, f);
    UpdatedRest(p0, p, id, f);
    KeysGrow(p0, rows, row, plan, convert, p, k, p.(store := Updated(p.store, id, f)));
  }

  lemma OneIdPerKey(s: Store, m: KeyIds, k: string)
    requires Keyed(s, m) && k in m
    ensures m[k] in s.records && KeyOf(s.records[m[k]]) == Some(k) && forall j :: j in m && m[j] == m[k] ==> j == k
  {
    hide KeyOf;
  }

  ghost function Created(p: Pass, k: string, f: Fields): Pass {
    var id := NewId(p.minted);
    Pass(Store(p.store.order + [id], p.store.records[id := f]), p.minted + 1, p.existing[k := id])
  }

  lemma CreatedRecords(p0: Pass, rows: seq<Row>, row: Row, plan: Plan, convert: Conversion, p: Pass, k: string, f: Fields)
    requires Keyed(p.store, p.existing) && ClosedRecords(p0, rows, plan, convert, p) && Before(p0, k) == map[]
    requires RowKey(row, plan) == Some(k) && f == FullPayload(row, plan, convert, k) && NewId(p.minted) !in p.store.records
    ensures ClosedRecords(p0, rows + [row], plan, convert, Created(p, k, f))
  {
    hide RowKey, FullPayload, LastPayload, KeyOf, Before;
    var q := Created(p, k, f);
    assert map[] + f == f;
    forall j | j in q.existing
      ensures q.existing[j] in q.store.records
      ensures q.store.records[q.existing[j]] == Overwritten(Before(p0, j), LastPayload(rows + [row], plan, convert, j))
    {
      LastPayloadMore(rows, row, plan, convert, j);
    }
  }

  lemma CreatedRest(p0: Pass, p: Pass, k: string, f: Fields)
    requires ClosedRest(p0, p) && KeyOf(f).Some? && NewId(p.minted) !in p.store.records
    ensures ClosedRest(p0, Created(p, k, f))
  {
    hide KeyOf;
  }

  lemma NotBefore(p0: Pass, rows: seq<Row>, plan: Plan, convert: Conversion, p: Pass, k: string)
    requires ClosedKeys(p0, rows, plan, convert, p) && k !in p.existing
    ensures Before(p0, k) == map[]
  {
    hide LastPayload;
  }

  lemma RowCreates(p0: Pass, rows: seq<Row>, row: Row, plan: Plan, convert: Conversion, p: Pass, k: string)
    requires PlanOk(plan) && Closed(p0, rows, plan, convert, p) && RowKey(row, plan) == Some(k) && k !in p.existing
    ensures Closed(p0, rows + [row], plan, convert, Created(p, k, FullPayload(row, plan, convert, k)))
  {
    hide PlanOk, RowKey, FullPayload, LastPayload, KeyOf, StoreOk, Keyed, Before, ClosedRecords, ClosedKeys, ClosedRest, Overwritten;
    RowPayload(p0, rows, row, plan, convert, k);
    var f, id := FullPayload(row, plan, convert, k), NewId(p.minted);
    assert map[] + f == f;
    StoreOkCreated(p.store, p.minted, f);
    KeyedCreated(p.store, p.existing, k, id, f);
    NotBefore(p0, rows, plan, convert, p, k);
    CreatedRecords(p0, rows, row, plan, convert, p, k, f);
    CreatedRest(p0, p, k, f);
    KeysGrow(p0, rows, row, plan, convert, p, k, Created(p, k, f));
  }

  /** Pass 1 reaches its closed form, for any rows. */
  lemma {:induction false} PassRowsClosed(p0: Pass, rows: seq<Row>, plan: Plan, convert: Conversion)
    requires PassOk(p0) && PlanOk(plan)
    ensures Closed(p0, rows, plan, convert, PassRows(p0, rows, plan, convert))
    decreases |rows|
  {
    hide PassOk, PlanOk, Closed, FullPayload, RowKey, Updated;
    if rows == [] {
      RowStart(p0, plan, convert);
    } else {
      var before, row := rows[..|rows| - 1], rows[|rows| - 1];
      PassRowsClosed(p0, before, plan, convert);
      var p := PassRows(p0, before, plan, convert);
      assert before + [row] == rows;
      match RowKey(row, plan)
      case None => RowSkipped(p0, before, row, plan, convert, p);
      case Some(k) =>
        if k in p.existing {
          RowUpdates(p0, before, row, plan, convert, p, k);
        } else {
          RowCreates(p0, before, row, plan, convert, p, k);
        }
    }
  }

  // ---------------------------------------------------------------- pass 2

  /** The maps from keys to ids, of every table with a plan. */
  type Maps = map<Table, KeyIds>

  /** The record that a reference names, if it can be found. */
  function Resolved(rec: Fields, col: Column, maps: Maps): (r: Option<Id>)
    ensures r.Some? ==> col.fkTempField.Some?
  {
    if !col.isForeignKey || col.fkTempField.None? || col.target !in maps then None
    else match NormalizeOldId(FieldOf(rec, col.fkTempField.value))
      case None => None
      case Some(k) => if k in maps[col.target] && maps[col.target][k] != [] then Some(maps[col.target][k]) else None
  }

  function ColumnPatch(rec: Fields, col: Column, maps: Maps): (f: Fields)
    ensures f.Keys <= ColumnNames(col)
  {
    match Resolved(rec, col, maps)
    case None => map[]
    case Some(id) => map[col.pbField := Text(id), col.fkTempField.value := Null]
  }

  function Patch(rec: Fields, columns: seq<Column>, maps: Maps): (f: Fields) {
    if columns == [] then map[]
    else Patch(rec, columns[..|columns| - 1], maps) + ColumnPatch(rec, columns[|columns| - 1], maps)
  }

  function Pass2(s: Store, plan: Plan, maps: Maps): (t: Store)
    ensures t.order == s.order && t.records.Keys == s.records.Keys
  {
    Store(s.order, map id | id in s.records :: s.records[id] + Patch(s.records[id], plan.columns, maps))
  }

  lemma {:induction false} PatchNames(rec: Fields, columns: seq<Column>, maps: Maps)
    ensures Patch(rec, columns, maps).Keys <= Written(columns)
  {
    if columns != [] { PatchNames(rec, columns[..|columns| - 1], maps); }
  }

  ghost predicate NamesApart(columns: seq<Column>) {
    forall i, j :: 0 <= i < j < |columns| ==> ColumnNames(columns[i]) !! ColumnNames(columns[j])
  }

  lemma {:induction false} WrittenApart(columns: seq<Column>, name: string)
    requires forall i :: 0 <= i < |columns| ==> name !in ColumnNames(columns[i])
    ensures name !in Written(columns)
  {
    if columns != [] { WrittenApart(columns[..|columns| - 1], name); }
  }

  /** A field of a column is patched by that column alone. */
  lemma {:induction false} PatchAt(rec: Fields, columns: seq<Column>, maps: Maps, i: nat, name: string)
    requires NamesApart(columns) && i < |columns| && name in ColumnNames(columns[i])
    ensures FieldOf(rec + Patch(rec, columns, maps), name) == FieldOf(rec + ColumnPatch(rec, columns[i], maps), name)
    decreases |columns|
  {
    hide ColumnPatch, ColumnNames;
    var n := |columns| - 1;
    var before := Patch(rec, columns[..n], maps);
    if i < n {
      PatchAt(rec, columns[..n], maps, i, name);
      assert name !in ColumnPatch(rec, columns[n], maps);
    } else {
      WrittenApart(columns[..n], name);
      PatchNames(rec, columns[..n], maps);
    }
  }

  /** After pass 2 a reference points to the record that it names, or is still in its temporary field. */
  lemma Pass2Column(rec: Fields, plan: Plan, maps: Maps, i: nat)
    requires PlanOk(plan) && i < |plan.columns|
    ensures var col := plan.columns[i];
            var now := rec + Patch(rec, plan.columns, maps);
            match Resolved(rec, col, maps)
            case Some(id) => FieldOf(now, col.pbField) == Text(id) && FieldOf(now, col.fkTempField.value) == Null
            case None => FieldOf(now, col.pbField) == FieldOf(rec, col.pbField) &&
                         (col.fkTempField.Some? ==> FieldOf(now, col.fkTempField.value) == FieldOf(rec, col.fkTempField.value))
  {
    hide Patch, Resolved;
    var col := plan.columns[i];
    PatchAt(rec, plan.columns, maps, i, col.pbField);
    if col.fkTempField.Some? { PatchAt(rec, plan.columns, maps, i, col.fkTempField.value); }
  }

  /** Pass 2 leaves the old ids alone. */
  lemma Pass2Keys(rec: Fields, plan: Plan, maps: Maps)
    requires PlanOk(plan)
    ensures KeyOf(rec + Patch(rec, plan.columns, maps)) == KeyOf(rec)
  {
    hide Patch, Written, ColumnNames, NormalizeOldId;
    PatchNames(rec, plan.columns, maps);
    WrittenApart(plan.columns, OLD_ID);
  }

  lemma {:induction false} NoPatch(rec: Fields, columns: seq<Column>, maps: Maps)
    requires forall i :: 0 <= i < |columns| ==> Resolved(rec, columns[i], maps) == None
    ensures Patch(rec, columns, maps) == map[]
  {
    hide Resolved;
    if columns != [] { NoPatch(rec, columns[..|columns| - 1], maps); }
  }

  /** A second pass 2 finds nothing more to do. */
  lemma Pass2Twice(rec: Fields, plan: Plan, maps: Maps)
    requires PlanOk(plan)
    ensures Patch(rec + Patch(rec, plan.columns, maps), plan.columns, maps) == map[]
  {
    hide Patch, PlanOk, NormalizeOldId, FieldOf;
    var now := rec + Patch(rec, plan.columns, maps);
    forall i | 0 <= i < |plan.columns|
      ensures Resolved(now, plan.columns[i], maps) == None
    {
      Pass2Column(rec, plan, maps, i);
      NullIsNothing();
    }
    NoPatch(now, plan.columns, maps);
  }

  lemma NullIsNothing()
    ensures NormalizeOldId(Null) == None
  {}

  lemma Pass2StoreOk(s: Store, minted: nat, plan: Plan, maps: Maps)
    requires StoreOk(s, minted) && PlanOk(plan)
    ensures StoreOk(Pass2(s, plan, maps), minted) && AllKeys(Pass2(s, plan, maps)) == AllKeys(s)
    ensures UniqueKeys(s) ==> UniqueKeys(Pass2(s, plan, maps))
  {
    hide Patch, KeyOf, PlanOk, KeyMap;
    var t := Pass2(s, plan, maps);
    forall id | id in s.records
      ensures KeyOf(t.records[id]) == KeyOf(s.records[id])
    {
      Pass2Keys(s.records[id], plan, maps);
    }
    SameKeyMap(s, t, |s.order|);
  }

  // ---------------------------------------------------------------- running twice

  /** When every key is known, pass 1 creates nothing. */
  lemma {:induction false} NothingCreated(p: Pass, rows: seq<Row>, plan: Plan, convert: Conversion)
    requires forall i :: 0 <= i < |rows| && RowKey(rows[i], plan).Some? ==> RowKey(rows[i], plan).value in p.existing
    ensures var q := PassRows(p, rows, plan, convert);
            q.minted == p.minted && q.existing == p.existing && q.store.order == p.store.order
  {
    hide RowKey, FullPayload;
    if rows != [] { NothingCreated(p, rows[..|rows| - 1], plan, convert); }
  }

  lemma {:induction false} LastRowFound(rows: seq<Row>, plan: Plan, i: nat, k: string)
    requires i < |rows| && RowKey(rows[i], plan) == Some(k)
    ensures LastRow(rows, plan, k).Some?
  {
    hide RowKey;
    if RowKey(rows[|rows| - 1], plan) != Some(k) { LastRowFound(rows[..|rows| - 1], plan, i, k); }
  }

  /** Writing a payload again undoes the patch. */
  lemma PayloadUndoesPatch(base: Fields, payload: Fields, patch: Fields)
    requires patch.Keys <= payload.Keys
    ensures base + payload + patch + payload == base + payload
  {}
}
