/** The migration itself: loops over batches, pages and records that change the collections.

    The collections are fields of one object behind a total interface; each loop is proved equal
    to the pass as a function on the collections.
 */
module Migration {
  import opened Arithmetic
  import opened MigrationPasses
  import opened MigrationRun
  import opened MigrationStore
  import opened Sequences
  import opened TableOrder
  import opened Wrappers

  /** What one turn of the loop writes. */
  lemma ColumnWrites(was: Fields, row: Row, col: Column, convert: Conversion)
    ensures var raw := FieldOf(row, col.source);
            was + ColumnFields(row, col, convert) ==
            if !col.isForeignKey then was[col.pbField := convert(raw, col.pbType)]
            else if col.fkTempField.Some? then was[col.pbField := Null][col.fkTempField.value := Reference(raw)]
            else was[col.pbField := Reference(raw)]
  {
    hide FieldOf, Reference;
  }

  lemma PayloadSnoc(row: Row, columns: seq<Column>, convert: Conversion, i: nat)
    requires i < |columns|
    ensures Payload(row, columns[..i + 1], convert) == Payload(row, columns[..i], convert) + ColumnFields(row, columns[i], convert)
  {
    hide ColumnFields;
    assert columns[..i + 1][..i] == columns[..i];
  }

  /** `buildPass1RecordPayload` */
  method BuildPass1RecordPayload(row: Row, plan: Plan, convert: Conversion) returns (payload: Fields)
    ensures payload == Payload(row, plan.columns, convert)
  {
    hide NormalizeOldId, FieldOf, Payload, ColumnFields;
    payload := map[];
    NoPayload(row, convert);
    for i := 0 to |plan.columns|
      invariant payload == Payload(row, plan.columns[..i], convert)
    {
      var col := plan.columns[i];
      PayloadSnoc(row, plan.columns, convert, i);
      ColumnWrites(payload, row, col, convert);
      var rawValue := FieldOf(row, col.source);
      if !col.isForeignKey {
        payload := payload[col.pbField := convert(rawValue, col.pbType)];
      } else {
        var oldRef := match NormalizeOldId(rawValue) case None => Null case Some(n) => Text(n);
        if col.fkTempField.Some? {
          payload := payload[col.pbField := Null];
          payload := payload[col.fkTempField.value := oldRef];
        } else {
          payload := payload[col.pbField := oldRef];
        }
      }
    }
    assert plan.columns[..|plan.columns|] == plan.columns;
  }

  lemma NoPayload(row: Row, convert: Conversion)
    ensures Payload(row, [], convert) == map[]
  {}

  // ---------------------------------------------------------------- the columns of pass 2

  function RelationColumns(columns: seq<Column>): (r: seq<Column>) {
    if columns == [] then []
    else
      var n := |columns| - 1;
      RelationColumns(columns[..n]) + if columns[n].isForeignKey && columns[n].fkTempField.Some? then [columns[n]] else []
  }

  lemma PatchSnoc(rec: Fields, columns: seq<Column>, col: Column, maps: Maps)
    ensures Patch(rec, columns + [col], maps) == Patch(rec, columns, maps) + ColumnPatch(rec, col, maps)
  {
    assert (columns + [col])[..|columns|] == columns;
  }

  lemma {:induction false} OnlyRelations(rec: Fields, columns: seq<Column>, maps: Maps)
    ensures Patch(rec, RelationColumns(columns), maps) == Patch(rec, columns, maps)
    decreases |columns|
  {
    hide Resolved, Patch;
    if columns != [] {
      var n := |columns| - 1;
      OnlyRelations(rec, columns[..n], maps);
      NotResolved(rec, columns[n], maps);
      PatchSnoc(rec, columns[..n], columns[n], maps);
      PatchSnoc(rec, RelationColumns(columns[..n]), columns[n], maps);
      assert columns[..n] + [columns[n]] == columns && RelationColumns(columns[..n]) + [] == RelationColumns(columns[..n]);
      assert Patch(rec, columns[..n], maps) + map[] == Patch(rec, columns[..n], maps);
    }
  }

  lemma NotResolved(rec: Fields, col: Column, maps: Maps)
    ensures !(col.isForeignKey && col.fkTempField.Some?) ==> Resolved(rec, col, maps) == None
  {}

  method FilterRelations(columns: seq<Column>) returns (r: seq<Column>)
    ensures r == RelationColumns(columns)
    ensures forall i :: 0 <= i < |r| ==> r[i].isForeignKey && r[i].fkTempField.Some?
  {
    r := [];
    for i := 0 to |columns|
      invariant r == RelationColumns(columns[..i])
      invariant forall j :: 0 <= j < |r| ==> r[j].isForeignKey && r[j].fkTempField.Some?
    {
      assert columns[..i + 1][..i] == columns[..i];
      if columns[i].isForeignKey && columns[i].fkTempField.Some? { r := r + [columns[i]]; }
    }
    assert columns[..|columns|] == columns;
  }

  /** The maps that were built so far. */
  ghost predicate Cached(relationMaps: Maps, maps: Maps) {
    forall t :: t in relationMaps ==> t in maps && relationMaps[t] == maps[t]
  }

  // ---------------------------------------------------------------- in the middle of pass 2

  /** The first `n` listed records are patched. */
  function PartPass2(s: Store, plan: Plan, maps: Maps, n: nat): (t: Store)
    requires n <= |s.order|
    ensures t.order == s.order && t.records.Keys == s.records.Keys
  {
    Store(s.order, map id | id in s.records ::
      if id in s.order[..n] then s.records[id] + Patch(s.records[id], plan.columns, maps) else s.records[id])
  }

  lemma PartStart(s: Store, plan: Plan, maps: Maps)
    ensures PartPass2(s, plan, maps, 0) == s
  {
    hide Patch;
    assert PartPass2(s, plan, maps, 0).records == s.records;
  }

  lemma PartEnd(s: Store, plan: Plan, maps: Maps)
    requires Elements(s.order) == s.records.Keys
    ensures PartPass2(s, plan, maps, |s.order|) == Pass2(s, plan, maps)
  {
    hide Patch;
    assert s.order[..|s.order|] == s.order;
    forall id | id in s.records
      ensures id in s.order
    {
      assert id in Elements(s.order);
    }
  }

  lemma PartAt(s: Store, plan: Plan, maps: Maps, n: nat, id: Id)
    requires n <= |s.order| && id in s.records
    ensures var t := PartPass2(s, plan, maps, n);
            id in t.records &&
            t.records[id] == if id in s.order[..n] then s.records[id] + Patch(s.records[id], plan.columns, maps) else s.records[id]
  {
    hide Patch;
  }

  lemma PrefixGrows(order: seq<Id>, n: nat, id: Id)
    requires n < |order|
    ensures id in order[..n + 1] <==> id in order[..n] || id == order[n]
  {
    assert order[..n + 1] == order[..n] + [order[n]];
  }

  lemma NextId(s: Store, n: nat)
    requires n < |s.order| && Distinct(s.order) && Elements(s.order) == s.records.Keys
    ensures s.order[n] in s.records && s.order[n] !in s.order[..n]
  {
    assert s.order[n] in Elements(s.order);
  }

  lemma PartStep(s: Store, plan: Plan, maps: Maps, n: nat)
    requires n < |s.order| && Distinct(s.order) && Elements(s.order) == s.records.Keys
    ensures var id := s.order[n];
            var t := PartPass2(s, plan, maps, n);
            id in s.records && t.records[id] == s.records[id] &&
            PartPass2(s, plan, maps, n + 1) == Updated(t, id, Patch(s.records[id], plan.columns, maps))
  {
    hide Patch, PartPass2, Distinct;
    var id := s.order[n];
    NextId(s, n);
    PartAt(s, plan, maps, n, id);
    var t, u := PartPass2(s, plan, maps, n + 1), Updated(PartPass2(s, plan, maps, n), id, Patch(s.records[id], plan.columns, maps));
    forall i | i in s.records
      ensures t.records[i] == u.records[i]
    {
      PartAt(s, plan, maps, n, i);
      PartAt(s, plan, maps, n + 1, i);
      PrefixGrows(s.order, n, i);
    }
    assert t.records == u.records;
  }

  lemma NoUpdate(s: Store, id: Id)
    ensures Updated(s, id, map[]) == s
  {
    if id in s.records {
      assert s.records[id] + map[] == s.records[id];
      assert s.records[id := s.records[id]] == s.records;
    }
  }

  lemma PartKeys(s: Store, plan: Plan, maps: Maps, n: nat)
    requires n <= |s.order| && PlanOk(plan)
    ensures AllKeys(PartPass2(s, plan, maps, n)) == AllKeys(s)
  {
    hide Patch, KeyOf, PlanOk, KeyMap;
    var t := PartPass2(s, plan, maps, n);
    forall id | id in s.records
      ensures KeyOf(t.records[id]) == KeyOf(s.records[id])
    {
      Pass2Keys(s.records[id], plan, maps);
    }
    SameKeyMap(s, t, |s.order|);
  }

  lemma NoRelations(s: Store, plan: Plan, maps: Maps)
    requires RelationColumns(plan.columns) == []
    ensures Pass2(s, plan, maps) == s
  {
    forall id | id in s.records
      ensures s.records[id] + Patch(s.records[id], plan.columns, maps) == s.records[id]
    {
      OnlyRelations(s.records[id], plan.columns, maps);
    }
    assert Pass2(s, plan, maps).records == s.records;
  }

  lemma PageItems(s: Store, i: nat, j: nat)
    requires i <= j <= |s.order| && Elements(s.order) == s.records.Keys
    ensures forall k :: i <= k < j ==> s.order[k] in s.records
  {
    forall k | i <= k < j
      ensures s.order[k] in s.records
    {
      assert s.order[k] in Elements(s.order);
    }
  }

  /** A part of the listing, from a position on. */
  ghost predicate Listed(items: seq<(Id, Fields)>, s: Store, from: nat) {
    from + |items| <= |s.order| && forall i :: 0 <= i < |items| ==> ListedAt(items[i], s, from + i)
  }

  predicate ListedAt(item: (Id, Fields), s: Store, i: nat)
    requires i < |s.order|
  {
    s.order[i] in s.records && item == (s.order[i], s.records[s.order[i]])
  }

  /** The target: collections behind a total API. */
  class PocketBase {
    var stores: map<string, Store>
    var minted: nat

    ghost function W(): World
      reads this
    {
      World(stores, minted)
    }

    method Create(coll: string, payload: Fields) returns (id: Id)
      requires coll in stores
      modifies this
      ensures id == NewId(old(minted)) && minted == old(minted) + 1
      ensures stores == old(stores)[coll := Store(old(stores)[coll].order + [id], old(stores)[coll].records[id := payload])]
    {
      id := NewId(minted);
      minted := minted + 1;
      stores := stores[coll := Store(stores[coll].order + [id], stores[coll].records[id := payload])];
    }

    method Update(coll: string, id: Id, patch: Fields)
      requires coll in stores
      modifies this
      ensures minted == old(minted) && stores == old(stores)[coll := Updated(old(stores)[coll], id, patch)]
    {
      stores := stores[coll := Updated(stores[coll], id, patch)];
    }

    /** One page of the listing: ids and what is stored under them. */
    method GetList(coll: string, page: nat, size: nat) returns (items: seq<(Id, Fields)>, totalPages: nat)
      requires coll in stores && page > 0 && size > 0 && Elements(stores[coll].order) == stores[coll].records.Keys
      ensures totalPages == TotalPages(|stores[coll].order|, size)
      ensures var s := stores[coll];
              var from, to := Min(PageStart(page, size), |s.order|), Min(PageStart(page, size) + size, |s.order|);
              |items| == to - from && Listed(items, s, from)
    {
      hide TotalPages, PageStart;
      var s := stores[coll];
      totalPages := TotalPages(|s.order|, size);
      var from, to := Min(PageStart(page, size), |s.order|), Min(PageStart(page, size) + size, |s.order|);
      PageItems(s, from, to);
      items := seq(to - from, i requires 0 <= i < to - from => (s.order[from + i], s.records[s.order[from + i]]));
    }

    /** `buildOldIdToPocketIdMap` */
    method BuildOldIdToPocketIdMap(coll: string, pageSize: nat) returns (m: KeyIds)
      requires coll in stores && pageSize > 0 && Elements(stores[coll].order) == stores[coll].records.Keys
      ensures m == AllKeys(stores[coll])
    {
      hide TotalPages, PageStart, KeyMap, Elements;
      m := map[];
      var page := 1;
      FirstPage(pageSize);
      ghost var s := stores[coll];
      NoKeys(s);
      while true
        invariant page > 0 && PageStart(page, pageSize) <= |s.order| + pageSize
        invariant m == KeyMap(s, Min(PageStart(page, pageSize), |s.order|))
        decreases |s.order| + pageSize - PageStart(page, pageSize)
      {
        ghost var from := Min(PageStart(page, pageSize), |s.order|);
        var items, totalPages := GetList(coll, page, pageSize);
        for i := 0 to |items|
          invariant m == KeyMap(s, from + i)
        {
          var (id, record) := items[i];
          var normalized := KeyOf(record);
          KeyMapNext(s, from + i);
          if normalized.Some? { m := m[normalized.value := id]; }
        }
        LastPage(page, pageSize, |s.order|);
        NextPage(page, pageSize);
        if page >= totalPages { break; }
        page := page + 1;
      }
    }

    // -------------------------------------------------------------- pass 1

    method MigrateRow(row: Row, plan: Plan, convert: Conversion, existing0: KeyIds) returns (existing: KeyIds)
      requires plan.pbCollection in stores && forall k :: k in existing0 ==> existing0[k] != []
      modifies this
      ensures stores.Keys == old(stores).Keys && forall k :: k in existing ==> existing[k] != []
      ensures var c := plan.pbCollection;
              Pass(stores[c], minted, existing) == PassRow(Pass(old(stores)[c], old(minted), existing0), row, plan, convert)
      ensures stores == old(stores)[plan.pbCollection := stores[plan.pbCollection]]
    {
      hide Payload, Updated;
      existing := existing0;
      var oldId := RowKey(row, plan);
      if oldId.None? {
        assert stores == stores[plan.pbCollection := stores[plan.pbCollection]];
        return;
      }
      var payload := BuildPass1RecordPayload(row, plan, convert);
      payload := payload[OLD_ID := Text(oldId.value)];
      if oldId.value in existing && existing[oldId.value] != [] {
        Update(plan.pbCollection, existing[oldId.value], payload);
      } else {
        var created := Create(plan.pbCollection, payload);
        existing := existing[oldId.value := created];
      }
    }

    /** `migrateTablePass1`, for a source that returns exactly the rows of each requested range. */
    method MigrateTablePass1(rows: seq<Row>, plan: Plan, convert: Conversion, batchSize: nat, pageSize: nat)
      requires plan.pbCollection in stores && batchSize > 0 && pageSize > 0
      requires StoreOk(stores[plan.pbCollection], minted)
      modifies this
      ensures W() == Pass1Table(old(W()), plan, rows, convert)
    {
      hide PassRow, PassRows, KeyMap, Distinct;
      var c := plan.pbCollection;
      var existing := BuildOldIdToPocketIdMap(c, pageSize);
      ghost var w0, p0 := W(), Start(W(), c);
      NonEmptyIds(stores[c], minted);
      RowsStart(p0, rows, plan, convert);
      var offset := 0;
      while true
        invariant c in stores && stores == w0.stores[c := stores[c]] && offset <= |rows| + batchSize
        invariant forall k :: k in existing ==> existing[k] != []
        invariant Pass(stores[c], minted, existing) == PassRows(p0, rows[..Min(offset, |rows|)], plan, convert)
        decreases |rows| + batchSize - offset
      {
        var from, to := Min(offset, |rows|), Min(offset + batchSize, |rows|);
        var batch := rows[from..to];
        if batch == [] { break; }
        for i := 0 to |batch|
          invariant c in stores && stores == w0.stores[c := stores[c]]
          invariant forall k :: k in existing ==> existing[k] != []
          invariant Pass(stores[c], minted, existing) == PassRows(p0, rows[..from + i], plan, convert)
        {
          RowsNext(p0, rows, from + i, plan, convert);
          existing := MigrateRow(batch[i], plan, convert, existing);
        }
        offset := offset + batchSize;
        if |batch| < batchSize { break; }
      }
      assert rows[..|rows|] == rows;
    }

    // -------------------------------------------------------------- pass 2

    /** The lazily built map of a referenced table. */
    method GetRelationMap(relationMaps0: Maps, target: Table, plans: Plans, pageSize: nat) returns (relationMaps: Maps)
      requires WorldOk(W(), plans) && target in plans && pageSize > 0
      requires Cached(relationMaps0, MapsOf(W(), plans))
      ensures Cached(relationMaps, MapsOf(W(), plans))
      ensures target in relationMaps
    {
      hide AllKeys, UniqueKeys, Distinct;
      relationMaps := relationMaps0;
      if target !in relationMaps {
        var m := BuildOldIdToPocketIdMap(plans[target].pbCollection, pageSize);
        relationMaps := relationMaps[target := m];
      }
    }

    /** The patch of one record. */
    method BuildPatch(record: Fields, fkColumns: seq<Column>, relationMaps0: Maps, plans: Plans, pageSize: nat)
      returns (patch: Fields, relationMaps: Maps)
      requires WorldOk(W(), plans) && pageSize > 0
      requires forall i :: 0 <= i < |fkColumns| ==> fkColumns[i].isForeignKey && fkColumns[i].fkTempField.Some?
      requires Cached(relationMaps0, MapsOf(W(), plans))
      ensures Cached(relationMaps, MapsOf(W(), plans))
      ensures patch == Patch(record, fkColumns, MapsOf(W(), plans))
    {
      hide WorldOk, MapsOf, NormalizeOldId, FieldOf, Patch;
      patch, relationMaps := map[], relationMaps0;
      NoPatch(record, [], MapsOf(W(), plans));
      ghost var maps := MapsOf(W(), plans);
      MapsKeys(W(), plans);
      for i := 0 to |fkColumns|
        invariant patch == Patch(record, fkColumns[..i], maps)
        invariant Cached(relationMaps, maps)
      {
        var col := fkColumns[i];
        assert fkColumns[..i + 1] == fkColumns[..i] + [col];
        PatchSnoc(record, fkColumns[..i], col, maps);
        assert patch + map[] == patch;
        var oldRef := FieldOf(record, col.fkTempField.value);
        EmptyReference();
        if oldRef == Null || oldRef == Text([]) { continue; }
        if col.target !in plans { continue; }
        relationMaps := GetRelationMap(relationMaps, col.target, plans, pageSize);
        var normalizedRef := NormalizeOldId(oldRef);
        if normalizedRef.None? { continue; }
        if normalizedRef.value !in relationMaps[col.target] { continue; }
        var resolvedId := relationMaps[col.target][normalizedRef.value];
        if resolvedId == [] { continue; }
        assert ColumnPatch(record, col, maps) == map[col.pbField := Text(resolvedId), col.fkTempField.value := Null];
        patch := patch + map[col.pbField := Text(resolvedId), col.fkTempField.value := Null];
      }
      assert fkColumns[..|fkColumns|] == fkColumns;
    }

    /** One record of a page. */
    method ResolveRecord(id: Id, record: Fields, plan: Plan, fkColumns: seq<Column>, relationMaps0: Maps, plans: Plans,
                         pageSize: nat)
      returns (relationMaps: Maps)
      requires WorldOk(W(), plans) && pageSize > 0 && plan.pbCollection in stores && fkColumns == RelationColumns(plan.columns)
      requires forall i :: 0 <= i < |fkColumns| ==> fkColumns[i].isForeignKey && fkColumns[i].fkTempField.Some?
      requires Cached(relationMaps0, MapsOf(W(), plans))
      modifies this
      ensures var c := plan.pbCollection;
              W() == World(old(stores)[c := Updated(old(stores)[c], id, Patch(record, plan.columns, MapsOf(old(W()), plans)))],
                           old(minted))
      ensures Cached(relationMaps, MapsOf(old(W()), plans))
    {
      hide WorldOk, MapsOf, Patch, Updated;
      var patch;
      patch, relationMaps := BuildPatch(record, fkColumns, relationMaps0, plans, pageSize);
      OnlyRelations(record, plan.columns, MapsOf(W(), plans));
      if patch == map[] {
        NoUpdate(stores[plan.pbCollection], id);
        assert stores == stores[plan.pbCollection := stores[plan.pbCollection]];
        return;
      }
      Update(plan.pbCollection, id, patch);
    }

    /** The records of one page, from the position `from` on. */
    method ResolvePage(items: seq<(Id, Fields)>, ghost from: nat, ghost w0: World, ghost s: Store, plan: Plan,
                       fkColumns: seq<Column>, relationMaps0: Maps, plans: Plans, pageSize: nat)
      returns (relationMaps: Maps)
      requires PlansOk(plans) && WorldOk(w0, plans) && pageSize > 0 && plan.table in plans && plans[plan.table] == plan
      requires plan.pbCollection in w0.stores && s == w0.stores[plan.pbCollection] && from + |items| <= |s.order|
      requires fkColumns == RelationColumns(plan.columns)
      requires forall i :: 0 <= i < |fkColumns| ==> fkColumns[i].isForeignKey && fkColumns[i].fkTempField.Some?
      requires W() == PartWorld(w0, plan.pbCollection, s, plan, MapsOf(w0, plans), from)
      requires Listed(items, stores[plan.pbCollection], from)
      requires Cached(relationMaps0, MapsOf(w0, plans))
      modifies this
      ensures W() == PartWorld(w0, plan.pbCollection, s, plan, MapsOf(w0, plans), from + |items|)
      ensures Cached(relationMaps, MapsOf(w0, plans))
    {
      hide PlansOk, WorldOk, MapsOf, PartPass2, Distinct, Elements, Cached, Updated, Patch;
      relationMaps := relationMaps0;
      ghost var maps, part := MapsOf(w0, plans), stores[plan.pbCollection];
      for i := 0 to |items|
        invariant W() == PartWorld(w0, plan.pbCollection, s, plan, maps, from + i)
        invariant Cached(relationMaps, maps)
      {
        var (id, record) := items[i];
        PartWorldOk(w0, plans, plan, s, from + i);
        Unpatched(s, plan, maps, from, from + i);
        PartStep(s, plan, maps, from + i);
        relationMaps := ResolveRecord(id, record, plan, fkColumns, relationMaps, plans, pageSize);
      }
    }

    /** `resolveRelationsPass2` */
    method ResolveRelationsPass2(plan: Plan, plans: Plans, pageSize: nat)
      requires PlansOk(plans) && WorldOk(W(), plans) && pageSize > 0
      requires plan.table in plans && plans[plan.table] == plan
      modifies this
      ensures W() == Pass2Table(old(W()), plan, plans)
    {
      hide PlansOk, WorldOk, MapsOf, PageStart, TotalPages, PartPass2, Pass2, Distinct, Elements, Cached;
      ghost var w0 := W();
      var c := plan.pbCollection;
      TableOf(w0, plans, plan.table);
      ghost var s, maps := stores[c], MapsOf(w0, plans);
      var fkColumns := FilterRelations(plan.columns);
      if fkColumns == [] {
        NoRelations(s, plan, maps);
        assert stores == stores[c := stores[c]];
        return;
      }
      var relationMaps: Maps := map[];
      NoneCached(maps);
      var page := 1;
      FirstPage(pageSize);
      PartStart(s, plan, maps);
      assert stores[c := s] == stores;
      while true
        invariant page > 0 && PageStart(page, pageSize) <= |s.order| + pageSize
        invariant W() == PartWorld(w0, c, s, plan, maps, Min(PageStart(page, pageSize), |s.order|))
        invariant Cached(relationMaps, maps)
        decreases |s.order| + pageSize - PageStart(page, pageSize)
      {
        ghost var from := Min(PageStart(page, pageSize), |s.order|);
        PartWorldOk(w0, plans, plan, s, from);
        var items, totalPages := GetList(c, page, pageSize);
        relationMaps := ResolvePage(items, from, w0, s, plan, fkColumns, relationMaps, plans, pageSize);
        LastPage(page, pageSize, |s.order|);
        NextPage(page, pageSize);
        if page >= totalPages { break; }
        page := page + 1;
      }
      PartEnd(s, plan, maps);
    }

    /** The two loops of the migration. */
    method Run(order: seq<Table>, plans: Plans, source: Source, convert: Conversion, batchSize: nat, pageSize: nat)
      requires PlansOk(plans) && WorldOk(W(), plans) && Distinct(order) && Elements(order) == plans.Keys
      requires batchSize > 0 && pageSize > 0 && forall t :: t in plans ==> plans[t].table == t
      modifies this
      ensures W() == Migrate(old(W()), order, plans, source, convert)
    {
      hide PlansOk, WorldOk, Pass1Table, Pass2Table, Distinct, Pass1Done, Pass2Done;
      ghost var w0 := W();
      for i := 0 to |order|
        invariant W() == Pass1All(w0, order[..i], plans, source, convert)
      {
        Before1(w0, order, plans, source, convert, i);
        assert order[..i + 1][..i] == order[..i];
        MigrateTablePass1(RowsOf(source, order[i]), plans[order[i]], convert, batchSize, pageSize);
      }
      assert order[..|order|] == order;
      ghost var v := W();
      Pass1AllDone(w0, order, plans, source, convert);
      DoneOk(w0, v, Elements(order), plans, source, convert);
      for i := 0 to |order|
        invariant W() == Pass2All(v, order[..i], plans)
      {
        Before2(v, order, plans, i);
        assert order[..i + 1][..i] == order[..i];
        ResolveRelationsPass2(plans[order[i]], plans, pageSize);
      }
    }
  }

  lemma NoneCached(maps: Maps)
    ensures Cached(map[], maps)
  {}

  /** The world in the middle of pass 2 of one collection. */
  function PartWorld(w: World, c: string, s: Store, plan: Plan, maps: Maps, n: nat): World
    requires n <= |s.order|
  {
    World(w.stores[c := PartPass2(s, plan, maps, n)], w.minted)
  }

  lemma TableOf(w: World, plans: Plans, t: Table)
    requires WorldOk(w, plans) && t in plans
    ensures plans[t].pbCollection in w.stores
  {}

  lemma PartWorldOk(w: World, plans: Plans, plan: Plan, s: Store, n: nat)
    requires PlansOk(plans) && WorldOk(w, plans) && plan.table in plans && plans[plan.table] == plan
    requires plan.pbCollection in w.stores && s == w.stores[plan.pbCollection] && n <= |s.order|
    ensures var v := PartWorld(w, plan.pbCollection, s, plan, MapsOf(w, plans), n);
            WorldOk(v, plans) && MapsOf(v, plans) == MapsOf(w, plans)
    ensures Distinct(s.order) && Elements(s.order) == s.records.Keys
  {
    hide PartPass2, PlanOk, AllKeys, UniqueKeys, MapsOf, StoreOk;
    var maps := MapsOf(w, plans);
    var v := PartWorld(w, plan.pbCollection, s, plan, maps, n);
    PartKeys(s, plan, maps, n);
    PartOk(s, w.minted, plan, maps, n);
    SameMaps(w, v, plans);
    StoreListing(s, w.minted);
  }

  lemma StoreListing(s: Store, minted: nat)
    requires StoreOk(s, minted)
    ensures Distinct(s.order) && Elements(s.order) == s.records.Keys
  {}

  lemma PartOk(s: Store, minted: nat, plan: Plan, maps: Maps, n: nat)
    requires StoreOk(s, minted) && UniqueKeys(s) && PlanOk(plan) && n <= |s.order|
    ensures StoreOk(PartPass2(s, plan, maps, n), minted) && UniqueKeys(PartPass2(s, plan, maps, n))
  {
    hide Patch, KeyOf, PlanOk;
    var t := PartPass2(s, plan, maps, n);
    forall id | id in s.records
      ensures KeyOf(t.records[id]) == KeyOf(s.records[id])
    {
      Pass2Keys(s.records[id], plan, maps);
    }
  }

  lemma Unpatched(s: Store, plan: Plan, maps: Maps, n: nat, j: nat)
    requires n <= j < |s.order| && Distinct(s.order) && Elements(s.order) == s.records.Keys
    ensures s.order[j] in s.records && PartPass2(s, plan, maps, n).records[s.order[j]] == s.records[s.order[j]]
  {
    hide Patch;
    assert s.order[j] in Elements(s.order);
    assert s.order[j] !in s.order[..n];
  }

  lemma Before1(w: World, order: seq<Table>, plans: Plans, source: Source, convert: Conversion, i: nat)
    requires PlansOk(plans) && WorldOk(w, plans) && Distinct(order) && Elements(order) == plans.Keys && i < |order|
    ensures var v := Pass1All(w, order[..i], plans, source, convert);
            order[i] in plans && plans[order[i]].pbCollection in v.stores &&
            StoreOk(v.stores[plans[order[i]].pbCollection], v.minted)
  {
    hide PlansOk, StoreOk, UniqueKeys, Pass1All, TableDone;
    assert order[i] in Elements(order);
    assert Elements(order[..i]) <= plans.Keys by { FrontElements(order, i); }
    Pass1AllDone(w, order[..i], plans, source, convert);
  }

  lemma FrontElements(order: seq<Table>, i: nat)
    requires i <= |order|
    ensures Elements(order[..i]) <= Elements(order) && (Distinct(order) ==> Distinct(order[..i]))
  {}

  lemma Before2(v: World, order: seq<Table>, plans: Plans, i: nat)
    requires PlansOk(plans) && WorldOk(v, plans) && Distinct(order) && Elements(order) == plans.Keys && i < |order|
    ensures order[i] in plans && WorldOk(Pass2All(v, order[..i], plans), plans)
  {
    hide PlansOk, WorldOk, Pass2All, Pass2Done;
    assert order[i] in Elements(order);
    FrontElements(order, i);
    Pass2AllDone(v, order[..i], plans);
    Pass2Ok(v, Pass2All(v, order[..i], plans), order[..i], plans);
  }

  lemma MapsKeys(w: World, plans: Plans)
    ensures MapsOf(w, plans).Keys == plans.Keys
  {}

  lemma EmptyReference()
    ensures NormalizeOldId(Null) == None && NormalizeOldId(Text([])) == None
  {}

  lemma NoKeys(s: Store)
    ensures KeyMap(s, 0) == map[]
  {}

  lemma KeyMapNext(s: Store, n: nat)
    requires n < |s.order| && s.order[n] in s.records
    ensures KeyMap(s, n + 1) == var k := KeyOf(s.records[s.order[n]]);
                                if k.Some? then KeyMap(s, n)[k.value := s.order[n]] else KeyMap(s, n)
  {
    hide KeyOf;
  }

  lemma NonEmptyIds(s: Store, minted: nat)
    requires StoreOk(s, minted)
    ensures forall k :: k in AllKeys(s) ==> AllKeys(s)[k] != []
  {
    IdsFrom(s, |s.order|);
  }

  lemma {:induction false} IdsFrom(s: Store, n: nat)
    requires n <= |s.order|
    ensures forall k :: k in KeyMap(s, n) ==> KeyMap(s, n)[k] in s.records
  {
    hide KeyOf;
    if n > 0 { IdsFrom(s, n - 1); }
  }

  lemma RowsStart(p: Pass, rows: seq<Row>, plan: Plan, convert: Conversion)
    ensures PassRows(p, rows[..0], plan, convert) == p
  {}

  lemma RowsNext(p: Pass, rows: seq<Row>, n: nat, plan: Plan, convert: Conversion)
    requires n < |rows|
    ensures PassRows(p, rows[..n + 1], plan, convert) == PassRow(PassRows(p, rows[..n], plan, convert), rows[n], plan, convert)
  {
    assert rows[..n + 1][..n] == rows[..n];
  }
}
