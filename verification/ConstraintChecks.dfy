/** Foreign key checks and the rows that a change reaches by cascading, answered from the indices. */
module ConstraintChecks {
  import opened BTreeStore
  import opened TableState
  import opened TableDiffs
  import opened Schemas
  import opened InMemoryUpdater
  import opened CascadeReach
  import Sets

  /** The key in the index differs before and after, or is missing on one side. */
  predicate DidColumnValueChange(spec: IndexSpec, mod: Modification) {
    || mod.before.Just? != mod.after.Just?
    || (mod.before.Just? && mod.after.Just? && KeyOf(spec, mod.before.value) != KeyOf(spec, mod.after.value))
  }

  /** What a foreign key demands of modifications of its child table. */
  ghost predicate Referred(s: Schema, tables: Tables, f: ForeignKey, mods: seq<Modification>)
    requires ForeignKeyOk(s, f) && s.specs.Keys <= tables.Keys
  {
    forall m :: m in mods && m.after.Just? && (m.before.Just? ==> KeyOf(ChildSpec(s, f), m.before.value) != KeyOf(ChildSpec(s, f), m.after.value)) ==>
      HasKey(tables[f.parentTable], ParentSpec(s, f), KeyOf(ChildSpec(s, f), m.after.value))
  }

  ghost predicate AllReferred(s: Schema, tables: Tables, table: Table, mods: seq<Modification>)
    requires SchemaOk(s) && s.specs.Keys <= tables.Keys
  {
    forall f :: f in s.foreignKeys && f.childTable == table && f.immediate ==> Referred(s, tables, f, mods)
  }

  /** What a foreign key demands of modifications of its parent table. */
  ghost predicate Unreferred(s: Schema, tables: Tables, f: ForeignKey, mods: seq<Modification>)
    requires ForeignKeyOk(s, f) && s.specs.Keys <= tables.Keys
  {
    forall m :: m in mods && m.before.Just? && (m.after.Just? ==> KeyOf(ParentSpec(s, f), m.before.value) != KeyOf(ParentSpec(s, f), m.after.value)) ==>
      !HasKey(tables[f.childTable], ChildSpec(s, f), KeyOf(ParentSpec(s, f), m.before.value))
  }

  ghost predicate AllUnreferred(s: Schema, tables: Tables, table: Table, mods: seq<Modification>, restrictOnly: bool)
    requires SchemaOk(s) && s.specs.Keys <= tables.Keys
  {
    forall f :: f in s.foreignKeys && f.parentTable == table && f.immediate && !(restrictOnly && f.cascade) ==>
      Unreferred(s, tables, f, mods)
  }

  /** The foreign key and the row after the update that causes the cascade. */
  datatype CascadeUpdateItem = CascadeUpdateItem(fk: ForeignKey, row: Row)

  type CascadeUpdates = Listing<seq<CascadeUpdateItem>>

  /** The items come in the order of their foreign keys, none later than place i. */
  ghost predicate PlacedUpTo(s: Schema, items: seq<CascadeUpdateItem>, i: nat) {
    && (forall a :: 0 <= a < |items| ==> items[a].fk in s.foreignKeys && Place(s, items[a].fk) <= i)
    && (forall a, b :: 0 <= a < b < |items| ==> Place(s, items[a].fk) <= Place(s, items[b].fk))
  }

  ghost predicate OrderedUpTo(s: Schema, l: CascadeUpdates, i: nat) {
    forall id :: Has(l, id) ==> PlacedUpTo(s, Lookup(l, id), i)
  }

  predicate IsListed(l: CascadeUpdates, id: RowId, item: CascadeUpdateItem) {
    Has(l, id) && item in Lookup(l, id)
  }

  /** The update of a parent row changes the key that the child row refers to. */
  ghost predicate CausedBy(s: Schema, tables: Tables, m: Modification, id: RowId, item: CascadeUpdateItem)
    requires ForeignKeyOk(s, item.fk) && s.specs.Keys <= tables.Keys
  {
    && m.before.Just? && m.after == Just(item.row) && KeyOf(ParentSpec(s, item.fk), m.before.value) != KeyOf(ParentSpec(s, item.fk), item.row)
    && id in tables[item.fk.childTable]
    && KeyOf(ChildSpec(s, item.fk), tables[item.fk.childTable][id]) == KeyOf(ParentSpec(s, item.fk), m.before.value)
  }

  ghost predicate Cascades(s: Schema, tables: Tables, table: Table, mods: seq<Modification>, id: RowId, item: CascadeUpdateItem)
    requires SchemaOk(s) && s.specs.Keys <= tables.Keys
  {
    && item.fk in s.foreignKeys && item.fk.parentTable == table && item.fk.cascade
    && exists m :: m in mods && CausedBy(s, tables, m, id, item)
  }

  ghost predicate CascadesEarly(s: Schema, tables: Tables, table: Table, mods: seq<Modification>, i: nat, j: nat, id: RowId, item: CascadeUpdateItem)
    requires SchemaOk(s) && s.specs.Keys <= tables.Keys && i <= |s.foreignKeys| && j <= |mods|
  {
    && item.fk in s.foreignKeys && item.fk.parentTable == table && item.fk.cascade
    && ((item.fk in s.foreignKeys[..i] && exists m :: m in mods && CausedBy(s, tables, m, id, item))
        || (i < |s.foreignKeys| && item.fk == s.foreignKeys[i] && exists m :: m in mods[..j] && CausedBy(s, tables, m, id, item)))
  }

  class ConstraintChecker {
    const database: Database
    const schema: Schema

    constructor (database: Database)
      ensures this.database == database && schema == database.schema
    {
      this.database := database;
      schema := database.schema;
    }

    ghost predicate Valid()
      reads this, database
    {
      schema == database.schema && database.Valid()
    }

    method CheckReferredKey(f: ForeignKey, mods: seq<Modification>) returns (ok: bool)
      requires Valid() && f in schema.foreignKeys && forall m :: m in mods ==> m.after.Just?
      ensures ok <==> Referred(schema, database.rows, f, mods)
    {
      var parentIndex := database.indices[f.parentTable][f.parentIndex];
      for i := 0 to |mods|
        invariant Referred(schema, database.rows, f, mods[..i])
      {
        assert mods[i] in mods;
        if DidColumnValueChange(ChildSpec(schema, f), mods[i]) {
          var parentKey := KeyOf(ChildSpec(schema, f), mods[i].after.value);
          IndexHasKey(parentIndex, ParentSpec(schema, f), database.rows[f.parentTable], parentKey);
          if parentKey !in parentIndex { return false; }
        }
        assert mods[..i + 1] == mods[..i] + [mods[i]];
      }
      assert mods[..|mods|] == mods;
      return true;
    }

    /** checkReferredKeys: every changed child key must have a parent. */
    method CheckReferredKeys(table: Table, mods: seq<Modification>) returns (ok: bool)
      requires Valid() && forall m :: m in mods ==> m.after.Just?
      ensures ok <==> AllReferred(schema, database.rows, table, mods)
    {
      for i := 0 to |schema.foreignKeys|
        invariant forall f :: f in schema.foreignKeys[..i] && f.childTable == table && f.immediate ==> Referred(schema, database.rows, f, mods)
      {
        var f := schema.foreignKeys[i];
        if f.childTable == table && f.immediate {
          var found := CheckReferredKey(f, mods);
          if !found { return false; }
        }
        assert schema.foreignKeys[..i + 1] == schema.foreignKeys[..i] + [f];
      }
      assert schema.foreignKeys[..|schema.foreignKeys|] == schema.foreignKeys;
      return true;
    }

    method CheckReferringKey(f: ForeignKey, mods: seq<Modification>) returns (ok: bool)
      requires Valid() && f in schema.foreignKeys && forall m :: m in mods ==> m.before.Just? || m.after.Nothing?
      ensures ok <==> Unreferred(schema, database.rows, f, mods)
    {
      var childIndex := database.indices[f.childTable][f.childIndex];
      for i := 0 to |mods|
        invariant Unreferred(schema, database.rows, f, mods[..i])
      {
        assert mods[i] in mods;
        if DidColumnValueChange(ParentSpec(schema, f), mods[i]) {
          var parentKey := KeyOf(ParentSpec(schema, f), mods[i].before.value);
          IndexHasKey(childIndex, ChildSpec(schema, f), database.rows[f.childTable], parentKey);
          if parentKey in childIndex { return false; }
        }
        assert mods[..i + 1] == mods[..i] + [mods[i]];
      }
      assert mods[..|mods|] == mods;
      return true;
    }

    /** checkReferringKeys: no changed parent key may have a child. */
    method CheckReferringKeys(table: Table, mods: seq<Modification>, restrictOnly: bool) returns (ok: bool)
      requires Valid() && forall m :: m in mods ==> m.before.Just? || m.after.Nothing?
      ensures ok <==> AllUnreferred(schema, database.rows, table, mods, restrictOnly)
    {
      for i := 0 to |schema.foreignKeys|
        invariant forall f :: f in schema.foreignKeys[..i] && f.parentTable == table && f.immediate && !(restrictOnly && f.cascade) ==>
          Unreferred(schema, database.rows, f, mods)
      {
        var f := schema.foreignKeys[i];
        if f.parentTable == table && f.immediate && !(restrictOnly && f.cascade) {
          var free := CheckReferringKey(f, mods);
          if !free { return false; }
        }
        assert schema.foreignKeys[..i + 1] == schema.foreignKeys[..i] + [f];
      }
      assert schema.foreignKeys[..|schema.foreignKeys|] == schema.foreignKeys;
      return true;
    }

    /** Every row that refers to an updated key through a cascading foreign key, with the update. */
    method DetectCascadeUpdates(table: Table, mods: seq<Modification>) returns (updates: CascadeUpdates)
      requires Valid() && forall m :: m in mods ==> m.before.Just? && m.after.Just?
      ensures OncePerId(updates)
      ensures forall id, item :: IsListed(updates, id, item) <==> Cascades(schema, database.rows, table, mods, id, item)
      ensures OrderedUpTo(schema, updates, |schema.foreignKeys|)
    {
      hide PlacedUpTo, OrderedUpTo;
      updates := [];
      NothingListed(schema);
      for i := 0 to |schema.foreignKeys|
        invariant OncePerId(updates) && OrderedUpTo(schema, updates, i)
        invariant forall id, item :: IsListed(updates, id, item) <==> CascadesEarly(schema, database.rows, table, mods, i, 0, id, item)
      {
        LaterPlace(schema, i);
        var f := schema.foreignKeys[i];
        if f.parentTable == table && f.cascade {
          for j := 0 to |mods|
            invariant OncePerId(updates) && OrderedUpTo(schema, updates, i)
            invariant forall id, item :: IsListed(updates, id, item) <==> CascadesEarly(schema, database.rows, table, mods, i, j, id, item)
          {
            assert mods[j] in mods;
            updates := ListReferring(f, mods[j], updates, i);
            NextCascade(schema, database.rows, table, mods, i, j);
          }
        }
        NextForeignKey(schema, database.rows, table, mods, i);
      }
      AllCascades(schema, database.rows, table, mods);
    }

    method ListReferring(f: ForeignKey, m: Modification, before: CascadeUpdates, ghost i: nat) returns (updates: CascadeUpdates)
      requires Valid() && f in schema.foreignKeys && m.before.Just? && m.after.Just? && OncePerId(before)
      requires Place(schema, f) == i && OrderedUpTo(schema, before, i)
      ensures OncePerId(updates) && OrderedUpTo(schema, updates, i)
      ensures forall id, item :: IsListed(updates, id, item) <==>
        IsListed(before, id, item) || (item.fk == f && CausedBy(schema, database.rows, m, id, item))
    {
      hide PlacedUpTo, OrderedUpTo;
      updates := before;
      if DidColumnValueChange(ParentSpec(schema, f), m) {
        var childIndex := database.indices[f.childTable][f.childIndex];
        var parentKey := KeyOf(ParentSpec(schema, f), m.before.value);
        IndexHasKey(childIndex, ChildSpec(schema, f), database.rows[f.childTable], parentKey);
        var ids := if parentKey in childIndex then childIndex[parentKey] else {};
        assert forall id :: id in ids <==> id in database.rows[f.childTable] && KeyOf(ChildSpec(schema, f), database.rows[f.childTable][id]) == parentKey;
        var childRowIds := Sets.InSomeOrder(ids);
        var item := CascadeUpdateItem(f, m.after.value);
        for k := 0 to |childRowIds|
          invariant OncePerId(updates) && OrderedUpTo(schema, updates, i)
          invariant forall id, x :: IsListed(updates, id, x) <==> IsListed(before, id, x) || (x == item && id in childRowIds[..k])
        {
          var id := childRowIds[k];
          var items := if Has(updates, id) then Lookup(updates, id) else [];
          var listed := SetEntry(updates, id, items + [item]);
          ItemListed(updates, id, item, listed);
          ItemPlaced(schema, updates, id, item, listed, i);
          updates := listed;
          assert childRowIds[..k + 1] == childRowIds[..k] + [id];
        }
        assert childRowIds[..|childRowIds|] == childRowIds;
      }
    }

    /** The rows that refer to the given rows of a table through cascading foreign keys. */
    method FindReferringRowIds(table: Table, rowIds: set<RowId>) returns (referring: RowIds)
      requires Valid() && forall id :: id in rowIds ==> table in database.rows && id in database.rows[table]
      ensures forall u, id :: Among(referring, u, id) <==> exists x :: x in rowIds && Below(schema, database.rows, table, x, u, id)
      ensures forall u :: u in referring ==> referring[u] != {}
    {
      hide TableOk, Refers, RefersThrough, ReferringEarly, Below;
      referring := map[];
      NoneReferring(schema, database.rows, table);
      var ids := Sets.InSomeOrder(rowIds);
      assert forall id :: id in ids ==> table in database.rows && id in database.rows[table];
      for i := 0 to |schema.foreignKeys|
        invariant forall u, id :: Among(referring, u, id) <==> ReferringEarly(schema, database.rows, table, ids, i, 0, u, id)
        invariant forall u :: u in referring ==> referring[u] != {}
      {
        var f := schema.foreignKeys[i];
        if f.parentTable == table && f.cascade {
          for j := 0 to |ids|
            invariant forall u, id :: Among(referring, u, id) <==> ReferringEarly(schema, database.rows, table, ids, i, j, u, id)
            invariant forall u :: u in referring ==> referring[u] != {}
          {
            assert ids[j] in ids;
            referring := SetReferring(f, ids[j], referring);
            NextReferring(schema, database.rows, table, ids, i, j);
          }
        }
        NextReferringKey(schema, database.rows, table, ids, i);
      }
      AllReferring(schema, database.rows, table, ids);
    }

    method SetReferring(f: ForeignKey, x: RowId, before: RowIds) returns (referring: RowIds)
      requires Valid() && f in schema.foreignKeys && f.cascade && x in database.rows[f.parentTable]
      requires forall u :: u in before ==> before[u] != {}
      ensures forall u, id :: Among(referring, u, id) <==>
        Among(before, u, id) || RefersThrough(schema, database.rows, f, f.parentTable, x, u, id)
      ensures forall u :: u in referring ==> referring[u] != {}
    {
      referring := before;
      var parentKey := KeyOf(ParentSpec(schema, f), database.rows[f.parentTable][x]);
      var childIndex := database.indices[f.childTable][f.childIndex];
      IndexFindsReferring(schema, database.rows, database.indices, f, x);
      if parentKey in childIndex {
        referring := SetMany(referring, f.childTable, childIndex[parentKey]);
      }
    }

    /** The rows a deletion reaches, one round of references after the other, and the tables in the
        order in which their rows are to be deleted. */
    method DetectCascadeDeletion(table: Table, rowIds: set<RowId>, ghost rank: map<Table, nat>)
      returns (rowIdsPerTable: RowIds, tableOrder: seq<Table>)
      requires Valid() && Ranked(schema, rank) && table in database.rows && rowIds <= database.rows[table].Keys
      ensures forall t, id :: Among(rowIdsPerTable, t, id) <==> Reached(schema, database.rows, table, rowIds, t, id)
      ensures forall t :: t in tableOrder <==> t in rowIdsPerTable
      ensures forall t :: t in rowIdsPerTable ==> rowIdsPerTable[t] != {}
      ensures forall t :: Twice(tableOrder, t) <==> ReachedTwice(schema, database.rows, table, rowIds, t)
      ensures ChildrenEarlier(schema, database.rows, tableOrder, rowIdsPerTable, map[])
    {
      SchemaFacts();
      hide *;
      rowIdsPerTable, tableOrder := map[], [];
      var lastRowIdsToDelete: RowIds := map[table := rowIds];
      DeletionStarts(schema, database.rows, table, rowIds);
      NothingEarlier(schema, database.rows, lastRowIdsToDelete);
      ghost var n := 0;
      ghost var depth := if table in rank then rank[table] else 0;
      var more := true;
      while more
        invariant DeletionSoFar(schema, database.rows, table, rowIds, n, lastRowIdsToDelete, rowIdsPerTable, tableOrder)
        invariant ChildrenEarlier(schema, database.rows, tableOrder, rowIdsPerTable, lastRowIdsToDelete)
        invariant !more ==> n > 0 && !NonEmpty(lastRowIdsToDelete)
        invariant more ==> n <= depth
        decreases if more then depth + 1 - n else 0
      {
        DeletionRows(schema, database.rows, table, rowIds, n, lastRowIdsToDelete, rowIdsPerTable, tableOrder);
        var newRowIdsToDelete, order := NextRound(lastRowIdsToDelete);
        DeletionNext(schema, database.rows, table, rowIds, n, lastRowIdsToDelete, rowIdsPerTable, tableOrder, newRowIdsToDelete, order, rank);
        EarlierNext(schema, database.rows, table, rowIds, n, lastRowIdsToDelete, rowIdsPerTable, tableOrder, newRowIdsToDelete, order);
        lastRowIdsToDelete := newRowIdsToDelete;
        tableOrder := order + tableOrder;
        rowIdsPerTable := Merged(rowIdsPerTable, lastRowIdsToDelete);
        n := n + 1;
        more := NonEmpty(lastRowIdsToDelete);
      }
      DeletionEnds(schema, database.rows, table, rowIds, n, lastRowIdsToDelete, rowIdsPerTable, tableOrder);
      EarlierAtEnd(schema, database.rows, tableOrder, rowIdsPerTable, lastRowIdsToDelete);
    }

    lemma SchemaFacts()
      requires Valid()
      ensures SchemaOk(schema) && schema.specs.Keys == database.rows.Keys
    {
    }

    method NextRound(last: RowIds) returns (next: RowIds, order: seq<Table>)
      requires Valid() && forall t, id :: Among(last, t, id) ==> t in database.rows && id in database.rows[t]
      ensures forall u, id :: Among(next, u, id) <==> exists t, x :: Among(last, t, x) && Below(schema, database.rows, t, x, u, id)
      ensures forall t :: t in order <==> t in next
      ensures forall t :: t in next ==> next[t] != {}
      ensures forall t :: t in order <==> SomeFinds(schema, database.rows, last, t)
      ensures forall t :: Twice(order, t) <==> TwoFind(schema, database.rows, last, t)
    {
      hide Twice, Finds, Below, TwoFind, SomeFinds, SomeKeyFinds, TwoKeysFind;
      next, order := map[], [];
      NothingTwice<Table>();
      NoKeyFinds(schema, database.rows, last);
      var keys := Sets.InSomeOrder(last.Keys);
      for i := 0 to |keys|
        invariant forall u, id :: Among(next, u, id) <==> exists t, x :: t in keys[..i] && Among(last, t, x) && Below(schema, database.rows, t, x, u, id)
        invariant forall t :: t in order <==> t in next
        invariant forall t :: t in next ==> next[t] != {}
        invariant forall t :: t in order <==> SomeKeyFinds(schema, database.rows, last, keys[..i], t)
        invariant forall t :: Twice(order, t) <==> TwoKeysFind(schema, database.rows, last, keys[..i], t)
      {
        assert forall id :: id in last[keys[i]] ==> Among(last, keys[i], id);
        var referring := FindReferringRowIds(keys[i], last[keys[i]]);
        var found := Sets.InSomeOrder(referring.Keys);
        FoundFrom(schema, database.rows, last, keys[i], referring, found);
        forall t ensures Twice(found + order, t) <==> Twice(order, t) || (t in found && t in order) { TwiceConcat(found, order, t); }
        NextKeyFinds(schema, database.rows, last, keys, i);
        order := found + order;
        next := Merged(next, referring);
        assert keys[..i + 1] == keys[..i] + [keys[i]];
      }
      assert keys[..|keys|] == keys;
      FindsFromKeys(schema, database.rows, last, keys);
    }
  }

  lemma NothingListed(s: Schema)
    ensures OrderedUpTo(s, [], 0)
  {
  }

  /** The i-th foreign key has place i, and what is placed up to i is placed up to i + 1. */
  lemma LaterPlace(s: Schema, i: nat)
    requires SchemaOk(s) && i < |s.foreignKeys|
    ensures Place(s, s.foreignKeys[i]) == i
    ensures forall l :: OrderedUpTo(s, l, i) ==> OrderedUpTo(s, l, i + 1)
  {
    var j := Place(s, s.foreignKeys[i]);
    assert s.foreignKeys[j] == s.foreignKeys[i];
    var n := i + 1;
    forall l | OrderedUpTo(s, l, i) ensures OrderedUpTo(s, l, n) {
      forall id | Has(l, id) ensures PlacedUpTo(s, Lookup(l, id), n) { assert PlacedUpTo(s, Lookup(l, id), i); }
    }
  }

  lemma ItemPlaced(s: Schema, l: CascadeUpdates, id: RowId, item: CascadeUpdateItem, l': CascadeUpdates, i: nat)
    requires OncePerId(l) && l' == SetEntry(l, id, (if Has(l, id) then Lookup(l, id) else []) + [item])
    requires item.fk in s.foreignKeys && Place(s, item.fk) == i && OrderedUpTo(s, l, i)
    ensures OrderedUpTo(s, l', i)
  {
    var before := if Has(l, id) then Lookup(l, id) else [];
    SetListing(l, id, before + [item]);
    hide SetEntry, Has, Lookup, OncePerId;
    assert PlacedUpTo(s, before, i);
    PlacedPush(s, before, item, i);
    hide PlacedUpTo;
    forall x | Has(l', x) ensures PlacedUpTo(s, Lookup(l', x), i) {
      assert Has(l, x) ==> PlacedUpTo(s, Lookup(l, x), i);
    }
  }

  lemma PlacedPush(s: Schema, items: seq<CascadeUpdateItem>, item: CascadeUpdateItem, i: nat)
    requires PlacedUpTo(s, items, i) && item.fk in s.foreignKeys && Place(s, item.fk) == i
    ensures PlacedUpTo(s, items + [item], i)
  {
  }

  lemma ItemListed(l: CascadeUpdates, id: RowId, item: CascadeUpdateItem, l': CascadeUpdates)
    requires OncePerId(l) && l' == SetEntry(l, id, (if Has(l, id) then Lookup(l, id) else []) + [item])
    ensures OncePerId(l')
    ensures forall x, y :: IsListed(l', x, y) <==> IsListed(l, x, y) || (x == id && y == item)
  {
    SetListing(l, id, (if Has(l, id) then Lookup(l, id) else []) + [item]);
  }

  lemma NextCascade(s: Schema, tables: Tables, table: Table, mods: seq<Modification>, i: nat, j: nat)
    requires SchemaOk(s) && s.specs.Keys <= tables.Keys && i < |s.foreignKeys| && j < |mods|
    requires s.foreignKeys[i].parentTable == table && s.foreignKeys[i].cascade
    ensures forall id, item :: CascadesEarly(s, tables, table, mods, i, j + 1, id, item) <==>
      CascadesEarly(s, tables, table, mods, i, j, id, item) || (item.fk == s.foreignKeys[i] && CausedBy(s, tables, mods[j], id, item))
  {
    assert mods[..j + 1] == mods[..j] + [mods[j]];
  }

  lemma NextForeignKey(s: Schema, tables: Tables, table: Table, mods: seq<Modification>, i: nat)
    requires SchemaOk(s) && s.specs.Keys <= tables.Keys && i < |s.foreignKeys|
    ensures s.foreignKeys[i].parentTable == table && s.foreignKeys[i].cascade ==>
      forall id, item :: CascadesEarly(s, tables, table, mods, i + 1, 0, id, item) <==> CascadesEarly(s, tables, table, mods, i, |mods|, id, item)
    ensures !(s.foreignKeys[i].parentTable == table && s.foreignKeys[i].cascade) ==>
      forall id, item :: CascadesEarly(s, tables, table, mods, i + 1, 0, id, item) <==> CascadesEarly(s, tables, table, mods, i, 0, id, item)
  {
    assert s.foreignKeys[..i + 1] == s.foreignKeys[..i] + [s.foreignKeys[i]];
    assert mods[..|mods|] == mods;
  }

  lemma AllCascades(s: Schema, tables: Tables, table: Table, mods: seq<Modification>)
    requires SchemaOk(s) && s.specs.Keys <= tables.Keys
    ensures forall id, item :: CascadesEarly(s, tables, table, mods, |s.foreignKeys|, 0, id, item) <==> Cascades(s, tables, table, mods, id, item)
  {
    assert s.foreignKeys[..|s.foreignKeys|] == s.foreignKeys;
  }

  // ---------- Cascading deletion ----------

  ghost predicate ReferringEarly(s: Schema, tables: Tables, table: Table, ids: seq<RowId>, i: nat, j: nat, u: Table, id: RowId)
    requires SchemaOk(s) && s.specs.Keys <= tables.Keys && i <= |s.foreignKeys| && j <= |ids|
  {
    || (exists k, x :: 0 <= k < i && x in ids && RefersThrough(s, tables, s.foreignKeys[k], table, x, u, id))
    || (i < |s.foreignKeys| && exists x :: x in ids[..j] && RefersThrough(s, tables, s.foreignKeys[i], table, x, u, id))
  }

  ghost predicate RefersThrough(s: Schema, tables: Tables, f: ForeignKey, t: Table, x: RowId, u: Table, id: RowId)
    requires ForeignKeyOk(s, f) && s.specs.Keys <= tables.Keys
  {
    f.cascade && f.parentTable == t && f.childTable == u && Refers(s, tables, f, x, id)
  }

  lemma IndexFindsReferring(s: Schema, tables: Tables, indices: map<Table, seq<IndexState>>, f: ForeignKey, x: RowId)
    requires SchemaOk(s) && IndicesOk(s, tables, indices) && f in s.foreignKeys && f.cascade && x in tables[f.parentTable]
    ensures var parentKey, childIndex := KeyOf(ParentSpec(s, f), tables[f.parentTable][x]), indices[f.childTable][f.childIndex];
      && (parentKey in childIndex ==> childIndex[parentKey] != {})
      && forall u, id :: RefersThrough(s, tables, f, f.parentTable, x, u, id) <==>
           u == f.childTable && parentKey in childIndex && id in childIndex[parentKey]
  {
    var parentKey := KeyOf(ParentSpec(s, f), tables[f.parentTable][x]);
    IndexHasKey(indices[f.childTable][f.childIndex], ChildSpec(s, f), tables[f.childTable], parentKey);
  }

  lemma NoneReferring(s: Schema, tables: Tables, table: Table)
    requires SchemaOk(s) && s.specs.Keys <= tables.Keys
    ensures forall ids: seq<RowId>, u, id :: !ReferringEarly(s, tables, table, ids, 0, 0, u, id)
  {
  }

  lemma NextReferring(s: Schema, tables: Tables, table: Table, ids: seq<RowId>, i: nat, j: nat)
    requires SchemaOk(s) && s.specs.Keys <= tables.Keys && i < |s.foreignKeys| && j < |ids|
    ensures forall u, id :: ReferringEarly(s, tables, table, ids, i, j + 1, u, id) <==>
      ReferringEarly(s, tables, table, ids, i, j, u, id) || RefersThrough(s, tables, s.foreignKeys[i], table, ids[j], u, id)
  {
    assert ids[..j + 1] == ids[..j] + [ids[j]];
  }

  lemma NextReferringKey(s: Schema, tables: Tables, table: Table, ids: seq<RowId>, i: nat)
    requires SchemaOk(s) && s.specs.Keys <= tables.Keys && i < |s.foreignKeys|
    ensures forall u, id :: ReferringEarly(s, tables, table, ids, i + 1, 0, u, id) <==> ReferringEarly(s, tables, table, ids, i, |ids|, u, id)
    ensures !(s.foreignKeys[i].parentTable == table && s.foreignKeys[i].cascade) ==>
      forall u, id :: ReferringEarly(s, tables, table, ids, i + 1, 0, u, id) <==> ReferringEarly(s, tables, table, ids, i, 0, u, id)
  {
    assert ids[..|ids|] == ids;
  }

  lemma AllReferring(s: Schema, tables: Tables, table: Table, ids: seq<RowId>)
    requires SchemaOk(s) && s.specs.Keys <= tables.Keys
    ensures forall u, id :: ReferringEarly(s, tables, table, ids, |s.foreignKeys|, 0, u, id) <==> exists x :: x in ids && Below(s, tables, table, x, u, id)
  {
    forall u, id, x | x in ids && Below(s, tables, table, x, u, id) ensures ReferringEarly(s, tables, table, ids, |s.foreignKeys|, 0, u, id) {
      var f :| f in s.foreignKeys && f.cascade && f.parentTable == table && f.childTable == u && Refers(s, tables, f, x, id);
      var k :| 0 <= k < |s.foreignKeys| && s.foreignKeys[k] == f;
      assert RefersThrough(s, tables, s.foreignKeys[k], table, x, u, id);
    }
  }

  /** The row is at least one and at most n cascading references away. */
  ghost predicate ReachedWithin(s: Schema, tables: Tables, table: Table, roots: set<RowId>, n: nat, t: Table, id: RowId)
    requires SchemaOk(s) && s.specs.Keys <= tables.Keys
  {
    exists k :: 0 < k <= n && ReachedIn(s, tables, table, roots, k, t, id)
  }

  lemma WithinNext(s: Schema, tables: Tables, table: Table, roots: set<RowId>, n: nat)
    requires SchemaOk(s) && s.specs.Keys <= tables.Keys
    ensures forall t, id :: ReachedWithin(s, tables, table, roots, n + 1, t, id) <==>
      ReachedWithin(s, tables, table, roots, n, t, id) || ReachedIn(s, tables, table, roots, n + 1, t, id)
  {
    forall t, id
      ensures ReachedWithin(s, tables, table, roots, n + 1, t, id) <==>
        ReachedWithin(s, tables, table, roots, n, t, id) || ReachedIn(s, tables, table, roots, n + 1, t, id)
    {
      hide ReachedIn;
      var next := n + 1;
      if ReachedIn(s, tables, table, roots, next, t, id) { assert ReachedWithin(s, tables, table, roots, next, t, id); }
    }
  }

  lemma FirstRound(s: Schema, tables: Tables, table: Table, roots: set<RowId>)
    requires SchemaOk(s) && s.specs.Keys <= tables.Keys
    ensures forall t, id :: Among(map[table := roots], t, id) <==> ReachedIn(s, tables, table, roots, 0, t, id)
    ensures forall t, id :: !Among(map[], t, id) && !ReachedWithin(s, tables, table, roots, 0, t, id)
    ensures forall t, id :: Among(map[table := roots], t, id) ==> t == table && id in roots
  {
  }

  lemma RoundIsNext(s: Schema, tables: Tables, table: Table, roots: set<RowId>, n: nat, last: RowIds, next: RowIds, rank: map<Table, nat>)
    requires SchemaOk(s) && s.specs.Keys == tables.Keys && Ranked(s, rank)
    requires forall t, id :: Among(last, t, id) <==> ReachedIn(s, tables, table, roots, n, t, id)
    requires forall u, id :: Among(next, u, id) <==> exists t, x :: Among(last, t, x) && Below(s, tables, t, x, u, id)
    ensures forall t, id :: Among(next, t, id) <==> ReachedIn(s, tables, table, roots, n + 1, t, id)
    ensures forall t, id :: Among(next, t, id) ==> t in tables && id in tables[t]
    ensures NonEmpty(next) ==> n + 1 <= if table in rank then rank[table] else 0
    ensures forall t, id :: ReachedWithin(s, tables, table, roots, n + 1, t, id) <==>
      ReachedWithin(s, tables, table, roots, n, t, id) || ReachedIn(s, tables, table, roots, n + 1, t, id)
  {
    WithinNext(s, tables, table, roots, n);
    forall t, id ensures Among(next, t, id) <==> ReachedIn(s, tables, table, roots, n + 1, t, id) {
      if Among(next, t, id) {
        var p, x :| Among(last, p, x) && Below(s, tables, p, x, t, id);
        assert ReachedIn(s, tables, table, roots, n, p, x);
      }
      if ReachedIn(s, tables, table, roots, n + 1, t, id) {
        var p, x :| ReachedIn(s, tables, table, roots, n, p, x) && Below(s, tables, p, x, t, id);
        assert Among(last, p, x);
      }
    }
    forall t, id | Among(next, t, id) ensures t in tables && id in tables[t] && table in rank && n + 1 <= rank[table] {
      ReachedRank(s, tables, table, roots, n + 1, t, id, rank);
    }
    if NonEmpty(next) {
      var t :| t in next && next[t] != {};
      var id := Sets.SomeOf(next[t]);
      assert Among(next, t, id);
    }
  }

  // ---------- Tables that come twice ----------

  /** Some row among the last ones leads from table p to table t. */
  ghost predicate Finds(s: Schema, tables: Tables, last: RowIds, p: Table, t: Table)
    requires SchemaOk(s) && s.specs.Keys <= tables.Keys
  {
    exists x, id :: Among(last, p, x) && Below(s, tables, p, x, t, id)
  }

  lemma NoKeyFinds(s: Schema, tables: Tables, last: RowIds)
    requires SchemaOk(s) && s.specs.Keys <= tables.Keys
    ensures forall t :: !SomeKeyFinds(s, tables, last, [], t) && !TwoKeysFind(s, tables, last, [], t)
  {
  }

  lemma NothingTwice<A>()
    ensures forall t: A :: !Twice([], t)
  {
  }

  lemma FoundFrom(s: Schema, tables: Tables, last: RowIds, p: Table, referring: RowIds, found: seq<Table>)
    requires SchemaOk(s) && s.specs.Keys <= tables.Keys && p in last
    requires forall u, id :: Among(referring, u, id) <==> exists x :: x in last[p] && Below(s, tables, p, x, u, id)
    requires forall u :: u in referring ==> referring[u] != {}
    requires (forall u :: u in found <==> u in referring) && forall i, j :: 0 <= i < j < |found| ==> found[i] != found[j]
    ensures forall t :: t in found <==> Finds(s, tables, last, p, t)
    ensures forall t :: !Twice(found, t)
  {
    hide Below;
    forall t ensures t in found <==> Finds(s, tables, last, p, t) {
      if t in referring {
        var id := Sets.SomeOf(referring[t]);
        assert Among(referring, t, id);
        var x :| x in last[p] && Below(s, tables, p, x, t, id);
        assert Among(last, p, x);
      }
      if Finds(s, tables, last, p, t) {
        var x, id :| Among(last, p, x) && Below(s, tables, p, x, t, id);
        assert Among(referring, t, id);
      }
    }
  }

  lemma FindsFromKeys(s: Schema, tables: Tables, last: RowIds, keys: seq<Table>)
    requires SchemaOk(s) && s.specs.Keys <= tables.Keys
    requires (forall p :: p in keys <==> p in last) && forall i, j :: 0 <= i < j < |keys| ==> keys[i] != keys[j]
    ensures forall t :: SomeFinds(s, tables, last, t) <==> SomeKeyFinds(s, tables, last, keys, t)
    ensures forall t :: TwoFind(s, tables, last, t) <==> TwoKeysFind(s, tables, last, keys, t)
  {
    forall p, t | Finds(s, tables, last, p, t) ensures p in keys {
      var x, id :| Among(last, p, x) && Below(s, tables, p, x, t, id);
    }
    hide Finds;
    forall t ensures TwoFind(s, tables, last, t) <==> TwoKeysFind(s, tables, last, keys, t) {
      if TwoFind(s, tables, last, t) {
        var p, p' :| p != p' && Finds(s, tables, last, p, t) && Finds(s, tables, last, p', t);
        var k :| 0 <= k < |keys| && keys[k] == p;
        var l :| 0 <= l < |keys| && keys[l] == p';
        if k < l { assert Finds(s, tables, last, keys[k], t); } else { assert Finds(s, tables, last, keys[l], t); }
      }
    }
  }

  ghost predicate SomeFinds(s: Schema, tables: Tables, last: RowIds, t: Table)
    requires SchemaOk(s) && s.specs.Keys <= tables.Keys
  {
    exists p :: Finds(s, tables, last, p, t)
  }

  ghost predicate TwoFind(s: Schema, tables: Tables, last: RowIds, t: Table)
    requires SchemaOk(s) && s.specs.Keys <= tables.Keys
  {
    exists p, p' :: p != p' && Finds(s, tables, last, p, t) && Finds(s, tables, last, p', t)
  }

  ghost predicate SomeKeyFinds(s: Schema, tables: Tables, last: RowIds, keys: seq<Table>, t: Table)
    requires SchemaOk(s) && s.specs.Keys <= tables.Keys
  {
    exists k :: 0 <= k < |keys| && Finds(s, tables, last, keys[k], t)
  }

  ghost predicate TwoKeysFind(s: Schema, tables: Tables, last: RowIds, keys: seq<Table>, t: Table)
    requires SchemaOk(s) && s.specs.Keys <= tables.Keys
  {
    exists k, l :: 0 <= k < l < |keys| && Finds(s, tables, last, keys[k], t) && Finds(s, tables, last, keys[l], t)
  }

  lemma NextKeyFinds(s: Schema, tables: Tables, last: RowIds, keys: seq<Table>, i: nat)
    requires SchemaOk(s) && s.specs.Keys <= tables.Keys && i < |keys|
    ensures forall t :: SomeKeyFinds(s, tables, last, keys[..i + 1], t) <==>
      SomeKeyFinds(s, tables, last, keys[..i], t) || Finds(s, tables, last, keys[i], t)
    ensures forall t :: TwoKeysFind(s, tables, last, keys[..i + 1], t) <==>
      TwoKeysFind(s, tables, last, keys[..i], t) || (SomeKeyFinds(s, tables, last, keys[..i], t) && Finds(s, tables, last, keys[i], t))
  {
    hide Finds;
    var after, before, n := keys[..i + 1], keys[..i], i + 1;
    assert after == before + [keys[i]];
    forall t ensures TwoKeysFind(s, tables, last, after, t) <==>
      TwoKeysFind(s, tables, last, before, t) || (SomeKeyFinds(s, tables, last, before, t) && Finds(s, tables, last, keys[i], t))
    {
      if SomeKeyFinds(s, tables, last, before, t) && Finds(s, tables, last, keys[i], t) {
        var k :| 0 <= k < |before| && Finds(s, tables, last, before[k], t);
        assert after[k] == before[k] && after[i] == keys[i];
      }
      if TwoKeysFind(s, tables, last, before, t) {
        var k, l :| 0 <= k < l < |before| && Finds(s, tables, last, before[k], t) && Finds(s, tables, last, before[l], t);
        assert after[k] == before[k] && after[l] == before[l];
      }
    }
    forall t ensures SomeKeyFinds(s, tables, last, after, t) <==> SomeKeyFinds(s, tables, last, before, t) || Finds(s, tables, last, keys[i], t) {
      if SomeKeyFinds(s, tables, last, before, t) {
        var k :| 0 <= k < |before| && Finds(s, tables, last, before[k], t);
        assert after[k] == before[k];
      }
      if Finds(s, tables, last, keys[i], t) { assert after[i] == keys[i]; }
    }
  }

  ghost predicate FoundWithin(s: Schema, tables: Tables, table: Table, roots: set<RowId>, n: nat, t: Table)
    requires SchemaOk(s) && s.specs.Keys <= tables.Keys
  {
    exists m: nat, p :: m < n && RoundFinds(s, tables, table, roots, m, p, t)
  }

  ghost predicate FoundTwiceWithin(s: Schema, tables: Tables, table: Table, roots: set<RowId>, n: nat, t: Table)
    requires SchemaOk(s) && s.specs.Keys <= tables.Keys
  {
    exists m: nat, p, m': nat, p' :: m < n && m' < n && (m != m' || p != p')
      && RoundFinds(s, tables, table, roots, m, p, t) && RoundFinds(s, tables, table, roots, m', p', t)
  }

  lemma NoneFound(s: Schema, tables: Tables, table: Table, roots: set<RowId>)
    requires SchemaOk(s) && s.specs.Keys <= tables.Keys
    ensures forall t :: !FoundWithin(s, tables, table, roots, 0, t) && !FoundTwiceWithin(s, tables, table, roots, 0, t) && !Twice([], t)
  {
  }

  lemma RoundFound(s: Schema, tables: Tables, table: Table, roots: set<RowId>, n: nat, last: RowIds, order: seq<Table>, before: seq<Table>)
    requires SchemaOk(s) && s.specs.Keys <= tables.Keys
    requires forall t, id :: Among(last, t, id) <==> ReachedIn(s, tables, table, roots, n, t, id)
    requires forall t :: t in order <==> SomeFinds(s, tables, last, t)
    requires forall t :: Twice(order, t) <==> TwoFind(s, tables, last, t)
    requires forall t :: t in before <==> FoundWithin(s, tables, table, roots, n, t)
    requires forall t :: Twice(before, t) <==> FoundTwiceWithin(s, tables, table, roots, n, t)
    ensures forall t :: t in order + before <==> FoundWithin(s, tables, table, roots, n + 1, t)
    ensures forall t :: Twice(order + before, t) <==> FoundTwiceWithin(s, tables, table, roots, n + 1, t)
  {
    hide Twice;
    forall p, t ensures Finds(s, tables, last, p, t) <==> RoundFinds(s, tables, table, roots, n, p, t) {
      hide ReachedIn, Below;
    }
    forall t ensures t in order + before <==> FoundWithin(s, tables, table, roots, n + 1, t) {
      hide Finds, RoundFinds;
    }
    forall t ensures Twice(order + before, t) <==> FoundTwiceWithin(s, tables, table, roots, n + 1, t) {
      hide Finds, RoundFinds;
      TwiceConcat(order, before, t);
    }
  }

  lemma AllFoundTwice(s: Schema, tables: Tables, table: Table, roots: set<RowId>, n: nat, last: RowIds)
    requires SchemaOk(s) && s.specs.Keys <= tables.Keys && !NonEmpty(last)
    requires forall t, id :: Among(last, t, id) <==> ReachedIn(s, tables, table, roots, n, t, id)
    ensures forall t :: FoundTwiceWithin(s, tables, table, roots, n, t) <==> ReachedTwice(s, tables, table, roots, t)
  {
    forall k: nat, p, t | n <= k ensures !RoundFinds(s, tables, table, roots, k, p, t) {
      hide ReachedIn;
      NothingFurther(s, tables, table, roots, n, k);
    }
    hide RoundFinds;
  }

  /** After n rounds: the rows of the last round, all rows found, and the tables in order. */
  ghost predicate DeletionSoFar(s: Schema, tables: Tables, table: Table, roots: set<RowId>, n: nat, last: RowIds, found: RowIds, order: seq<Table>)
    requires SchemaOk(s) && s.specs.Keys <= tables.Keys
  {
    && (forall t, id :: Among(last, t, id) <==> ReachedIn(s, tables, table, roots, n, t, id))
    && (forall t, id :: Among(found, t, id) <==> ReachedWithin(s, tables, table, roots, n, t, id))
    && (forall t, id :: Among(last, t, id) ==> t in tables && id in tables[t])
    && (forall t :: t in order <==> t in found)
    && (forall t :: t in found ==> found[t] != {})
    && (forall t :: t in order <==> FoundWithin(s, tables, table, roots, n, t))
    && (forall t :: Twice(order, t) <==> FoundTwiceWithin(s, tables, table, roots, n, t))
  }

  // ---------- Children come before their parents ----------

  ghost predicate HasRows(m: RowIds, t: Table) { exists id :: Among(m, t, id) }

  /** Whatever a table leads to comes before it, unless the table comes twice or has just been found. */
  ghost predicate ChildrenEarlier(s: Schema, tables: Tables, order: seq<Table>, found: RowIds, last: RowIds)
    requires SchemaOk(s) && s.specs.Keys <= tables.Keys
  {
    forall i, c :: (0 <= i < |order| && !Twice(order, order[i]) && !HasRows(last, order[i]) && Finds(s, tables, found, order[i], c)) ==> c in order[..i]
  }

  lemma NothingEarlier(s: Schema, tables: Tables, last: RowIds)
    requires SchemaOk(s) && s.specs.Keys <= tables.Keys
    ensures ChildrenEarlier(s, tables, [], map[], last)
  {
  }

  lemma EarlierAtEnd(s: Schema, tables: Tables, order: seq<Table>, found: RowIds, last: RowIds)
    requires SchemaOk(s) && s.specs.Keys <= tables.Keys && ChildrenEarlier(s, tables, order, found, last) && !NonEmpty(last)
    ensures ChildrenEarlier(s, tables, order, found, map[])
  {
    hide Finds, Twice;
  }

  lemma EarlierNext(s: Schema, tables: Tables, table: Table, roots: set<RowId>, n: nat, last: RowIds, found: RowIds, order: seq<Table>, next: RowIds, more: seq<Table>)
    requires SchemaOk(s) && s.specs.Keys == tables.Keys && DeletionSoFar(s, tables, table, roots, n, last, found, order)
    requires (forall t :: t in more <==> t in next) && forall t :: t in next ==> next[t] != {}
    requires forall t :: t in more <==> SomeFinds(s, tables, last, t)
    requires ChildrenEarlier(s, tables, order, found, last)
    ensures ChildrenEarlier(s, tables, more + order, Merged(found, next), next)
  {
    hide Finds, Twice, SomeFinds, DeletionSoFar, Merged;
    var all, order' := Merged(found, next), more + order;
    forall i, c | 0 <= i < |order'| && !Twice(order', order'[i]) && !HasRows(next, order'[i]) && Finds(s, tables, all, order'[i], c)
      ensures c in order'[..i]
    {
      var t := order'[i];
      TwiceConcat(more, order, t);
      NoRowsNext(next, more, t);
      assert i >= |more| && t == order[i - |more|] && order'[..i] == more + order[..i - |more|];
      FindsMerged(s, tables, found, next, t, c);
      if HasRows(last, t) {
        OnlyLastRows(s, tables, table, roots, n, last, found, order, t, c);
        assert SomeFinds(s, tables, last, c) by { OneFinds(s, tables, last, t, c); }
      }
    }
  }

  lemma NoRowsNext(next: RowIds, more: seq<Table>, t: Table)
    requires (forall t :: t in more <==> t in next) && forall t :: t in next ==> next[t] != {}
    ensures t in more ==> HasRows(next, t)
  {
    if t in more {
      var id := Sets.SomeOf(next[t]);
      assert Among(next, t, id);
    }
  }

  lemma OneFinds(s: Schema, tables: Tables, last: RowIds, p: Table, t: Table)
    requires SchemaOk(s) && s.specs.Keys <= tables.Keys && Finds(s, tables, last, p, t)
    ensures SomeFinds(s, tables, last, t)
  {
  }

  lemma FindsMerged(s: Schema, tables: Tables, found: RowIds, next: RowIds, t: Table, c: Table)
    requires SchemaOk(s) && s.specs.Keys <= tables.Keys && !HasRows(next, t) && Finds(s, tables, Merged(found, next), t, c)
    ensures Finds(s, tables, found, t, c)
  {
    hide Below, Among;
    var all := Merged(found, next);
    var x, id :| Among(all, t, x) && Below(s, tables, t, x, c, id);
    assert Among(found, t, x);
  }

  /** A table that has come only once, in the last round, has no rows from earlier rounds. */
  lemma OnlyLastRows(s: Schema, tables: Tables, table: Table, roots: set<RowId>, n: nat, last: RowIds, found: RowIds, order: seq<Table>, t: Table, c: Table)
    requires SchemaOk(s) && s.specs.Keys == tables.Keys && DeletionSoFar(s, tables, table, roots, n, last, found, order)
    requires !Twice(order, t) && HasRows(last, t) && Finds(s, tables, found, t, c)
    ensures Finds(s, tables, last, t, c)
  {
    hide Among, Below, Twice, FoundWithin;
    var x, id :| Among(found, t, x) && Below(s, tables, t, x, c, id);
    var y :| Among(last, t, y);
    assert ReachedIn(s, tables, table, roots, n, t, y);
    var k: nat :| 0 < k <= n && ReachedIn(s, tables, table, roots, k, t, x);
    if k < n { TwoRounds(s, tables, table, roots, k, n, t, x, y); }
    assert Among(last, t, x);
  }

  lemma TwoRounds(s: Schema, tables: Tables, table: Table, roots: set<RowId>, k: nat, n: nat, t: Table, x: RowId, y: RowId)
    requires SchemaOk(s) && s.specs.Keys <= tables.Keys && 0 < k < n
    requires ReachedIn(s, tables, table, roots, k, t, x) && ReachedIn(s, tables, table, roots, n, t, y)
    ensures FoundTwiceWithin(s, tables, table, roots, n, t)
  {
    var p := FinderOf(s, tables, table, roots, k, t, x);
    var q := FinderOf(s, tables, table, roots, n, t, y);
  }

  lemma FinderOf(s: Schema, tables: Tables, table: Table, roots: set<RowId>, n: nat, t: Table, id: RowId) returns (p: Table)
    requires SchemaOk(s) && s.specs.Keys <= tables.Keys && n > 0 && ReachedIn(s, tables, table, roots, n, t, id)
    ensures RoundFinds(s, tables, table, roots, n - 1, p, t)
  {
    hide Below;
    var x;
    p, x :| ReachedIn(s, tables, table, roots, n - 1, p, x) && Below(s, tables, p, x, t, id);
  }

  lemma DeletionStarts(s: Schema, tables: Tables, table: Table, roots: set<RowId>)
    requires SchemaOk(s) && s.specs.Keys <= tables.Keys && table in tables && roots <= tables[table].Keys
    ensures DeletionSoFar(s, tables, table, roots, 0, map[table := roots], map[], [])
  {
    FirstRound(s, tables, table, roots);
    NoneFound(s, tables, table, roots);
    hide ReachedIn, ReachedWithin, FoundWithin, FoundTwiceWithin, Twice, Among;
  }

  lemma DeletionRows(s: Schema, tables: Tables, table: Table, roots: set<RowId>, n: nat, last: RowIds, found: RowIds, order: seq<Table>)
    requires SchemaOk(s) && s.specs.Keys <= tables.Keys && DeletionSoFar(s, tables, table, roots, n, last, found, order)
    ensures forall t, id :: Among(last, t, id) ==> t in tables && id in tables[t]
  {
    hide Among, ReachedIn, ReachedWithin, FoundWithin, FoundTwiceWithin, Twice;
  }

  lemma DeletionNext(s: Schema, tables: Tables, table: Table, roots: set<RowId>, n: nat, last: RowIds, found: RowIds, order: seq<Table>, next: RowIds, more: seq<Table>, rank: map<Table, nat>)
    requires SchemaOk(s) && s.specs.Keys == tables.Keys && Ranked(s, rank) && DeletionSoFar(s, tables, table, roots, n, last, found, order)
    requires forall u, id :: Among(next, u, id) <==> exists t, x :: Among(last, t, x) && Below(s, tables, t, x, u, id)
    requires (forall t :: t in more <==> t in next) && forall t :: t in next ==> next[t] != {}
    requires forall t :: t in more <==> SomeFinds(s, tables, last, t)
    requires forall t :: Twice(more, t) <==> TwoFind(s, tables, last, t)
    ensures DeletionSoFar(s, tables, table, roots, n + 1, next, Merged(found, next), more + order)
    ensures NonEmpty(next) ==> n + 1 <= if table in rank then rank[table] else 0
  {
    hide Among, Below, ReachedIn, ReachedWithin, FoundWithin, FoundTwiceWithin, Twice, SomeFinds, TwoFind, NonEmpty, Ranked;
    RoundFound(s, tables, table, roots, n, last, more, order);
    RoundIsNext(s, tables, table, roots, n, last, next, rank);
    MergedKeys(found, order, next, more);
    hide Merged;
    var all := Merged(found, next);
    forall t, id ensures Among(all, t, id) <==> ReachedWithin(s, tables, table, roots, n + 1, t, id) {
    }
  }

  lemma MergedKeys(found: RowIds, order: seq<Table>, next: RowIds, more: seq<Table>)
    requires (forall t :: t in order <==> t in found) && (forall t :: t in more <==> t in next)
    requires (forall t :: t in found ==> found[t] != {}) && (forall t :: t in next ==> next[t] != {})
    ensures forall t :: t in more + order <==> t in Merged(found, next)
    ensures forall t :: t in Merged(found, next) ==> Merged(found, next)[t] != {}
  {
    hide Among;
  }

  lemma DeletionEnds(s: Schema, tables: Tables, table: Table, roots: set<RowId>, n: nat, last: RowIds, found: RowIds, order: seq<Table>)
    requires SchemaOk(s) && s.specs.Keys == tables.Keys && n > 0 && !NonEmpty(last) && DeletionSoFar(s, tables, table, roots, n, last, found, order)
    ensures forall t, id :: Among(found, t, id) <==> Reached(s, tables, table, roots, t, id)
    ensures (forall t :: t in order <==> t in found) && forall t :: t in found ==> found[t] != {}
    ensures forall t :: Twice(order, t) <==> ReachedTwice(s, tables, table, roots, t)
  {
    hide Among, ReachedIn, ReachedWithin, Reached, FoundWithin, FoundTwiceWithin, Twice, ReachedTwice, NonEmpty;
    NothingLeft(s, tables, table, roots, n, last);
    AllFoundTwice(s, tables, table, roots, n, last);
  }

  lemma NothingLeft(s: Schema, tables: Tables, table: Table, roots: set<RowId>, n: nat, last: RowIds)
    requires SchemaOk(s) && s.specs.Keys == tables.Keys && n > 0 && !NonEmpty(last)
    requires forall t, id :: Among(last, t, id) <==> ReachedIn(s, tables, table, roots, n, t, id)
    ensures forall t, id :: ReachedWithin(s, tables, table, roots, n, t, id) <==> Reached(s, tables, table, roots, t, id)
  {
    assert forall t, id :: !ReachedIn(s, tables, table, roots, n, t, id);
    forall k: nat, t, id | n <= k ensures !ReachedIn(s, tables, table, roots, k, t, id) {
      NothingFurther(s, tables, table, roots, n, k);
    }
  }
}
