/** The changes of one transaction, applied to cache and indices at once and taken back by rollback. */
module Journals {
  import opened BTreeStore
  import opened TableState
  import opened TableDiffs
  import opened DiffReplay
  import opened Schemas
  import opened InMemoryUpdater
  import opened CascadeReach
  import opened ConstraintChecks
  import opened ReferentialIntegrity
  import Sets

  /** How a call ends; all but Done are exceptions. */
  datatype Outcome = Done | OutOfScope | ForeignKeyViolation | DuplicateKeys | MissingRow

  class Journal {
    const db: Database
    const checker: ConstraintChecker
    const scope: set<Table>
    var terminated: bool
    var pendingRollback: bool
    var tableDiffs: map<Table, TableDiff>
    ghost const start: Tables

    /** Cache and indices agree, and each table's diff is the net change since the journal's start. */
    ghost predicate Valid()
      reads this, db, checker, tableDiffs.Values
    {
      && db.Valid() && checker.database == db && checker.schema == db.schema
      && UniqueTables(db.schema, start) && NotShared(tableDiffs)
      && NetChanges(db.schema, Views(tableDiffs), start, db.rows)
    }

    constructor (db: Database, scope: set<Table>)
      requires db.Valid()
      ensures Valid() && this.db == db && this.scope == scope && start == db.rows
      ensures !terminated && !pendingRollback && tableDiffs == map[]
    {
      this.db, this.scope := db, scope;
      checker := new ConstraintChecker(db);
      terminated, pendingRollback := false, false;
      tableDiffs := map[];
      start := db.rows;
    }

    predicate Writable()
      reads this
    {
      !pendingRollback && !terminated
    }

    method ModifyRow(table: Table, mod: Modification) returns (ok: bool)
      requires Valid() && !terminated && table in db.schema.specs && Applicable(db.rows[table], mod)
      modifies this`tableDiffs, this`pendingRollback, db, tableDiffs.Values
      ensures Valid() && fresh(tableDiffs.Values - old(tableDiffs.Values))
      ensures ok <==> NoneTaken(db.schema.specs[table], old(db.rows)[table], mod)
      ensures db.rows == if ok then old(db.rows)[table := Apply(old(db.rows)[table], mod)] else old(db.rows)
      ensures pendingRollback == (old(pendingRollback) || !ok)
    {
      hide TableOk, IndicesOk, Apply, NoneTaken, Applicable, UniqueTables, SchemaOk, Recorded, NotShared, NetChanges;
      assert table in db.rows by { DatabaseTables(db.schema, db.rows, db.indices); }
      OpenDiff(table);
      ok := UpdateIndices(table, mod);
      if ok {
        DiffRecorded(db.schema, Views(tableDiffs), start, db.rows, table, mod);
        StoreRow(table, mod);
      } else {
        pendingRollback := true;
      }
    }

    method UpdateIndices(table: Table, mod: Modification) returns (ok: bool)
      requires db.Valid() && table in db.schema.specs && Applicable(db.rows[table], mod)
      modifies db`indices
      ensures ok <==> NoneTaken(db.schema.specs[table], db.rows[table], mod)
      ensures IndicesOk(db.schema, if ok then db.rows[table := Apply(db.rows[table], mod)] else db.rows, db.indices)
    {
      hide NoneTaken, TableOk, Apply;
      ok := db.UpdateTableIndicesForRow(table, mod, db.rows[table]);
    }

    method StoreRow(table: Table, mod: Modification)
      requires table in db.rows && table in tableDiffs && NotShared(tableDiffs) && Applicable(db.rows[table], mod)
      modifies db`rows, tableDiffs[table]
      ensures db.rows == old(db.rows)[table := Apply(old(db.rows)[table], mod)]
      ensures Views(tableDiffs) == old(Views(tableDiffs))[table := Recorded(old(Views(tableDiffs))[table], mod)]
    {
      if mod.after.Just? {
        db.rows := db.rows[table := db.rows[table][mod.after.value.id := mod.after.value]];
      } else if mod.before.Just? {
        db.rows := db.rows[table := db.rows[table] - {mod.before.value.id}];
      }
      Record(table, mod);
    }

    method Record(table: Table, mod: Modification)
      requires table in tableDiffs && NotShared(tableDiffs)
      requires mod.before.Just? && mod.after.Just? ==> mod.before.value.id == mod.after.value.id
      modifies tableDiffs[table]
      ensures Views(tableDiffs) == old(Views(tableDiffs))[table := Recorded(old(tableDiffs[table].View()), mod)]
    {
      hide AddRow, DeleteRow, TableDiffs.ModifyRow;
      var diff := tableDiffs[table];
      if mod.before.Nothing? && mod.after.Just? {
        diff.Add(mod.after.value);
      } else if mod.before.Just? && mod.after.Just? {
        diff.Modify(Change(mod.before.value, mod.after.value));
      } else if mod.before.Just? {
        diff.Delete(mod.before.value);
      }
    }

    method OpenDiff(table: Table)
      requires Valid() && table in db.schema.specs
      modifies this`tableDiffs
      ensures Valid() && table in tableDiffs && fresh(tableDiffs.Values - old(tableDiffs.Values))
    {
      hide NetChanges, UniqueTables, InMemoryUpdater.Database.Valid;
      if table !in tableDiffs {
        DiffOpened(db.schema, Views(tableDiffs), start, db.rows, table);
        var diff := new TableDiff();
        ghost var next := Views(tableDiffs)[table := EMPTY];
        tableDiffs := tableDiffs[table := diff];
        assert Views(tableDiffs) == next;
      }
    }

    /** All modifications in turn; the first one that an index rejects stops the run. */
    method ModifyRows(table: Table, mods: seq<Modification>) returns (ok: bool)
      requires Valid() && !terminated && table in db.schema.specs && table in db.rows && AllApplicable(db.rows[table], mods)
      modifies this`tableDiffs, this`pendingRollback, db, tableDiffs.Values
      ensures Valid() && fresh(tableDiffs.Values - old(tableDiffs.Values))
      ensures ok <==> Runs(db.schema.specs[table], old(db.rows)[table], mods)
      ensures ok ==> db.rows == old(db.rows)[table := ApplyAll(old(db.rows)[table], mods)]
      ensures pendingRollback == (old(pendingRollback) || !ok)
    {
      hide Valid, NoneTaken, Apply, Applicable;
      ghost var current := db.rows[table];
      assert mods[0..] == mods;
      for i := 0 to |mods|
        invariant Valid() && fresh(tableDiffs.Values - old(tableDiffs.Values)) && pendingRollback == old(pendingRollback)
        invariant db.rows == old(db.rows)[table := current] && AllApplicable(current, mods[i..])
        invariant Runs(db.schema.specs[table], current, mods[i..]) <==> Runs(db.schema.specs[table], old(db.rows)[table], mods)
        invariant ApplyAll(current, mods[i..]) == ApplyAll(old(db.rows)[table], mods)
      {
        assert mods[i..][0] == mods[i] && mods[i..][1..] == mods[i + 1..];
        ok := ModifyRow(table, mods[i]);
        if !ok { return; }
        current := Apply(current, mods[i]);
      }
      assert mods[|mods|..] == [];
      return true;
    }

    /** Inserts rows with new ids, if the foreign keys of the table allow it. */
    method Insert(table: Table, rows: seq<Row>) returns (outcome: Outcome)
      requires Valid() && Writable() && table in db.schema.specs && table in db.rows
      requires (forall r :: r in rows ==> r.id !in db.rows[table]) && forall i, j :: 0 <= i < j < |rows| ==> rows[i].id != rows[j].id
      modifies this`tableDiffs, this`pendingRollback, db, tableDiffs.Values
      ensures Valid() && fresh(tableDiffs.Values - old(tableDiffs.Values))
      ensures var mods := Additions(rows);
        outcome == (if table !in scope then OutOfScope
                    else if exists r :: r in rows && Orphaned(db.schema, old(db.rows), table, old(db.rows)[table], r) then ForeignKeyViolation
                    else if !Runs(db.schema.specs[table], old(db.rows)[table], mods) then DuplicateKeys
                    else Done)
      ensures outcome == Done ==> db.rows == old(db.rows)[table := ApplyAll(old(db.rows)[table], Additions(rows))]
      ensures outcome == OutOfScope || outcome == ForeignKeyViolation ==> db.rows == old(db.rows)
      ensures outcome == Done && Integrity(db.schema, old(db.rows)) ==> Integrity(db.schema, db.rows)
      ensures pendingRollback <==> outcome == DuplicateKeys
    {
      hide NetChanges, TableOk, UniqueTables, Integrity, AllReferred, Orphaned, Runs, ApplyAll, AllApplicable, Batch;
      if table !in scope { return OutOfScope; }
      var mods := Additions(rows);
      var found := checker.CheckReferredKeys(table, mods);
      AdditionsReplace(db.rows[table], rows);
      ReferredIff(db.schema, db.rows, table, db.rows[table], rows);
      if !found { return ForeignKeyViolation; }
      AdditionsBatch(db.rows[table], rows);
      BatchApplies(db.rows[table], mods);
      ghost var before := db.rows;
      var ok := ModifyRows(table, mods);
      if !ok { return DuplicateKeys; }
      if Integrity(db.schema, before) { InsertKeepsIntegrity(db.schema, before, table, mods); }
      return Done;
    }

    /** Brings updated parent keys to the child rows that refer to them. */
    method UpdateByCascade(table: Table, mods: seq<Modification>) returns (ok: bool, ghost done: set<(RowId, CascadeUpdateItem)>)
      requires Valid() && Writable() && Plain(db.schema) && table in db.schema.specs && table in db.rows
      requires Batch(db.rows[table], mods) && Updates(mods)
      modifies this`tableDiffs, this`pendingRollback, db, tableDiffs.Values
      ensures Valid() && fresh(tableDiffs.Values - old(tableDiffs.Values)) && db.rows.Keys == db.schema.specs.Keys
      ensures ok ==> AllItems(db.schema, old(db.rows), table, mods, done) && Cascaded(db.schema, old(db.rows), db.rows, done)
      ensures ok ==> db.rows[table] == old(db.rows)[table]
      ensures forall id, item :: (id, item) in done ==> Cascades(db.schema, old(db.rows), table, mods, id, item)
      ensures !ok ==> CascadeBlocked(db.schema, old(db.rows), db.rows, table, mods)
      ensures !ok ==> db.rows.Keys == db.schema.specs.Keys && table in db.rows
      ensures pendingRollback == !ok
    {
      hide PlacedUpTo, OrderedUpTo, Cascaded, Cascades, ItemBlocked, NoChains, NoSelfReference, UniqueTables, IndicesOk, Batch, NetChanges, IsListed, OncePerId;
      ghost var before := db.rows;
      done := {};
      TablesAreUnique(db.schema, db.rows, db.indices);
      NothingCascaded(db.schema, db.rows);
      var updates := checker.DetectCascadeUpdates(table, mods);
      for i := 0 to |updates|
        invariant Valid() && fresh(tableDiffs.Values - old(tableDiffs.Values)) && Writable() && db.rows.Keys == db.schema.specs.Keys
        invariant Cascaded(db.schema, before, db.rows, done) && db.rows[table] == before[table]
        invariant forall id, item :: (id, item) in done ==> Cascades(db.schema, before, table, mods, id, item)
        invariant forall k, item :: 0 <= k < i && item in updates[k].1 ==> (updates[k].0, item) in done
        invariant forall x, item :: (x, item) in done ==> exists k :: 0 <= k < i && updates[k].0 == x
      {
        var id, items := updates[i].0, updates[i].1;
        ListedAt(db.schema, updates, i);
        ok, done := BringAll(table, mods, id, items, before, done);
        if !ok { return; }
      }
      ok := true;
      ItemsListed(db.schema, before, table, mods, updates, done);
    }

    /** The cascaded updates of one row. */
    method BringAll(ghost table: Table, ghost mods: seq<Modification>, id: RowId, items: seq<CascadeUpdateItem>, ghost before: Tables, ghost was: set<(RowId, CascadeUpdateItem)>)
      returns (ok: bool, ghost done: set<(RowId, CascadeUpdateItem)>)
      requires Valid() && Writable() && Plain(db.schema) && table in db.schema.specs && UniqueTables(db.schema, before)
      requires db.rows.Keys == db.schema.specs.Keys
      requires Batch(before[table], mods) && Updates(mods) && forall item :: item in items ==> Cascades(db.schema, before, table, mods, id, item)
      requires Cascaded(db.schema, before, db.rows, was) && forall x, y :: (x, y) in was ==> Cascades(db.schema, before, table, mods, x, y)
      requires PlacedUpTo(db.schema, items, |db.schema.foreignKeys|) && forall y :: (id, y) !in was
      modifies this`tableDiffs, this`pendingRollback, db, tableDiffs.Values
      ensures Valid() && fresh(tableDiffs.Values - old(tableDiffs.Values)) && db.rows.Keys == db.schema.specs.Keys
      ensures ok ==> Cascaded(db.schema, before, db.rows, done) && db.rows[table] == old(db.rows)[table]
      ensures forall x, y :: (x, y) in done ==> Cascades(db.schema, before, table, mods, x, y)
      ensures ok ==> was <= done && forall item :: item in items ==> (id, item) in done
      ensures ok ==> forall x, y :: (x, y) in done ==> (x, y) in was || x == id
      ensures !ok ==> CascadeBlocked(db.schema, before, db.rows, table, mods)
      ensures pendingRollback == !ok
    {
      hide PlacedUpTo, InOrder, ItemBlocked;
      hide Valid, Cascaded, Cascades, NoChains, NoSelfReference, Batch, Updates;
      done := was;
      for j := 0 to |items|
        invariant Valid() && fresh(tableDiffs.Values - old(tableDiffs.Values)) && Writable() && db.rows.Keys == db.schema.specs.Keys
        invariant Cascaded(db.schema, before, db.rows, done) && db.rows[table] == old(db.rows)[table]
        invariant forall x, item :: (x, item) in done ==> Cascades(db.schema, before, table, mods, x, item)
        invariant was <= done && forall k :: 0 <= k < j ==> (id, items[k]) in done
        invariant forall x, y :: (x, y) in done ==> (x, y) in was || (x == id && y in items[..j])
      {
        assert items[j] in items;
        PlacedInOrder(db.schema, items, j, done, id);
        ok := BringDown(table, mods, id, items[j], before, done);
        if !ok {
          assert Cascades(db.schema, before, table, mods, id, items[j]);
          return;
        }
        done := done + {(id, items[j])};
        assert items[..j + 1] == items[..j] + [items[j]];
      }
      ok := true;
    }

    /** One cascaded update. */
    method BringDown(ghost table: Table, ghost mods: seq<Modification>, id: RowId, item: CascadeUpdateItem, ghost before: Tables, ghost done: set<(RowId, CascadeUpdateItem)>) returns (ok: bool)
      requires Valid() && Writable() && Plain(db.schema) && table in db.schema.specs && UniqueTables(db.schema, before)
      requires db.rows.Keys == db.schema.specs.Keys
      requires Batch(before[table], mods) && Updates(mods) && Cascades(db.schema, before, table, mods, id, item)
      requires Cascaded(db.schema, before, db.rows, done) && forall x, y :: (x, y) in done ==> Cascades(db.schema, before, table, mods, x, y)
      requires InOrder(db.schema, done, id, item)
      modifies this`tableDiffs, this`pendingRollback, db, tableDiffs.Values
      ensures Valid() && fresh(tableDiffs.Values - old(tableDiffs.Values)) && db.rows.Keys == db.schema.specs.Keys
      ensures ok ==> Cascaded(db.schema, before, db.rows, done + {(id, item)}) && db.rows[table] == old(db.rows)[table]
      ensures !ok ==> ForeignKeyOk(db.schema, item.fk) && ItemBlocked(db.schema, db.rows, id, item)
      ensures pendingRollback == !ok
    {
      hide Cascaded, NoChains, NoSelfReference, Batch, Updates, NetChanges, TableOk;
      CascadeGoesDown(db.schema, before, table, mods, id, item);
      CascadedNext(db.schema, before, db.rows, table, mods, done, id, item);
      var t := item.fk.childTable;
      var rowBefore := db.rows[t][id];
      var rowAfter := Redirected(db.schema, rowBefore, item);
      CascadedKeyed(db.schema, before, db.rows, done, t, id);
      ok := ModifyRow(t, Modification(Just(rowBefore), Just(rowAfter)));
    }

    /** Updates rows by their ids: child rows first, then the foreign keys, then the rows themselves.
        The ghost results are the tables after cascading and the updates that cascaded. */
    method Update(table: Table, rows: seq<Row>) returns (outcome: Outcome, ghost middle: Tables, ghost done: set<(RowId, CascadeUpdateItem)>)
      requires Valid() && Writable() && Plain(db.schema) && table in db.schema.specs && table in db.rows
      requires (forall r :: r in rows ==> r.id in db.rows[table]) && forall i, j :: 0 <= i < j < |rows| ==> rows[i].id != rows[j].id
      modifies this`tableDiffs, this`pendingRollback, db, tableDiffs.Values
      ensures Valid() && fresh(tableDiffs.Values - old(tableDiffs.Values))
      ensures outcome == OutOfScope <==> table !in scope
      ensures outcome == OutOfScope ==> db.rows == old(db.rows)
      ensures var mods := Replacements(old(db.rows)[table], rows);
        outcome == Done ==> UpdateRun(db.schema, old(db.rows), middle, table, mods, done) && db.rows == Final(middle, table, mods)
      ensures outcome == Done && Integrity(db.schema, old(db.rows)) ==>
        (Integrity(db.schema, db.rows) <==> SharedColumnsHold(db.schema, old(db.rows), table, Replacements(old(db.rows)[table], rows)))
      ensures outcome == ForeignKeyViolation ==> db.rows == middle
      ensures AnsweredRightly(db.schema, old(db.rows), middle, table, rows, done, outcome)
      ensures outcome != MissingRow && (pendingRollback <==> outcome == DuplicateKeys)
    {
      hide Cascaded, NoChains, NoSelfReference, Batch, Updates, NetChanges, UniqueTables, TableOk, Integrity,
        SharedColumnsHold, AllReferred, AllUnreferred, AllItems, Cascades, ApplyAll, Runs, AllApplicable, CascadeBlocked, SomeRefused, KeepsKeys;
      hide AnsweredRightly;
      done, middle := {}, db.rows;
      if table !in scope {
        Answered(db.schema, db.rows, middle, table, rows, done, OutOfScope);
        return OutOfScope, middle, done;
      }
      var mods := Replacements(db.rows[table], rows);
      ghost var before := db.rows;
      TablesAreUnique(db.schema, db.rows, db.indices);
      ReplacementsBatch(db.schema, db.rows, table, rows);
      var ok;
      ok, done := UpdateByCascade(table, mods);
      middle := db.rows;
      if ok {
        outcome := UpdateRows(table, mods);
      } else {
        outcome := DuplicateKeys;
      }
      Answered(db.schema, before, middle, table, rows, done, outcome);
      if outcome == Done && Integrity(db.schema, before) { UpdateKeepsIntegrityIff(db.schema, before, middle, table, mods, done); }
    }

    /** The foreign keys, and then the rows themselves. */
    method UpdateRows(table: Table, mods: seq<Modification>) returns (outcome: Outcome)
      requires Valid() && Writable() && table in db.schema.specs && table in db.rows && db.schema.specs.Keys <= db.rows.Keys
      requires Batch(db.rows[table], mods) && Updates(mods)
      modifies this`tableDiffs, this`pendingRollback, db, tableDiffs.Values
      ensures Valid() && fresh(tableDiffs.Values - old(tableDiffs.Values)) && (pendingRollback <==> outcome == DuplicateKeys)
      ensures outcome == (if !(AllReferred(db.schema, old(db.rows), table, mods) && AllUnreferred(db.schema, old(db.rows), table, mods, true)) then ForeignKeyViolation
        else if !Runs(db.schema.specs[table], old(db.rows)[table], mods) then DuplicateKeys else Done)
      ensures outcome == Done ==> db.rows == old(db.rows)[table := ApplyAll(old(db.rows)[table], mods)]
      ensures outcome == ForeignKeyViolation ==> db.rows == old(db.rows)
    {
      hide NetChanges, UniqueTables, TableOk, AllReferred, AllUnreferred, ApplyAll, Runs, AllApplicable, Batch;
      var found := checker.CheckReferredKeys(table, mods);
      if !found { return ForeignKeyViolation; }
      var free := checker.CheckReferringKeys(table, mods, true);
      if !free { return ForeignKeyViolation; }
      BatchApplies(db.rows[table], mods);
      var ok := ModifyRows(table, mods);
      return if ok then Done else DuplicateKeys;
    }

    /** Deletes the rows of a table with the given ids, unless some row refers to one of them. */
    method RemoveBatch(table: Table, ids: seq<RowId>) returns (outcome: Outcome)
      requires Valid() && Writable() && table in db.schema.specs && table in db.rows
      requires forall i, j :: 0 <= i < j < |ids| ==> ids[i] != ids[j]
      modifies this`tableDiffs, this`pendingRollback, db, tableDiffs.Values
      ensures Valid() && fresh(tableDiffs.Values - old(tableDiffs.Values)) && Writable()
      ensures outcome == Done || outcome == ForeignKeyViolation || outcome == MissingRow
      ensures db.rows == if outcome == Done then Without(old(db.rows), table, ids) else old(db.rows)
      ensures outcome == ForeignKeyViolation <==> exists id :: id in ids && StillReferred(db.schema, old(db.rows), table, id)
      ensures outcome == MissingRow <==> outcome != ForeignKeyViolation && IsReferredTo(db.schema, table) && exists id :: id in ids && id !in old(db.rows)[table]
      ensures outcome == BatchOutcome(db.schema, old(db.rows), table, (set id | id in ids))
      ensures outcome == Done && Integrity(db.schema, old(db.rows)) ==> Integrity(db.schema, db.rows)
    {
      hide NetChanges, TableOk, AllUnreferred, UniqueTables, Integrity, RowsKeyed, Runs, ApplyAll, AllApplicable;
      hide StillReferred;
      ghost var before := db.rows;
      var mods := Deletions(db.rows[table], ids);
      UnreferredRows(db.schema, db.rows, table, ids);
      var free := checker.CheckReferringKeys(table, mods, false);
      if !free { return ForeignKeyViolation; }
      // a row that an earlier batch has deleted has no keys to look up
      if (exists id :: id in ids && id !in db.rows[table]) && IsReferredTo(db.schema, table) { return MissingRow; }
      BatchRuns(db.schema, db.rows, db.indices, table, ids);
      var ok := ModifyRows(table, mods);
      if Integrity(db.schema, before) { DeleteKeepsIntegrity(db.schema, before, table, ids); }
      return Done;
    }

    /** Deletes every row that the deletion of the given rows reaches. */
    method RemoveByCascade(table: Table, rowIds: set<RowId>, ghost rank: map<Table, nat>) returns (outcome: Outcome)
      requires Valid() && Writable() && Ranked(db.schema, rank) && table in db.rows && rowIds <= db.rows[table].Keys
      requires db.rows.Keys == db.schema.specs.Keys
      modifies this`tableDiffs, this`pendingRollback, db, tableDiffs.Values
      ensures Valid() && fresh(tableDiffs.Values - old(tableDiffs.Values)) && Writable() && db.rows.Keys == db.schema.specs.Keys
      ensures outcome == Done || outcome == ForeignKeyViolation || outcome == MissingRow
      ensures outcome == ForeignKeyViolation ==> exists t, id :: Reached(db.schema, old(db.rows), table, rowIds, t, id) && StillReferred(db.schema, db.rows, t, id)
      ensures outcome == MissingRow ==> ReferredToAndTwice(db.schema, old(db.rows), table, rowIds)
      ensures ReferredToAndTwice(db.schema, old(db.rows), table, rowIds) ==> outcome != Done
      ensures !ReferredToAndTwice(db.schema, old(db.rows), table, rowIds) && NoneRestricted(db.schema, old(db.rows), table, rowIds) ==> outcome == Done
      ensures SomeHeld(db.schema, old(db.rows), table, rowIds) ==> outcome != Done
      ensures outcome == Done ==> CascadeRemoved(db.schema, old(db.rows), db.rows, table, rowIds)
      ensures outcome == Done ==> db.rows[table] == old(db.rows)[table]
      ensures outcome == Done && Integrity(db.schema, old(db.rows)) ==> Integrity(db.schema, db.rows)
    {
      hide NetChanges, TableOk, UniqueTables, Reached, Among, StillReferred, Trimmed, Integrity, CascadeRemoved, Ranked, HasKey, OrderOutcome, Twice, ReachedTwice, ReferredToAndTwice, NoneRestricted, SomeHeld, ChildrenEarlier;
      ghost var before := db.rows;
      var rowIdsPerTable, tableOrder := checker.DetectCascadeDeletion(table, rowIds, rank);
      ReachedTables(db.schema, before, table, rowIds, rank, rowIdsPerTable);
      AllPresent(db.schema, before, table, rowIds, rank, rowIdsPerTable);
      MissingIffTwice(db.schema, before, table, rowIds, rowIdsPerTable, tableOrder);
      DoneWhenClear(db.schema, before, table, rowIds, rowIdsPerTable, tableOrder);
      NotDoneWhenHeld(db.schema, before, table, rowIds, rowIdsPerTable, tableOrder);
      outcome := RemoveInOrder(rowIdsPerTable, tableOrder);
      if outcome == Done { TrimmedIsRemoved(db.schema, before, db.rows, table, rowIds, tableOrder, rowIdsPerTable); }
    }

    method RemoveInOrder(rowIdsPerTable: RowIds, tableOrder: seq<Table>) returns (outcome: Outcome)
      requires Valid() && Writable() && db.rows.Keys == db.schema.specs.Keys
      requires forall t :: t in tableOrder ==> t in rowIdsPerTable && t in db.rows
      modifies this`tableDiffs, this`pendingRollback, db, tableDiffs.Values
      ensures Valid() && fresh(tableDiffs.Values - old(tableDiffs.Values)) && Writable() && db.rows.Keys == db.schema.specs.Keys
      ensures outcome == Done || outcome == ForeignKeyViolation || outcome == MissingRow
      ensures outcome == ForeignKeyViolation ==> exists t, id :: Among(rowIdsPerTable, t, id) && StillReferred(db.schema, db.rows, t, id)
      ensures outcome == OrderOutcome(db.schema, old(db.rows), rowIdsPerTable, tableOrder)
      ensures outcome == Done ==> Trimmed(old(db.rows), db.rows, tableOrder, rowIdsPerTable)
      ensures outcome == Done && Integrity(db.schema, old(db.rows)) ==> Integrity(db.schema, db.rows)
    {
      hide NetChanges, TableOk, UniqueTables, IndicesOk, Integrity, StillReferred, OrderOutcome, BatchOutcome, Trimmed;
      NothingTrimmed(db.rows, rowIdsPerTable);
      assert tableOrder[0..] == tableOrder;
      for i := 0 to |tableOrder|
        invariant Valid() && fresh(tableDiffs.Values - old(tableDiffs.Values)) && Writable() && db.rows.Keys == db.schema.specs.Keys
        invariant OrderOutcome(db.schema, db.rows, rowIdsPerTable, tableOrder[i..]) == OrderOutcome(db.schema, old(db.rows), rowIdsPerTable, tableOrder)
        invariant Trimmed(old(db.rows), db.rows, tableOrder[..i], rowIdsPerTable)
        invariant Integrity(db.schema, old(db.rows)) ==> Integrity(db.schema, db.rows)
      {
        assert tableOrder[i] in tableOrder;
        var ids := Sets.InSomeOrder(rowIdsPerTable[tableOrder[i]]);
        TrimmedNext(old(db.rows), db.rows, tableOrder, i, rowIdsPerTable, ids);
        NextOutcome(db.schema, db.rows, rowIdsPerTable, tableOrder, i, ids);
        outcome := RemoveBatch(tableOrder[i], ids);
        if outcome == ForeignKeyViolation {
          ghost var id :| id in ids && StillReferred(db.schema, db.rows, tableOrder[i], id);
          assert Among(rowIdsPerTable, tableOrder[i], id);
        }
        if outcome != Done { return; }
      }
      outcome := Done;
      assert tableOrder[..|tableOrder|] == tableOrder && tableOrder[|tableOrder|..] == [];
      NoBatches(db.schema, db.rows, rowIdsPerTable);
    }

    /** Deletes the rows and all rows that refer to them through cascading foreign keys. */
    method Remove(table: Table, rows: seq<Row>, ghost rank: map<Table, nat>) returns (outcome: Outcome)
      requires Valid() && Writable() && Ranked(db.schema, rank) && table in db.schema.specs && db.rows.Keys == db.schema.specs.Keys
      requires (forall r :: r in rows ==> r.id in db.rows[table] && db.rows[table][r.id] == r)
      requires forall i, j :: 0 <= i < j < |rows| ==> rows[i].id != rows[j].id
      modifies this`tableDiffs, this`pendingRollback, db, tableDiffs.Values
      ensures Valid() && fresh(tableDiffs.Values - old(tableDiffs.Values)) && Writable() && db.rows.Keys == db.schema.specs.Keys
      ensures outcome == OutOfScope <==> table !in scope
      ensures outcome == OutOfScope ==> db.rows == old(db.rows)
      ensures outcome == MissingRow ==> ReferredToAndTwice(db.schema, old(db.rows), table, (set x | x in IdsOf(rows)))
      ensures ReferredToAndTwice(db.schema, old(db.rows), table, (set x | x in IdsOf(rows))) ==> outcome != Done
      ensures (table in scope && !ReferredToAndTwice(db.schema, old(db.rows), table, (set x | x in IdsOf(rows)))
        && NoneRestricted(db.schema, old(db.rows), table, (set x | x in IdsOf(rows)))
        && (forall id :: id in IdsOf(rows) ==> !Restricted(db.schema, old(db.rows), table, id))) ==> outcome == Done
      ensures SomeHeld(db.schema, old(db.rows), table, (set x | x in IdsOf(rows))) ==> outcome != Done
      ensures (exists id :: id in IdsOf(rows) && Held(db.schema, old(db.rows), table, (set x | x in IdsOf(rows)), table, id)) ==> outcome != Done
      ensures outcome == ForeignKeyViolation ==> exists t, id :: (StillReferred(db.schema, db.rows, t, id) &&
        ((t == table && id in IdsOf(rows)) || Reached(db.schema, old(db.rows), table, (set x | x in IdsOf(rows)), t, id)))
      ensures outcome == Done ==> db.rows.Keys == old(db.rows).Keys && forall t, id :: t in db.rows ==>
        RowRemoved(db.schema, old(db.rows), db.rows, table, IdsOf(rows), t, id)
      ensures outcome == Done && Integrity(db.schema, old(db.rows)) ==> Integrity(db.schema, db.rows)
    {
      hide NetChanges, TableOk, UniqueTables, IndicesOk, Ranked, Integrity, CascadeRemoved, RowRemoved, Reached, StillReferred, ReferredToAndTwice, BatchOutcome, NoneRestricted, SomeHeld, Restricted, Held;
      if table !in scope { return OutOfScope; }
      var ids := IdsOf(rows);
      ghost var before := db.rows;
      outcome := RemoveByCascade(table, (set id | id in ids), rank);
      if outcome != Done { return; }
      ghost var middle := db.rows;
      RootsClear(db.schema, before, middle, table, (set id | id in ids));
      outcome := RemoveBatch(table, ids);
      if outcome == Done { AllRemoved(db.schema, before, middle, table, ids); }
    }

    method Commit()
      requires Valid() && Writable()
      modifies this`terminated
      ensures Valid() && terminated && db.rows == old(db.rows)
    {
      terminated := true;
    }

    /** Takes all changes back, if no index objects. */
    method Rollback() returns (ok: bool)
      requires Valid() && !terminated
      modifies this`terminated, this`pendingRollback, db
      ensures ok <==> forall t :: t in tableDiffs ==> Compatible(db.schema.specs[t], Reversed(old(Views(tableDiffs))[t]))
      ensures ok ==> db.Valid() && db.rows == start && terminated && !pendingRollback
      ensures ok ==> forall indices :: IndicesOk(db.schema, start, indices) ==> db.indices == indices
    {
      hide Represents, Compatible, UniqueTables, TableOk, IndicesOk;
      var tables := Sets.InSomeOrder(tableDiffs.Keys);
      AllSeparate(db.schema, Views(tableDiffs), start, db.rows);
      var reverseDiffs := MakeReverse(tables);
      ok := ApplyReverse(tables, reverseDiffs, Views(tableDiffs));
      if ok {
        terminated := true;
        pendingRollback := false;
        OnlyTheseIndices(db.schema, start, db.indices);
      }
    }

    method MakeReverse(tables: seq<Table>) returns (reverseDiffs: seq<(Table, TableDiff)>)
      requires forall t :: t in tables ==> t in tableDiffs && Separate(tableDiffs[t].View())
      ensures |reverseDiffs| == |tables|
      ensures forall k :: 0 <= k < |tables| ==> reverseDiffs[k].0 == tables[k] && fresh(reverseDiffs[k].1)
      ensures forall k :: 0 <= k < |tables| ==> reverseDiffs[k].1.View() == Reversed(tableDiffs[tables[k]].View())
    {
      hide Separate;
      reverseDiffs := [];
      for i := 0 to |tables|
        invariant |reverseDiffs| == i
        invariant forall k :: 0 <= k < i ==> reverseDiffs[k].0 == tables[k] && fresh(reverseDiffs[k].1)
        invariant forall k :: 0 <= k < i ==> reverseDiffs[k].1.View() == Reversed(tableDiffs[tables[k]].View())
      {
        assert tables[i] in tables;
        var reverse := tableDiffs[tables[i]].GetReverse();
        reverseDiffs := reverseDiffs + [(tables[i], reverse)];
      }
    }

    method ApplyReverse(tables: seq<Table>, reverseDiffs: seq<(Table, TableDiff)>, ghost diffs: map<Table, Diff>) returns (ok: bool)
      requires db.Valid() && UniqueTables(db.schema, start) && NetChanges(db.schema, diffs, start, db.rows)
      requires |tables| == |reverseDiffs| && (forall t :: t in tables <==> t in diffs)
      requires forall i, j :: 0 <= i < j < |tables| ==> tables[i] != tables[j]
      requires forall k :: 0 <= k < |tables| ==> reverseDiffs[k].0 == tables[k] && tables[k] in diffs && reverseDiffs[k].1.View() == Reversed(diffs[tables[k]])
      modifies db
      ensures ok <==> forall t :: t in diffs ==> Compatible(db.schema.specs[t], Reversed(diffs[t]))
      ensures ok ==> db.Valid() && db.rows == start
    {
      hide Compatible, Represents, AllUnique, TableOk, RowsKeyed, SchemaOk;
      AllReversed(db.schema, diffs, start, db.rows);
      ghost var before := db.rows;
      ok := db.Update(reverseDiffs, start);
      if ok {
        AllRestored(db.schema, diffs, start, before, db.rows, tables);
      }
      assert forall k :: 0 <= k < |tables| ==> (Accepted(db.schema, reverseDiffs, k) <==> Compatible(db.schema.specs[tables[k]], Reversed(diffs[tables[k]])));
      if ok {
        forall t | t in diffs ensures Compatible(db.schema.specs[t], Reversed(diffs[t])) {
          assert t in tables;
          var k :| 0 <= k < |tables| && tables[k] == t;
          assert Accepted(db.schema, reverseDiffs, k);
        }
      } else {
        ghost var k :| 0 <= k < |reverseDiffs| && !Accepted(db.schema, reverseDiffs, k);
        assert tables[k] in tables;
      }
    }
  }

  // ---------- Insertion ----------

  function Additions(rows: seq<Row>): seq<Modification> {
    seq(|rows|, i requires 0 <= i < |rows| => Modification(Nothing, Just(rows[i])))
  }

  lemma AdditionsBatch(rows: Rows, added: seq<Row>)
    requires (forall r :: r in added ==> r.id !in rows) && forall i, j :: 0 <= i < j < |added| ==> added[i].id != added[j].id
    ensures Batch(rows, Additions(added))
  {
  }

  // ---------- Cascading updates ----------

  lemma TablesAreUnique(s: Schema, tables: Tables, indices: map<Table, seq<IndexState>>)
    requires IndicesOk(s, tables, indices)
    ensures UniqueTables(s, tables)
  {
  }

  lemma NothingCascaded(s: Schema, tables: Tables)
    requires SchemaOk(s) && UniqueTables(s, tables)
    ensures Cascaded(s, tables, tables, {})
  {
  }

  /** An index rejects the child row with its new key. */
  ghost predicate ItemBlocked(s: Schema, tables: Tables, id: RowId, item: CascadeUpdateItem)
    requires ForeignKeyOk(s, item.fk)
  {
    var t := item.fk.childTable;
    t in tables && id in tables[t] &&
    !NoneTaken(s.specs[t], tables[t], Modification(Just(tables[t][id]), Just(Redirected(s, tables[t][id], item))))
  }

  ghost predicate CascadeBlocked(s: Schema, before: Tables, tables: Tables, table: Table, mods: seq<Modification>)
    requires SchemaOk(s) && s.specs.Keys <= before.Keys
  {
    exists id, item :: Cascades(s, before, table, mods, id, item) && ForeignKeyOk(s, item.fk) && ItemBlocked(s, tables, id, item)
  }

  lemma CascadeGoesDown(s: Schema, tables: Tables, table: Table, mods: seq<Modification>, id: RowId, item: CascadeUpdateItem)
    requires Plain(s) && s.specs.Keys <= tables.Keys && Cascades(s, tables, table, mods, id, item)
    ensures item.fk.childTable != table
  {
  }

  lemma PlacedInOrder(s: Schema, items: seq<CascadeUpdateItem>, j: nat, done: set<(RowId, CascadeUpdateItem)>, id: RowId)
    requires j < |items| && PlacedUpTo(s, items, |s.foreignKeys|) && forall y :: (id, y) in done ==> y in items[..j]
    ensures InOrder(s, done, id, items[j])
  {
    forall y | (id, y) in done ensures y.fk in s.foreignKeys && Place(s, y.fk) <= Place(s, items[j].fk) {
      var a :| 0 <= a < j && items[..j][a] == y;
      assert items[a] == y;
    }
  }

  lemma ListedAt(s: Schema, updates: CascadeUpdates, i: nat)
    requires OncePerId(updates) && i < |updates| && OrderedUpTo(s, updates, |s.foreignKeys|)
    ensures forall item :: item in updates[i].1 ==> IsListed(updates, updates[i].0, item)
    ensures PlacedUpTo(s, updates[i].1, |s.foreignKeys|)
    ensures forall k :: 0 <= k < i ==> updates[k].0 != updates[i].0
  {
    FoundAt(updates, updates[i].0, i);
  }

  lemma CascadedKeyed(s: Schema, tables: Tables, middle: Tables, done: set<(RowId, CascadeUpdateItem)>, t: Table, id: RowId)
    requires SchemaOk(s) && Cascaded(s, tables, middle, done) && t in middle && id in middle[t]
    ensures middle[t][id].id == id
  {
    assert TableCascaded(s, tables[t], middle[t], t, done);
    assert ColumnCascaded(s, tables[t][id], middle[t][id], t, 0, done);
  }

  lemma ItemsListed(s: Schema, tables: Tables, table: Table, mods: seq<Modification>, updates: CascadeUpdates, done: set<(RowId, CascadeUpdateItem)>)
    requires SchemaOk(s) && s.specs.Keys <= tables.Keys
    requires forall id, item :: IsListed(updates, id, item) <==> Cascades(s, tables, table, mods, id, item)
    requires forall id, item :: (id, item) in done ==> Cascades(s, tables, table, mods, id, item)
    requires forall k, item :: 0 <= k < |updates| && item in updates[k].1 ==> (updates[k].0, item) in done
    ensures AllItems(s, tables, table, mods, done)
  {
    forall id, item | Cascades(s, tables, table, mods, id, item) ensures (id, item) in done {
      assert IsListed(updates, id, item);
    }
  }

  ghost predicate NotShared(tableDiffs: map<Table, TableDiff>) {
    forall t, u :: t in tableDiffs && u in tableDiffs && t != u ==> tableDiffs[t] != tableDiffs[u]
  }

  ghost function Views(tableDiffs: map<Table, TableDiff>): (views: map<Table, Diff>)
    reads tableDiffs.Values
    ensures views.Keys == tableDiffs.Keys && forall t :: t in tableDiffs ==> views[t] == tableDiffs[t].View()
  {
    map t | t in tableDiffs :: tableDiffs[t].View()
  }

  /** The diffs are the net changes of their tables, and the other tables have not changed. */
  ghost predicate NetChanges(s: Schema, diffs: map<Table, Diff>, start: Tables, now: Tables) {
    && start.Keys == now.Keys == s.specs.Keys && diffs.Keys <= s.specs.Keys
    && (forall t :: t in diffs ==> Represents(diffs[t], start[t], now[t]))
    && (forall t :: t in s.specs && t !in diffs ==> start[t] == now[t])
  }

  lemma DiffOpened(s: Schema, diffs: map<Table, Diff>, start: Tables, now: Tables, table: Table)
    requires NetChanges(s, diffs, start, now) && UniqueTables(s, start) && table in s.specs && table !in diffs
    ensures NetChanges(s, diffs[table := EMPTY], start, now)
  {
    EmptyRepresents(start[table]);
  }

  lemma DiffRecorded(s: Schema, diffs: map<Table, Diff>, start: Tables, now: Tables, table: Table, mod: Modification)
    requires NetChanges(s, diffs, start, now) && table in diffs && table in now && Applicable(now[table], mod)
    ensures NetChanges(s, diffs[table := Recorded(diffs[table], mod)], start, now[table := Apply(now[table], mod)])
  {
    DiffFollows(diffs[table], start[table], now[table], mod);
  }

  lemma DatabaseTables(s: Schema, tables: Tables, indices: map<Table, seq<IndexState>>)
    requires IndicesOk(s, tables, indices)
    ensures tables.Keys == s.specs.Keys
  {
  }

  function Recorded(d: Diff, mod: Modification): Diff {
    if mod.before.Nothing? && mod.after.Just? then AddRow(d, mod.after.value)
    else if mod.before.Just? && mod.after.Just? then TableDiffs.ModifyRow(d, Change(mod.before.value, mod.after.value))
    else if mod.before.Just? then DeleteRow(d, mod.before.value)
    else d
  }

  lemma DiffFollows(d: Diff, start: Rows, now: Rows, mod: Modification)
    requires Represents(d, start, now) && Applicable(now, mod)
    ensures Represents(Recorded(d, mod), start, Apply(now, mod))
  {
    if mod.before.Nothing? && mod.after.Just? { AddRepresents(d, start, now, mod.after.value); }
    else if mod.before.Just? && mod.after.Just? { ModifyRepresents(d, start, now, Change(mod.before.value, mod.after.value)); }
    else if mod.before.Just? { DeleteRepresents(d, start, now, mod.before.value); }
  }

  // ---------- Updates and deletions ----------

  // ---------- Which rows a foreign key refuses ----------

  /** An immediate foreign key of the table has no parent for the new key of the row. */
  ghost predicate Orphaned(s: Schema, tables: Tables, table: Table, before: Rows, row: Row)
    requires SchemaOk(s) && s.specs.Keys <= tables.Keys
  {
    exists f :: f in s.foreignKeys && f.immediate && f.childTable == table
      && (row.id in before ==> KeyOf(ChildSpec(s, f), before[row.id]) != KeyOf(ChildSpec(s, f), row))
      && !HasKey(tables[f.parentTable], ParentSpec(s, f), KeyOf(ChildSpec(s, f), row))
  }

  /** The row gives up a key to which some row still refers through an immediate foreign key that does
      not cascade. */
  ghost predicate Bereaving(s: Schema, tables: Tables, table: Table, before: Rows, row: Row)
    requires SchemaOk(s) && s.specs.Keys <= tables.Keys
  {
    exists f :: f in s.foreignKeys && f.immediate && !f.cascade && f.parentTable == table && row.id in before
      && KeyOf(ParentSpec(s, f), before[row.id]) != KeyOf(ParentSpec(s, f), row)
      && HasKey(tables[f.childTable], ChildSpec(s, f), KeyOf(ParentSpec(s, f), before[row.id]))
  }

  ghost predicate SomeRefused(s: Schema, tables: Tables, table: Table, before: Rows, rows: seq<Row>)
    requires SchemaOk(s) && s.specs.Keys <= tables.Keys
  {
    exists r :: r in rows && (Orphaned(s, tables, table, before, r) || Bereaving(s, tables, table, before, r))
  }

  /** What the outcome of an update says: a foreign key refuses some row, or an index rejects a cascaded
      or an updated row.  Rows that keep the keys of all foreign keys are not refused for one, and cascade
      nothing. */
  ghost predicate AnsweredRightly(s: Schema, before: Tables, middle: Tables, table: Table, rows: seq<Row>, done: set<(RowId, CascadeUpdateItem)>, outcome: Outcome)
    requires SchemaOk(s) && s.specs.Keys <= before.Keys && table in before && table in s.specs
  {
    && s.specs.Keys <= middle.Keys && table in middle
    && (outcome == ForeignKeyViolation ==> Cascaded(s, before, middle, done) && SomeRefused(s, middle, table, before[table], rows))
    && (outcome == Done ==> !SomeRefused(s, middle, table, before[table], rows))
    && (outcome == DuplicateKeys ==>
         || CascadeBlocked(s, before, middle, table, Replacements(before[table], rows))
         || (!SomeRefused(s, middle, table, before[table], rows) && !Runs(s.specs[table], middle[table], Replacements(before[table], rows))))
    && ((forall r :: r in rows ==> KeepsKeys(s, table, before[table], r)) ==> outcome != ForeignKeyViolation && done == {})
  }

  /** The row has the keys of all foreign keys that it had before. */
  ghost predicate KeepsKeys(s: Schema, table: Table, before: Rows, row: Row)
    requires SchemaOk(s)
  {
    row.id in before && forall f :: f in s.foreignKeys ==>
      && (f.childTable == table ==> KeyOf(ChildSpec(s, f), before[row.id]) == KeyOf(ChildSpec(s, f), row))
      && (f.parentTable == table ==> KeyOf(ParentSpec(s, f), before[row.id]) == KeyOf(ParentSpec(s, f), row))
  }

  lemma ReferredIff(s: Schema, tables: Tables, table: Table, before: Rows, rows: seq<Row>)
    requires SchemaOk(s) && s.specs.Keys <= tables.Keys
    ensures AllReferred(s, tables, table, Replacements(before, rows)) <==> forall r :: r in rows ==> !Orphaned(s, tables, table, before, r)
  {
    var mods := Replacements(before, rows);
    if r :| r in rows && Orphaned(s, tables, table, before, r) {
      var i :| 0 <= i < |rows| && rows[i] == r;
      assert mods[i] in mods;
    }
    forall f, m | f in s.foreignKeys && f.immediate && f.childTable == table && m in mods && m.after.Just?
      && (m.before.Just? ==> KeyOf(ChildSpec(s, f), m.before.value) != KeyOf(ChildSpec(s, f), m.after.value))
      && !HasKey(tables[f.parentTable], ParentSpec(s, f), KeyOf(ChildSpec(s, f), m.after.value))
      ensures exists r :: r in rows && Orphaned(s, tables, table, before, r)
    {
      var i :| 0 <= i < |mods| && mods[i] == m;
      assert rows[i] in rows && Orphaned(s, tables, table, before, rows[i]);
    }
  }

  lemma UnreferredIff(s: Schema, tables: Tables, table: Table, before: Rows, rows: seq<Row>)
    requires SchemaOk(s) && s.specs.Keys <= tables.Keys
    ensures AllUnreferred(s, tables, table, Replacements(before, rows), true) <==> forall r :: r in rows ==> !Bereaving(s, tables, table, before, r)
  {
    var mods := Replacements(before, rows);
    if r :| r in rows && Bereaving(s, tables, table, before, r) {
      var i :| 0 <= i < |rows| && rows[i] == r;
      assert mods[i] in mods;
    }
    forall f, m | f in s.foreignKeys && f.immediate && !f.cascade && f.parentTable == table && m in mods && m.before.Just?
      && (m.after.Just? ==> KeyOf(ParentSpec(s, f), m.before.value) != KeyOf(ParentSpec(s, f), m.after.value))
      && HasKey(tables[f.childTable], ChildSpec(s, f), KeyOf(ParentSpec(s, f), m.before.value))
      ensures exists r :: r in rows && Bereaving(s, tables, table, before, r)
    {
      var i :| 0 <= i < |mods| && mods[i] == m;
      assert rows[i] in rows && Bereaving(s, tables, table, before, rows[i]);
    }
  }

  lemma NoneRefusedIff(s: Schema, tables: Tables, table: Table, before: Rows, rows: seq<Row>)
    requires SchemaOk(s) && s.specs.Keys <= tables.Keys
    ensures var mods := Replacements(before, rows);
      AllReferred(s, tables, table, mods) && AllUnreferred(s, tables, table, mods, true) <==> !SomeRefused(s, tables, table, before, rows)
    ensures (forall r :: r in rows ==> KeepsKeys(s, table, before, r)) ==> !SomeRefused(s, tables, table, before, rows)
  {
    ReferredIff(s, tables, table, before, rows);
    UnreferredIff(s, tables, table, before, rows);
    hide AllReferred, AllUnreferred;
  }

  lemma KeptKeysCascadeNothing(s: Schema, tables: Tables, table: Table, rows: seq<Row>, done: set<(RowId, CascadeUpdateItem)>)
    requires SchemaOk(s) && s.specs.Keys <= tables.Keys && table in tables
    requires forall id, item :: (id, item) in done ==> Cascades(s, tables, table, Replacements(tables[table], rows), id, item)
    ensures (forall r :: r in rows ==> KeepsKeys(s, table, tables[table], r)) ==> done == {}
  {
    if forall r :: r in rows ==> KeepsKeys(s, table, tables[table], r) {
      var mods := Replacements(tables[table], rows);
      forall id, item ensures !Cascades(s, tables, table, mods, id, item) {
        forall m | m in mods && item.fk in s.foreignKeys && item.fk.parentTable == table ensures !CausedBy(s, tables, m, id, item) {
          var i :| 0 <= i < |mods| && mods[i] == m;
          assert rows[i] in rows;
        }
      }
      forall id, item ensures (id, item) !in done { assert !Cascades(s, tables, table, mods, id, item); }
      NoPairs(done);
    }
  }

  lemma NoPairs<A, B>(pairs: set<(A, B)>)
    ensures pairs == {} <==> forall a, b :: (a, b) !in pairs
  {
    if forall a, b :: (a, b) !in pairs {
      forall x: (A, B) ensures x !in pairs {
        var (a, b) := x;
        assert (a, b) !in pairs;
      }
    }
  }

  lemma Answered(s: Schema, before: Tables, middle: Tables, table: Table, rows: seq<Row>, done: set<(RowId, CascadeUpdateItem)>, outcome: Outcome)
    requires SchemaOk(s) && s.specs.Keys <= before.Keys && s.specs.Keys <= middle.Keys && table in before && table in middle && table in s.specs
    requires var mods := Replacements(before[table], rows);
      var free := AllReferred(s, middle, table, mods) && AllUnreferred(s, middle, table, mods, true);
      && (forall id, item :: (id, item) in done ==> Cascades(s, before, table, mods, id, item))
      && (outcome == ForeignKeyViolation ==> Cascaded(s, before, middle, done) && !free)
      && (outcome == Done ==> free)
      && (outcome == DuplicateKeys ==> CascadeBlocked(s, before, middle, table, mods) || (free && !Runs(s.specs[table], middle[table], mods)))
    ensures AnsweredRightly(s, before, middle, table, rows, done, outcome)
  {
    hide AllReferred, AllUnreferred, Cascades, Cascaded, CascadeBlocked, Runs, SomeRefused, KeepsKeys;
    NoneRefusedIff(s, middle, table, before[table], rows);
    KeptKeysCascadeNothing(s, before, table, rows, done);
  }

  lemma AdditionsReplace(before: Rows, rows: seq<Row>)
    requires forall r :: r in rows ==> r.id !in before
    ensures Additions(rows) == Replacements(before, rows)
  {
    forall i | 0 <= i < |rows| ensures Additions(rows)[i] == Replacements(before, rows)[i] { assert rows[i] in rows; }
  }

  function Replacements(rows: Rows, changed: seq<Row>): seq<Modification> {
    seq(|changed|, i requires 0 <= i < |changed| =>
      Modification(if changed[i].id in rows then Just(rows[changed[i].id]) else Nothing, Just(changed[i])))
  }

  lemma ReplacementsBatch(s: Schema, tables: Tables, table: Table, changed: seq<Row>)
    requires UniqueTables(s, tables) && table in s.specs
    requires (forall r :: r in changed ==> r.id in tables[table]) && forall i, j :: 0 <= i < j < |changed| ==> changed[i].id != changed[j].id
    ensures Batch(tables[table], Replacements(tables[table], changed)) && Updates(Replacements(tables[table], changed))
  {
  }

  predicate IsReferredTo(s: Schema, table: Table) {
    exists f :: f in s.foreignKeys && f.parentTable == table && f.immediate
  }

  /** Some row refers to the row through an immediate foreign key. */
  ghost predicate StillReferred(s: Schema, tables: Tables, t: Table, id: RowId)
    requires SchemaOk(s) && s.specs.Keys <= tables.Keys
  {
    exists f :: f in s.foreignKeys && f.parentTable == t && f.immediate && id in tables[t] &&
      HasKey(tables[f.childTable], ChildSpec(s, f), KeyOf(ParentSpec(s, f), tables[t][id]))
  }

  lemma UnreferredRows(s: Schema, tables: Tables, table: Table, ids: seq<RowId>)
    requires SchemaOk(s) && s.specs.Keys <= tables.Keys && table in tables
    ensures AllUnreferred(s, tables, table, Deletions(tables[table], ids), false) <==> forall id :: id in ids ==> !StillReferred(s, tables, table, id)
  {
    var mods := Deletions(tables[table], ids);
    forall id | id in ids && StillReferred(s, tables, table, id) ensures !AllUnreferred(s, tables, table, mods, false) {
      var i :| 0 <= i < |ids| && ids[i] == id;
      assert mods[i] in mods;
    }
    if !AllUnreferred(s, tables, table, mods, false) {
      var f :| f in s.foreignKeys && f.parentTable == table && f.immediate && !Unreferred(s, tables, f, mods);
      var m :| m in mods && m.before.Just? && HasKey(tables[f.childTable], ChildSpec(s, f), KeyOf(ParentSpec(s, f), m.before.value));
      var i :| 0 <= i < |mods| && mods[i] == m;
      assert StillReferred(s, tables, table, ids[i]);
    }
  }

  // ---------- When rows are missing ----------

  /** A table that an immediate foreign key refers to is reached twice. */
  ghost predicate ReferredToAndTwice(s: Schema, tables: Tables, table: Table, roots: set<RowId>)
    requires SchemaOk(s) && s.specs.Keys <= tables.Keys
  {
    exists t :: IsReferredTo(s, t) && ReachedTwice(s, tables, table, roots, t)
  }

  ghost function BatchOutcome(s: Schema, tables: Tables, t: Table, ids: set<RowId>): Outcome
    requires SchemaOk(s) && s.specs.Keys <= tables.Keys && t in tables
  {
    if exists id :: id in ids && StillReferred(s, tables, t, id) then ForeignKeyViolation
    else if IsReferredTo(s, t) && !(ids <= tables[t].Keys) then MissingRow
    else Done
  }

  /** Deleting table by table until a batch is refused. */
  ghost function OrderOutcome(s: Schema, tables: Tables, rowIds: RowIds, order: seq<Table>): Outcome
    requires SchemaOk(s) && s.specs.Keys <= tables.Keys && forall i :: 0 <= i < |order| ==> order[i] in rowIds && order[i] in tables
    decreases |order|
  {
    if order == [] then Done else
    var t := order[0];
    if BatchOutcome(s, tables, t, rowIds[t]) != Done then BatchOutcome(s, tables, t, rowIds[t])
    else OrderOutcome(s, tables[t := tables[t] - rowIds[t]], rowIds, order[1..])
  }

  lemma NoBatches(s: Schema, tables: Tables, rowIds: RowIds)
    requires SchemaOk(s) && s.specs.Keys <= tables.Keys
    ensures OrderOutcome(s, tables, rowIds, []) == Done
  {
  }

  lemma NextOutcome(s: Schema, tables: Tables, rowIds: RowIds, order: seq<Table>, i: nat, ids: seq<RowId>)
    requires SchemaOk(s) && s.specs.Keys <= tables.Keys && i < |order| && forall k :: 0 <= k < |order| ==> order[k] in rowIds && order[k] in tables
    requires forall id :: id in ids <==> id in rowIds[order[i]]
    ensures var o := BatchOutcome(s, tables, order[i], (set id | id in ids));
      OrderOutcome(s, tables, rowIds, order[i..]) == if o != Done then o else OrderOutcome(s, Without(tables, order[i], ids), rowIds, order[i + 1..])
  {
    var deleted := set id | id in ids;
    assert forall id :: id in deleted <==> id in rowIds[order[i]];
    assert deleted == rowIds[order[i]];
    assert order[i..][0] == order[i] && order[i..][1..] == order[i + 1..];
  }

  /** Rows are found missing only in a table that comes again, and is referred to. */
  lemma {:induction false} MissingOnlyAgain(s: Schema, tables: Tables, rowIds: RowIds, order: seq<Table>)
    requires SchemaOk(s) && s.specs.Keys <= tables.Keys && forall i :: 0 <= i < |order| ==> order[i] in rowIds && order[i] in tables
    requires OrderOutcome(s, tables, rowIds, order) == MissingRow
    ensures exists t :: t in order && IsReferredTo(s, t) && (!(rowIds[t] <= tables[t].Keys) || Twice(order, t))
    decreases |order|
  {
    var t, rest := order[0], order[1..];
    if BatchOutcome(s, tables, t, rowIds[t]) == Done {
      var next := tables[t := tables[t] - rowIds[t]];
      MissingOnlyAgain(s, next, rowIds, rest);
      var u :| u in rest && IsReferredTo(s, u) && (!(rowIds[u] <= next[u].Keys) || Twice(rest, u));
      assert order == [t] + rest;
      TwiceConcat([t], rest, u);
    }
  }

  /** A table that is referred to and comes again stops the deletion. */
  lemma {:induction false} AgainIsNotDone(s: Schema, tables: Tables, rowIds: RowIds, order: seq<Table>, t: Table)
    requires SchemaOk(s) && s.specs.Keys <= tables.Keys && forall i :: 0 <= i < |order| ==> order[i] in rowIds && order[i] in tables
    requires t in order && IsReferredTo(s, t) && rowIds[t] != {} && (!(rowIds[t] <= tables[t].Keys) || Twice(order, t))
    ensures OrderOutcome(s, tables, rowIds, order) != Done
    decreases |order|
  {
    var u, rest := order[0], order[1..];
    if BatchOutcome(s, tables, u, rowIds[u]) == Done {
      var next := tables[u := tables[u] - rowIds[u]];
      assert order == [u] + rest;
      TwiceConcat([u], rest, t);
      if t == u {
        var id := Sets.SomeOf(rowIds[t]);
        assert id !in next[t];
      }
      AgainIsNotDone(s, next, rowIds, rest, t);
    }
  }

  lemma MissingIffTwice(s: Schema, tables: Tables, table: Table, roots: set<RowId>, rowIds: RowIds, order: seq<Table>)
    requires SchemaOk(s) && s.specs.Keys <= tables.Keys && (forall t :: t in order <==> t in rowIds)
    requires forall t :: t in rowIds ==> t in tables && rowIds[t] != {} && rowIds[t] <= tables[t].Keys
    requires forall t :: Twice(order, t) <==> ReachedTwice(s, tables, table, roots, t)
    ensures forall i :: 0 <= i < |order| ==> order[i] in rowIds && order[i] in tables
    ensures OrderOutcome(s, tables, rowIds, order) == MissingRow ==> ReferredToAndTwice(s, tables, table, roots)
    ensures ReferredToAndTwice(s, tables, table, roots) ==> OrderOutcome(s, tables, rowIds, order) != Done
  {
    hide OrderOutcome, ReachedTwice;
    forall i | 0 <= i < |order| ensures order[i] in rowIds && order[i] in tables { assert order[i] in order; }
    if OrderOutcome(s, tables, rowIds, order) == MissingRow { MissingOnlyAgain(s, tables, rowIds, order); }
    if ReferredToAndTwice(s, tables, table, roots) {
      var t :| IsReferredTo(s, t) && ReachedTwice(s, tables, table, roots, t);
      assert Twice(order, t);
      AgainIsNotDone(s, tables, rowIds, order, t);
    }
  }

  // ---------- When a cascading deletion succeeds ----------

  /** Some row refers to the row through an immediate foreign key that does not cascade. */
  ghost predicate Restricted(s: Schema, tables: Tables, t: Table, id: RowId)
    requires SchemaOk(s) && s.specs.Keys <= tables.Keys
  {
    exists f, child :: f in s.foreignKeys && f.immediate && !f.cascade && f.parentTable == t && Refers(s, tables, f, id, child)
  }

  ghost predicate NoneRestricted(s: Schema, tables: Tables, table: Table, roots: set<RowId>)
    requires SchemaOk(s) && s.specs.Keys <= tables.Keys
  {
    forall t, id :: Reached(s, tables, table, roots, t, id) ==> !Restricted(s, tables, t, id)
  }

  /** Some row that the deletion does not reach refers to the row through an immediate foreign key. */
  ghost predicate Held(s: Schema, tables: Tables, table: Table, roots: set<RowId>, t: Table, id: RowId)
    requires SchemaOk(s) && s.specs.Keys <= tables.Keys
  {
    exists f, child :: f in s.foreignKeys && f.immediate && f.parentTable == t && Refers(s, tables, f, id, child)
      && !Reached(s, tables, table, roots, f.childTable, child)
  }

  ghost predicate SomeHeld(s: Schema, tables: Tables, table: Table, roots: set<RowId>)
    requires SchemaOk(s) && s.specs.Keys <= tables.Keys
  {
    exists t, id :: Reached(s, tables, table, roots, t, id) && Held(s, tables, table, roots, t, id)
  }

  lemma DoneWhenClear(s: Schema, tables: Tables, table: Table, roots: set<RowId>, rowIds: RowIds, order: seq<Table>)
    requires SchemaOk(s) && s.specs.Keys <= tables.Keys && (forall t :: t in order <==> t in rowIds)
    requires forall t :: t in rowIds ==> t in tables && rowIds[t] <= tables[t].Keys
    requires forall t, id :: Among(rowIds, t, id) <==> Reached(s, tables, table, roots, t, id)
    requires forall t :: Twice(order, t) <==> ReachedTwice(s, tables, table, roots, t)
    requires ChildrenEarlier(s, tables, order, rowIds, map[])
    ensures forall i :: 0 <= i < |order| ==> order[i] in rowIds && order[i] in tables
    ensures !ReferredToAndTwice(s, tables, table, roots) && NoneRestricted(s, tables, table, roots) ==> OrderOutcome(s, tables, rowIds, order) == Done
  {
    forall i | 0 <= i < |order| ensures order[i] in rowIds && order[i] in tables { assert order[i] in order; }
    if !ReferredToAndTwice(s, tables, table, roots) && NoneRestricted(s, tables, table, roots) {
      hide ReachedTwice, Twice, Reached, Restricted, Among;
      forall t, x, c, id | Among(rowIds, t, x) && Below(s, tables, t, x, c, id) ensures Among(rowIds, c, id) {
        ReachedBelow(s, tables, table, roots, t, x, c, id);
      }
      forall t, id | Among(rowIds, t, id) ensures !Restricted(s, tables, t, id) { }
      NothingTrimmed(tables, rowIds);
      assert order[..0] == [] && order[0..] == order;
      ClearIsDone(s, tables, tables, rowIds, order, 0);
    }
  }

  lemma ReachedBelow(s: Schema, tables: Tables, table: Table, roots: set<RowId>, t: Table, x: RowId, c: Table, id: RowId)
    requires SchemaOk(s) && s.specs.Keys <= tables.Keys
    requires (Reached(s, tables, table, roots, t, x) || (t == table && x in roots)) && Below(s, tables, t, x, c, id)
    ensures Reached(s, tables, table, roots, c, id)
  {
    hide Below;
    if Reached(s, tables, table, roots, t, x) {
      var n: nat :| n > 0 && ReachedIn(s, tables, table, roots, n, t, x);
      assert ReachedIn(s, tables, table, roots, n + 1, c, id);
    } else {
      assert ReachedIn(s, tables, table, roots, 0, t, x);
      assert ReachedIn(s, tables, table, roots, 1, c, id);
    }
  }

  lemma StillReferredIff(s: Schema, tables: Tables, t: Table, id: RowId)
    requires SchemaOk(s) && s.specs.Keys <= tables.Keys
    ensures StillReferred(s, tables, t, id) <==>
      exists f, child :: f in s.foreignKeys && f.parentTable == t && f.immediate && Refers(s, tables, f, id, child)
  {
    if f, child :| f in s.foreignKeys && f.parentTable == t && f.immediate && Refers(s, tables, f, id, child) {
      assert HasKey(tables[f.childTable], ChildSpec(s, f), KeyOf(ParentSpec(s, f), tables[t][id]));
    }
    if StillReferred(s, tables, t, id) {
      var f :| f in s.foreignKeys && f.parentTable == t && f.immediate && id in tables[t] &&
        HasKey(tables[f.childTable], ChildSpec(s, f), KeyOf(ParentSpec(s, f), tables[t][id]));
      var child :| child in tables[f.childTable] && KeyOf(ChildSpec(s, f), tables[f.childTable][child]) == KeyOf(ParentSpec(s, f), tables[t][id]);
      assert Refers(s, tables, f, id, child);
    }
  }

  /** With children deleted first, every batch from position i on is accepted. */
  lemma {:induction false} ClearIsDone(s: Schema, before: Tables, now: Tables, rowIds: RowIds, order: seq<Table>, i: nat)
    requires SchemaOk(s) && s.specs.Keys <= before.Keys && i <= |order| && Trimmed(before, now, order[..i], rowIds)
    requires forall k :: 0 <= k < |order| ==> order[k] in rowIds && order[k] in before && rowIds[order[k]] <= before[order[k]].Keys
    requires forall t :: IsReferredTo(s, t) ==> !Twice(order, t)
    requires ChildrenEarlier(s, before, order, rowIds, map[])
    requires forall t, x, c, id :: Among(rowIds, t, x) && Below(s, before, t, x, c, id) ==> Among(rowIds, c, id)
    requires forall t, id :: Among(rowIds, t, id) ==> !Restricted(s, before, t, id)
    ensures OrderOutcome(s, now, rowIds, order[i..]) == Done
    decreases |order| - i
  {
    if i < |order| {
      var t := order[i];
      hide OrderOutcome, BatchOutcome, StillReferred, ChildrenEarlier, Restricted, Below, Among, IsReferredTo, Twice;
      BatchIsDone(s, before, now, rowIds, order, i);
      var next := now[t := now[t] - rowIds[t]];
      TrimmedMore(before, now, rowIds, order, i);
      ClearIsDone(s, before, next, rowIds, order, i + 1);
      OutcomeStep(s, now, rowIds, order, i);
    } else {
      NoBatches(s, now, rowIds);
      assert order[i..] == [];
    }
  }

  lemma OutcomeStep(s: Schema, now: Tables, rowIds: RowIds, order: seq<Table>, i: nat)
    requires SchemaOk(s) && s.specs.Keys <= now.Keys && i < |order| && forall k :: 0 <= k < |order| ==> order[k] in rowIds && order[k] in now
    requires BatchOutcome(s, now, order[i], rowIds[order[i]]) == Done
    ensures OrderOutcome(s, now, rowIds, order[i..]) == OrderOutcome(s, now[order[i] := now[order[i]] - rowIds[order[i]]], rowIds, order[i + 1..])
  {
    hide BatchOutcome;
    assert order[i..][0] == order[i] && order[i..][1..] == order[i + 1..];
  }

  lemma TrimmedMore(before: Tables, now: Tables, rowIds: RowIds, order: seq<Table>, i: nat)
    requires i < |order| && order[i] in rowIds && order[i] in now && Trimmed(before, now, order[..i], rowIds)
    ensures Trimmed(before, now[order[i] := now[order[i]] - rowIds[order[i]]], order[..i + 1], rowIds)
  {
    assert order[..i + 1] == order[..i] + [order[i]];
  }

  lemma BatchIsDone(s: Schema, before: Tables, now: Tables, rowIds: RowIds, order: seq<Table>, i: nat)
    requires SchemaOk(s) && s.specs.Keys <= before.Keys && i < |order| && Trimmed(before, now, order[..i], rowIds)
    requires order[i] in rowIds && order[i] in before && rowIds[order[i]] <= before[order[i]].Keys
    requires IsReferredTo(s, order[i]) ==> !Twice(order, order[i])
    requires ChildrenEarlier(s, before, order, rowIds, map[])
    requires forall t, x, c, id :: Among(rowIds, t, x) && Below(s, before, t, x, c, id) ==> Among(rowIds, c, id)
    requires forall t, id :: Among(rowIds, t, id) ==> !Restricted(s, before, t, id)
    ensures BatchOutcome(s, now, order[i], rowIds[order[i]]) == Done
  {
    var t := order[i];
    forall id | id in rowIds[t] ensures !StillReferred(s, now, t, id) {
      assert Among(rowIds, t, id);
      NotReferredNow(s, before, now, rowIds, order, i, id);
    }
    if IsReferredTo(s, t) {
      forall k | 0 <= k < i ensures order[k] != t { assert order[k] == t ==> Twice(order, t); }
      assert t !in order[..i];
    }
  }

  lemma NotReferredNow(s: Schema, before: Tables, now: Tables, rowIds: RowIds, order: seq<Table>, i: nat, id: RowId)
    requires SchemaOk(s) && s.specs.Keys <= before.Keys && i < |order| && Trimmed(before, now, order[..i], rowIds)
    requires Among(rowIds, order[i], id) && !Restricted(s, before, order[i], id) && order[i] in before
    requires IsReferredTo(s, order[i]) ==> !Twice(order, order[i])
    requires ChildrenEarlier(s, before, order, rowIds, map[])
    requires forall c, child :: Below(s, before, order[i], id, c, child) ==> Among(rowIds, c, child)
    ensures !StillReferred(s, now, order[i], id)
  {
    hide Twice;
    var t := order[i];
    StillReferredIff(s, now, t, id);
    forall f, child | f in s.foreignKeys && f.parentTable == t && f.immediate && Refers(s, now, f, id, child)
      ensures Refers(s, before, f, id, child) && child in now[f.childTable]
    {
    }
    forall f, child | f in s.foreignKeys && f.parentTable == t && f.immediate && Refers(s, before, f, id, child)
      ensures child !in now[f.childTable]
    {
      assert f.cascade;
      assert Below(s, before, t, id, f.childTable, child);
      assert Finds(s, before, rowIds, t, f.childTable);
      assert IsReferredTo(s, t);
      assert !HasRows(map[], t);
      assert f.childTable in order[..i];
    }
  }

  /** A row that stays refers to one that is to go: some batch is refused. */
  lemma {:induction false} HeldIsNotDone(s: Schema, now: Tables, rowIds: RowIds, order: seq<Table>, f: ForeignKey, id: RowId, child: RowId)
    requires SchemaOk(s) && s.specs.Keys <= now.Keys && forall i :: 0 <= i < |order| ==> order[i] in rowIds && order[i] in now
    requires f in s.foreignKeys && f.immediate && f.parentTable in order && Among(rowIds, f.parentTable, id)
    requires Refers(s, now, f, id, child) && !Among(rowIds, f.childTable, child)
    ensures OrderOutcome(s, now, rowIds, order) != Done
    decreases |order|
  {
    var u, rest := order[0], order[1..];
    if u == f.parentTable {
      assert StillReferred(s, now, u, id);
    } else if BatchOutcome(s, now, u, rowIds[u]) == Done {
      assert order == [u] + rest;
      HeldIsNotDone(s, now[u := now[u] - rowIds[u]], rowIds, rest, f, id, child);
    }
  }

  lemma NotDoneWhenHeld(s: Schema, tables: Tables, table: Table, roots: set<RowId>, rowIds: RowIds, order: seq<Table>)
    requires SchemaOk(s) && s.specs.Keys <= tables.Keys && (forall t :: t in order <==> t in rowIds)
    requires forall t :: t in rowIds ==> t in tables
    requires forall t, id :: Among(rowIds, t, id) <==> Reached(s, tables, table, roots, t, id)
    ensures forall i :: 0 <= i < |order| ==> order[i] in rowIds && order[i] in tables
    ensures SomeHeld(s, tables, table, roots) ==> OrderOutcome(s, tables, rowIds, order) != Done
  {
    hide Reached;
    forall i | 0 <= i < |order| ensures order[i] in rowIds && order[i] in tables { assert order[i] in order; }
    if SomeHeld(s, tables, table, roots) {
      var t, id :| Reached(s, tables, table, roots, t, id) && Held(s, tables, table, roots, t, id);
      var f, child :| f in s.foreignKeys && f.immediate && f.parentTable == t && Refers(s, tables, f, id, child)
        && !Reached(s, tables, table, roots, f.childTable, child);
      HeldIsNotDone(s, tables, rowIds, order, f, id, child);
    }
  }

  /** After the cascade the given rows go if no row restricts it, and stay if some row is left that refers
      to one of them. */
  lemma RootsClear(s: Schema, before: Tables, middle: Tables, table: Table, roots: set<RowId>)
    requires SchemaOk(s) && s.specs.Keys <= before.Keys && table in before && CascadeRemoved(s, before, middle, table, roots)
    requires middle[table] == before[table] && roots <= before[table].Keys
    ensures (forall id :: id in roots ==> !Restricted(s, before, table, id)) ==> BatchOutcome(s, middle, table, roots) == Done
    ensures (exists id :: id in roots && Held(s, before, table, roots, table, id)) ==> BatchOutcome(s, middle, table, roots) != Done
  {
    hide Restricted, Held, StillReferred;
    if forall id :: id in roots ==> !Restricted(s, before, table, id) {
      forall id | id in roots ensures !StillReferred(s, middle, table, id) { RootIsClear(s, before, middle, table, roots, id); }
    }
    if id :| id in roots && Held(s, before, table, roots, table, id) { RootIsHeld(s, before, middle, table, roots, id); }
  }

  lemma RootIsClear(s: Schema, before: Tables, middle: Tables, table: Table, roots: set<RowId>, id: RowId)
    requires SchemaOk(s) && s.specs.Keys <= before.Keys && table in before && CascadeRemoved(s, before, middle, table, roots)
    requires middle[table] == before[table] && id in roots && !Restricted(s, before, table, id)
    ensures !StillReferred(s, middle, table, id)
  {
    hide Reached, Below;
    StillReferredIff(s, middle, table, id);
    forall f, child | f in s.foreignKeys && f.parentTable == table && f.immediate && Refers(s, middle, f, id, child)
      ensures Refers(s, before, f, id, child) && child in middle[f.childTable]
    {
    }
    forall f, child | f in s.foreignKeys && f.parentTable == table && f.immediate && Refers(s, before, f, id, child)
      ensures child !in middle[f.childTable]
    {
      assert f.cascade;
      CascadeIsBelow(s, before, f, id, child);
      ReachedBelow(s, before, table, roots, table, id, f.childTable, child);
    }
  }

  lemma RootIsHeld(s: Schema, before: Tables, middle: Tables, table: Table, roots: set<RowId>, id: RowId)
    requires SchemaOk(s) && s.specs.Keys <= before.Keys && table in before && CascadeRemoved(s, before, middle, table, roots)
    requires middle[table] == before[table] && Held(s, before, table, roots, table, id)
    ensures StillReferred(s, middle, table, id)
  {
    hide Reached;
    var f, child :| f in s.foreignKeys && f.immediate && f.parentTable == table && Refers(s, before, f, id, child)
      && !Reached(s, before, table, roots, f.childTable, child);
    StillReferredIff(s, middle, table, id);
    assert Refers(s, middle, f, id, child);
  }

  lemma CascadeIsBelow(s: Schema, tables: Tables, f: ForeignKey, id: RowId, child: RowId)
    requires SchemaOk(s) && s.specs.Keys <= tables.Keys && f in s.foreignKeys && f.cascade && Refers(s, tables, f, id, child)
    ensures Below(s, tables, f.parentTable, id, f.childTable, child)
  {
  }

  lemma AllPresent(s: Schema, tables: Tables, table: Table, roots: set<RowId>, rank: map<Table, nat>, rowIds: RowIds)
    requires SchemaOk(s) && s.specs.Keys == tables.Keys && Ranked(s, rank)
    requires forall t, id :: Among(rowIds, t, id) <==> Reached(s, tables, table, roots, t, id)
    requires forall t :: t in rowIds ==> t in tables
    ensures forall t :: t in rowIds ==> rowIds[t] <= tables[t].Keys
  {
    forall t, id | t in rowIds && id in rowIds[t] ensures id in tables[t] {
      assert Among(rowIds, t, id);
      var n: nat :| n > 0 && ReachedIn(s, tables, table, roots, n, t, id);
      ReachedRank(s, tables, table, roots, n, t, id, rank);
    }
  }

  lemma NothingTrimmed(tables: Tables, rowIds: RowIds)
    ensures Trimmed(tables, tables, [], rowIds)
  {
  }

  function IdsOf(rows: seq<Row>): (ids: seq<RowId>)
    ensures |ids| == |rows| && forall i :: 0 <= i < |rows| ==> ids[i] == rows[i].id
  {
    seq(|rows|, i requires 0 <= i < |rows| => rows[i].id)
  }

  function Without(tables: Tables, table: Table, ids: seq<RowId>): Tables
    requires table in tables
  {
    tables[table := tables[table] - (set id | id in ids)]
  }

  lemma BatchRuns(s: Schema, tables: Tables, indices: map<Table, seq<IndexState>>, table: Table, ids: seq<RowId>)
    requires IndicesOk(s, tables, indices) && table in s.specs
    requires forall i, j :: 0 <= i < j < |ids| ==> ids[i] != ids[j]
    ensures var mods := Deletions(tables[table], ids);
      && AllApplicable(tables[table], mods) && Runs(s.specs[table], tables[table], mods)
      && tables[table := ApplyAll(tables[table], mods)] == Without(tables, table, ids)
  {
    DeletionsApply(s.specs[table], tables[table], ids);
  }

  /** The rows that the deletion of the roots reaches are gone, and no others. */
  ghost predicate CascadeRemoved(s: Schema, before: Tables, now: Tables, table: Table, roots: set<RowId>)
    requires SchemaOk(s) && s.specs.Keys <= before.Keys
  {
    && now.Keys == before.Keys
    && forall t, id :: t in now ==>
         (id in now[t] <==> id in before[t] && !Reached(s, before, table, roots, t, id)) && (id in now[t] ==> now[t][id] == before[t][id])
  }

  /** A row is gone exactly if it is one of the given rows, or reached from one. */
  ghost predicate RowRemoved(s: Schema, before: Tables, now: Tables, table: Table, ids: seq<RowId>, t: Table, id: RowId)
    requires SchemaOk(s) && s.specs.Keys <= before.Keys && t in now && t in before
  {
    && (id in now[t] <==> id in before[t] && !(t == table && id in ids) && !Reached(s, before, table, (set x | x in ids), t, id))
    && (id in now[t] ==> now[t][id] == before[t][id])
  }

  lemma AllRemoved(s: Schema, before: Tables, middle: Tables, table: Table, ids: seq<RowId>)
    requires SchemaOk(s) && s.specs.Keys <= before.Keys && table in middle
    requires CascadeRemoved(s, before, middle, table, (set x | x in ids))
    ensures middle.Keys == before.Keys
    ensures var now := Without(middle, table, ids);
      now.Keys == before.Keys && forall t, id :: t in now ==> RowRemoved(s, before, now, table, ids, t, id)
  {
  }

  ghost predicate Trimmed(before: Tables, now: Tables, order: seq<Table>, rowIds: RowIds) {
    && now.Keys == before.Keys
    && forall t :: t in now ==> now[t] == before[t] - (if t in order && t in rowIds then rowIds[t] else {})
  }

  lemma TrimmedNext(before: Tables, now: Tables, order: seq<Table>, i: nat, rowIds: RowIds, ids: seq<RowId>)
    requires i < |order| && order[i] in rowIds && order[i] in now && Trimmed(before, now, order[..i], rowIds)
    requires forall id :: id in ids <==> id in rowIds[order[i]]
    ensures Trimmed(before, Without(now, order[i], ids), order[..i + 1], rowIds)
  {
    assert order[..i + 1] == order[..i] + [order[i]];
    var deleted := set id | id in ids;
    assert forall id :: id in deleted <==> id in rowIds[order[i]];
    assert deleted == rowIds[order[i]];
  }

  lemma TrimmedIsRemoved(s: Schema, before: Tables, now: Tables, table: Table, roots: set<RowId>, order: seq<Table>, rowIds: RowIds)
    requires SchemaOk(s) && s.specs.Keys <= before.Keys && Trimmed(before, now, order, rowIds) && table in now
    requires (forall t :: t in order <==> t in rowIds) && table !in rowIds
    requires forall t, id :: Among(rowIds, t, id) <==> Reached(s, before, table, roots, t, id)
    ensures CascadeRemoved(s, before, now, table, roots) && now[table] == before[table]
  {
    forall t, id | t in now
      ensures (id in now[t] <==> id in before[t] && !Reached(s, before, table, roots, t, id)) && (id in now[t] ==> now[t][id] == before[t][id])
    {
      assert Among(rowIds, t, id) <==> Reached(s, before, table, roots, t, id);
    }
  }

  lemma ReachedTables(s: Schema, tables: Tables, table: Table, roots: set<RowId>, rank: map<Table, nat>, rowIds: RowIds)
    requires SchemaOk(s) && s.specs.Keys == tables.Keys && Ranked(s, rank)
    requires forall t, id :: Among(rowIds, t, id) <==> Reached(s, tables, table, roots, t, id)
    requires forall t :: t in rowIds ==> rowIds[t] != {}
    ensures forall t :: t in rowIds ==> t in tables && t != table
  {
    forall t | t in rowIds ensures t in tables && t != table {
      var id := Sets.SomeOf(rowIds[t]);
      assert Among(rowIds, t, id);
      var n: nat :| n > 0 && ReachedIn(s, tables, table, roots, n, t, id);
      ReachedRank(s, tables, table, roots, n, t, id, rank);
    }
  }

  // ---------- Rollback ----------

  lemma AllSeparate(s: Schema, diffs: map<Table, Diff>, start: Tables, now: Tables)
    requires NetChanges(s, diffs, start, now)
    ensures forall t :: t in diffs ==> Separate(diffs[t])
  {
    forall t | t in diffs ensures Separate(diffs[t]) { RepresentsSeparate(diffs[t], start[t], now[t]); }
  }

  lemma AllReversed(s: Schema, diffs: map<Table, Diff>, start: Tables, now: Tables)
    requires NetChanges(s, diffs, start, now)
    ensures forall t :: t in diffs ==> Represents(Reversed(diffs[t]), now[t], start[t])
  {
    forall t | t in diffs ensures Represents(Reversed(diffs[t]), now[t], start[t]) { ReverseRepresents(diffs[t], start[t], now[t]); }
  }

  lemma AllRestored(s: Schema, diffs: map<Table, Diff>, start: Tables, before: Tables, now: Tables, tables: seq<Table>)
    requires NetChanges(s, diffs, start, before) && now.Keys == s.specs.Keys && forall t :: t in tables <==> t in diffs
    requires forall i :: 0 <= i < |tables| ==> now[tables[i]] == start[tables[i]]
    requires forall t :: t in now && (forall i :: 0 <= i < |tables| ==> tables[i] != t) ==> now[t] == before[t]
    ensures now == start
  {
    forall t | t in start ensures now[t] == start[t] {
      if t !in diffs { assert start[t] == before[t]; }
    }
  }

  /** Indices that agree with the rows are determined by them. */
  lemma OnlyTheseIndices(s: Schema, tables: Tables, indices: map<Table, seq<IndexState>>)
    requires IndicesOk(s, tables, indices)
    ensures forall others :: IndicesOk(s, tables, others) ==> indices == others
  {
    hide IndicesOk;
    forall others | IndicesOk(s, tables, others) ensures indices == others {
      IndicesDetermined(s, tables, indices, others);
    }
  }

  lemma IndicesDetermined(s: Schema, tables: Tables, indices: map<Table, seq<IndexState>>, indices': map<Table, seq<IndexState>>)
    requires IndicesOk(s, tables, indices) && IndicesOk(s, tables, indices')
    ensures indices == indices'
  {
    forall t | t in s.specs ensures indices[t] == indices'[t] {
      assert TableOk(indices[t], s.specs[t], tables[t]) && TableOk(indices'[t], s.specs[t], tables[t]);
      forall i | 0 <= i < |s.specs[t]| ensures indices[t][i] == indices'[t][i] {
        AgreesDetermines(indices[t][i], indices'[t][i], s.specs[t][i], tables[t]);
      }
    }
  }
}
