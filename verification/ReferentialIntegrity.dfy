/** Which changes of the tables keep every immediate foreign key satisfied. */
module ReferentialIntegrity {
  import opened BTreeStore
  import opened TableState
  import opened DiffReplay
  import opened Schemas
  import opened ConstraintChecks

  // ---------- Batches of modifications of one table ----------

  function RowIdOf(m: Modification): RowId {
    if m.after.Just? then m.after.value.id else if m.before.Just? then m.before.value.id else 0
  }

  /** Each modification is about the present rows, and no two are about the same row. */
  ghost predicate Batch(rows: Rows, mods: seq<Modification>) {
    && (forall m :: m in mods ==> Applicable(rows, m) && (m.before.Just? || m.after.Just?))
    && (forall i, j :: 0 <= i < j < |mods| ==> RowIdOf(mods[i]) != RowIdOf(mods[j]))
  }

  ghost predicate Updates(mods: seq<Modification>) {
    forall m :: m in mods ==> m.before.Just? && m.after.Just?
  }

  ghost predicate RowApplied(rows: Rows, mods: seq<Modification>, rows': Rows, id: RowId) {
    && ((forall m :: m in mods ==> RowIdOf(m) != id) ==> (id in rows <==> id in rows') && (id in rows ==> rows'[id] == rows[id]))
    && (forall m :: m in mods && RowIdOf(m) == id ==> (id in rows' <==> m.after.Just?) && (m.after.Just? ==> rows'[id] == m.after.value))
  }

  lemma {:induction false} BatchApplies(rows: Rows, mods: seq<Modification>)
    requires Batch(rows, mods)
    ensures AllApplicable(rows, mods)
    ensures forall id :: RowApplied(rows, mods, ApplyAll(rows, mods), id)
    decreases mods
  {
    if mods != [] {
      var m, rest, next := mods[0], mods[1..], Apply(rows, mods[0]);
      assert m in mods;
      forall x | x in rest ensures Applicable(next, x) && (x.before.Just? || x.after.Just?) {
        var i :| 0 <= i < |rest| && rest[i] == x;
        assert mods[i + 1] == x && RowIdOf(mods[0]) != RowIdOf(mods[i + 1]);
      }
      BatchApplies(next, rest);
      forall id ensures RowApplied(rows, mods, ApplyAll(rows, mods), id) {
        assert RowApplied(next, rest, ApplyAll(next, rest), id);
        assert forall x :: x in mods <==> x == m || x in rest;
        forall x | x in rest ensures RowIdOf(x) != RowIdOf(m) {
          var i :| 0 <= i < |rest| && rest[i] == x;
          assert mods[i + 1] == x;
        }
      }
    }
  }

  // ---------- Insertion and deletion ----------

  lemma InsertKeepsIntegrity(s: Schema, tables: Tables, table: Table, mods: seq<Modification>)
    requires SchemaOk(s) && tables.Keys == s.specs.Keys && table in s.specs && Integrity(s, tables)
    requires Batch(tables[table], mods) && forall m :: m in mods ==> m.before.Nothing? && m.after.Just?
    requires AllReferred(s, tables, table, mods)
    ensures Integrity(s, tables[table := ApplyAll(tables[table], mods)])
  {
    var rows' := ApplyAll(tables[table], mods);
    var tables' := tables[table := rows'];
    BatchApplies(tables[table], mods);
    forall id | id in tables[table] ensures id in rows' && rows'[id] == tables[table][id] {
      assert RowApplied(tables[table], mods, rows', id);
    }
    forall f | f in s.foreignKeys && f.immediate ensures Holds(s, f, tables') {
      forall id | id in tables'[f.childTable]
        ensures HasKey(tables'[f.parentTable], ParentSpec(s, f), KeyOf(ChildSpec(s, f), tables'[f.childTable][id]))
      {
        var key := KeyOf(ChildSpec(s, f), tables'[f.childTable][id]);
        assert HasKey(tables[f.parentTable], ParentSpec(s, f), key) by {
          if id !in tables[f.childTable] {
            assert RowApplied(tables[table], mods, rows', id);
            var m :| m in mods && RowIdOf(m) == id;
            assert Referred(s, tables, f, mods);
          } else {
            assert Holds(s, f, tables);
          }
        }
        var p :| p in tables[f.parentTable] && KeyOf(ParentSpec(s, f), tables[f.parentTable][p]) == key;
        assert p in tables'[f.parentTable];
      }
    }
  }

  /** The deletion of the rows with the given ids, as far as they are there. */
  function Deletions(rows: Rows, ids: seq<RowId>): seq<Modification> {
    seq(|ids|, i requires 0 <= i < |ids| => Modification(if ids[i] in rows then Just(rows[ids[i]]) else Nothing, Nothing))
  }

  lemma {:induction false} DeletionsApply(specs: seq<IndexSpec>, rows: Rows, ids: seq<RowId>)
    requires RowsKeyed(rows) && forall i, j :: 0 <= i < j < |ids| ==> ids[i] != ids[j]
    ensures var mods := Deletions(rows, ids);
      AllApplicable(rows, mods) && Runs(specs, rows, mods) && ApplyAll(rows, mods) == rows - (set id | id in ids)
    decreases |ids|
  {
    var mods := Deletions(rows, ids);
    if ids == [] {
      assert rows - (set id | id in ids) == rows;
    } else {
      var next, rest := Apply(rows, mods[0]), ids[1..];
      assert ids[0] in rows ==> rows[ids[0]].id == ids[0] && mods[0].before == Just(rows[ids[0]]);
      assert next == rows - {ids[0]};
      DeletionsApply(specs, next, rest);
      assert mods[1..] == Deletions(next, rest);
      assert ids == [ids[0]] + rest;
      assert rows - (set id | id in ids) == next - (set id | id in rest);
    }
  }

  lemma DeleteKeepsIntegrity(s: Schema, tables: Tables, table: Table, ids: seq<RowId>)
    requires SchemaOk(s) && tables.Keys == s.specs.Keys && table in s.specs && Integrity(s, tables)
    requires AllUnreferred(s, tables, table, Deletions(tables[table], ids), false)
    ensures Integrity(s, tables[table := tables[table] - (set id | id in ids)])
  {
    var rows' := tables[table] - (set id | id in ids);
    var tables' := tables[table := rows'];
    forall f | f in s.foreignKeys && f.immediate ensures Holds(s, f, tables') {
      forall id | id in tables'[f.childTable]
        ensures HasKey(tables'[f.parentTable], ParentSpec(s, f), KeyOf(ChildSpec(s, f), tables'[f.childTable][id]))
      {
        var key := KeyOf(ChildSpec(s, f), tables'[f.childTable][id]);
        assert Holds(s, f, tables) && id in tables[f.childTable];
        var p :| p in tables[f.parentTable] && KeyOf(ParentSpec(s, f), tables[f.parentTable][p]) == key;
        assert f.parentTable == table ==> Unreferred(s, tables, f, Deletions(tables[table], ids));
        if f.parentTable == table && p in ids {
          var i :| 0 <= i < |ids| && ids[i] == p;
          var mods := Deletions(tables[table], ids);
          assert mods[i] in mods && mods[i].before == Just(tables[table][p]);
          assert HasKey(tables[f.childTable], ChildSpec(s, f), key);
          assert false;
        }
        assert p in tables'[f.parentTable];
      }
    }
  }

  // ---------- Update ----------

  /** No foreign key refers to its own table. */
  ghost predicate NoSelfReference(s: Schema) {
    forall f :: f in s.foreignKeys ==> f.childTable != f.parentTable
  }

  ghost predicate Plain(s: Schema) {
    SchemaOk(s) && NoChains(s) && NoSelfReference(s)
  }

  /** The item is about the column of the row. */
  ghost predicate Targets(s: Schema, item: CascadeUpdateItem, t: Table, column: nat)
    requires SchemaOk(s)
  {
    item.fk in s.foreignKeys && item.fk.childTable == t && ChildSpec(s, item.fk).column == column
  }

  /** No item about the column comes from a later foreign key. */
  ghost predicate IsLast(s: Schema, done: set<(RowId, CascadeUpdateItem)>, id: RowId, item: CascadeUpdateItem, t: Table, column: nat)
    requires SchemaOk(s)
  {
    && (id, item) in done && Targets(s, item, t, column)
    && forall y :: (id, y) in done && Targets(s, y, t, column) ==> Place(s, y.fk) <= Place(s, item.fk)
  }

  lemma {:induction false} SomeLast(s: Schema, done: set<(RowId, CascadeUpdateItem)>, id: RowId, item: CascadeUpdateItem, t: Table, column: nat) returns (last: CascadeUpdateItem)
    requires SchemaOk(s) && (id, item) in done && Targets(s, item, t, column)
    ensures IsLast(s, done, id, last, t, column)
    decreases |s.foreignKeys| - Place(s, item.fk)
  {
    if y :| (id, y) in done && Targets(s, y, t, column) && Place(s, y.fk) > Place(s, item.fk) {
      last := SomeLast(s, done, id, y, t, column);
    } else {
      last := item;
    }
  }

  ghost predicate ColumnFollows(s: Schema, row: Row, column: nat, item: CascadeUpdateItem)
    requires SchemaOk(s)
  {
    item.fk in s.foreignKeys && column in row.values && row.values[column] == KeyOf(ParentSpec(s, item.fk), item.row)
  }

  /** After the items: the column holds the parent key of the last item about it, if there is one. */
  ghost predicate ColumnCascaded(s: Schema, was: Row, now: Row, t: Table, column: nat, done: set<(RowId, CascadeUpdateItem)>)
    requires SchemaOk(s)
  {
    && (forall item :: IsLast(s, done, was.id, item, t, column) ==> ColumnFollows(s, now, column, item))
    && ((forall item :: (was.id, item) in done ==> !Targets(s, item, t, column)) ==>
         (column in now.values <==> column in was.values) && (column in was.values ==> now.values[column] == was.values[column]))
  }

  ghost predicate TableCascaded(s: Schema, rows: Rows, rows': Rows, t: Table, done: set<(RowId, CascadeUpdateItem)>)
    requires SchemaOk(s)
  {
    && rows.Keys == rows'.Keys
    && forall id, column :: id in rows ==>
         rows[id].id == id && rows'[id].id == id && ColumnCascaded(s, rows[id], rows'[id], t, column, done)
  }

  ghost predicate Cascaded(s: Schema, tables: Tables, tables': Tables, done: set<(RowId, CascadeUpdateItem)>)
    requires SchemaOk(s)
  {
    && tables.Keys == tables'.Keys
    && forall t :: t in tables ==> TableCascaded(s, tables[t], tables'[t], t, done)
  }

  /** Every update that cascades, and nothing else. */
  ghost predicate AllItems(s: Schema, tables: Tables, table: Table, mods: seq<Modification>, done: set<(RowId, CascadeUpdateItem)>)
    requires SchemaOk(s) && s.specs.Keys <= tables.Keys
  {
    forall id, item :: (id, item) in done <==> Cascades(s, tables, table, mods, id, item)
  }

  ghost predicate UniqueTables(s: Schema, tables: Tables) {
    && s.specs.Keys == tables.Keys
    && forall t :: t in s.specs ==> RowsKeyed(tables[t]) && AllUnique(s.specs[t], tables[t])
  }

  /** A row follows one update at most through one foreign key: the parent key it holds is unique. */
  lemma ItemsAgree(s: Schema, tables: Tables, table: Table, mods: seq<Modification>, id: RowId, x: CascadeUpdateItem, y: CascadeUpdateItem)
    requires Plain(s) && UniqueTables(s, tables) && table in s.specs && Batch(tables[table], mods) && Updates(mods)
    requires Cascades(s, tables, table, mods, id, x) && Cascades(s, tables, table, mods, id, y)
    requires x.fk == y.fk
    ensures x == y
  {
    var m :| m in mods && CausedBy(s, tables, m, id, x);
    var n :| n in mods && CausedBy(s, tables, n, id, y);
    var spec := ParentSpec(s, x.fk);
    assert UniqueKeys(s.specs[table][x.fk.parentIndex], tables[table]);
    assert m.before.value.id == n.before.value.id;
    var i :| 0 <= i < |mods| && mods[i] == m;
    var j :| 0 <= j < |mods| && mods[j] == n;
    assert i == j;
  }

  /** Cascading leaves parent keys alone: no column is a parent and a child column. */
  lemma ParentKeysStay(s: Schema, tables: Tables, tables': Tables, table: Table, mods: seq<Modification>, done: set<(RowId, CascadeUpdateItem)>, f: ForeignKey, key: Key)
    requires Plain(s) && s.specs.Keys == tables.Keys && f in s.foreignKeys
    requires AllItems(s, tables, table, mods, done) && Cascaded(s, tables, tables', done)
    ensures HasKey(tables'[f.parentTable], ParentSpec(s, f), key) <==> HasKey(tables[f.parentTable], ParentSpec(s, f), key)
  {
    var column := ParentSpec(s, f).column;
    var rows, rows' := tables[f.parentTable], tables'[f.parentTable];
    assert TableCascaded(s, rows, rows', f.parentTable, done);
    forall id | id in rows ensures KeyOf(ParentSpec(s, f), rows'[id]) == KeyOf(ParentSpec(s, f), rows[id]) {
      assert ColumnCascaded(s, rows[id], rows'[id], f.parentTable, column, done);
      forall item | (id, item) in done ensures !Targets(s, item, f.parentTable, column) {
        assert Cascades(s, tables, table, mods, id, item);
      }
    }
  }

  /** The update that the row follows, and no later foreign key makes its column follow another. */
  ghost predicate LastCascade(s: Schema, tables: Tables, table: Table, mods: seq<Modification>, id: RowId, item: CascadeUpdateItem)
    requires SchemaOk(s) && s.specs.Keys <= tables.Keys
  {
    && Cascades(s, tables, table, mods, id, item)
    && forall y :: Cascades(s, tables, table, mods, id, y) && Targets(s, y, item.fk.childTable, ChildSpec(s, item.fk).column) ==>
         Place(s, y.fk) <= Place(s, item.fk)
  }

  lemma LastIsLast(s: Schema, tables: Tables, table: Table, mods: seq<Modification>, done: set<(RowId, CascadeUpdateItem)>, id: RowId, item: CascadeUpdateItem, t: Table, column: nat)
    requires SchemaOk(s) && s.specs.Keys <= tables.Keys && AllItems(s, tables, table, mods, done) && Targets(s, item, t, column)
    ensures IsLast(s, done, id, item, t, column) <==> LastCascade(s, tables, table, mods, id, item)
  {
    hide Cascades;
    if IsLast(s, done, id, item, t, column) {
      forall y | Cascades(s, tables, table, mods, id, y) && Targets(s, y, t, column) ensures Place(s, y.fk) <= Place(s, item.fk) {
        assert (id, y) in done;
      }
    }
    if LastCascade(s, tables, table, mods, id, item) {
      assert (id, item) in done;
      forall y | (id, y) in done && Targets(s, y, t, column) ensures Place(s, y.fk) <= Place(s, item.fk) {
        assert Cascades(s, tables, table, mods, id, y);
      }
    }
  }

  /** What the code does not check: a cascaded key must also have a parent for every other foreign key
      on the same column. */
  ghost predicate SharedColumnsHold(s: Schema, tables: Tables, table: Table, mods: seq<Modification>)
    requires SchemaOk(s) && s.specs.Keys == tables.Keys && table in s.specs
  {
    forall id, item, g :: (LastCascade(s, tables, table, mods, id, item) && g in s.foreignKeys && g.immediate && g != item.fk
      && Targets(s, item, g.childTable, ChildSpec(s, g).column)) ==>
      HasKey(if g.parentTable == table then ApplyAll(tables[table], mods) else tables[g.parentTable],
        ParentSpec(s, g), KeyOf(ParentSpec(s, item.fk), item.row))
  }

  /** The states of one update call: before, after cascading, and the updated rows. */
  ghost predicate UpdateRun(s: Schema, tables: Tables, middle: Tables, table: Table, mods: seq<Modification>, done: set<(RowId, CascadeUpdateItem)>) {
    && Plain(s) && UniqueTables(s, tables) && table in s.specs && Batch(tables[table], mods) && Updates(mods)
    && AllItems(s, tables, table, mods, done) && Cascaded(s, tables, middle, done) && middle[table] == tables[table]
    && AllReferred(s, middle, table, mods) && AllUnreferred(s, middle, table, mods, true)
  }

  ghost function Final(middle: Tables, table: Table, mods: seq<Modification>): Tables
    requires table in middle
  {
    middle[table := ApplyAll(middle[table], mods)]
  }

  /** After an update, integrity holds exactly if the cascaded keys suit the other foreign keys on
      their columns. */
  lemma UpdateKeepsIntegrityIff(s: Schema, tables: Tables, middle: Tables, table: Table, mods: seq<Modification>, done: set<(RowId, CascadeUpdateItem)>)
    requires UpdateRun(s, tables, middle, table, mods, done) && Integrity(s, tables)
    ensures Integrity(s, Final(middle, table, mods)) <==> SharedColumnsHold(s, tables, table, mods)
  {
    var after := Final(middle, table, mods);
    if SharedColumnsHold(s, tables, table, mods) {
      forall f | f in s.foreignKeys && f.immediate ensures Holds(s, f, after) {
        forall id | id in after[f.childTable]
          ensures HasKey(after[f.parentTable], ParentSpec(s, f), KeyOf(ChildSpec(s, f), after[f.childTable][id]))
        {
          if f.childTable == table {
            UpdatedRowHolds(s, tables, middle, table, mods, done, f, id);
          } else if item :| (id, item) in done && Targets(s, item, f.childTable, ChildSpec(s, f).column) {
            var last := SomeLast(s, done, id, item, f.childTable, ChildSpec(s, f).column);
            CascadedRowHolds(s, tables, middle, table, mods, done, f, id, last);
          } else {
            UntouchedRowHolds(s, tables, middle, table, mods, done, f, id);
          }
        }
      }
    }
    if Integrity(s, after) {
      forall id, item, g | LastCascade(s, tables, table, mods, id, item) && g in s.foreignKeys && g.immediate && g != item.fk
        && Targets(s, item, g.childTable, ChildSpec(s, g).column)
        ensures HasKey(if g.parentTable == table then ApplyAll(tables[table], mods) else tables[g.parentTable],
            ParentSpec(s, g), KeyOf(ParentSpec(s, item.fk), item.row))
      {
        SharedColumnHolds(s, tables, middle, table, mods, done, id, item, g);
      }
    }
  }

  lemma UpdatedRowHolds(s: Schema, tables: Tables, middle: Tables, table: Table, mods: seq<Modification>, done: set<(RowId, CascadeUpdateItem)>, f: ForeignKey, id: RowId)
    requires UpdateRun(s, tables, middle, table, mods, done) && Integrity(s, tables)
    requires f in s.foreignKeys && f.immediate && f.childTable == table && id in Final(middle, table, mods)[table]
    ensures HasKey(Final(middle, table, mods)[f.parentTable], ParentSpec(s, f), KeyOf(ChildSpec(s, f), Final(middle, table, mods)[table][id]))
  {
    var rows' := ApplyAll(tables[table], mods);
    var key := KeyOf(ChildSpec(s, f), rows'[id]);
    BatchApplies(tables[table], mods);
    assert RowApplied(tables[table], mods, rows', id);
    assert f.parentTable != table && Holds(s, f, tables);
    ParentKeysStay(s, tables, middle, table, mods, done, f, key);
    if m :| m in mods && RowIdOf(m) == id && m.before.Just? && m.after.Just? && KeyOf(ChildSpec(s, f), m.before.value) != KeyOf(ChildSpec(s, f), m.after.value) {
      assert Referred(s, middle, f, mods);
    } else {
      assert id in tables[table] && KeyOf(ChildSpec(s, f), tables[table][id]) == key by {
        if m :| m in mods && RowIdOf(m) == id { assert Applicable(tables[table], m); }
      }
    }
  }

  lemma CascadedRowHolds(s: Schema, tables: Tables, middle: Tables, table: Table, mods: seq<Modification>, done: set<(RowId, CascadeUpdateItem)>, f: ForeignKey, id: RowId, item: CascadeUpdateItem)
    requires UpdateRun(s, tables, middle, table, mods, done) && SharedColumnsHold(s, tables, table, mods)
    requires f in s.foreignKeys && f.immediate && f.childTable != table && id in middle[f.childTable]
    requires IsLast(s, done, id, item, f.childTable, ChildSpec(s, f).column)
    ensures HasKey(Final(middle, table, mods)[f.parentTable], ParentSpec(s, f), KeyOf(ChildSpec(s, f), middle[f.childTable][id]))
  {
    CascadedKey(s, tables, middle, done, f, id, item);
    LastIsLast(s, tables, table, mods, done, id, item, f.childTable, ChildSpec(s, f).column);
    var key := KeyOf(ParentSpec(s, item.fk), item.row);
    ParentKeysStay(s, tables, middle, table, mods, done, f, key);
    if item.fk == f {
      NewParent(s, tables, table, mods, id, item);
    }
  }

  lemma CascadedKey(s: Schema, tables: Tables, middle: Tables, done: set<(RowId, CascadeUpdateItem)>, f: ForeignKey, id: RowId, item: CascadeUpdateItem)
    requires SchemaOk(s) && Cascaded(s, tables, middle, done) && s.specs.Keys == tables.Keys
    requires f in s.foreignKeys && id in middle[f.childTable]
    requires IsLast(s, done, id, item, f.childTable, ChildSpec(s, f).column)
    ensures KeyOf(ChildSpec(s, f), middle[f.childTable][id]) == KeyOf(ParentSpec(s, item.fk), item.row)
  {
    var rows, rows' := tables[f.childTable], middle[f.childTable];
    assert TableCascaded(s, rows, rows', f.childTable, done);
    assert ColumnCascaded(s, rows[id], rows'[id], f.childTable, ChildSpec(s, f).column, done);
  }

  lemma NewParent(s: Schema, tables: Tables, table: Table, mods: seq<Modification>, id: RowId, item: CascadeUpdateItem)
    requires Plain(s) && s.specs.Keys == tables.Keys && table in s.specs && Batch(tables[table], mods) && Updates(mods)
    requires Cascades(s, tables, table, mods, id, item)
    ensures HasKey(ApplyAll(tables[table], mods), ParentSpec(s, item.fk), KeyOf(ParentSpec(s, item.fk), item.row))
  {
    BatchApplies(tables[table], mods);
    var m :| m in mods && CausedBy(s, tables, m, id, item);
    assert RowApplied(tables[table], mods, ApplyAll(tables[table], mods), RowIdOf(m));
  }

  lemma UntouchedRowHolds(s: Schema, tables: Tables, middle: Tables, table: Table, mods: seq<Modification>, done: set<(RowId, CascadeUpdateItem)>, f: ForeignKey, id: RowId)
    requires UpdateRun(s, tables, middle, table, mods, done) && Integrity(s, tables)
    requires f in s.foreignKeys && f.immediate && f.childTable != table && id in middle[f.childTable]
    requires forall item :: (id, item) in done ==> !Targets(s, item, f.childTable, ChildSpec(s, f).column)
    ensures HasKey(Final(middle, table, mods)[f.parentTable], ParentSpec(s, f), KeyOf(ChildSpec(s, f), middle[f.childTable][id]))
  {
    var rows, rows' := tables[f.childTable], middle[f.childTable];
    assert TableCascaded(s, rows, rows', f.childTable, done);
    assert ColumnCascaded(s, rows[id], rows'[id], f.childTable, ChildSpec(s, f).column, done);
    var key := KeyOf(ChildSpec(s, f), rows[id]);
    assert KeyOf(ChildSpec(s, f), rows'[id]) == key;
    assert Holds(s, f, tables);
    ParentKeysStay(s, tables, middle, table, mods, done, f, key);
    if f.parentTable == table {
      ParentStays(s, tables, middle, table, mods, done, f, id);
    }
  }

  lemma ParentStays(s: Schema, tables: Tables, middle: Tables, table: Table, mods: seq<Modification>, done: set<(RowId, CascadeUpdateItem)>, f: ForeignKey, id: RowId)
    requires UpdateRun(s, tables, middle, table, mods, done)
    requires f in s.foreignKeys && Holds(s, f, tables) && f.immediate && f.parentTable == table && id in middle[f.childTable] && id in tables[f.childTable]
    requires forall item :: (id, item) in done ==> !Targets(s, item, f.childTable, ChildSpec(s, f).column)
    requires KeyOf(ChildSpec(s, f), middle[f.childTable][id]) == KeyOf(ChildSpec(s, f), tables[f.childTable][id])
    ensures HasKey(ApplyAll(tables[table], mods), ParentSpec(s, f), KeyOf(ChildSpec(s, f), tables[f.childTable][id]))
  {
    var key := KeyOf(ChildSpec(s, f), tables[f.childTable][id]);
    var p :| p in tables[table] && KeyOf(ParentSpec(s, f), tables[table][p]) == key;
    var rows' := ApplyAll(tables[table], mods);
    BatchApplies(tables[table], mods);
    assert RowApplied(tables[table], mods, rows', p);
    if m :| m in mods && RowIdOf(m) == p {
      assert Applicable(tables[table], m);
      assert !f.cascade ==> Unreferred(s, middle, f, mods);
      assert KeyOf(ParentSpec(s, f), m.before.value) == KeyOf(ParentSpec(s, f), m.after.value) by {
        if KeyOf(ParentSpec(s, f), m.before.value) != KeyOf(ParentSpec(s, f), m.after.value) {
          if f.cascade {
            var item := CascadeUpdateItem(f, m.after.value);
            assert CausedBy(s, tables, m, id, item);
            assert Cascades(s, tables, table, mods, id, item);
            assert false;
          }
        }
      }
    }
    assert p in rows' && KeyOf(ParentSpec(s, f), rows'[p]) == key;
  }

  lemma SharedColumnHolds(s: Schema, tables: Tables, middle: Tables, table: Table, mods: seq<Modification>, done: set<(RowId, CascadeUpdateItem)>, id: RowId, item: CascadeUpdateItem, g: ForeignKey)
    requires UpdateRun(s, tables, middle, table, mods, done) && Integrity(s, Final(middle, table, mods))
    requires LastCascade(s, tables, table, mods, id, item) && g in s.foreignKeys && g.immediate
    requires Targets(s, item, g.childTable, ChildSpec(s, g).column)
    ensures HasKey(if g.parentTable == table then ApplyAll(tables[table], mods) else tables[g.parentTable],
        ParentSpec(s, g), KeyOf(ParentSpec(s, item.fk), item.row))
  {
    var after := Final(middle, table, mods);
    var m :| m in mods && CausedBy(s, tables, m, id, item);
    assert (id, item) in done && g.childTable != table;
    assert TableCascaded(s, tables[g.childTable], middle[g.childTable], g.childTable, done);
    LastIsLast(s, tables, table, mods, done, id, item, g.childTable, ChildSpec(s, g).column);
    CascadedKey(s, tables, middle, done, g, id, item);
    assert Holds(s, g, after) && id in after[g.childTable];
    ParentKeysStay(s, tables, middle, table, mods, done, g, KeyOf(ParentSpec(s, item.fk), item.row));
  }

  /** The items brought to the row so far come from earlier foreign keys, or the same one. */
  ghost predicate InOrder(s: Schema, done: set<(RowId, CascadeUpdateItem)>, id: RowId, item: CascadeUpdateItem) {
    && item.fk in s.foreignKeys
    && forall y :: (id, y) in done ==> y.fk in s.foreignKeys && Place(s, y.fk) <= Place(s, item.fk)
  }

  /** One more item brought to its row. */
  lemma CascadedNext(s: Schema, tables: Tables, middle: Tables, table: Table, mods: seq<Modification>, done: set<(RowId, CascadeUpdateItem)>, id: RowId, item: CascadeUpdateItem)
    requires Plain(s) && UniqueTables(s, tables) && table in s.specs && Batch(tables[table], mods) && Updates(mods)
    requires Cascaded(s, tables, middle, done) && forall x, y :: (x, y) in done ==> Cascades(s, tables, table, mods, x, y)
    requires Cascades(s, tables, table, mods, id, item) && InOrder(s, done, id, item)
    ensures var t := item.fk.childTable;
      t in middle && id in middle[t] &&
      Cascaded(s, tables, middle[t := middle[t][id := Redirected(s, middle[t][id], item)]], done + {(id, item)})
  {
    var t := item.fk.childTable;
    var m :| m in mods && CausedBy(s, tables, m, id, item);
    assert TableCascaded(s, tables[t], middle[t], t, done);
    var rows', done' := middle[t][id := Redirected(s, middle[t][id], item)], done + {(id, item)};
    assert rows'.Keys == middle[t].Keys;
    forall u | u in tables ensures TableCascaded(s, tables[u], if u == t then rows' else middle[u], u, done') {
      TableNext(s, tables, middle[u], table, mods, done, id, item, u);
    }
  }

  lemma TableNext(s: Schema, tables: Tables, rows: Rows, table: Table, mods: seq<Modification>, done: set<(RowId, CascadeUpdateItem)>, id: RowId, item: CascadeUpdateItem, u: Table)
    requires Plain(s) && UniqueTables(s, tables) && table in s.specs && Batch(tables[table], mods) && Updates(mods)
    requires u in tables && TableCascaded(s, tables[u], rows, u, done) && forall x, y :: (x, y) in done ==> Cascades(s, tables, table, mods, x, y)
    requires Cascades(s, tables, table, mods, id, item) && InOrder(s, done, id, item) && (u == item.fk.childTable ==> id in rows)
    ensures TableCascaded(s, tables[u], if u == item.fk.childTable then rows[id := Redirected(s, rows[id], item)] else rows, u, done + {(id, item)})
  {
    hide UniqueTables, Batch, Updates, NoChains, NoSelfReference, ColumnCascaded, InOrder;
    var was, now, done' := tables[u], if u == item.fk.childTable then rows[id := Redirected(s, rows[id], item)] else rows, done + {(id, item)};
    assert now.Keys == was.Keys;
    forall x | x in was ensures was[x].id == x && now[x].id == x {
      assert ColumnCascaded(s, was[x], rows[x], u, 0, done);
    }
    forall x, column: nat | x in was ensures ColumnCascaded(s, was[x], now[x], u, column, done') {
      assert ColumnCascaded(s, was[x], rows[x], u, column, done);
      ColumnNext(s, tables, table, mods, done, id, item, was[x], rows[x], u, column);
    }
    assert TableCascaded(s, was, now, u, done');
  }

  lemma ColumnNext(s: Schema, tables: Tables, table: Table, mods: seq<Modification>, done: set<(RowId, CascadeUpdateItem)>, id: RowId, item: CascadeUpdateItem, was: Row, now: Row, u: Table, column: nat)
    requires Plain(s) && UniqueTables(s, tables) && table in s.specs && Batch(tables[table], mods) && Updates(mods)
    requires forall x, y :: (x, y) in done ==> Cascades(s, tables, table, mods, x, y)
    requires Cascades(s, tables, table, mods, id, item) && item.fk in s.foreignKeys && InOrder(s, done, id, item)
    requires ColumnCascaded(s, was, now, u, column, done)
    ensures ColumnCascaded(s, was, if u == item.fk.childTable && was.id == id then Redirected(s, now, item) else now, u, column, done + {(id, item)})
  {
    hide Cascades, UniqueTables, Batch, Updates, NoChains, NoSelfReference, KeyOf, IsLast, InOrder;
    var now', done' := if u == item.fk.childTable && was.id == id then Redirected(s, now, item) else now, done + {(id, item)};
    forall y | IsLast(s, done', was.id, y, u, column) ensures ColumnFollows(s, now', column, y) {
      if was.id == id && Targets(s, item, u, column) {
        NewIsLast(s, tables, table, mods, done, id, item, u, column, y);
      } else {
        OtherStaysLast(s, done, id, item, was.id, u, column, y);
        assert ColumnFollows(s, now, column, y);
      }
    }
    if forall y :: (was.id, y) in done' ==> !Targets(s, y, u, column) {
      assert was.id == id ==> (id, item) in done';
      forall y | (was.id, y) in done ensures !Targets(s, y, u, column) { assert (was.id, y) in done'; }
    }
  }

  lemma NewIsLast(s: Schema, tables: Tables, table: Table, mods: seq<Modification>, done: set<(RowId, CascadeUpdateItem)>, id: RowId, item: CascadeUpdateItem, u: Table, column: nat, y: CascadeUpdateItem)
    requires Plain(s) && UniqueTables(s, tables) && table in s.specs && Batch(tables[table], mods) && Updates(mods)
    requires forall x, y :: (x, y) in done ==> Cascades(s, tables, table, mods, x, y)
    requires Cascades(s, tables, table, mods, id, item) && InOrder(s, done, id, item) && Targets(s, item, u, column)
    requires IsLast(s, done + {(id, item)}, id, y, u, column)
    ensures y == item
  {
    hide Cascades;
    assert (id, item) in done + {(id, item)};
    if y != item {
      assert (id, y) in done && Place(s, y.fk) == Place(s, item.fk);
      assert y.fk == s.foreignKeys[Place(s, y.fk)] == item.fk;
      ItemsAgree(s, tables, table, mods, id, item, y);
    }
  }

  lemma OtherStaysLast(s: Schema, done: set<(RowId, CascadeUpdateItem)>, id: RowId, item: CascadeUpdateItem, x: RowId, u: Table, column: nat, y: CascadeUpdateItem)
    requires SchemaOk(s) && !(x == id && Targets(s, item, u, column)) && IsLast(s, done + {(id, item)}, x, y, u, column)
    ensures IsLast(s, done, x, y, u, column)
  {
    forall z | (x, z) in done && Targets(s, z, u, column) ensures Place(s, z.fk) <= Place(s, y.fk) {
      assert (x, z) in done + {(id, item)};
    }
  }

  /** The row with its child column set to the new parent key. */
  function Redirected(s: Schema, row: Row, item: CascadeUpdateItem): Row
    requires ForeignKeyOk(s, item.fk)
  {
    row.(values := row.values[ChildSpec(s, item.fk).column := KeyOf(ParentSpec(s, item.fk), item.row)])
  }

  /** With no cascading column shared, an update keeps integrity. */
  lemma UnsharedColumnsHold(s: Schema, tables: Tables, table: Table, mods: seq<Modification>)
    requires SchemaOk(s) && s.specs.Keys == tables.Keys && table in s.specs && CascadesAlone(s)
    ensures SharedColumnsHold(s, tables, table, mods)
  {
  }

  /** The child column of a cascading foreign key has no other immediate foreign key. */
  ghost predicate CascadesAlone(s: Schema)
    requires SchemaOk(s)
  {
    forall f, g :: (f in s.foreignKeys && g in s.foreignKeys && f.cascade && g.immediate && f.childTable == g.childTable
      && ChildSpec(s, f).column == ChildSpec(s, g).column) ==> f == g
  }
}
