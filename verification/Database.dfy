/** The cached rows and the indices of all tables, kept in step. */
module InMemoryUpdater {
  import opened BTreeStore
  import opened TableState
  import opened TableDiffs
  import opened DiffReplay
  import opened Schemas

  class Database {
    const schema: Schema
    var rows: map<Table, Rows>
    var indices: map<Table, seq<IndexState>>

    /** Each index of each table holds exactly the (key, row id) pairs of the table's cached rows. */
    ghost predicate Valid()
      reads this
    {
      SchemaOk(schema) && IndicesOk(schema, rows, indices)
    }

    constructor (schema: Schema)
      requires SchemaOk(schema)
      ensures Valid() && this.schema == schema && forall t :: t in rows ==> rows[t] == map[]
    {
      this.schema := schema;
      rows := map t | t in schema.specs :: map[];
      indices := map t | t in schema.specs :: seq(|schema.specs[t]|, i => map[]);
    }

    /** Updates all indices of the table, or none. */
    method UpdateTableIndicesForRow(table: Table, mod: Modification, ghost current: Rows) returns (ok: bool)
      requires table in indices && table in schema.specs
      requires TableOk(indices[table], schema.specs[table], current) && Applicable(current, mod)
      modifies this`indices
      ensures ok <==> NoneTaken(schema.specs[table], current, mod)
      ensures ok ==> table in indices && indices == old(indices)[table := indices[table]]
      ensures ok ==> TableOk(indices[table], schema.specs[table], Apply(current, mod))
      ensures !ok ==> indices == old(indices)
    {
      ghost var was := indices[table];
      ghost var specs := schema.specs[table];
      var updatedIndices := 0;
      while updatedIndices < |schema.specs[table]|
        invariant updatedIndices <= |specs|
        invariant table in indices && indices == old(indices)[table := indices[table]] && |indices[table]| == |specs|
        invariant forall i :: 0 <= i < updatedIndices ==> UpdateIndex(was[i], specs[i], mod) == Just(indices[table][i])
        invariant forall i :: updatedIndices <= i < |specs| ==> indices[table][i] == was[i]
        decreases |specs| - updatedIndices
      {
        match UpdateIndex(indices[table][updatedIndices], schema.specs[table][updatedIndices], mod)
        case Just(next) =>
          indices := indices[table := indices[table][updatedIndices := next]];
          updatedIndices := updatedIndices + 1;
        case Nothing =>
          UpdateAgrees(was[updatedIndices], specs[updatedIndices], current, mod);
          for i := 0 to updatedIndices
            invariant table in indices && indices == old(indices)[table := indices[table]] && |indices[table]| == |specs|
            invariant forall k :: 0 <= k < |specs| && !(i <= k < updatedIndices) ==> indices[table][k] == was[k]
            invariant forall k :: i <= k < updatedIndices ==> UpdateIndex(was[k], specs[k], mod) == Just(indices[table][k])
          {
            UndoRestores(was[i], specs[i], current, mod);
            var undone := UpdateIndex(indices[table][i], schema.specs[table][i], Inverse(mod)).value;
            indices := indices[table := indices[table][i := undone]];
          }
          assert indices[table] == was;
          return false;
      }
      AllUpdated(was, indices[table], specs, current, mod);
      return true;
    }

    method UpdateIndicesForDiff(table: Table, diff: TableDiff, ghost start: Rows, ghost now: Rows) returns (ok: bool)
      requires table in indices && table in schema.specs && TableOk(indices[table], schema.specs[table], start)
      requires Represents(diff.View(), start, now) && AllUnique(schema.specs[table], now)
      modifies this`indices
      ensures ok <==> Compatible(schema.specs[table], diff.View())
      ensures ok ==> table in indices && indices == old(indices)[table := indices[table]]
      ensures ok ==> TableOk(indices[table], schema.specs[table], now)
    {
      ghost var specs := schema.specs[table];
      var modifications := diff.GetAsModifications();
      ghost var current := start;
      assert AllUnique(specs, start);
      hide TableOk, RowsKeyed, SchemaOk, Apply, Applicable, AllUnique, Represents, Compatible, NoneTaken;
      ReplaySucceedsIff(specs, diff.View(), start, now);
      assert modifications[0..] == modifications;
      for i := 0 to |modifications|
        invariant table in indices && indices == old(indices)[table := indices[table]]
        invariant TableOk(indices[table], specs, current)
        invariant AllApplicable(current, modifications[i..]) && ApplyAll(current, modifications[i..]) == now
        invariant Runs(specs, current, modifications[i..]) <==> Compatible(specs, diff.View())
      {
        RunsNext(specs, current, modifications, i);
        ghost var was := indices;
        var accepted := UpdateTableIndicesForRow(table, modifications[i], current);
        if !accepted { return false; }
        current := Apply(current, modifications[i]);
        OneTable(old(indices), was, indices, table);
      }
      assert modifications[|modifications|..] == [];
      return true;
    }

    method UpdateCacheForDiff(table: Table, diff: TableDiff, ghost now: Rows)
      requires table in rows && Represents(diff.View(), rows[table], now)
      modifies this`rows
      ensures rows == old(rows)[table := now]
    {
      ghost var d, start := diff.View(), rows[table];
      RepresentsSeparate(d, start, now);
      for i := 0 to |diff.deleted|
        invariant table in rows && rows == old(rows)[table := rows[table]]
        invariant Written(d, start, now, rows[table], i, 0, 0)
      {
        var next := rows[table] - {diff.deleted[i].0};
        DeletedNext(d, start, now, rows[table], i);
        rows := rows[table := next];
      }
      for i := 0 to |diff.added|
        invariant table in rows && rows == old(rows)[table := rows[table]]
        invariant Written(d, start, now, rows[table], |d.deleted|, i, 0)
      {
        var row := diff.added[i].1;
        AddedNext(d, start, now, rows[table], i);
        rows := rows[table := rows[table][row.id := row]];
      }
      for i := 0 to |diff.modified|
        invariant table in rows && rows == old(rows)[table := rows[table]]
        invariant Written(d, start, now, rows[table], |d.deleted|, |d.added|, i)
      {
        var row := diff.modified[i].1.after;
        ModifiedNext(d, start, now, rows[table], i);
        rows := rows[table := rows[table][row.id := row]];
      }
      AllWritten(d, start, now, rows[table]);
    }

    method UpdateTable(table: Table, diff: TableDiff, ghost now: Rows) returns (ok: bool)
      requires Valid() && table in schema.specs && table in rows
      requires Represents(diff.View(), rows[table], now) && AllUnique(schema.specs[table], now)
      modifies this
      ensures ok <==> Compatible(schema.specs[table], diff.View())
      ensures ok ==> Valid()
      ensures rows == if ok then old(rows)[table := now] else old(rows)
    {
      hide Represents, Compatible, AllUnique, TableOk, SchemaOk;
      ok := UpdateIndicesForDiff(table, diff, rows[table], now);
      if ok { UpdateCacheForDiff(table, diff, now); }
    }

    /** Applies one diff per table, to the indices and then to the cache, up to the first that is refused. */
    method Update(diffs: seq<(Table, TableDiff)>, ghost target: map<Table, Rows>) returns (ok: bool)
      requires Valid() && target.Keys == schema.specs.Keys && rows.Keys == schema.specs.Keys
      requires forall i, j :: 0 <= i < j < |diffs| ==> diffs[i].0 != diffs[j].0
      requires forall i :: 0 <= i < |diffs| ==> diffs[i].0 in schema.specs
      requires forall i :: 0 <= i < |diffs| ==> Represents(diffs[i].1.View(), rows[diffs[i].0], target[diffs[i].0])
      requires forall t :: t in schema.specs ==> AllUnique(schema.specs[t], target[t])
      modifies this
      ensures ok <==> forall i :: 0 <= i < |diffs| ==> Accepted(schema, diffs, i)
      ensures ok ==> Valid()
      ensures rows.Keys == old(rows.Keys)
      ensures forall i :: 0 <= i < |diffs| ==>
        rows[diffs[i].0] == if AllAccepted(schema, diffs, i + 1) then target[diffs[i].0] else old(rows)[diffs[i].0]
      ensures forall t :: t in rows && (forall i :: 0 <= i < |diffs| ==> diffs[i].0 != t) ==> rows[t] == old(rows[t])
    {
      hide Valid, Represents, AllUnique, Compatible;
      for n := 0 to |diffs|
        invariant Valid() && rows.Keys == schema.specs.Keys
        invariant forall i :: 0 <= i < n ==> Accepted(schema, diffs, i)
        invariant forall i :: 0 <= i < n ==> rows[diffs[i].0] == target[diffs[i].0]
        invariant forall t :: t in rows && (forall i :: 0 <= i < n ==> diffs[i].0 != t) ==> rows[t] == old(rows[t])
      {
        assert rows[diffs[n].0] == old(rows[diffs[n].0]);
        var accepted := UpdateTable(diffs[n].0, diffs[n].1, target[diffs[n].0]);
        if !accepted {
          assert !Accepted(schema, diffs, n);
          return false;
        }
      }
      return true;
    }
  }

  ghost predicate Accepted(s: Schema, diffs: seq<(Table, TableDiff)>, i: nat)
    requires i < |diffs| && diffs[i].0 in s.specs
    reads diffs[i].1
  {
    Compatible(s.specs[diffs[i].0], diffs[i].1.View())
  }

  ghost predicate AllAccepted(s: Schema, diffs: seq<(Table, TableDiff)>, n: nat)
    requires n <= |diffs| && forall i :: 0 <= i < |diffs| ==> diffs[i].0 in s.specs
    reads set i | 0 <= i < |diffs| :: diffs[i].1
  {
    forall i :: 0 <= i < n ==> Accepted(s, diffs, i)
  }

  lemma RunsNext(specs: seq<IndexSpec>, current: Rows, mods: seq<Modification>, i: nat)
    requires i < |mods| && AllApplicable(current, mods[i..])
    ensures Applicable(current, mods[i]) && AllApplicable(Apply(current, mods[i]), mods[i + 1..])
    ensures ApplyAll(current, mods[i..]) == ApplyAll(Apply(current, mods[i]), mods[i + 1..])
    ensures Runs(specs, current, mods[i..]) <==> NoneTaken(specs, current, mods[i]) && Runs(specs, Apply(current, mods[i]), mods[i + 1..])
  {
    assert mods[i..][0] == mods[i] && mods[i..][1..] == mods[i + 1..];
  }

  lemma OneTable(first: map<Table, seq<IndexState>>, was: map<Table, seq<IndexState>>, now: map<Table, seq<IndexState>>, table: Table)
    requires table in first && table in was && table in now && was == first[table := was[table]] && now == was[table := now[table]]
    ensures now == first[table := now[table]]
  {
  }

  lemma AllUpdated(was: seq<IndexState>, now: seq<IndexState>, specs: seq<IndexSpec>, current: Rows, mod: Modification)
    requires TableOk(was, specs, current) && Applicable(current, mod) && |now| == |specs|
    requires forall i :: 0 <= i < |specs| ==> UpdateIndex(was[i], specs[i], mod) == Just(now[i])
    ensures NoneTaken(specs, current, mod) && TableOk(now, specs, Apply(current, mod))
  {
    forall i | 0 <= i < |specs|
      ensures !Taken(specs[i], current, mod) && Agrees(now[i], specs[i], Apply(current, mod)) && UniqueKeys(specs[i], Apply(current, mod))
    {
      assert Agrees(was[i], specs[i], current) && UniqueKeys(specs[i], current);
      assert UpdateIndex(was[i], specs[i], mod) == Just(now[i]);
      UpdateAgrees(was[i], specs[i], current, mod);
    }
  }

  // ---------- Writing a diff to the cache ----------

  /** rows is start with the first x deletions, a additions and m modifications of d written. */
  ghost predicate Written(d: Diff, start: Rows, now: Rows, rows: Rows, x: nat, a: nat, m: nat) {
    && x <= |d.deleted| && a <= |d.added| && m <= |d.modified|
    && forall id :: WrittenSoFar(d, start, now, rows, x, a, m, id)
  }

  ghost predicate WrittenSoFar(d: Diff, start: Rows, now: Rows, rows: Rows, x: nat, a: nat, m: nat, id: RowId)
    requires x <= |d.deleted| && a <= |d.added| && m <= |d.modified|
  {
    if Has(d.deleted[..x], id) then id !in rows
    else if Has(d.added[..a], id) || Has(d.modified[..m], id) then id in now && id in rows && rows[id] == now[id]
    else (id in rows <==> id in start) && (id in rows ==> rows[id] == start[id])
  }

  lemma DeletedNext(d: Diff, start: Rows, now: Rows, rows: Rows, i: nat)
    requires Represents(d, start, now) && i < |d.deleted|
    requires Written(d, start, now, rows, i, 0, 0)
    ensures Written(d, start, now, rows - {d.deleted[i].0}, i + 1, 0, 0)
  {
    var next, n := rows - {d.deleted[i].0}, i + 1;
    forall id ensures WrittenSoFar(d, start, now, next, n, 0, 0, id) {
      assert WrittenSoFar(d, start, now, rows, i, 0, 0, id);
      HasPush(d.deleted, i, id);
    }
  }

  lemma AddedNext(d: Diff, start: Rows, now: Rows, rows: Rows, i: nat)
    requires Represents(d, start, now) && i < |d.added|
    requires Written(d, start, now, rows, |d.deleted|, i, 0)
    ensures Written(d, start, now, rows[d.added[i].1.id := d.added[i].1], |d.deleted|, i + 1, 0)
  {
    var row := d.added[i].1;
    RepresentsSeparate(d, start, now);
    FoundAt(d.added, row.id, i);
    assert RowRepresented(d, start, now, row.id);
    HasAll(d.deleted);
    var next, n := rows[row.id := row], i + 1;
    forall id ensures WrittenSoFar(d, start, now, next, |d.deleted|, n, 0, id) {
      assert WrittenSoFar(d, start, now, rows, |d.deleted|, i, 0, id);
      HasPush(d.added, i, id);
    }
  }

  lemma ModifiedNext(d: Diff, start: Rows, now: Rows, rows: Rows, i: nat)
    requires Represents(d, start, now) && i < |d.modified|
    requires Written(d, start, now, rows, |d.deleted|, |d.added|, i)
    ensures var row := d.modified[i].1.after;
      Written(d, start, now, rows[row.id := row], |d.deleted|, |d.added|, i + 1)
  {
    var row := d.modified[i].1.after;
    RepresentsSeparate(d, start, now);
    FoundAt(d.modified, row.id, i);
    assert RowRepresented(d, start, now, row.id);
    HasAll(d.deleted);
    var next, n := rows[row.id := row], i + 1;
    forall id ensures WrittenSoFar(d, start, now, next, |d.deleted|, |d.added|, n, id) {
      assert WrittenSoFar(d, start, now, rows, |d.deleted|, |d.added|, i, id);
      HasPush(d.modified, i, id);
    }
  }

  lemma AllWritten(d: Diff, start: Rows, now: Rows, rows: Rows)
    requires Represents(d, start, now)
    requires Written(d, start, now, rows, |d.deleted|, |d.added|, |d.modified|)
    ensures rows == now
  {
    HasAll(d.added);
    HasAll(d.modified);
    HasAll(d.deleted);
    forall id ensures (id in rows <==> id in now) && (id in rows && id in now ==> rows[id] == now[id]) {
      assert RowRepresented(d, start, now, id) && WrittenSoFar(d, start, now, rows, |d.deleted|, |d.added|, |d.modified|, id);
    }
  }
}
