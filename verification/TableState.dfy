/** A table's cached rows and its indices, and what one row modification does to an index.
 *
 * An index is seen here as the multimap that its contract speaks of (module BTreeUpdates). */
module TableState {
  import opened BTreeStore
  import opened BTreeUpdates
  import opened Sets

  /** The values of the columns, as non-null keys. */
  datatype Row = Row(id: RowId, values: map<nat, Key>)

  /** An index on one column, or on the row id. */
  datatype IndexSpec = OnColumn(column: nat, unique: bool) | OnRowId

  type Rows = map<RowId, Row>

  type IndexState = map<Key, set<RowId>>

  datatype Maybe<T> = Nothing | Just(value: T)

  /** The row before and after; at most one of the two is missing. */
  datatype Modification = Modification(before: Maybe<Row>, after: Maybe<Row>)

  function KeyOf(spec: IndexSpec, row: Row): Key {
    match spec
    case OnRowId => row.id
    case OnColumn(column, _) => if column in row.values then row.values[column] else 0
  }

  predicate IsUnique(spec: IndexSpec) { spec.OnRowId? || spec.unique }

  predicate RowsKeyed(rows: Rows) {
    forall id :: id in rows ==> rows[id].id == id
  }

  // ---------- When an index agrees with the rows ----------

  ghost predicate Agrees(m: IndexState, spec: IndexSpec, rows: Rows) {
    && (forall key :: key in m ==> m[key] != {})
    && (forall key, id :: (key in m && id in m[key]) <==> (id in rows && KeyOf(spec, rows[id]) == key))
  }

  ghost predicate UniqueKeys(spec: IndexSpec, rows: Rows) {
    spec.OnRowId? || spec.unique ==> forall a, b :: a in rows && b in rows && KeyOf(spec, rows[a]) == KeyOf(spec, rows[b]) ==> a == b
  }

  /** Every index agrees with the rows, and unique keys are unique. */
  ghost predicate TableOk(indices: seq<IndexState>, specs: seq<IndexSpec>, rows: Rows) {
    && RowsKeyed(rows) && |indices| == |specs|
    && (forall i :: 0 <= i < |specs| ==> Agrees(indices[i], specs[i], rows))
    && (forall i :: 0 <= i < |specs| ==> UniqueKeys(specs[i], rows))
  }

  lemma AgreesDetermines(m: IndexState, m': IndexState, spec: IndexSpec, rows: Rows)
    requires Agrees(m, spec, rows) && Agrees(m', spec, rows)
    ensures m == m'
  {
    forall key ensures key in m <==> key in m' {
      if key in m { var id := SomeOf(m[key]); assert id in rows && KeyOf(spec, rows[id]) == key; }
      if key in m' { var id := SomeOf(m'[key]); assert id in rows && KeyOf(spec, rows[id]) == key; }
    }
    forall key | key in m ensures m[key] == m'[key] {
      forall id ensures id in m[key] <==> id in m'[key] {
        assert id in m[key] <==> id in rows && KeyOf(spec, rows[id]) == key;
      }
    }
  }

  // ---------- One modification ----------

  /** updateTableIndexForRow on one index; Nothing when add() throws. */
  function UpdateIndex(m: IndexState, spec: IndexSpec, mod: Modification): Maybe<IndexState> {
    if mod.before.Nothing? && mod.after.Just? then
      AddTo(m, spec, mod.after.value)
    else if mod.before.Just? && mod.after.Just? then
      if KeyOf(spec, mod.before.value) == KeyOf(spec, mod.after.value) then Just(m)
      else
        // add() comes first: if it throws, the index is unaffected
        match AddTo(m, spec, mod.after.value)
        case Nothing => Nothing
        case Just(added) => Just(RemoveFrom(added, spec, mod.before.value))
    else if mod.before.Just? then
      Just(RemoveFrom(m, spec, mod.before.value))
    else
      Just(m)
  }

  function AddTo(m: IndexState, spec: IndexSpec, row: Row): Maybe<IndexState> {
    if PutStatus(m, KeyOf(spec, row), row.id, false, IsUnique(spec)) == Added
    then Just(Put(m, KeyOf(spec, row), row.id, false))
    else Nothing
  }

  function RemoveFrom(m: IndexState, spec: IndexSpec, row: Row): IndexState {
    Removed(m, KeyOf(spec, row), OneRow(row.id), IsUnique(spec))
  }

  function Inverse(mod: Modification): Modification { Modification(mod.after, mod.before) }

  /** The rows after the modification. */
  function Apply(rows: Rows, mod: Modification): Rows {
    if mod.after.Just? then rows[mod.after.value.id := mod.after.value]
    else if mod.before.Just? then rows - {mod.before.value.id}
    else rows
  }

  /** The modification is about the current rows. */
  ghost predicate Applicable(rows: Rows, mod: Modification) {
    && (mod.before.Just? ==> mod.before.value.id in rows && rows[mod.before.value.id] == mod.before.value)
    && (mod.after.Just? && mod.before.Just? ==> mod.after.value.id == mod.before.value.id)
    && (mod.after.Just? && mod.before.Nothing? ==> mod.after.value.id !in rows)
  }

  /** Another row holds the unique key that the modification wants. */
  ghost predicate Taken(spec: IndexSpec, rows: Rows, mod: Modification) {
    && (spec.OnRowId? || spec.unique) && mod.after.Just?
    && exists id :: id in rows && id != mod.after.value.id && KeyOf(spec, rows[id]) == KeyOf(spec, mod.after.value)
  }

  /** An index that agrees with the rows accepts a modification exactly when its unique key is free,
      and then agrees with the modified rows. */
  lemma UpdateAgrees(m: IndexState, spec: IndexSpec, rows: Rows, mod: Modification)
    requires RowsKeyed(rows) && Agrees(m, spec, rows) && UniqueKeys(spec, rows) && Applicable(rows, mod)
    ensures UpdateIndex(m, spec, mod).Just? <==> !Taken(spec, rows, mod)
    ensures spec.OnRowId? ==> UpdateIndex(m, spec, mod).Just?
    ensures UpdateIndex(m, spec, mod).Just? ==>
      Agrees(UpdateIndex(m, spec, mod).value, spec, Apply(rows, mod)) && UniqueKeys(spec, Apply(rows, mod))
  {
    if mod.after.Just? {
      var key, id := KeyOf(spec, mod.after.value), mod.after.value.id;
      if mod.before.Just? && KeyOf(spec, mod.before.value) == key {
        SameKey(m, spec, rows, mod);
      } else {
        AddAgrees(m, spec, rows, mod);
        if !Taken(spec, rows, mod) && mod.before.Just? {
          MoveAgrees(m, spec, rows, mod);
        }
      }
    } else if mod.before.Just? {
      RemoveAgrees(m, spec, rows, mod.before.value);
    }
  }

  lemma SameKey(m: IndexState, spec: IndexSpec, rows: Rows, mod: Modification)
    requires Agrees(m, spec, rows) && UniqueKeys(spec, rows) && Applicable(rows, mod) && mod.after.Just? && mod.before.Just?
    requires KeyOf(spec, mod.before.value) == KeyOf(spec, mod.after.value)
    ensures !Taken(spec, rows, mod) && Agrees(m, spec, Apply(rows, mod)) && UniqueKeys(spec, Apply(rows, mod))
  {
    var rows' := Apply(rows, mod);
    forall a ensures (a in rows <==> a in rows') && (a in rows ==> KeyOf(spec, rows'[a]) == KeyOf(spec, rows[a])) {
    }
  }

  lemma AddAgrees(m: IndexState, spec: IndexSpec, rows: Rows, mod: Modification)
    requires RowsKeyed(rows) && Agrees(m, spec, rows) && UniqueKeys(spec, rows) && Applicable(rows, mod) && mod.after.Just?
    requires mod.before.Just? ==> KeyOf(spec, mod.before.value) != KeyOf(spec, mod.after.value)
    ensures AddTo(m, spec, mod.after.value).Just? <==> !Taken(spec, rows, mod)
    ensures AddTo(m, spec, mod.after.value).Just? && mod.before.Nothing? ==>
      Agrees(AddTo(m, spec, mod.after.value).value, spec, Apply(rows, mod)) && UniqueKeys(spec, Apply(rows, mod))
  {
    var key, id := KeyOf(spec, mod.after.value), mod.after.value.id;
    if key in m {
      var holder := SomeOf(m[key]);
      assert holder in rows && KeyOf(spec, rows[holder]) == key;
      assert id !in m[key];
    }
    if Taken(spec, rows, mod) {
      var other :| other in rows && other != id && KeyOf(spec, rows[other]) == key;
      assert key in m && other in m[key];
    }
    if AddTo(m, spec, mod.after.value).Just? && mod.before.Nothing? {
      AddedAgrees(m, spec, rows, mod.after.value);
    }
  }

  lemma AddedAgrees(m: IndexState, spec: IndexSpec, rows: Rows, row: Row)
    requires Agrees(m, spec, rows) && UniqueKeys(spec, rows) && row.id !in rows
    requires IsUnique(spec) ==> KeyOf(spec, row) !in m
    ensures Agrees(Put(m, KeyOf(spec, row), row.id, false), spec, rows[row.id := row]) && UniqueKeys(spec, rows[row.id := row])
  {
    var m', rows', key := Put(m, KeyOf(spec, row), row.id, false), rows[row.id := row], KeyOf(spec, row);
    forall k, id ensures (k in m' && id in m'[k]) <==> (id in rows' && KeyOf(spec, rows'[id]) == k) {
      assert (k in m && id in m[k]) <==> (id in rows && KeyOf(spec, rows[id]) == k);
    }
    forall a | a in rows && IsUnique(spec) ensures KeyOf(spec, rows[a]) != key {
      assert KeyOf(spec, rows[a]) in m;
    }
  }

  lemma RemoveAgrees(m: IndexState, spec: IndexSpec, rows: Rows, row: Row)
    requires Agrees(m, spec, rows) && UniqueKeys(spec, rows) && row.id in rows && rows[row.id] == row
    ensures Agrees(RemoveFrom(m, spec, row), spec, rows - {row.id}) && UniqueKeys(spec, rows - {row.id})
  {
    var m', rows', key := RemoveFrom(m, spec, row), rows - {row.id}, KeyOf(spec, row);
    assert key in m && row.id in m[key];
    forall k, id ensures (k in m' && id in m'[k]) <==> (id in rows' && KeyOf(spec, rows'[id]) == k) {
      assert (k in m && id in m[k]) <==> (id in rows && KeyOf(spec, rows[id]) == k);
    }
    if key in m' && !(m[key] <= {row.id}) {
      var other := Outside(m[key], {row.id});
      assert other in m'[key];
    }
  }

  lemma MoveAgrees(m: IndexState, spec: IndexSpec, rows: Rows, mod: Modification)
    requires RowsKeyed(rows) && Agrees(m, spec, rows) && UniqueKeys(spec, rows) && Applicable(rows, mod) && mod.after.Just? && mod.before.Just?
    requires KeyOf(spec, mod.before.value) != KeyOf(spec, mod.after.value) && !Taken(spec, rows, mod)
    requires AddTo(m, spec, mod.after.value).Just?
    ensures var m' := RemoveFrom(AddTo(m, spec, mod.after.value).value, spec, mod.before.value);
      Agrees(m', spec, Apply(rows, mod)) && UniqueKeys(spec, Apply(rows, mod))
  {
    var was, now := mod.before.value, mod.after.value;
    var added := AddTo(m, spec, now).value;
    var m', rows' := RemoveFrom(added, spec, was), Apply(rows, mod);
    assert KeyOf(spec, was) in m && was.id in m[KeyOf(spec, was)];
    forall k, id ensures (k in m' && id in m'[k]) <==> (id in rows' && KeyOf(spec, rows'[id]) == k) {
      assert (k in m && id in m[k]) <==> (id in rows && KeyOf(spec, rows[id]) == k);
      if IsUnique(spec) && k == KeyOf(spec, was) && k in m {
        forall x | x in m[k] ensures x == was.id { assert x in rows && KeyOf(spec, rows[x]) == k; }
      }
    }
    forall k | k in m' ensures m'[k] != {} {
      if k == KeyOf(spec, was) && !(added[k] <= {was.id}) {
        var other := Outside(added[k], {was.id});
        assert other in m'[k];
      }
    }
    forall a, b | a in rows' && b in rows' && KeyOf(spec, rows'[a]) == KeyOf(spec, rows'[b]) && IsUnique(spec) ensures a == b {
      if a != now.id && b != now.id { assert a in rows && b in rows; }
    }
  }

  /** Undoing an accepted modification brings the index back. */
  lemma UndoRestores(m: IndexState, spec: IndexSpec, rows: Rows, mod: Modification)
    requires RowsKeyed(rows) && Agrees(m, spec, rows) && UniqueKeys(spec, rows) && Applicable(rows, mod)
    requires mod.before.Just? || mod.after.Just?
    requires UpdateIndex(m, spec, mod).Just?
    ensures UpdateIndex(UpdateIndex(m, spec, mod).value, spec, Inverse(mod)) == Just(m)
  {
    var rows' := Apply(rows, mod);
    UpdateAgrees(m, spec, rows, mod);
    var m' := UpdateIndex(m, spec, mod).value;
    assert RowsKeyed(rows') && Applicable(rows', Inverse(mod));
    assert Apply(rows', Inverse(mod)) == rows;
    assert !Taken(spec, rows', Inverse(mod)) by {
      if mod.before.Just? {
        forall id | id in rows' && id != mod.before.value.id && IsUnique(spec) ensures KeyOf(spec, rows'[id]) != KeyOf(spec, mod.before.value) {
          assert id in rows && rows[id] == rows'[id];
        }
      }
    }
    UpdateAgrees(m', spec, rows', Inverse(mod));
    AgreesDetermines(m, UpdateIndex(m', spec, Inverse(mod)).value, spec, rows);
  }
}
