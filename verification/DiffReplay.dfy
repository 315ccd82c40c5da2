/** When a whole diff can be applied to the indices of a table without a unique key being in the way. */
module DiffReplay {
  import opened BTreeStore
  import opened TableState
  import opened TableDiffs

  ghost predicate NoneTaken(specs: seq<IndexSpec>, rows: Rows, mod: Modification) {
    forall i :: 0 <= i < |specs| ==> !Taken(specs[i], rows, mod)
  }

  ghost predicate AllUnique(specs: seq<IndexSpec>, rows: Rows) {
    forall i :: 0 <= i < |specs| ==> UniqueKeys(specs[i], rows)
  }

  /** One modification after the other, each accepted by every index. */
  ghost predicate Runs(specs: seq<IndexSpec>, rows: Rows, mods: seq<Modification>)
    decreases mods
  {
    mods == [] || (NoneTaken(specs, rows, mods[0]) && Runs(specs, Apply(rows, mods[0]), mods[1..]))
  }

  ghost function ApplyAll(rows: Rows, mods: seq<Modification>): Rows
    decreases mods
  {
    if mods == [] then rows else ApplyAll(Apply(rows, mods[0]), mods[1..])
  }

  ghost predicate AllApplicable(rows: Rows, mods: seq<Modification>)
    decreases mods
  {
    mods == [] || (Applicable(rows, mods[0]) && AllApplicable(Apply(rows, mods[0]), mods[1..]))
  }

  // ---------- The condition on the diff itself ----------

  /** The key of an added row is neither the old key of a modified row nor the key of a deleted row:
      additions are applied while those are still in the index. */
  ghost predicate AdditionFree(spec: IndexSpec, d: Diff, a: nat)
    requires a < |d.added|
  {
    IsUnique(spec) ==>
      (forall q :: 0 <= q < |d.modified| ==> KeyOf(spec, d.modified[q].1.before) != KeyOf(spec, d.added[a].1)) &&
      (forall x :: 0 <= x < |d.deleted| ==> KeyOf(spec, d.deleted[x].1) != KeyOf(spec, d.added[a].1))
  }

  /** The new key of a modified row is neither the old key of a row modified later nor the key of a
      deleted row. */
  ghost predicate ModificationFree(spec: IndexSpec, d: Diff, m: nat)
    requires m < |d.modified|
  {
    IsUnique(spec) && KeyOf(spec, d.modified[m].1.before) != KeyOf(spec, d.modified[m].1.after) ==>
      (forall q :: m < q < |d.modified| ==> KeyOf(spec, d.modified[q].1.before) != KeyOf(spec, d.modified[m].1.after)) &&
      (forall x :: 0 <= x < |d.deleted| ==> KeyOf(spec, d.deleted[x].1) != KeyOf(spec, d.modified[m].1.after))
  }

  ghost predicate AdditionOk(specs: seq<IndexSpec>, d: Diff, a: nat)
    requires a < |d.added|
  {
    forall i :: 0 <= i < |specs| ==> AdditionFree(specs[i], d, a)
  }

  ghost predicate ModificationOk(specs: seq<IndexSpec>, d: Diff, m: nat)
    requires m < |d.modified|
  {
    forall i :: 0 <= i < |specs| ==> ModificationFree(specs[i], d, m)
  }

  /** No unique key that a row of the diff gives up is taken by another row of the diff too early. */
  ghost predicate Compatible(specs: seq<IndexSpec>, d: Diff) {
    && (forall a :: 0 <= a < |d.added| ==> AdditionOk(specs, d, a))
    && (forall m :: 0 <= m < |d.modified| ==> ModificationOk(specs, d, m))
  }

  // ---------- One step ----------

  lemma UniqueAfter(specs: seq<IndexSpec>, rows: Rows, mod: Modification)
    requires RowsKeyed(rows) && AllUnique(specs, rows) && Applicable(rows, mod) && NoneTaken(specs, rows, mod)
    ensures RowsKeyed(Apply(rows, mod)) && AllUnique(specs, Apply(rows, mod))
  {
    var rows' := Apply(rows, mod);
    forall i | 0 <= i < |specs| ensures UniqueKeys(specs[i], rows') {
      assert UniqueKeys(specs[i], rows) && !Taken(specs[i], rows, mod);
    }
  }

  lemma AdditionStep(specs: seq<IndexSpec>, d: Diff, start: Rows, now: Rows, rows: Rows, a: nat)
    requires Represents(d, start, now) && AllUnique(specs, now) && a < |d.added| && Midway(d, start, now, rows, a, 0, 0)
    requires forall id :: id in rows ==> rows[id].id == id
    ensures NoneTaken(specs, rows, Modification(Nothing, Just(d.added[a].1))) <==> AdditionOk(specs, d, a)
  {
    var mod := Modification(Nothing, Just(d.added[a].1));
    forall i | 0 <= i < |specs| ensures Taken(specs[i], rows, mod) <==> !AdditionFree(specs[i], d, a) {
      AdditionTaken(specs[i], d, start, now, rows, a);
    }
    if NoneTaken(specs, rows, mod) {
      forall i | 0 <= i < |specs| ensures AdditionFree(specs[i], d, a) { assert !Taken(specs[i], rows, mod); }
    }
    if AdditionOk(specs, d, a) {
      forall i | 0 <= i < |specs| ensures !Taken(specs[i], rows, mod) { assert AdditionFree(specs[i], d, a); }
    }
  }

  lemma AdditionTaken(spec: IndexSpec, d: Diff, start: Rows, now: Rows, rows: Rows, a: nat)
    requires Represents(d, start, now) && UniqueKeys(spec, now) && a < |d.added| && Midway(d, start, now, rows, a, 0, 0)
    ensures Taken(spec, rows, Modification(Nothing, Just(d.added[a].1))) <==> !AdditionFree(spec, d, a)
  {
    RepresentsSeparate(d, start, now);
    var row := d.added[a].1;
    FoundAt(d.added, row.id, a);
    assert RowRepresented(d, start, now, row.id);
    if Taken(spec, rows, Modification(Nothing, Just(row))) {
      var id :| id in rows && id != row.id && KeyOf(spec, rows[id]) == KeyOf(spec, row);
      assert RowMidway(d, start, now, rows, a, 0, 0, id) && RowRepresented(d, start, now, id);
      if Has(d.modified, id) {
        assert d.modified[Find(d.modified, id)].1.before == rows[id];
      } else if Has(d.deleted, id) {
        assert d.deleted[Find(d.deleted, id)].1 == rows[id];
      }
    }
    if !AdditionFree(spec, d, a) {
      if q :| 0 <= q < |d.modified| && KeyOf(spec, d.modified[q].1.before) == KeyOf(spec, row) {
        var id := d.modified[q].0;
        FoundAt(d.modified, id, q);
        assert RowMidway(d, start, now, rows, a, 0, 0, id) && RowRepresented(d, start, now, id);
        assert id in rows && id != row.id;
      } else {
        var x :| 0 <= x < |d.deleted| && KeyOf(spec, d.deleted[x].1) == KeyOf(spec, row);
        var id := d.deleted[x].0;
        FoundAt(d.deleted, id, x);
        assert RowMidway(d, start, now, rows, a, 0, 0, id) && RowRepresented(d, start, now, id);
        assert id in rows && id != row.id;
      }
    }
  }

  lemma ModificationStep(specs: seq<IndexSpec>, d: Diff, start: Rows, now: Rows, rows: Rows, m: nat)
    requires Represents(d, start, now) && AllUnique(specs, now) && AllUnique(specs, rows)
    requires m < |d.modified| && Midway(d, start, now, rows, |d.added|, m, 0)
    ensures NoneTaken(specs, rows, Modification(Just(d.modified[m].1.before), Just(d.modified[m].1.after))) <==> ModificationOk(specs, d, m)
  {
    var mod := Modification(Just(d.modified[m].1.before), Just(d.modified[m].1.after));
    forall i | 0 <= i < |specs| ensures Taken(specs[i], rows, mod) <==> !ModificationFree(specs[i], d, m) {
      assert UniqueKeys(specs[i], rows) && UniqueKeys(specs[i], now);
      ModificationTaken(specs[i], d, start, now, rows, m);
    }
    if NoneTaken(specs, rows, mod) {
      forall i | 0 <= i < |specs| ensures ModificationFree(specs[i], d, m) { assert !Taken(specs[i], rows, mod); }
    }
    if ModificationOk(specs, d, m) {
      forall i | 0 <= i < |specs| ensures !Taken(specs[i], rows, mod) { assert ModificationFree(specs[i], d, m); }
    }
  }

  lemma NotEarlier<T>(l: Listing<T>, m: nat, q: nat)
    requires OncePerId(l) && m <= q < |l|
    ensures !Has(l[..m], l[q].0)
  {
    var before := l[..m];
    forall i | 0 <= i < |before| ensures before[i].0 != l[q].0 { assert before[i] == l[i]; }
  }

  lemma AmongFirst<T>(l: Listing<T>, m: nat, q: nat)
    requires m <= |l| && q < |l|
    ensures q < m ==> Has(l[..m], l[q].0)
  {
    if q < m { assert l[..m][q] == l[q]; }
  }

  lemma ModificationTaken(spec: IndexSpec, d: Diff, start: Rows, now: Rows, rows: Rows, m: nat)
    requires Represents(d, start, now) && UniqueKeys(spec, now) && UniqueKeys(spec, rows)
    requires m < |d.modified| && Midway(d, start, now, rows, |d.added|, m, 0)
    ensures Taken(spec, rows, Modification(Just(d.modified[m].1.before), Just(d.modified[m].1.after))) <==> !ModificationFree(spec, d, m)
  {
    RepresentsSeparate(d, start, now);
    HasAll(d.added);
    var change := d.modified[m].1;
    var mine := change.after.id;
    FoundAt(d.modified, mine, m);
    NotEarlier(d.modified, m, m);
    assert RowRepresented(d, start, now, mine) && RowMidway(d, start, now, rows, |d.added|, m, 0, mine);
    assert rows[mine] == change.before;
    if Taken(spec, rows, Modification(Just(change.before), Just(change.after))) {
      var id :| id in rows && id != mine && KeyOf(spec, rows[id]) == KeyOf(spec, change.after);
      assert RowMidway(d, start, now, rows, |d.added|, m, 0, id) && RowRepresented(d, start, now, id);
      if Has(d.modified, id) {
        var q := Find(d.modified, id);
        AmongFirst(d.modified, m, q);
        assert d.modified[q].1.before == start[id];
      } else if Has(d.deleted, id) {
        assert d.deleted[Find(d.deleted, id)].1 == rows[id];
      }
    }
    if !ModificationFree(spec, d, m) {
      if q :| m < q < |d.modified| && KeyOf(spec, d.modified[q].1.before) == KeyOf(spec, change.after) {
        var id := d.modified[q].0;
        FoundAt(d.modified, id, q);
        NotEarlier(d.modified, m, q);
        assert RowMidway(d, start, now, rows, |d.added|, m, 0, id) && RowRepresented(d, start, now, id);
        assert id in rows && id != mine && rows[id] == d.modified[q].1.before;
      } else {
        var x :| 0 <= x < |d.deleted| && KeyOf(spec, d.deleted[x].1) == KeyOf(spec, change.after);
        var id := d.deleted[x].0;
        FoundAt(d.deleted, id, x);
        assert RowMidway(d, start, now, rows, |d.added|, m, 0, id) && RowRepresented(d, start, now, id);
        assert id in rows && id != mine;
      }
    }
  }

  // ---------- The whole diff ----------

  /** Whether the modifications from the given stage on meet their conditions. */
  ghost predicate CompatibleFrom(specs: seq<IndexSpec>, d: Diff, a: nat, m: nat) {
    && (forall k :: a <= k < |d.added| ==> AdditionOk(specs, d, k))
    && (forall k :: m <= k < |d.modified| ==> ModificationOk(specs, d, k))
  }

  lemma Modifications(d: Diff)
    ensures |AsModifications(d)| == |d.added| + |d.modified| + |d.deleted|
    ensures forall k :: 0 <= k < |d.added| ==> AsModifications(d)[k] == Modification(Nothing, Just(d.added[k].1))
    ensures forall k :: 0 <= k < |d.modified| ==>
      AsModifications(d)[|d.added| + k] == Modification(Just(d.modified[k].1.before), Just(d.modified[k].1.after))
    ensures forall k :: 0 <= k < |d.deleted| ==> AsModifications(d)[|d.added| + |d.modified| + k] == Modification(Just(d.deleted[k].1), Nothing)
  {
  }

  lemma {:induction false} DeletesRun(specs: seq<IndexSpec>, d: Diff, start: Rows, now: Rows, rows: Rows, x: nat)
    requires Represents(d, start, now) && RowsKeyed(rows) && Midway(d, start, now, rows, |d.added|, |d.modified|, x)
    ensures var mods := AsModifications(d)[|d.added| + |d.modified| + x..];
      AllApplicable(rows, mods) && Runs(specs, rows, mods) && ApplyAll(rows, mods) == now
    decreases |d.deleted| - x
  {
    var mods := AsModifications(d);
    var k := |d.added| + |d.modified| + x;
    Modifications(d);
    if x < |d.deleted| {
      MidwayDelete(d, start, now, rows, x);
      DeletesRun(specs, d, start, now, Apply(rows, mods[k]), x + 1);
      assert mods[k..][1..] == mods[k + 1..];
    } else {
      MidwayEnd(d, start, now, rows);
      assert mods[k..] == [];
    }
  }

  lemma {:induction false} ModifiesRun(specs: seq<IndexSpec>, d: Diff, start: Rows, now: Rows, rows: Rows, m: nat)
    requires Represents(d, start, now) && AllUnique(specs, now) && AllUnique(specs, rows) && RowsKeyed(rows)
    requires Midway(d, start, now, rows, |d.added|, m, 0)
    ensures var mods := AsModifications(d)[|d.added| + m..];
      && AllApplicable(rows, mods) && ApplyAll(rows, mods) == now
      && (Runs(specs, rows, mods) <==> CompatibleFrom(specs, d, |d.added|, m))
    decreases |d.modified| - m
  {
    hide Represents, AllUnique, ModificationOk, NoneTaken, Midway, AsModifications;
    var mods := AsModifications(d);
    var k := |d.added| + m;
    Modifications(d);
    MidwayBounds(d, start, now, rows, m);
    if m < |d.modified| {
      MidwayModify(d, start, now, rows, m);
      ModificationStep(specs, d, start, now, rows, m);
      assert mods[k..][1..] == mods[k + 1..];
      ModifiesApply(specs, d, start, now, Apply(rows, mods[k]), m + 1);
      if ModificationOk(specs, d, m) {
        UniqueAfter(specs, rows, mods[k]);
        ModifiesRun(specs, d, start, now, Apply(rows, mods[k]), m + 1);
      }
    } else {
      DeletesRun(specs, d, start, now, rows, 0);
    }
  }

  lemma MidwayBounds(d: Diff, start: Rows, now: Rows, rows: Rows, m: nat)
    requires Midway(d, start, now, rows, |d.added|, m, 0)
    ensures m <= |d.modified|
  {
  }

  /** Applying does not depend on what the indices say. */
  lemma {:induction false} ModifiesApply(specs: seq<IndexSpec>, d: Diff, start: Rows, now: Rows, rows: Rows, m: nat)
    requires Represents(d, start, now) && RowsKeyed(rows) && Midway(d, start, now, rows, |d.added|, m, 0)
    ensures var mods := AsModifications(d)[|d.added| + m..];
      AllApplicable(rows, mods) && ApplyAll(rows, mods) == now
    decreases |d.modified| - m
  {
    var mods := AsModifications(d);
    var k := |d.added| + m;
    Modifications(d);
    if m < |d.modified| {
      MidwayModify(d, start, now, rows, m);
      assert mods[k..][1..] == mods[k + 1..];
      ModifiesApply(specs, d, start, now, Apply(rows, mods[k]), m + 1);
    } else {
      DeletesRun(specs, d, start, now, rows, 0);
    }
  }

  lemma {:induction false} AddsApply(specs: seq<IndexSpec>, d: Diff, start: Rows, now: Rows, rows: Rows, a: nat)
    requires Represents(d, start, now) && RowsKeyed(rows) && Midway(d, start, now, rows, a, 0, 0)
    ensures AllApplicable(rows, AsModifications(d)[a..]) && ApplyAll(rows, AsModifications(d)[a..]) == now
    decreases |d.added| - a
  {
    var mods := AsModifications(d);
    Modifications(d);
    if a < |d.added| {
      MidwayAdd(d, start, now, rows, a);
      assert mods[a..][1..] == mods[a + 1..];
      AddsApply(specs, d, start, now, Apply(rows, mods[a]), a + 1);
    } else {
      ModifiesApply(specs, d, start, now, rows, 0);
    }
  }

  lemma {:induction false} AddsRun(specs: seq<IndexSpec>, d: Diff, start: Rows, now: Rows, rows: Rows, a: nat)
    requires Represents(d, start, now) && AllUnique(specs, now) && AllUnique(specs, rows) && RowsKeyed(rows)
    requires Midway(d, start, now, rows, a, 0, 0)
    ensures Runs(specs, rows, AsModifications(d)[a..]) <==> CompatibleFrom(specs, d, a, 0)
    decreases |d.added| - a
  {
    var mods := AsModifications(d);
    Modifications(d);
    if a < |d.added| {
      MidwayAdd(d, start, now, rows, a);
      AdditionStep(specs, d, start, now, rows, a);
      assert mods[a..][1..] == mods[a + 1..];
      if AdditionOk(specs, d, a) {
        UniqueAfter(specs, rows, mods[a]);
        AddsRun(specs, d, start, now, Apply(rows, mods[a]), a + 1);
      }
    } else {
      ModifiesRun(specs, d, start, now, rows, 0);
    }
  }

  /** Applying a diff succeeds exactly when it is compatible with the unique indices, and then leads
      to the rows it stands for. */
  lemma ReplaySucceedsIff(specs: seq<IndexSpec>, d: Diff, start: Rows, now: Rows)
    requires Represents(d, start, now) && AllUnique(specs, start) && AllUnique(specs, now)
    ensures AllApplicable(start, AsModifications(d)) && ApplyAll(start, AsModifications(d)) == now
    ensures Runs(specs, start, AsModifications(d)) <==> Compatible(specs, d)
  {
    MidwayStart(d, start, now);
    assert AsModifications(d)[0..] == AsModifications(d);
    AddsApply(specs, d, start, now, start, 0);
    AddsRun(specs, d, start, now, start, 0);
  }

  // ---------- Rollback ----------

  /** No unique key that one row held at the start is held by another row now. */
  ghost predicate KeysKept(specs: seq<IndexSpec>, start: Rows, now: Rows) {
    forall i, a, b :: 0 <= i < |specs| && IsUnique(specs[i]) && a in start && b in now && a != b ==>
      KeyOf(specs[i], start[a]) != KeyOf(specs[i], now[b])
  }

  /** A change in which no unique key passes from one row to another can be rolled back. */
  lemma KeptKeysRollBack(specs: seq<IndexSpec>, d: Diff, start: Rows, now: Rows)
    requires Represents(d, start, now) && KeysKept(specs, start, now)
    ensures Compatible(specs, Reversed(d))
  {
    var r := Reversed(d);
    ReverseRepresents(d, start, now);
    RepresentsSeparate(r, now, start);
    forall a | 0 <= a < |r.added| ensures AdditionOk(specs, r, a) {
      FoundAt(r.added, r.added[a].0, a);
      assert RowRepresented(r, now, start, r.added[a].0);
      forall i | 0 <= i < |specs| ensures AdditionFree(specs[i], r, a) { KeptFree(specs[i], r, now, start, r.added[a].0); }
    }
    forall m | 0 <= m < |r.modified| ensures ModificationOk(specs, r, m) {
      FoundAt(r.modified, r.modified[m].0, m);
      assert RowRepresented(r, now, start, r.modified[m].0);
      forall i | 0 <= i < |specs| ensures ModificationFree(specs[i], r, m) { KeptFree(specs[i], r, now, start, r.modified[m].0); }
    }
  }

  lemma KeptFree(spec: IndexSpec, r: Diff, now: Rows, start: Rows, id: RowId)
    requires Represents(r, now, start) && id in start
    requires IsUnique(spec) ==> forall b :: b in now && id != b ==> KeyOf(spec, start[id]) != KeyOf(spec, now[b])
    ensures IsUnique(spec) ==> forall q :: 0 <= q < |r.modified| && r.modified[q].0 != id ==>
      KeyOf(spec, r.modified[q].1.before) != KeyOf(spec, start[id])
    ensures IsUnique(spec) ==> forall x :: 0 <= x < |r.deleted| && r.deleted[x].0 != id ==> KeyOf(spec, r.deleted[x].1) != KeyOf(spec, start[id])
  {
    forall q | 0 <= q < |r.modified| ensures r.modified[q].0 in now && r.modified[q].1.before == now[r.modified[q].0] {
      FoundAt(r.modified, r.modified[q].0, q);
      assert RowRepresented(r, now, start, r.modified[q].0);
    }
    forall x | 0 <= x < |r.deleted| ensures r.deleted[x].0 in now && r.deleted[x].1 == now[r.deleted[x].0] {
      FoundAt(r.deleted, r.deleted[x].0, x);
      assert RowRepresented(r, now, start, r.deleted[x].0);
    }
  }

  /** A row with unique key 7 is deleted and another row takes the key: the net change is fine, but
      it cannot be rolled back, because the deleted row is added again first. */
  lemma TakenKeyBlocksRollback()
    ensures var specs := [OnColumn(0, true)];
      var gone, taker := Row(1, map[0 := 7]), Row(2, map[0 := 7]);
      var start: Rows, now: Rows := map[1 := gone], map[2 := taker];
      var d := AddRow(DeleteRow(EMPTY, gone), taker);
      && AllUnique(specs, start) && AllUnique(specs, now)
      && Represents(d, start, now) && !Compatible(specs, Reversed(d))
  {
    var gone, taker := Row(1, map[0 := 7]), Row(2, map[0 := 7]);
    var start: Rows, now: Rows := map[1 := gone], map[2 := taker];
    EmptyRepresents(start);
    DeleteRepresents(EMPTY, start, start, gone);
    assert start - {1} == map[];
    AddRepresents(DeleteRow(EMPTY, gone), start, map[], taker);
    hide Represents, AddRow, DeleteRow, Compatible;
    NetOfTaking(gone, taker);
    KeyInTheWay(gone, taker);
  }

  lemma NetOfTaking(gone: Row, taker: Row)
    requires gone.id != taker.id
    ensures AddRow(DeleteRow(EMPTY, gone), taker) == Diff([(taker.id, taker)], [], [(gone.id, gone)])
  {
  }

  lemma KeyInTheWay(gone: Row, taker: Row)
    requires KeyOf(OnColumn(0, true), gone) == KeyOf(OnColumn(0, true), taker)
    ensures !Compatible([OnColumn(0, true)], Reversed(Diff([(taker.id, taker)], [], [(gone.id, gone)])))
  {
    var specs, r := [OnColumn(0, true)], Reversed(Diff([(taker.id, taker)], [], [(gone.id, gone)]));
    assert r.added == [(gone.id, gone)] && r.deleted == [(taker.id, taker)];
    assert !AdditionFree(specs[0], r, 0) by { assert KeyOf(specs[0], r.deleted[0].1) == KeyOf(specs[0], r.added[0].1); }
    assert !AdditionOk(specs, r, 0);
  }
}
