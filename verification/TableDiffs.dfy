/** What has happened to a table since some point: net additions, modifications and deletions. */
module TableDiffs {
  import opened BTreeStore
  import opened TableState

  // ---------- Maps that remember the order of insertion ----------

  type Listing<T> = seq<(RowId, T)>

  predicate Has<T>(l: Listing<T>, id: RowId) {
    exists i :: 0 <= i < |l| && l[i].0 == id
  }

  function Find<T>(l: Listing<T>, id: RowId): (i: nat)
    requires Has(l, id)
    ensures i < |l| && l[i].0 == id
  {
    if l[0].0 == id then 0 else Find(l[1..], id) + 1
  }

  function Lookup<T>(l: Listing<T>, id: RowId): T
    requires Has(l, id)
  {
    l[Find(l, id)].1
  }

  /** An existing entry keeps its place. */
  function SetEntry<T>(l: Listing<T>, id: RowId, value: T): Listing<T> {
    if Has(l, id) then l[Find(l, id) := (id, value)] else l + [(id, value)]
  }

  function DropEntry<T>(l: Listing<T>, id: RowId): Listing<T> {
    if Has(l, id) then l[..Find(l, id)] + l[Find(l, id) + 1..] else l
  }

  ghost predicate OncePerId<T>(l: Listing<T>) {
    forall i, j :: 0 <= i < j < |l| ==> l[i].0 != l[j].0
  }

  lemma SetListing<T>(l: Listing<T>, id: RowId, value: T)
    requires OncePerId(l)
    ensures OncePerId(SetEntry(l, id, value)) && Has(SetEntry(l, id, value), id) && Lookup(SetEntry(l, id, value), id) == value
    ensures forall x :: Has(SetEntry(l, id, value), x) <==> x == id || Has(l, x)
    ensures forall x :: Has(l, x) && x != id ==> Lookup(SetEntry(l, id, value), x) == Lookup(l, x)
  {
    var s := SetEntry(l, id, value);
    var at := if Has(l, id) then Find(l, id) else |l|;
    assert s[at] == (id, value);
    assert OncePerId(s);
    forall x ensures Has(s, x) <==> x == id || Has(l, x) {
      if Has(l, x) { var i := Find(l, x); assert s[i].0 == x; }
    }
    FoundAt(s, id, at);
    forall x | Has(l, x) && x != id ensures Lookup(s, x) == Lookup(l, x) {
      assert s[Find(l, x)] == l[Find(l, x)];
      FoundAt(s, x, Find(l, x));
    }
  }

  lemma FoundAt<T>(l: Listing<T>, id: RowId, i: nat)
    requires OncePerId(l) && i < |l| && l[i].0 == id
    ensures Has(l, id) && Find(l, id) == i
  {
  }

  lemma DropListing<T>(l: Listing<T>, id: RowId)
    requires OncePerId(l)
    ensures OncePerId(DropEntry(l, id))
    ensures forall x :: Has(DropEntry(l, id), x) <==> x != id && Has(l, x)
    ensures forall x :: Has(l, x) && x != id ==> Lookup(DropEntry(l, id), x) == Lookup(l, x)
  {
    var s := DropEntry(l, id);
    if Has(l, id) {
      var at := Find(l, id);
      assert forall i :: 0 <= i < |s| ==> s[i] == l[if i < at then i else i + 1];
      assert OncePerId(s);
      forall x | Has(l, x) && x != id ensures Has(s, x) && Lookup(s, x) == Lookup(l, x) {
        var i := Find(l, x);
        assert s[if i < at then i else i - 1] == l[i];
        FoundAt(s, x, if i < at then i else i - 1);
      }
    }
  }

  // ---------- Diffs ----------

  datatype Change = Change(before: Row, after: Row)

  datatype Diff = Diff(added: Listing<Row>, modified: Listing<Change>, deleted: Listing<Row>)

  const EMPTY := Diff([], [], [])

  function AddRow(d: Diff, row: Row): Diff {
    if Has(d.deleted, row.id) then
      d.(modified := SetEntry(d.modified, row.id, Change(Lookup(d.deleted, row.id), row)), deleted := DropEntry(d.deleted, row.id))
    else
      d.(added := SetEntry(d.added, row.id, row))
  }

  function ModifyRow(d: Diff, change: Change): Diff {
    var id := change.before.id;
    if Has(d.added, id) then d.(added := SetEntry(d.added, id, change.after))
    else if Has(d.modified, id) then d.(modified := SetEntry(d.modified, id, Change(Lookup(d.modified, id).before, change.after)))
    else d.(modified := SetEntry(d.modified, id, change))
  }

  function DeleteRow(d: Diff, row: Row): Diff {
    if Has(d.added, row.id) then d.(added := DropEntry(d.added, row.id))
    else if Has(d.modified, row.id) then
      d.(modified := DropEntry(d.modified, row.id), deleted := SetEntry(d.deleted, row.id, Lookup(d.modified, row.id).before))
    else d.(deleted := SetEntry(d.deleted, row.id, row))
  }

  /** d is the net change from the rows at the start to the rows now. */
  ghost predicate Represents(d: Diff, start: Rows, now: Rows) {
    && OncePerId(d.added) && OncePerId(d.modified) && OncePerId(d.deleted)
    && RowsKeyed(start) && RowsKeyed(now)
    && forall id :: RowRepresented(d, start, now, id)
  }

  ghost predicate RowRepresented(d: Diff, start: Rows, now: Rows, id: RowId) {
    if Has(d.added, id) then
      !Has(d.modified, id) && !Has(d.deleted, id) && id !in start && id in now && now[id] == Lookup(d.added, id)
    else if Has(d.modified, id) then
      !Has(d.deleted, id) && id in start && id in now && Lookup(d.modified, id) == Change(start[id], now[id])
    else if Has(d.deleted, id) then
      id in start && id !in now && start[id] == Lookup(d.deleted, id)
    else
      (id in start <==> id in now) && (id in start && id in now ==> start[id] == now[id])
  }

  lemma EmptyRepresents(rows: Rows)
    requires RowsKeyed(rows)
    ensures Represents(EMPTY, rows, rows)
  {
  }

  lemma AddRepresents(d: Diff, start: Rows, now: Rows, row: Row)
    requires Represents(d, start, now) && row.id !in now
    ensures Represents(AddRow(d, row), start, now[row.id := row])
  {
    assert RowRepresented(d, start, now, row.id);
    if Has(d.deleted, row.id) {
      SetListing(d.modified, row.id, Change(Lookup(d.deleted, row.id), row));
      DropListing(d.deleted, row.id);
    } else {
      SetListing(d.added, row.id, row);
    }
    var d', next := AddRow(d, row), now[row.id := row];
    forall id ensures RowRepresented(d', start, next, id) {
      assert RowRepresented(d, start, now, id);
    }
  }

  lemma ModifyRepresents(d: Diff, start: Rows, now: Rows, change: Change)
    requires Represents(d, start, now) && change.before.id in now && now[change.before.id] == change.before
    requires change.after.id == change.before.id
    ensures Represents(ModifyRow(d, change), start, now[change.after.id := change.after])
  {
    var id0 := change.before.id;
    assert RowRepresented(d, start, now, id0);
    SetListing(d.added, id0, change.after);
    if Has(d.modified, id0) { SetListing(d.modified, id0, Change(Lookup(d.modified, id0).before, change.after)); }
    SetListing(d.modified, id0, change);
    var d', next := ModifyRow(d, change), now[change.after.id := change.after];
    forall id ensures RowRepresented(d', start, next, id) {
      assert RowRepresented(d, start, now, id);
    }
  }

  lemma DeleteRepresents(d: Diff, start: Rows, now: Rows, row: Row)
    requires Represents(d, start, now) && row.id in now && now[row.id] == row
    ensures Represents(DeleteRow(d, row), start, now - {row.id})
  {
    assert RowRepresented(d, start, now, row.id);
    DropListing(d.added, row.id);
    DropListing(d.modified, row.id);
    SetListing(d.deleted, row.id, row);
    if Has(d.modified, row.id) { SetListing(d.deleted, row.id, Lookup(d.modified, row.id).before); }
    var d', next := DeleteRow(d, row), now - {row.id};
    forall id ensures RowRepresented(d', start, next, id) {
      assert RowRepresented(d, start, now, id);
    }
  }

  // ---------- The class ----------

  class TableDiff {
    var added: Listing<Row>
    var modified: Listing<Change>
    var deleted: Listing<Row>

    ghost function View(): Diff
      reads this
    {
      Diff(added, modified, deleted)
    }

    constructor ()
      ensures View() == EMPTY
    {
      added, modified, deleted := [], [], [];
    }

    method Add(row: Row)
      modifies this
      ensures View() == AddRow(old(View()), row)
      ensures forall start, now :: Represents(old(View()), start, now) && row.id !in now ==> Represents(View(), start, now[row.id := row])
    {
      forall start, now | Represents(View(), start, now) && row.id !in now
        ensures Represents(AddRow(View(), row), start, now[row.id := row])
      {
        AddRepresents(View(), start, now, row);
      }
      if Has(deleted, row.id) {
        modified := SetEntry(modified, row.id, Change(Lookup(deleted, row.id), row));
        deleted := DropEntry(deleted, row.id);
      } else {
        added := SetEntry(added, row.id, row);
      }
    }

    method Modify(change: Change)
      requires change.before.id == change.after.id
      modifies this
      ensures View() == ModifyRow(old(View()), change)
      ensures forall start, now ::
        Represents(old(View()), start, now) && change.before.id in now && now[change.before.id] == change.before ==>
        Represents(View(), start, now[change.after.id := change.after])
    {
      forall start, now | Represents(View(), start, now) && change.before.id in now && now[change.before.id] == change.before
        ensures Represents(ModifyRow(View(), change), start, now[change.after.id := change.after])
      {
        ModifyRepresents(View(), start, now, change);
      }
      var id := change.before.id;
      if Has(added, id) {
        added := SetEntry(added, id, change.after);
      } else if Has(modified, id) {
        var overall := Change(Lookup(modified, id).before, change.after);
        modified := SetEntry(modified, id, overall);
      } else {
        modified := SetEntry(modified, id, change);
      }
    }

    method Delete(row: Row)
      modifies this
      ensures View() == DeleteRow(old(View()), row)
      ensures forall start, now ::
        Represents(old(View()), start, now) && row.id in now && now[row.id] == row ==> Represents(View(), start, now - {row.id})
    {
      forall start, now | Represents(View(), start, now) && row.id in now && now[row.id] == row
        ensures Represents(DeleteRow(View(), row), start, now - {row.id})
      {
        DeleteRepresents(View(), start, now, row);
      }
      if Has(added, row.id) {
        added := DropEntry(added, row.id);
      } else if Has(modified, row.id) {
        var originalRow := Lookup(modified, row.id).before;
        modified := DropEntry(modified, row.id);
        deleted := SetEntry(deleted, row.id, originalRow);
      } else {
        deleted := SetEntry(deleted, row.id, row);
      }
    }

    /** If this diff leads from start to middle and the other from middle to now, the merged diff
        leads from start to now. */
    method Merge(other: TableDiff, ghost start: Rows, ghost middle: Rows, ghost now: Rows)
      requires other != this && Represents(View(), start, middle) && Represents(other.View(), middle, now)
      modifies this
      ensures Represents(View(), start, now)
    {
      ghost var d := other.View();
      ghost var rows := middle;
      MidwayStart(d, middle, now);
      for i := 0 to |other.added|
        invariant other.View() == d && Represents(View(), start, rows) && Midway(d, middle, now, rows, i, 0, 0)
      {
        MidwayAdd(d, middle, now, rows, i);
        AddRepresents(View(), start, rows, other.added[i].1);
        rows := rows[other.added[i].1.id := other.added[i].1];
        Add(other.added[i].1);
      }
      for i := 0 to |other.modified|
        invariant other.View() == d && Represents(View(), start, rows) && Midway(d, middle, now, rows, |d.added|, i, 0)
      {
        MidwayModify(d, middle, now, rows, i);
        ModifyRepresents(View(), start, rows, other.modified[i].1);
        rows := rows[other.modified[i].1.after.id := other.modified[i].1.after];
        Modify(other.modified[i].1);
      }
      for i := 0 to |other.deleted|
        invariant other.View() == d && Represents(View(), start, rows) && Midway(d, middle, now, rows, |d.added|, |d.modified|, i)
      {
        MidwayDelete(d, middle, now, rows, i);
        DeleteRepresents(View(), start, rows, other.deleted[i].1);
        rows := rows - {other.deleted[i].1.id};
        Delete(other.deleted[i].1);
      }
      MidwayEnd(d, middle, now, rows);
    }

    /** A diff that leads back. */
    method GetReverse() returns (reverse: TableDiff)
      requires Separate(View())
      ensures fresh(reverse) && reverse.View() == Reversed(View())
    {
      reverse := new TableDiff();
      for i := 0 to |added|
        invariant fresh(reverse) && reverse.View() == Diff([], [], added[..i])
      {
        NotYet(added, i, added[i].1.id);
        reverse.Delete(added[i].1);
      }
      for i := 0 to |deleted|
        invariant fresh(reverse) && reverse.View() == Diff(deleted[..i], [], added)
      {
        NotYet(deleted, i, deleted[i].1.id);
        reverse.Add(deleted[i].1);
      }
      for i := 0 to |modified|
        invariant fresh(reverse) && reverse.View() == Diff(deleted, Swapped(modified[..i]), added)
      {
        NotYet(modified, i, modified[i].1.before.id);
        SwappedHas(modified[..i], modified[i].1.before.id);
        SwappedPush(modified, i);
        reverse.Modify(Change(modified[i].1.after, modified[i].1.before));
      }
      assert modified[..|modified|] == modified;
    }

    method GetAsModifications() returns (modifications: seq<Modification>)
      ensures modifications == AsModifications(View())
    {
      modifications := AsModifications(Diff(added, modified, deleted));
    }
  }

  function AsModifications(d: Diff): seq<Modification> {
    seq(|d.added|, i requires 0 <= i < |d.added| => Modification(Nothing, Just(d.added[i].1)))
    + seq(|d.modified|, i requires 0 <= i < |d.modified| => Modification(Just(d.modified[i].1.before), Just(d.modified[i].1.after)))
    + seq(|d.deleted|, i requires 0 <= i < |d.deleted| => Modification(Just(d.deleted[i].1), Nothing))
  }

  // ---------- Reverse ----------

  function Swapped(l: Listing<Change>): Listing<Change> {
    seq(|l|, i requires 0 <= i < |l| => (l[i].0, Change(l[i].1.after, l[i].1.before)))
  }

  function Reversed(d: Diff): Diff { Diff(d.deleted, Swapped(d.modified), d.added) }

  /** The listings are by row id and share no id, as those of a diff that represents something. */
  ghost predicate Separate(d: Diff) {
    && OncePerId(d.added) && OncePerId(d.modified) && OncePerId(d.deleted)
    && (forall i :: 0 <= i < |d.added| ==> d.added[i].0 == d.added[i].1.id && !Has(d.modified, d.added[i].0) && !Has(d.deleted, d.added[i].0))
    && (forall i :: 0 <= i < |d.modified| ==>
         d.modified[i].0 == d.modified[i].1.before.id == d.modified[i].1.after.id && !Has(d.deleted, d.modified[i].0) && !Has(d.added, d.modified[i].0))
    && (forall i :: 0 <= i < |d.deleted| ==> d.deleted[i].0 == d.deleted[i].1.id && !Has(d.added, d.deleted[i].0) && !Has(d.modified, d.deleted[i].0))
  }

  lemma RepresentsSeparate(d: Diff, start: Rows, now: Rows)
    requires Represents(d, start, now)
    ensures Separate(d)
  {
    forall i | 0 <= i < |d.added| ensures d.added[i].0 == d.added[i].1.id && !Has(d.modified, d.added[i].0) && !Has(d.deleted, d.added[i].0) {
      FoundAt(d.added, d.added[i].0, i);
      assert RowRepresented(d, start, now, d.added[i].0);
    }
    forall i | 0 <= i < |d.modified|
      ensures d.modified[i].0 == d.modified[i].1.before.id == d.modified[i].1.after.id && !Has(d.deleted, d.modified[i].0) && !Has(d.added, d.modified[i].0)
    {
      FoundAt(d.modified, d.modified[i].0, i);
      assert RowRepresented(d, start, now, d.modified[i].0);
    }
    forall i | 0 <= i < |d.deleted| ensures d.deleted[i].0 == d.deleted[i].1.id && !Has(d.added, d.deleted[i].0) && !Has(d.modified, d.deleted[i].0) {
      FoundAt(d.deleted, d.deleted[i].0, i);
      assert RowRepresented(d, start, now, d.deleted[i].0);
    }
  }

  lemma NotYet<T>(l: Listing<T>, i: nat, id: RowId)
    requires OncePerId(l) && i < |l| && l[i].0 == id
    ensures !Has(l[..i], id) && l[..i + 1] == l[..i] + [l[i]]
  {
  }

  lemma SwappedHas(l: Listing<Change>, id: RowId)
    ensures Has(Swapped(l), id) <==> Has(l, id)
  {
    if Has(l, id) { assert Swapped(l)[Find(l, id)].0 == id; }
    if Has(Swapped(l), id) { assert l[Find(Swapped(l), id)].0 == id; }
  }

  lemma SwappedPush(l: Listing<Change>, i: nat)
    requires i < |l|
    ensures Swapped(l[..i + 1]) == Swapped(l[..i]) + [(l[i].0, Change(l[i].1.after, l[i].1.before))]
  {
  }

  /** The reverse of a net change is the net change back. */
  lemma ReverseRepresents(d: Diff, start: Rows, now: Rows)
    requires Represents(d, start, now)
    ensures Represents(Reversed(d), now, start)
  {
    forall id ensures RowRepresented(Reversed(d), now, start, id) {
      assert RowRepresented(d, start, now, id);
      SwappedHas(d.modified, id);
      if Has(d.modified, id) {
        var i := Find(d.modified, id);
        FoundAt(Swapped(d.modified), id, i);
      }
    }
  }

  // ---------- Replaying a diff ----------

  /** rows is start with the first a additions, m modifications and x deletions of d applied. */
  ghost predicate Midway(d: Diff, start: Rows, now: Rows, rows: Rows, a: nat, m: nat, x: nat) {
    && a <= |d.added| && m <= |d.modified| && x <= |d.deleted|
    && forall id :: RowMidway(d, start, now, rows, a, m, x, id)
  }

  ghost predicate RowMidway(d: Diff, start: Rows, now: Rows, rows: Rows, a: nat, m: nat, x: nat, id: RowId)
    requires a <= |d.added| && m <= |d.modified| && x <= |d.deleted|
  {
    if Has(d.added, id) then
      (id in rows <==> Has(d.added[..a], id)) && (id in rows ==> id in now && rows[id] == now[id])
    else if Has(d.modified, id) then
      id in rows && id in start && id in now && rows[id] == (if Has(d.modified[..m], id) then now[id] else start[id])
    else if Has(d.deleted, id) then
      (id in rows <==> !Has(d.deleted[..x], id)) && id in start && (id in rows ==> rows[id] == start[id])
    else
      (id in rows <==> id in start) && (id in rows ==> rows[id] == start[id])
  }

  lemma MidwayStart(d: Diff, start: Rows, now: Rows)
    requires Represents(d, start, now)
    ensures Midway(d, start, now, start, 0, 0, 0)
  {
    forall id ensures RowMidway(d, start, now, start, 0, 0, 0, id) { assert RowRepresented(d, start, now, id); }
  }

  lemma HasPush<T>(l: Listing<T>, i: nat, id: RowId)
    requires i < |l|
    ensures Has(l[..i + 1], id) <==> Has(l[..i], id) || l[i].0 == id
  {
    var before, after := l[..i], l[..i + 1];
    if Has(before, id) { assert after[Find(before, id)].0 == id; }
    if l[i].0 == id { assert after[i].0 == id; }
    if Has(after, id) { var k := Find(after, id); assert k < i ==> before[k].0 == id; }
  }

  lemma HasAll<T>(l: Listing<T>)
    ensures l[..|l|] == l
  {
  }

  lemma MidwayAdd(d: Diff, start: Rows, now: Rows, rows: Rows, i: nat)
    requires Represents(d, start, now) && i < |d.added| && Midway(d, start, now, rows, i, 0, 0)
    ensures var row := d.added[i].1;
      row.id !in rows && Midway(d, start, now, rows[row.id := row], i + 1, 0, 0)
  {
    RepresentsSeparate(d, start, now);
    var row := d.added[i].1;
    NotYet(d.added, i, row.id);
    FoundAt(d.added, row.id, i);
    assert RowRepresented(d, start, now, row.id) && RowMidway(d, start, now, rows, i, 0, 0, row.id);
    var next, n := rows[row.id := row], i + 1;
    forall id ensures RowMidway(d, start, now, next, n, 0, 0, id) {
      assert RowMidway(d, start, now, rows, i, 0, 0, id);
      HasPush(d.added, i, id);
    }
  }

  lemma MidwayModify(d: Diff, start: Rows, now: Rows, rows: Rows, i: nat)
    requires Represents(d, start, now) && i < |d.modified| && Midway(d, start, now, rows, |d.added|, i, 0)
    ensures var change := d.modified[i].1;
      && change.before.id in rows && rows[change.before.id] == change.before && change.after.id == change.before.id
      && Midway(d, start, now, rows[change.after.id := change.after], |d.added|, i + 1, 0)
  {
    RepresentsSeparate(d, start, now);
    var change := d.modified[i].1;
    NotYet(d.modified, i, change.before.id);
    FoundAt(d.modified, change.before.id, i);
    assert RowRepresented(d, start, now, change.before.id) && RowMidway(d, start, now, rows, |d.added|, i, 0, change.before.id);
    var next, n := rows[change.after.id := change.after], i + 1;
    forall id ensures RowMidway(d, start, now, next, |d.added|, n, 0, id) {
      assert RowMidway(d, start, now, rows, |d.added|, i, 0, id);
      HasPush(d.modified, i, id);
    }
  }

  lemma MidwayDelete(d: Diff, start: Rows, now: Rows, rows: Rows, i: nat)
    requires Represents(d, start, now) && i < |d.deleted| && Midway(d, start, now, rows, |d.added|, |d.modified|, i)
    ensures var row := d.deleted[i].1;
      && row.id in rows && rows[row.id] == row && Midway(d, start, now, rows - {row.id}, |d.added|, |d.modified|, i + 1)
  {
    RepresentsSeparate(d, start, now);
    var row := d.deleted[i].1;
    NotYet(d.deleted, i, row.id);
    FoundAt(d.deleted, row.id, i);
    assert RowRepresented(d, start, now, row.id) && RowMidway(d, start, now, rows, |d.added|, |d.modified|, i, row.id);
    var next, n := rows - {row.id}, i + 1;
    forall id ensures RowMidway(d, start, now, next, |d.added|, |d.modified|, n, id) {
      assert RowMidway(d, start, now, rows, |d.added|, |d.modified|, i, id);
      HasPush(d.deleted, i, id);
    }
  }

  lemma MidwayEnd(d: Diff, start: Rows, now: Rows, rows: Rows)
    requires Represents(d, start, now) && Midway(d, start, now, rows, |d.added|, |d.modified|, |d.deleted|)
    ensures rows == now
  {
    HasAll(d.added);
    HasAll(d.modified);
    HasAll(d.deleted);
    forall id ensures (id in rows <==> id in now) && (id in rows && id in now ==> rows[id] == now[id]) {
      assert RowRepresented(d, start, now, id) && RowMidway(d, start, now, rows, |d.added|, |d.modified|, |d.deleted|, id);
    }
  }
}
