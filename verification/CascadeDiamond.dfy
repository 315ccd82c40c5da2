/** A deletion that reaches a table over two routes: the second time its rows are gone, and because
 * another table refers to it, looking up their keys fails. */
module CascadeDiamond {
  import opened TableState
  import opened Schemas
  import opened CascadeReach
  import opened Journals

  const TOP: Table := 0
  const LEFT: Table := 1
  const BOTTOM: Table := 2
  const TAIL: Table := 3

  const LEFT_TO_TOP := ForeignKey(LEFT, 0, TOP, 0, true, true)
  const BOTTOM_TO_TOP := ForeignKey(BOTTOM, 0, TOP, 0, true, true)
  const BOTTOM_TO_LEFT := ForeignKey(BOTTOM, 1, LEFT, 1, true, true)
  const TAIL_TO_BOTTOM := ForeignKey(TAIL, 0, BOTTOM, 2, false, true)

  const SPECS: map<Table, seq<IndexSpec>> :=
    map[TOP := [OnColumn(0, true)],
        LEFT := [OnColumn(0, false), OnColumn(1, true)],
        BOTTOM := [OnColumn(0, false), OnColumn(1, false), OnColumn(2, true)],
        TAIL := [OnColumn(0, false)]]

  const SCHEMA := Schema(SPECS, [LEFT_TO_TOP, BOTTOM_TO_TOP, BOTTOM_TO_LEFT, TAIL_TO_BOTTOM])

  const RANK: map<Table, nat> := map[TOP := 3, LEFT := 2, BOTTOM := 1, TAIL := 0]

  /** One row in each table but the last, which is empty. */
  const ROWS: Tables :=
    map[TOP := map[1 := Row(1, map[0 := 5])],
        LEFT := map[2 := Row(2, map[0 := 5, 1 := 7])],
        BOTTOM := map[3 := Row(3, map[0 := 5, 1 := 7, 2 := 9])],
        TAIL := map[]]

  lemma SchemaIsLegal()
    ensures SchemaOk(SCHEMA) && NoChains(SCHEMA) && Ranked(SCHEMA, RANK)
  {
    SchemaIsOk();
  }

  lemma SchemaIsOk()
    ensures SchemaOk(SCHEMA)
  {
  }

  lemma RowsHaveIntegrity()
    ensures SchemaOk(SCHEMA) && SCHEMA.specs.Keys <= ROWS.Keys && Integrity(SCHEMA, ROWS)
  {
    SchemaIsLegal();
    assert KeyOf(OnColumn(0, true), ROWS[TOP][1]) == 5 && KeyOf(OnColumn(1, true), ROWS[LEFT][2]) == 7;
  }

  lemma BottomIsReachedTwice()
    ensures SchemaOk(SCHEMA) && SCHEMA.specs.Keys <= ROWS.Keys && ReferredToAndTwice(SCHEMA, ROWS, TOP, {1})
  {
    SchemaIsLegal();
    References();
    assert ReachedIn(SCHEMA, ROWS, TOP, {1}, 0, TOP, 1);
    assert ReachedIn(SCHEMA, ROWS, TOP, {1}, 1, LEFT, 2);
    assert RoundFinds(SCHEMA, ROWS, TOP, {1}, 0, TOP, BOTTOM);
    assert RoundFinds(SCHEMA, ROWS, TOP, {1}, 1, LEFT, BOTTOM);
    assert ReachedTwice(SCHEMA, ROWS, TOP, {1}, BOTTOM);
    assert TAIL_TO_BOTTOM in SCHEMA.foreignKeys;
  }

  lemma References()
    ensures SchemaOk(SCHEMA) && SCHEMA.specs.Keys <= ROWS.Keys
    ensures Below(SCHEMA, ROWS, TOP, 1, LEFT, 2) && Below(SCHEMA, ROWS, TOP, 1, BOTTOM, 3) && Below(SCHEMA, ROWS, LEFT, 2, BOTTOM, 3)
  {
    SchemaIsLegal();
    assert LEFT_TO_TOP in SCHEMA.foreignKeys && BOTTOM_TO_TOP in SCHEMA.foreignKeys && BOTTOM_TO_LEFT in SCHEMA.foreignKeys;
    assert Refers(SCHEMA, ROWS, LEFT_TO_TOP, 1, 2) && Refers(SCHEMA, ROWS, BOTTOM_TO_TOP, 1, 3) && Refers(SCHEMA, ROWS, BOTTOM_TO_LEFT, 2, 3);
  }

  const FOUND: RowIds := map[LEFT := {2}, BOTTOM := {3}]

  lemma BottomGoes()
    ensures SchemaOk(SCHEMA) && SCHEMA.specs.Keys <= ROWS.Keys && BatchOutcome(SCHEMA, ROWS, BOTTOM, {3}) == Done
  {
    SchemaIsLegal();
    forall id | id in {3} ensures !StillReferred(SCHEMA, ROWS, BOTTOM, id) {
      assert ROWS[TAIL] == map[];
    }
  }

  const WITHOUT_BOTTOM: Tables := ROWS[BOTTOM := map[]]
  const ONLY_TOP: Tables := WITHOUT_BOTTOM[LEFT := map[]]

  lemma LeftGoes()
    ensures SchemaOk(SCHEMA) && SCHEMA.specs.Keys <= WITHOUT_BOTTOM.Keys && BatchOutcome(SCHEMA, WITHOUT_BOTTOM, LEFT, {2}) == Done
  {
    SchemaIsLegal();
    assert WITHOUT_BOTTOM[BOTTOM] == map[];
  }

  lemma BottomIsMissing(tables: Tables)
    requires SCHEMA.specs.Keys <= tables.Keys && tables[BOTTOM] == map[]
    ensures SchemaOk(SCHEMA) && BatchOutcome(SCHEMA, tables, BOTTOM, {3}) == MissingRow
  {
    SchemaIsLegal();
    assert TAIL_TO_BOTTOM in SCHEMA.foreignKeys;
    assert 3 !in tables[BOTTOM];
  }

  lemma Emptied()
    ensures ROWS[BOTTOM] - FOUND[BOTTOM] == map[] && WITHOUT_BOTTOM[LEFT] - FOUND[LEFT] == map[]
  {
    assert ROWS[BOTTOM].Keys == {3} && WITHOUT_BOTTOM[LEFT] == ROWS[LEFT] && ROWS[LEFT].Keys == {2};
  }

  /** The second round finds the bottom table, the first one both tables in either order: either way
      the deletion, to which no foreign key objects, fails on a missing row. */
  lemma DeletionFails()
    ensures SchemaOk(SCHEMA) && SCHEMA.specs.Keys <= ROWS.Keys
    ensures OrderOutcome(SCHEMA, ROWS, FOUND, [BOTTOM, LEFT, BOTTOM]) == MissingRow
    ensures OrderOutcome(SCHEMA, ROWS, FOUND, [BOTTOM, BOTTOM, LEFT]) == MissingRow
  {
    BottomGoes();
    LeftGoes();
    BottomIsMissing(WITHOUT_BOTTOM);
    BottomIsMissing(ONLY_TOP);
    Emptied();
    hide BatchOutcome, SchemaOk;
    var one, two, three := [BOTTOM], [LEFT, BOTTOM], [BOTTOM, LEFT];
    assert two[1..] == one && [BOTTOM, LEFT, BOTTOM][1..] == two && [BOTTOM, BOTTOM, LEFT][1..] == three;
    assert OrderOutcome(SCHEMA, ONLY_TOP, FOUND, one) == MissingRow;
    assert OrderOutcome(SCHEMA, WITHOUT_BOTTOM, FOUND, two) == MissingRow;
    assert OrderOutcome(SCHEMA, WITHOUT_BOTTOM, FOUND, three) == MissingRow;
  }
}
