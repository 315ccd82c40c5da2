/** A schema that the builder accepts and an update that breaks it: the child column of a cascading
 * foreign key belongs to a second foreign key, which is not checked for cascaded rows. */
module SharedColumns {
  import opened TableState
  import opened DiffReplay
  import opened Schemas
  import opened ConstraintChecks
  import opened ReferentialIntegrity

  const CHILD: Table := 0
  const PARENT: Table := 1
  const OTHER: Table := 2

  const TO_PARENT := ForeignKey(CHILD, 0, PARENT, 0, true, true)
  const TO_OTHER := ForeignKey(CHILD, 1, OTHER, 0, false, true)

  const SPECS: map<Table, seq<IndexSpec>> :=
    map[CHILD := [OnColumn(0, false), OnColumn(0, false)], PARENT := [OnColumn(0, true)], OTHER := [OnColumn(0, true)]]

  const SCHEMA := Schema(SPECS, [TO_PARENT, TO_OTHER])

  function WithKey(id: nat, key: int): Row { Row(id, map[0 := key]) }

  const BEFORE: Tables := map[CHILD := map[1 := WithKey(1, 5)], PARENT := map[2 := WithKey(2, 5)], OTHER := map[3 := WithKey(3, 5)]]
  const MIDDLE: Tables := map[CHILD := map[1 := WithKey(1, 6)], PARENT := map[2 := WithKey(2, 5)], OTHER := map[3 := WithKey(3, 5)]]

  const UPDATES := [Modification(Just(WithKey(2, 5)), Just(WithKey(2, 6)))]
  const ITEM := CascadeUpdateItem(TO_PARENT, WithKey(2, 6))

  lemma SchemaIsPlain()
    ensures Plain(SCHEMA)
  {
  }

  lemma BeforeIsFine()
    ensures SchemaOk(SCHEMA) && UniqueTables(SCHEMA, BEFORE) && Integrity(SCHEMA, BEFORE)
    ensures Batch(BEFORE[PARENT], UPDATES) && Updates(UPDATES)
  {
    SchemaIsPlain();
    BeforeIsUnique();
    BeforeHasIntegrity();
  }

  lemma BeforeIsUnique()
    ensures UniqueTables(SCHEMA, BEFORE)
  {
    forall t | t in SPECS ensures RowsKeyed(BEFORE[t]) && AllUnique(SPECS[t], BEFORE[t]) {
      OneRow(SPECS[t], BEFORE[t], if t == CHILD then 1 else if t == PARENT then 2 else 3);
    }
  }

  lemma OneRow(specs: seq<IndexSpec>, rows: Rows, id: int)
    requires rows.Keys == {id} && rows[id].id == id
    ensures RowsKeyed(rows) && AllUnique(specs, rows)
  {
  }

  lemma BeforeHasIntegrity()
    ensures SchemaOk(SCHEMA) && SCHEMA.specs.Keys <= BEFORE.Keys && Integrity(SCHEMA, BEFORE)
  {
    hide NoChains, NoSelfReference;
    SchemaIsPlain();
    assert KeyOf(OnColumn(0, true), BEFORE[PARENT][2]) == 5 && KeyOf(OnColumn(0, true), BEFORE[OTHER][3]) == 5;
  }

  lemma OneItemCascades()
    ensures SchemaOk(SCHEMA) && AllItems(SCHEMA, BEFORE, PARENT, UPDATES, {(1, ITEM)}) && Cascaded(SCHEMA, BEFORE, MIDDLE, {(1, ITEM)})
  {
    SchemaIsPlain();
    OnlyThisItem();
    MiddleIsCascaded();
  }

  lemma OnlyThisItem()
    ensures SchemaOk(SCHEMA) && SCHEMA.specs.Keys <= BEFORE.Keys && AllItems(SCHEMA, BEFORE, PARENT, UPDATES, {(1, ITEM)})
  {
    hide NoChains, NoSelfReference;
    SchemaIsPlain();
    var m := UPDATES[0];
    assert m in UPDATES && CausedBy(SCHEMA, BEFORE, m, 1, ITEM);
    forall id, item ensures (id, item) in {(1, ITEM)} <==> Cascades(SCHEMA, BEFORE, PARENT, UPDATES, id, item) {
    }
  }

  lemma MiddleIsCascaded()
    ensures SchemaOk(SCHEMA) && Cascaded(SCHEMA, BEFORE, MIDDLE, {(1, ITEM)})
  {
    hide NoChains, NoSelfReference;
    SchemaIsPlain();
    ChildIsCascaded();
    forall t | t in BEFORE ensures TableCascaded(SCHEMA, BEFORE[t], MIDDLE[t], t, {(1, ITEM)}) {
      if t != CHILD { NotAChild(SCHEMA, BEFORE[t], t, {(1, ITEM)}); }
    }
  }

  lemma NotAChild(s: Schema, rows: Rows, t: Table, done: set<(int, CascadeUpdateItem)>)
    requires SchemaOk(s) && RowsKeyed(rows) && forall f :: f in s.foreignKeys ==> f.childTable != t
    ensures TableCascaded(s, rows, rows, t, done)
  {
  }

  lemma ChildIsCascaded()
    ensures SchemaOk(SCHEMA) && TableCascaded(SCHEMA, BEFORE[CHILD], MIDDLE[CHILD], CHILD, {(1, ITEM)})
  {
    hide NoChains, NoSelfReference;
    SchemaIsPlain();
    assert Targets(SCHEMA, ITEM, CHILD, 0);
  }

  lemma ChecksPass()
    ensures SchemaOk(SCHEMA) && AllReferred(SCHEMA, MIDDLE, PARENT, UPDATES) && AllUnreferred(SCHEMA, MIDDLE, PARENT, UPDATES, true)
  {
    SchemaIsPlain();
  }

  lemma OtherKeyIsMissing()
    ensures SchemaOk(SCHEMA) && SCHEMA.specs.Keys == BEFORE.Keys && PARENT in SCHEMA.specs && !SharedColumnsHold(SCHEMA, BEFORE, PARENT, UPDATES)
  {
    hide Integrity, Cascaded, Plain, AllReferred, AllUnreferred;
    SchemaIsPlain();
    OneItemCascades();
    assert (1, ITEM) in {(1, ITEM)} && Cascades(SCHEMA, BEFORE, PARENT, UPDATES, 1, ITEM);
    forall y | Cascades(SCHEMA, BEFORE, PARENT, UPDATES, 1, y) ensures y == ITEM {
      assert (1, y) in {(1, ITEM)};
    }
    assert LastCascade(SCHEMA, BEFORE, PARENT, UPDATES, 1, ITEM);
    assert Targets(SCHEMA, ITEM, CHILD, 0) && KeyOf(ParentSpec(SCHEMA, TO_PARENT), WithKey(2, 6)) == 6;
    assert !HasKey(BEFORE[OTHER], ParentSpec(SCHEMA, TO_OTHER), 6);
  }

  /** The update returns normally, and the child's key 6 is missing from the other parent table. */
  lemma CascadeBreaksOtherForeignKey()
    ensures UpdateRun(SCHEMA, BEFORE, MIDDLE, PARENT, UPDATES, {(1, ITEM)}) && Integrity(SCHEMA, BEFORE)
    ensures !Integrity(SCHEMA, Final(MIDDLE, PARENT, UPDATES))
  {
    SchemaIsPlain();
    BeforeIsFine();
    OneItemCascades();
    ChecksPass();
    OtherKeyIsMissing();
    hide Plain, UniqueTables, Integrity, SharedColumnsHold, AllItems, Cascaded, AllReferred, AllUnreferred, Batch, Updates, SchemaOk;
    UpdateKeepsIntegrityIff(SCHEMA, BEFORE, MIDDLE, PARENT, UPDATES, {(1, ITEM)});
  }
}
