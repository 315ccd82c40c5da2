/** Tables, their indices and the foreign keys between them. */
module Schemas {
  import opened BTreeStore
  import opened TableState
  import Sets

  type Table = nat

  /** The indices are positions in the index lists of the two tables. */
  datatype ForeignKey = ForeignKey(childTable: Table, childIndex: nat, parentTable: Table, parentIndex: nat, cascade: bool, immediate: bool)

  datatype Schema = Schema(specs: map<Table, seq<IndexSpec>>, foreignKeys: seq<ForeignKey>)

  type Tables = map<Table, Rows>

  /** What the schema builder accepts, table by table: both columns of a foreign key are indexed, the
      parent's uniquely, and cascading constraints are immediate. */
  predicate ForeignKeyOk(s: Schema, f: ForeignKey) {
    && f.childTable in s.specs && f.parentTable in s.specs
    && f.childIndex < |s.specs[f.childTable]| && s.specs[f.childTable][f.childIndex].OnColumn?
    && f.parentIndex < |s.specs[f.parentTable]| && s.specs[f.parentTable][f.parentIndex].OnColumn?
    && s.specs[f.parentTable][f.parentIndex].unique
    && (f.cascade ==> f.immediate)
  }

  predicate SchemaOk(s: Schema) {
    && (forall f :: f in s.foreignKeys ==> ForeignKeyOk(s, f))
    && (forall i, j :: 0 <= i < j < |s.foreignKeys| ==> s.foreignKeys[i] != s.foreignKeys[j])
  }

  /** The place of a foreign key in the schema. */
  function Place(s: Schema, f: ForeignKey): (i: nat)
    requires f in s.foreignKeys
    ensures i < |s.foreignKeys| && s.foreignKeys[i] == f
  {
    PlaceIn(s.foreignKeys, f)
  }

  function PlaceIn(fs: seq<ForeignKey>, f: ForeignKey): (i: nat)
    requires f in fs
    ensures i < |fs| && fs[i] == f
  {
    if fs[0] == f then 0 else PlaceIn(fs[1..], f) + 1
  }

  function ChildSpec(s: Schema, f: ForeignKey): IndexSpec
    requires ForeignKeyOk(s, f)
  {
    s.specs[f.childTable][f.childIndex]
  }

  function ParentSpec(s: Schema, f: ForeignKey): IndexSpec
    requires ForeignKeyOk(s, f)
  {
    s.specs[f.parentTable][f.parentIndex]
  }

  /** No column is both the parent column of one foreign key and the child column of another
      (error 534 of the builder). */
  ghost predicate NoChains(s: Schema)
    requires SchemaOk(s)
  {
    forall f, g :: f in s.foreignKeys && g in s.foreignKeys && g.childTable == f.parentTable ==>
      ChildSpec(s, g).column != ParentSpec(s, f).column
  }

  /** Every child table ranks below its parent table; so no foreign key refers to its own table. */
  ghost predicate Ranked(s: Schema, rank: map<Table, nat>) {
    forall f :: f in s.foreignKeys ==>
      f.childTable in rank && f.parentTable in rank && rank[f.childTable] < rank[f.parentTable]
  }

  // ---------- Referential integrity ----------

  ghost predicate HasKey(rows: Rows, spec: IndexSpec, key: Key) {
    exists id :: id in rows && KeyOf(spec, rows[id]) == key
  }

  ghost predicate Holds(s: Schema, f: ForeignKey, tables: Tables)
    requires ForeignKeyOk(s, f) && s.specs.Keys <= tables.Keys
  {
    forall id :: id in tables[f.childTable] ==>
      HasKey(tables[f.parentTable], ParentSpec(s, f), KeyOf(ChildSpec(s, f), tables[f.childTable][id]))
  }

  /** Every child key of an immediate foreign key has a parent row. */
  ghost predicate Integrity(s: Schema, tables: Tables)
    requires SchemaOk(s) && s.specs.Keys <= tables.Keys
  {
    forall f :: f in s.foreignKeys && f.immediate ==> Holds(s, f, tables)
  }

  ghost predicate IndicesOk(s: Schema, tables: Tables, indices: map<Table, seq<IndexState>>) {
    && tables.Keys == s.specs.Keys && indices.Keys == s.specs.Keys
    && forall t :: t in s.specs ==> TableOk(indices[t], s.specs[t], tables[t])
  }

  lemma IndexHasKey(m: IndexState, spec: IndexSpec, rows: Rows, key: Key)
    requires Agrees(m, spec, rows)
    ensures key in m <==> HasKey(rows, spec, key)
    ensures key in m ==> forall id :: id in m[key] <==> id in rows && KeyOf(spec, rows[id]) == key
  {
    if key in m {
      var id := Sets.SomeOf(m[key]);
      assert id in rows && KeyOf(spec, rows[id]) == key;
    }
    if HasKey(rows, spec, key) {
      var id :| id in rows && KeyOf(spec, rows[id]) == key;
      assert key in m && id in m[key];
    }
  }
}
