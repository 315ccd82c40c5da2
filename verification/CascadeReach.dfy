/** The rows that a deletion reaches through cascading foreign keys, and the tables it may touch. */
module CascadeReach {
  import opened BTreeStore
  import opened TableState
  import opened Schemas

  /** A map from tables to sets of row ids. */
  type RowIds = map<Table, set<RowId>>

  predicate Among(m: RowIds, t: Table, id: RowId) { t in m && id in m[t] }

  predicate NonEmpty(m: RowIds) { exists t :: t in m && m[t] != {} }

  function SetMany(m: RowIds, t: Table, ids: set<RowId>): (r: RowIds)
    ensures forall u, id :: Among(r, u, id) <==> Among(m, u, id) || (u == t && id in ids)
  {
    m[t := (if t in m then m[t] else {}) + ids]
  }

  function Merged(m: RowIds, n: RowIds): (r: RowIds)
    ensures forall u, id :: Among(r, u, id) <==> Among(m, u, id) || Among(n, u, id)
    ensures r.Keys == m.Keys + n.Keys
    ensures (forall u :: u in m ==> m[u] != {}) && (forall u :: u in n ==> n[u] != {}) ==> forall u :: u in r ==> r[u] != {}
  {
    map t | t in m.Keys + n.Keys :: (if t in m then m[t] else {}) + (if t in n then n[t] else {})
  }

  // ---------- Rows ----------

  ghost predicate Refers(s: Schema, tables: Tables, f: ForeignKey, parent: RowId, child: RowId)
    requires ForeignKeyOk(s, f) && s.specs.Keys <= tables.Keys
  {
    && parent in tables[f.parentTable] && child in tables[f.childTable]
    && KeyOf(ChildSpec(s, f), tables[f.childTable][child]) == KeyOf(ParentSpec(s, f), tables[f.parentTable][parent])
  }

  /** The row refers to the parent row through some cascading foreign key. */
  ghost predicate Below(s: Schema, tables: Tables, t: Table, parent: RowId, u: Table, child: RowId)
    requires SchemaOk(s) && s.specs.Keys <= tables.Keys
  {
    exists f :: f in s.foreignKeys && f.cascade && f.parentTable == t && f.childTable == u && Refers(s, tables, f, parent, child)
  }

  /** The row is n cascading references away from one of the given rows of the table. */
  ghost predicate ReachedIn(s: Schema, tables: Tables, table: Table, roots: set<RowId>, n: nat, t: Table, id: RowId)
    requires SchemaOk(s) && s.specs.Keys <= tables.Keys
    decreases n
  {
    if n == 0 then t == table && id in roots
    else exists p, x :: ReachedIn(s, tables, table, roots, n - 1, p, x) && Below(s, tables, p, x, t, id)
  }

  ghost predicate Reached(s: Schema, tables: Tables, table: Table, roots: set<RowId>, t: Table, id: RowId)
    requires SchemaOk(s) && s.specs.Keys <= tables.Keys
  {
    exists n: nat :: n > 0 && ReachedIn(s, tables, table, roots, n, t, id)
  }

  /** References only lead down, so that a chain of them is no longer than the rank of the table. */
  lemma {:induction false} ReachedRank(s: Schema, tables: Tables, table: Table, roots: set<RowId>, n: nat, t: Table, id: RowId, rank: map<Table, nat>)
    requires SchemaOk(s) && s.specs.Keys <= tables.Keys && Ranked(s, rank)
    requires n > 0 && ReachedIn(s, tables, table, roots, n, t, id)
    ensures t in rank && table in rank && rank[t] + n <= rank[table]
    ensures id in tables[t]
  {
    var p, x :| ReachedIn(s, tables, table, roots, n - 1, p, x) && Below(s, tables, p, x, t, id);
    if n > 1 {
      ReachedRank(s, tables, table, roots, n - 1, p, x, rank);
    }
  }

  lemma {:induction false} NothingFurther(s: Schema, tables: Tables, table: Table, roots: set<RowId>, n: nat, k: nat)
    requires SchemaOk(s) && s.specs.Keys <= tables.Keys && n <= k
    requires forall t, id :: !ReachedIn(s, tables, table, roots, n, t, id)
    ensures forall t, id :: !ReachedIn(s, tables, table, roots, k, t, id)
    decreases k
  {
    if n < k {
      NothingFurther(s, tables, table, roots, n, k - 1);
    }
  }

  // ---------- How often a table is reached ----------

  /** In round n some row of table p leads to a row of table t. */
  ghost predicate RoundFinds(s: Schema, tables: Tables, table: Table, roots: set<RowId>, n: nat, p: Table, t: Table)
    requires SchemaOk(s) && s.specs.Keys <= tables.Keys
  {
    exists x, id :: ReachedIn(s, tables, table, roots, n, p, x) && Below(s, tables, p, x, t, id)
  }

  /** The table is reached in two rounds, or in one round from two tables. */
  ghost predicate ReachedTwice(s: Schema, tables: Tables, table: Table, roots: set<RowId>, t: Table)
    requires SchemaOk(s) && s.specs.Keys <= tables.Keys
  {
    exists n: nat, p, n': nat, p' :: (n != n' || p != p') && RoundFinds(s, tables, table, roots, n, p, t) && RoundFinds(s, tables, table, roots, n', p', t)
  }

  ghost predicate Twice<A>(order: seq<A>, t: A) {
    exists i, j :: 0 <= i < j < |order| && order[i] == t && order[j] == t
  }

  lemma TwiceConcat<A>(a: seq<A>, b: seq<A>, t: A)
    ensures Twice(a + b, t) <==> Twice(a, t) || Twice(b, t) || (t in a && t in b)
  {
    var c := a + b;
    if Twice(c, t) {
      var i, j :| 0 <= i < j < |c| && c[i] == t && c[j] == t;
      if j < |a| { assert a[i] == t && a[j] == t; }
      else if i >= |a| { assert b[i - |a|] == t && b[j - |a|] == t; }
      else { assert a[i] == t && b[j - |a|] == t; }
    }
    if Twice(a, t) {
      var i, j :| 0 <= i < j < |a| && a[i] == t && a[j] == t;
      assert c[i] == t && c[j] == t;
    }
    if Twice(b, t) {
      var i, j :| 0 <= i < j < |b| && b[i] == t && b[j] == t;
      assert c[|a| + i] == t && c[|a| + j] == t;
    }
    if t in a && t in b {
      var i :| 0 <= i < |a| && a[i] == t;
      var j :| 0 <= j < |b| && b[j] == t;
      assert c[i] == t && c[|a| + j] == t;
    }
  }

  // ---------- Tables ----------

  ghost predicate IsChild(s: Schema, t: Table, u: Table, cascade: bool) {
    exists f :: f in s.foreignKeys && f.parentTable == t && f.childTable == u && (cascade ==> f.cascade)
  }

  /** n cascading foreign keys lead from the table down to u. */
  ghost predicate LeadsTo(s: Schema, table: Table, n: nat, u: Table)
    decreases n
  {
    if n == 0 then u == table
    else exists p :: LeadsTo(s, table, n - 1, p) && IsChild(s, p, u, true)
  }

  lemma {:induction false} LeadsOn(s: Schema, table: Table, child: Table, n: nat, u: Table)
    requires IsChild(s, table, child, true) && LeadsTo(s, child, n, u)
    ensures LeadsTo(s, table, n + 1, u)
    decreases n
  {
    if n == 0 {
      assert LeadsTo(s, table, 0, table);
    } else {
      var p :| LeadsTo(s, child, n - 1, p) && IsChild(s, p, u, true);
      LeadsOn(s, table, child, n - 1, p);
    }
  }

  lemma {:induction false} FirstStep(s: Schema, table: Table, n: nat, u: Table) returns (child: Table)
    requires n > 0 && LeadsTo(s, table, n, u)
    ensures IsChild(s, table, child, true) && LeadsTo(s, child, n - 1, u)
    decreases n
  {
    var p :| LeadsTo(s, table, n - 1, p) && IsChild(s, p, u, true);
    if n == 1 {
      child := u;
    } else {
      child := FirstStep(s, table, n - 1, p);
    }
  }

  /** A table that a deletion must lock: a child of some table that cascading leads to. */
  ghost predicate NeededBy(s: Schema, table: Table, u: Table) {
    exists n: nat, p :: LeadsTo(s, table, n, p) && IsChild(s, p, u, false)
  }

  lemma NeededByChild(s: Schema, table: Table, child: Table, u: Table)
    requires IsChild(s, table, child, true) && NeededBy(s, child, u)
    ensures NeededBy(s, table, u)
  {
    var n: nat, p :| LeadsTo(s, child, n, p) && IsChild(s, p, u, false);
    LeadsOn(s, table, child, n, p);
  }

  lemma NeededSplits(s: Schema, table: Table, u: Table)
    requires NeededBy(s, table, u)
    ensures IsChild(s, table, u, false) || exists child :: IsChild(s, table, child, true) && NeededBy(s, child, u)
  {
    var n: nat, p :| LeadsTo(s, table, n, p) && IsChild(s, p, u, false);
    if n > 0 {
      var child := FirstStep(s, table, n, p);
      assert NeededBy(s, child, u);
    }
  }

  /** Two different routes of cascading foreign keys lead down to the table. */
  ghost predicate TwoRoutes(s: Schema, table: Table, t: Table) {
    exists n: nat, p, n': nat, p' :: (n != n' || p != p')
      && LeadsTo(s, table, n, p) && IsChild(s, p, t, true) && LeadsTo(s, table, n', p') && IsChild(s, p', t, true)
  }

  /** Only a table with two routes can be reached twice. */
  lemma ReachedTwiceNeedsTwoRoutes(s: Schema, tables: Tables, table: Table, roots: set<RowId>, t: Table)
    requires SchemaOk(s) && s.specs.Keys <= tables.Keys && ReachedTwice(s, tables, table, roots, t)
    ensures TwoRoutes(s, table, t)
  {
    var n: nat, p, n': nat, p' :| (n != n' || p != p') && RoundFinds(s, tables, table, roots, n, p, t) && RoundFinds(s, tables, table, roots, n', p', t);
    FoundRoute(s, tables, table, roots, n, p, t);
    FoundRoute(s, tables, table, roots, n', p', t);
  }

  lemma FoundRoute(s: Schema, tables: Tables, table: Table, roots: set<RowId>, n: nat, p: Table, t: Table)
    requires SchemaOk(s) && s.specs.Keys <= tables.Keys && RoundFinds(s, tables, table, roots, n, p, t)
    ensures LeadsTo(s, table, n, p) && IsChild(s, p, t, true)
  {
    var x, id :| ReachedIn(s, tables, table, roots, n, p, x) && Below(s, tables, p, x, t, id);
    ReachedLeads(s, tables, table, roots, n, p, x);
  }

  /** The scope of a DELETE query. */
  class DeleteContext {
    const schema: Schema
    const from: Table
    var scope: set<Table>

    constructor (schema: Schema, from: Table)
      ensures this.schema == schema && this.from == from
    {
      this.schema, this.from, scope := schema, from, {};
    }

    /** The scope is the table itself and every table that a cascade has to lock. */
    method GetScope(ghost rank: map<Table, nat>) returns (result: set<Table>)
      requires Ranked(schema, rank)
      modifies this
      ensures forall u :: u in result <==> u == from || NeededBy(schema, from, u)
    {
      scope := {from};
      ExpandTableScope(from, rank);
      result := scope;
    }

    method ExpandTableScope(table: Table, ghost rank: map<Table, nat>)
      requires Ranked(schema, rank)
      modifies this
      ensures forall u :: u in scope <==> u in old(scope) || NeededBy(schema, table, u)
      decreases if table in rank then rank[table] else 0
    {
      for i := 0 to |schema.foreignKeys|
        invariant forall u :: u in scope <==> u in old(scope) || ChildAmong(schema, i, table, u)
      {
        if schema.foreignKeys[i].parentTable == table { scope := scope + {schema.foreignKeys[i].childTable}; }
      }
      ghost var children := scope;
      for i := 0 to |schema.foreignKeys|
        invariant forall u :: u in scope <==> u in children || NeededAmong(schema, i, table, u)
      {
        var f := schema.foreignKeys[i];
        if f.parentTable == table && f.cascade { ExpandTableScope(f.childTable, rank); }
      }
      forall u ensures u in scope <==> u in old(scope) || NeededBy(schema, table, u) {
        ScopeIsNeeded(schema, table, u);
      }
    }
  }

  ghost predicate ChildAmong(s: Schema, i: nat, table: Table, u: Table)
    requires i <= |s.foreignKeys|
  {
    exists k :: 0 <= k < i && s.foreignKeys[k].parentTable == table && s.foreignKeys[k].childTable == u
  }

  ghost predicate NeededAmong(s: Schema, i: nat, table: Table, u: Table)
    requires i <= |s.foreignKeys|
  {
    exists k :: 0 <= k < i && s.foreignKeys[k].parentTable == table && s.foreignKeys[k].cascade && NeededBy(s, s.foreignKeys[k].childTable, u)
  }

  lemma ScopeIsNeeded(s: Schema, table: Table, u: Table)
    ensures NeededBy(s, table, u) <==> ChildAmong(s, |s.foreignKeys|, table, u) || NeededAmong(s, |s.foreignKeys|, table, u)
  {
    if NeededBy(s, table, u) {
      NeededSplits(s, table, u);
      if IsChild(s, table, u, false) {
        var f :| f in s.foreignKeys && f.parentTable == table && f.childTable == u;
        var k :| 0 <= k < |s.foreignKeys| && s.foreignKeys[k] == f;
      } else {
        var child :| IsChild(s, table, child, true) && NeededBy(s, child, u);
        var f :| f in s.foreignKeys && f.parentTable == table && f.childTable == child && f.cascade;
        var k :| 0 <= k < |s.foreignKeys| && s.foreignKeys[k] == f;
      }
    }
    if ChildAmong(s, |s.foreignKeys|, table, u) {
      assert LeadsTo(s, table, 0, table) && IsChild(s, table, u, false);
    }
    if NeededAmong(s, |s.foreignKeys|, table, u) {
      var k :| 0 <= k < |s.foreignKeys| && s.foreignKeys[k].parentTable == table && s.foreignKeys[k].cascade && NeededBy(s, s.foreignKeys[k].childTable, u);
      NeededByChild(s, table, s.foreignKeys[k].childTable, u);
    }
  }

  /** Every table a deletion reaches, and every table that refers to one of those, is in the scope. */
  lemma {:induction false} ReachedIsInScope(s: Schema, tables: Tables, table: Table, roots: set<RowId>, t: Table, id: RowId)
    requires SchemaOk(s) && s.specs.Keys <= tables.Keys && Reached(s, tables, table, roots, t, id)
    ensures NeededBy(s, table, t)
    ensures forall u :: IsChild(s, t, u, false) ==> NeededBy(s, table, u)
  {
    var n: nat :| n > 0 && ReachedIn(s, tables, table, roots, n, t, id);
    ReachedLeads(s, tables, table, roots, n, t, id);
    var p :| LeadsTo(s, table, n - 1, p) && IsChild(s, p, t, true);
    assert IsChild(s, p, t, false);
  }

  lemma {:induction false} ReachedLeads(s: Schema, tables: Tables, table: Table, roots: set<RowId>, n: nat, t: Table, id: RowId)
    requires SchemaOk(s) && s.specs.Keys <= tables.Keys && ReachedIn(s, tables, table, roots, n, t, id)
    ensures LeadsTo(s, table, n, t)
    decreases n
  {
    if n > 0 {
      var p, x :| ReachedIn(s, tables, table, roots, n - 1, p, x) && Below(s, tables, p, x, t, id);
      ReachedLeads(s, tables, table, roots, n - 1, p, x);
      assert IsChild(s, p, t, true);
    }
  }
}
