/** The logical rewriter keeps the meaning of every plan. */
module PlanRewriter {
  import opened QueryPlans
  import opened PlanMeaning
  import opened PlanPasses

  /** The passes in the order of the plan factory, each under its own condition. */
  function Rewrite(plan: Plan, fromCount: nat, hasWhere: bool, next: nat): Plan
    requires WellFormed(plan)
  {
    var (p1, n1) := AndPass(plan, next);
    AndPassKeeps(plan, next);
    var p2 := if fromCount >= 3 then CrossPass(p1) else p1;
    CrossPassKeeps(p1);
    var p3 := if hasWhere then Process(p2, {}, n1).0 else p2;
    if fromCount >= 2 then JoinPass(p3) else p3
  }

  /** What every pass keeps besides the rows. */
  ghost predicate Kept(plan: Plan, r: Plan) {
    WellFormed(r) && Tables(r) == Tables(plan) && (Core(plan) ==> Core(r)) && (PlanOrFree(plan) ==> PlanOrFree(r))
  }

  // ---------- Filters ----------

  lemma {:induction false} FilterConcat(w: World, p: Pred, a: seq<Row>, b: seq<Row>)
    ensures Filter(w, p, a + b) == Filter(w, p, a) + Filter(w, p, b)
  {
    hide Truth;
    if a == [] {
      assert a + b == b;
    } else {
      FilterConcat(w, p, a[1..], b);
      assert (a + b)[1..] == a[1..] + b;
      var head := if Truth(w, p, a[0]) then [a[0]] else [];
      assert Filter(w, p, a) == head + Filter(w, p, a[1..]);
      assert head + (Filter(w, p, a[1..]) + Filter(w, p, b)) == head + Filter(w, p, a[1..]) + Filter(w, p, b);
    }
  }

  lemma {:induction false} FiltersCommute(w: World, p: Pred, q: Pred, rows: seq<Row>)
    ensures Filter(w, p, Filter(w, q, rows)) == Filter(w, q, Filter(w, p, rows))
  {
    if rows != [] {
      FiltersCommute(w, p, q, rows[1..]);
      var one := [rows[0]];
      assert one[1..] == [];
      FilterConcat(w, p, if Truth(w, q, rows[0]) then one else [], Filter(w, q, rows[1..]));
      FilterConcat(w, q, if Truth(w, p, rows[0]) then one else [], Filter(w, p, rows[1..]));
    }
  }

  lemma {:induction false} FilterTwice(w: World, p: Pred, rows: seq<Row>)
    ensures Filter(w, p, Filter(w, p, rows)) == Filter(w, p, rows)
  {
    if rows != [] {
      FilterTwice(w, p, rows[1..]);
      assert [rows[0]][1..] == [];
      FilterConcat(w, p, if Truth(w, p, rows[0]) then [rows[0]] else [], Filter(w, p, rows[1..]));
    }
  }

  lemma {:induction false} FilterSame(w: World, p: Pred, q: Pred, rows: seq<Row>)
    requires forall row :: row in rows ==> (Truth(w, p, row) <==> Truth(w, q, row))
    ensures Filter(w, p, rows) == Filter(w, q, rows)
  {
    if rows != [] {
      assert rows[0] in rows;
      FilterSame(w, p, q, rows[1..]);
    }
  }

  // ---------- AND to a chain ----------

  lemma {:induction false} AllTrueConcat(w: World, a: seq<Pred>, b: seq<Pred>, row: Row)
    ensures AllTrue(w, a + b, row) <==> AllTrue(w, a, row) && AllTrue(w, b, row)
  {
    if a == [] {
      assert a + b == b;
    } else {
      AllTrueConcat(w, a[1..], b, row);
      assert (a + b)[1..] == a[1..] + b;
    }
  }

  lemma {:induction false} BreakIsConjunction(w: World, p: Pred, row: Row)
    ensures AllTrue(w, Break(p), row) <==> Truth(w, p, row)
    decreases p, 0
  {
    match p
    case And(kids) =>
      if kids != [] { BreakAllIsConjunction(w, kids, row); }
      assert kids == [] ==> Break(p)[1..] == [];
    case _ => assert Break(p)[1..] == [];
  }

  lemma {:induction false} BreakAllIsConjunction(w: World, ps: seq<Pred>, row: Row)
    ensures AllTrue(w, BreakAll(ps), row) <==> AllTrue(w, ps, row)
    decreases ps, 1
  {
    if ps != [] {
      BreakIsConjunction(w, ps[0], row);
      BreakAllIsConjunction(w, ps[1..], row);
      AllTrueConcat(w, Break(ps[0]), BreakAll(ps[1..]), row);
    }
  }

  lemma {:induction false} BreakOrFree(p: Pred)
    requires OrFree(p)
    ensures AllOrFree(Break(p))
    decreases p, 0
  {
    match p
    case And(kids) =>
      if kids != [] { BreakAllOrFree(kids); }
      assert kids == [] ==> Break(p)[1..] == [];
    case Atom(_, _, _) => assert Break(p)[1..] == [];
    case Or(_) =>
  }

  lemma {:induction false} BreakAllOrFree(ps: seq<Pred>)
    requires AllOrFree(ps)
    ensures AllOrFree(BreakAll(ps))
    decreases ps, 1
  {
    if ps != [] {
      BreakOrFree(ps[0]);
      BreakAllOrFree(ps[1..]);
      OrFreeConcat(Break(ps[0]), BreakAll(ps[1..]));
    }
  }

  lemma {:induction false} OrFreeConcat(a: seq<Pred>, b: seq<Pred>)
    requires AllOrFree(a) && AllOrFree(b)
    ensures AllOrFree(a + b)
  {
    if a == [] {
      assert a + b == b;
    } else {
      OrFreeConcat(a[1..], b);
      assert (a + b)[1..] == a[1..] + b;
    }
  }

  /** A chain of selections filters by the conjunction. */
  lemma {:induction false} ChainIsConjunction(w: World, ps: seq<Pred>, c: Plan, next: nat, rows: seq<Row>)
    requires Filtered(w, c) == rows
    ensures Filtered(w, Chain(ps, c, next)) == FilterAll(w, ps, rows)
  {
    if ps == [] {
      FilterAllNone(w, rows);
    } else {
      ChainIsConjunction(w, ps[1..], c, next + 1, rows);
      FilterAllStep(w, ps, rows);
    }
  }

  function FilterAll(w: World, ps: seq<Pred>, rows: seq<Row>): seq<Row> {
    if rows == [] then [] else (if AllTrue(w, ps, rows[0]) then [rows[0]] else []) + FilterAll(w, ps, rows[1..])
  }

  lemma {:induction false} FilterAllNone(w: World, rows: seq<Row>)
    ensures FilterAll(w, [], rows) == rows
  {
    if rows != [] { FilterAllNone(w, rows[1..]); }
  }

  lemma {:induction false} FilterAllStep(w: World, ps: seq<Pred>, rows: seq<Row>)
    requires ps != []
    ensures FilterAll(w, ps, rows) == Filter(w, ps[0], FilterAll(w, ps[1..], rows))
  {
    if rows != [] {
      FilterAllStep(w, ps, rows[1..]);
      assert [rows[0]][1..] == [];
      FilterConcat(w, ps[0], if AllTrue(w, ps[1..], rows[0]) then [rows[0]] else [], FilterAll(w, ps[1..], rows[1..]));
    }
  }

  lemma {:induction false} FilterAllIsFilter(w: World, p: Pred, rows: seq<Row>)
    ensures FilterAll(w, Break(p), rows) == Filter(w, p, rows)
  {
    if rows != [] {
      BreakIsConjunction(w, p, rows[0]);
      FilterAllIsFilter(w, p, rows[1..]);
    }
  }

  lemma {:induction false} ChainKept(ps: seq<Pred>, c: Plan, next: nat)
    requires WellFormed(c) && Core(c)
    ensures WellFormed(Chain(ps, c, next)) && Core(Chain(ps, c, next)) && Tables(Chain(ps, c, next)) == Tables(c)
    ensures AllOrFree(ps) && PlanOrFree(c) ==> PlanOrFree(Chain(ps, c, next))
  {
    if ps != [] { ChainKept(ps[1..], c, next + 1); }
  }

  lemma {:induction false} AndPassKeeps(plan: Plan, next: nat)
    requires WellFormed(plan)
    ensures Kept(plan, AndPass(plan, next).0)
    decreases plan, 0
  {
    match plan
    case Access(_) =>
    case Select(_, p, child) =>
      var (c, n) := AndPass(child, next);
      AndPassKeeps(child, next);
      ChainKept(Break(p), c, n);
      if OrFree(p) { BreakOrFree(p); }
    case Cross(kids) => AndPassAllKeeps(kids, next);
    case Join(p, kids) => AndPassAllKeeps(kids, next);
    case Other(op, child) => AndPassKeeps(child, next);
  }

  lemma {:induction false} AndPassAllKeeps(plans: seq<Plan>, next: nat)
    requires AllApart(plans)
    ensures var r := AndPassAll(plans, next).0;
      |r| == |plans| && AllApart(r) && AllCore(r) && TablesOf(r) == TablesOf(plans) && (KidsOrFree(plans) ==> KidsOrFree(r))
    decreases plans, 1
  {
    if plans != [] {
      var (c, n) := AndPass(plans[0], next);
      AndPassKeeps(plans[0], next);
      AndPassAllKeeps(plans[1..], n);
      var cs := AndPassAll(plans[1..], n).0;
      assert ([c] + cs)[1..] == cs;
    }
  }

  lemma {:induction false} AndPassRows(w: World, plan: Plan, next: nat)
    ensures Filtered(w, AndPass(plan, next).0) == Filtered(w, plan)
    decreases plan, 0
  {
    match plan
    case Access(_) =>
    case Select(_, p, child) =>
      var (c, n) := AndPass(child, next);
      AndPassRows(w, child, next);
      ChainIsConjunction(w, Break(p), c, n, Filtered(w, c));
      FilterAllIsFilter(w, p, Filtered(w, c));
    case Cross(kids) => AndPassAllRows(w, kids, next);
    case Join(p, kids) => AndPassAllRows(w, kids, next);
    case Other(op, child) => AndPassRows(w, child, next);
  }

  lemma {:induction false} AndPassAllRows(w: World, plans: seq<Plan>, next: nat)
    ensures KidFiltered(w, AndPassAll(plans, next).0) == KidFiltered(w, plans)
    decreases plans, 1
  {
    if plans != [] {
      var (c, n) := AndPass(plans[0], next);
      AndPassRows(w, plans[0], next);
      AndPassAllRows(w, plans[1..], n);
      var cs := AndPassAll(plans[1..], n).0;
      assert ([c] + cs)[1..] == cs;
    }
  }

  // ---------- Products ----------

  lemma {:induction false} KidsConcat(w: World, a: seq<Plan>, b: seq<Plan>)
    ensures KidFiltered(w, a + b) == KidFiltered(w, a) + KidFiltered(w, b)
    ensures TablesOf(a + b) == TablesOf(a) + TablesOf(b)
    ensures KidsOrFree(a + b) <==> KidsOrFree(a) && KidsOrFree(b)
    ensures AllApart(a + b) <==> AllApart(a) && AllApart(b) && TablesOf(a) !! TablesOf(b)
  {
    if a == [] {
      assert a + b == b;
    } else {
      KidsConcat(w, a[1..], b);
      assert (a + b)[1..] == a[1..] + b;
    }
  }

  lemma {:induction false} ExtendEmpty(right: seq<Row>)
    ensures Extend(map[], right) == right
  {
    if right != [] {
      ExtendEmpty(right[1..]);
      assert map[] + right[0] == right[0];
    }
  }

  lemma ProductOne(xs: seq<Row>)
    ensures Product([xs]) == xs
  {
    assert [xs][..0] == [];
    ExtendEmpty(xs);
    var unit: seq<Row> := [map[]];
    assert unit[1..] == [];
    assert Pairs(unit, xs) == Extend(unit[0], xs) + Pairs([], xs);
  }

  /** Replacing the first two factors by their product changes nothing. */
  lemma {:induction false} ProductGroups(a: seq<Row>, b: seq<Row>, rest: seq<seq<Row>>)
    ensures Product([Product([a, b])] + rest) == Product([a, b] + rest)
  {
    if rest == [] {
      assert [Product([a, b])] + rest == [Product([a, b])] && [a, b] + rest == [a, b];
      ProductOne(Product([a, b]));
    } else {
      var n := |rest| - 1;
      ProductGroups(a, b, rest[..n]);
      assert ([Product([a, b])] + rest)[..n + 1] == [Product([a, b])] + rest[..n];
      assert ([a, b] + rest)[..n + 2] == [a, b] + rest[..n];
    }
  }

  lemma {:induction false} LeftDeepKeeps(w: World, kids: seq<Plan>)
    requires AllApart(kids) && |kids| > 1
    ensures Kept(Cross(kids), LeftDeep(kids)) && Core(LeftDeep(kids))
    ensures Filtered(w, LeftDeep(kids)) == Product(KidFiltered(w, kids))
    decreases |kids|
  {
    ApartCore(kids);
    if |kids| > 2 {
      hide Product;
      var pair, rest := kids[..2], kids[2..];
      assert kids == [pair[0], pair[1]] + rest && pair == [pair[0], pair[1]];
      assert kids == pair + rest;
      KidsConcat(w, pair, rest);
      ApartCore(pair);
      var first := Cross(pair);
      KidsConcat(w, [first], rest);
      assert [first][1..] == [];
      FirstPairGrouped(w, pair[0], pair[1], rest);
      LeftDeepKeeps(w, [first] + rest);
    }
  }

  /** Multiplying the first two children first does not change the product. */
  lemma FirstPairGrouped(w: World, left: Plan, right: Plan, rest: seq<Plan>)
    ensures Product(KidFiltered(w, [Cross([left, right])] + rest)) == Product(KidFiltered(w, [left, right] + rest))
  {
    var pair, first := [left, right], [Cross([left, right])];
    KidsConcat(w, pair, rest);
    KidsConcat(w, first, rest);
    assert first[1..] == [] && pair[1..] == [right] && pair[1..][1..] == [];
    assert KidFiltered(w, pair) == [Filtered(w, left), Filtered(w, right)];
    assert KidFiltered(w, first) == [Product(KidFiltered(w, pair))];
    ProductGroups(Filtered(w, left), Filtered(w, right), KidFiltered(w, rest));
  }

  lemma {:induction false} CrossPassBoth(w: World, plan: Plan)
    requires WellFormed(plan)
    ensures Kept(plan, CrossPass(plan)) && Filtered(w, CrossPass(plan)) == Filtered(w, plan)
    decreases plan, 0
  {
    match plan
    case Access(_) =>
    case Select(_, _, child) => CrossPassBoth(w, child);
    case Cross(kids) =>
      CrossPassAllBoth(w, kids);
      LeftDeepKeeps(w, CrossPassAll(kids));
    case Join(_, kids) => CrossPassAllBoth(w, kids);
    case Other(_, child) => CrossPassBoth(w, child);
  }

  lemma {:induction false} CrossPassAllBoth(w: World, plans: seq<Plan>)
    requires AllApart(plans)
    ensures var r := CrossPassAll(plans);
      AllApart(r) && AllCore(r) && TablesOf(r) == TablesOf(plans) && (KidsOrFree(plans) ==> KidsOrFree(r))
    ensures KidFiltered(w, CrossPassAll(plans)) == KidFiltered(w, plans)
    decreases plans, 1
  {
    if plans != [] {
      CrossPassBoth(w, plans[0]);
      CrossPassAllBoth(w, plans[1..]);
      var c, cs := CrossPass(plans[0]), CrossPassAll(plans[1..]);
      assert ([c] + cs)[1..] == cs;
    }
  }

  lemma CrossPassKeeps(plan: Plan)
    requires WellFormed(plan)
    ensures Kept(plan, CrossPass(plan))
  {
    CrossPassBoth(World(_ => [], (_, _) => true, (_, rows) => rows), plan);
  }

  // ---------- Pushing a filter into a product ----------

  ghost predicate Over(rows: seq<Row>, tables: set<Table>) {
    forall row :: row in rows ==> row.Keys == tables
  }

  /** Predicates see only the tables they mention. */
  lemma {:induction false} TruthLocal(w: World, p: Pred, row: Row, row': Row)
    requires forall t :: t in PredTables(p) ==> (t in row <==> t in row') && (t in row && t in row' ==> row[t] == row'[t])
    ensures Truth(w, p, row) == Truth(w, p, row')
    decreases p, 0
  {
    match p
    case Atom(id, tables, _) => assert Restrict(row, tables) == Restrict(row', tables);
    case And(kids) => AllTruthLocal(w, kids, row, row');
    case Or(kids) => AllTruthLocal(w, kids, row, row');
  }

  lemma {:induction false} AllTruthLocal(w: World, ps: seq<Pred>, row: Row, row': Row)
    requires forall t :: t in KidTables(ps) ==> (t in row <==> t in row') && (t in row && t in row' ==> row[t] == row'[t])
    ensures AllTrue(w, ps, row) == AllTrue(w, ps, row') && AnyTrue(w, ps, row) == AnyTrue(w, ps, row')
    decreases ps, 1
  {
    if ps != [] {
      TruthLocal(w, ps[0], row, row');
      AllTruthLocal(w, ps[1..], row, row');
    }
  }

  lemma {:induction false} ExtendFilterLeft(w: World, p: Pred, row: Row, right: seq<Row>)
    requires forall r :: r in right ==> Truth(w, p, row + r) == Truth(w, p, row)
    ensures Filter(w, p, Extend(row, right)) == if Truth(w, p, row) then Extend(row, right) else []
  {
    if right != [] {
      assert right[0] in right;
      ExtendFilterLeft(w, p, row, right[1..]);
      assert Extend(row, right)[1..] == Extend(row, right[1..]);
    }
  }

  lemma {:induction false} PairsFilterLeft(w: World, p: Pred, left: seq<Row>, right: seq<Row>)
    requires forall l, r :: l in left && r in right ==> Truth(w, p, l + r) == Truth(w, p, l)
    ensures Filter(w, p, Pairs(left, right)) == Pairs(Filter(w, p, left), right)
  {
    if left != [] {
      assert left[0] in left;
      PairsFilterLeft(w, p, left[1..], right);
      ExtendFilterLeft(w, p, left[0], right);
      FilterConcat(w, p, Extend(left[0], right), Pairs(left[1..], right));
      if Truth(w, p, left[0]) {
        var rest := Filter(w, p, left[1..]);
        assert ([left[0]] + rest)[1..] == rest;
      } else {
        assert [] + Filter(w, p, left[1..]) == Filter(w, p, left[1..]);
      }
    }
  }

  lemma {:induction false} ExtendFilterRight(w: World, p: Pred, row: Row, right: seq<Row>)
    requires forall r :: r in right ==> Truth(w, p, row + r) == Truth(w, p, r)
    ensures Filter(w, p, Extend(row, right)) == Extend(row, Filter(w, p, right))
  {
    if right != [] {
      assert right[0] in right;
      ExtendFilterRight(w, p, row, right[1..]);
      assert Extend(row, right)[1..] == Extend(row, right[1..]);
      if Truth(w, p, right[0]) {
        var rest := Filter(w, p, right[1..]);
        assert ([right[0]] + rest)[1..] == rest;
      } else {
        assert [] + Filter(w, p, right[1..]) == Filter(w, p, right[1..]);
      }
    }
  }

  lemma {:induction false} PairsFilterRight(w: World, p: Pred, left: seq<Row>, right: seq<Row>)
    requires forall l, r :: l in left && r in right ==> Truth(w, p, l + r) == Truth(w, p, r)
    ensures Filter(w, p, Pairs(left, right)) == Pairs(left, Filter(w, p, right))
  {
    if left != [] {
      assert left[0] in left;
      PairsFilterRight(w, p, left[1..], right);
      ExtendFilterRight(w, p, left[0], right);
      FilterConcat(w, p, Extend(left[0], right), Pairs(left[1..], right));
    }
  }

  lemma FilterLeftTables(w: World, p: Pred, left: seq<Row>, right: seq<Row>, lt: set<Table>, rt: set<Table>)
    requires Over(left, lt) && Over(right, rt) && lt !! rt && PredTables(p) <= lt
    ensures Filter(w, p, Pairs(left, right)) == Pairs(Filter(w, p, left), right)
  {
    forall l, r | l in left && r in right ensures Truth(w, p, l + r) == Truth(w, p, l) {
      TruthLocal(w, p, l + r, l);
    }
    PairsFilterLeft(w, p, left, right);
  }

  lemma FilterRightTables(w: World, p: Pred, left: seq<Row>, right: seq<Row>, lt: set<Table>, rt: set<Table>)
    requires Over(left, lt) && Over(right, rt) && lt !! rt && PredTables(p) <= rt
    ensures Filter(w, p, Pairs(left, right)) == Pairs(left, Filter(w, p, right))
  {
    forall l, r | l in left && r in right ensures Truth(w, p, l + r) == Truth(w, p, r) {
      TruthLocal(w, p, l + r, r);
    }
    PairsFilterRight(w, p, left, right);
  }

  // ---------- Rows have exactly the plan's tables ----------

  lemma {:induction false} TableRowsOver(table: Table, values: seq<Value>)
    ensures Over(TableRows(table, values), {table})
  {
    if values != [] { TableRowsOver(table, values[1..]); }
  }

  lemma {:induction false} FilterOver(w: World, p: Pred, rows: seq<Row>, tables: set<Table>)
    requires Over(rows, tables)
    ensures Over(Filter(w, p, rows), tables)
  {
    if rows != [] {
      assert rows[0] in rows;
      FilterOver(w, p, rows[1..], tables);
    }
  }

  lemma {:induction false} ExtendOver(row: Row, right: seq<Row>, tables: set<Table>)
    requires Over(right, tables)
    ensures Over(Extend(row, right), row.Keys + tables)
  {
    if right != [] {
      assert right[0] in right;
      ExtendOver(row, right[1..], tables);
    }
  }

  lemma {:induction false} PairsOver(left: seq<Row>, right: seq<Row>, lt: set<Table>, rt: set<Table>)
    requires Over(left, lt) && Over(right, rt)
    ensures Over(Pairs(left, right), lt + rt)
  {
    if left != [] {
      assert left[0] in left;
      ExtendOver(left[0], right, rt);
      PairsOver(left[1..], right, lt, rt);
    }
  }

  lemma {:induction false} PlanOver(w: World, plan: Plan)
    requires WellFormed(plan) && Core(plan)
    ensures Over(Filtered(w, plan), Tables(plan))
    decreases plan, 0
  {
    match plan
    case Access(table) => TableRowsOver(table, w.rows(table));
    case Select(_, p, child) =>
      PlanOver(w, child);
      FilterOver(w, p, Filtered(w, child), Tables(child));
    case Cross(kids) => KidsOver(w, kids, kids);
    case Join(p, kids) =>
      KidsOver(w, kids, kids);
      FilterOver(w, p, Product(KidFiltered(w, kids)), TablesOf(kids));
  }

  /** ks is a prefix of the children of some plan. */
  lemma {:induction false} KidsOver(w: World, ks: seq<Plan>, kids: seq<Plan>)
    requires AllApart(ks) && ks <= kids
    ensures Over(Product(KidFiltered(w, ks)), TablesOf(ks))
    decreases kids, |ks|
  {
    if ks != [] {
      var n := |ks| - 1;
      Snoc(w, ks);
      KidsOver(w, ks[..n], kids);
      assert ks[n] == kids[n];
      PlanOver(w, ks[n]);
      PairsOver(Product(KidFiltered(w, ks[..n])), Filtered(w, ks[n]), TablesOf(ks[..n]), Tables(ks[n]));
    }
  }

  /** The last child, and those before it. */
  lemma Snoc(w: World, ks: seq<Plan>)
    requires ks != []
    ensures var n := |ks| - 1;
      && KidFiltered(w, ks) == KidFiltered(w, ks[..n]) + [Filtered(w, ks[n])]
      && Product(KidFiltered(w, ks)) == Pairs(Product(KidFiltered(w, ks[..n])), Filtered(w, ks[n]))
      && TablesOf(ks) == TablesOf(ks[..n]) + Tables(ks[n])
      && (AllApart(ks) ==> AllApart(ks[..n]) && WellFormed(ks[n]) && Core(ks[n]) && TablesOf(ks[..n]) !! Tables(ks[n]))
  {
    hide Filtered, Pairs, Tables, WellFormed, Core, AllApart, TablesOf, KidFiltered;
    var n := |ks| - 1;
    var last := [ks[n]];
    assert ks == ks[..n] + last;
    KidsConcat(w, ks[..n], last);
    LastOnly(w, ks[n]);
    assert KidFiltered(w, ks)[..n] == KidFiltered(w, ks[..n]);
  }

  lemma LastOnly(w: World, plan: Plan)
    ensures KidFiltered(w, [plan]) == [Filtered(w, plan)] && TablesOf([plan]) == Tables(plan)
    ensures AllApart([plan]) ==> WellFormed(plan) && Core(plan)
  {
    var one := [plan];
    assert one[1..] == [];
    assert KidFiltered(w, one) == [Filtered(w, plan)] + KidFiltered(w, []);
  }

  // ---------- Pushing down ----------

  /** ks' has the filter in every child that has its tables, and is otherwise ks. */
  ghost predicate FilteredInto(w: World, p: Pred, ks: seq<Plan>, ks': seq<Plan>) {
    && |ks'| == |ks|
    && (forall i :: 0 <= i < |ks| ==> Tables(ks'[i]) == Tables(ks[i]))
    && (forall i :: 0 <= i < |ks| ==>
         Filtered(w, ks'[i]) == (if Refers(ks[i], p) then Filter(w, p, Filtered(w, ks[i])) else Filtered(w, ks[i])))
  }

  lemma {:induction false} PushIntoProduct(w: World, p: Pred, ks: seq<Plan>, ks': seq<Plan>)
    requires AllApart(ks) && FilteredInto(w, p, ks, ks')
    ensures var before := Product(KidFiltered(w, ks));
      Product(KidFiltered(w, ks')) == if SomeRefers(ks, p) then Filter(w, p, before) else before
    decreases |ks|
  {
    if ks != [] {
      var n := |ks| - 1;
      Snoc(w, ks);
      Snoc(w, ks');
      assert FilteredInto(w, p, ks[..n], ks'[..n]);
      PushIntoProduct(w, p, ks[..n], ks'[..n]);
      var left, right := Product(KidFiltered(w, ks[..n])), Filtered(w, ks[n]);
      KidsOver(w, ks[..n], ks[..n]);
      PlanOver(w, ks[n]);
      SomeRefersSnoc(ks, p);
      if SomeRefers(ks[..n], p) {
        TablesBelow(ks[..n], p);
        FilterLeftTables(w, p, left, right, TablesOf(ks[..n]), Tables(ks[n]));
        FilterTwice(w, p, Pairs(left, right));
      }
      if Refers(ks[n], p) {
        FilterRightTables(w, p, left, right, TablesOf(ks[..n]), Tables(ks[n]));
        if SomeRefers(ks[..n], p) {
          FilterOver(w, p, left, TablesOf(ks[..n]));
          FilterRightTables(w, p, Filter(w, p, left), right, TablesOf(ks[..n]), Tables(ks[n]));
        }
      }
    }
  }

  lemma SomeRefersSnoc(ks: seq<Plan>, p: Pred)
    requires ks != []
    ensures SomeRefers(ks, p) <==> SomeRefers(ks[..|ks| - 1], p) || Refers(ks[|ks| - 1], p)
  {
    var n := |ks| - 1;
    if SomeRefers(ks, p) {
      var i :| 0 <= i < |ks| && Refers(ks[i], p);
      assert i < n ==> Refers(ks[..n][i], p);
    }
    if SomeRefers(ks[..n], p) {
      var i :| 0 <= i < n && Refers(ks[..n][i], p);
      assert Refers(ks[i], p);
    }
  }

  lemma {:induction false} TablesBelow(ks: seq<Plan>, p: Pred)
    requires SomeRefers(ks, p)
    ensures PredTables(p) <= TablesOf(ks)
  {
    var i :| 0 <= i < |ks| && Refers(ks[i], p);
    if i > 0 {
      assert Refers(ks[1..][i - 1], p);
      TablesBelow(ks[1..], p);
    }
  }

  lemma {:induction false} PushDownRows(w: World, n: nat, p: Pred, c: Plan, next: nat)
    requires WellFormed(c) && Core(c)
    ensures Filtered(w, PushDown(n, p, c, next).0) == Filter(w, p, Filtered(w, c))
    ensures OrFree(p) && PlanOrFree(c) ==> PlanOrFree(PushDown(n, p, c, next).0)
    decreases c, 0
  {
    match c
    case Select(m, q, d) =>
      PushDownRows(w, n, p, d, next);
      FiltersCommute(w, p, q, Filtered(w, d));
    case Cross(kids) =>
      if SomeRefers(kids, p) {
        PushKidsRows(w, p, kids, next);
        PushIntoProduct(w, p, kids, PushKids(p, kids, next).0);
      }
    case Join(q, kids) =>
      if SomeRefers(kids, p) {
        PushKidsRows(w, p, kids, next);
        PushIntoProduct(w, p, kids, PushKids(p, kids, next).0);
        FiltersCommute(w, p, q, Product(KidFiltered(w, kids)));
      }
    case _ =>
  }

  lemma {:induction false} PushKidsRows(w: World, p: Pred, kids: seq<Plan>, next: nat)
    requires AllApart(kids)
    ensures FilteredInto(w, p, kids, PushKids(p, kids, next).0)
    ensures OrFree(p) && KidsOrFree(kids) ==> KidsOrFree(PushKids(p, kids, next).0)
    decreases kids, 1
  {
    if kids != [] {
      var (k, n) := if Refers(kids[0], p) then PushDown(next, p, kids[0], next + 1) else (kids[0], next);
      if Refers(kids[0], p) {
        PushDownRows(w, next, p, kids[0], next + 1);
        PushWeight(next, p, kids[0], next + 1, {});
      }
      PushKidsRows(w, p, kids[1..], n);
      var ks := PushKids(p, kids[1..], n).0;
      var r := PushKids(p, kids, next).0;
      assert r == [k] + ks && r[1..] == ks;
      forall i | 0 <= i < |kids|
        ensures Tables(r[i]) == Tables(kids[i])
        ensures Filtered(w, r[i]) == if Refers(kids[i], p) then Filter(w, p, Filtered(w, kids[i])) else Filtered(w, kids[i])
      {
        if i > 0 { assert r[i] == ks[i - 1] && kids[i] == kids[1..][i - 1]; }
      }
    }
  }

  /** The whole traversal keeps the rows. */
  lemma {:induction false} ProcessRows(w: World, plan: Plan, done: set<nat>, next: nat)
    requires WellFormed(plan)
    ensures Filtered(w, Process(plan, done, next).0) == Filtered(w, plan)
    ensures PlanOrFree(plan) ==> PlanOrFree(Process(plan, done, next).0)
    decreases Weight(plan, done), Size(plan), 1
  {
    match plan
    case Access(_) =>
    case Select(n, p, c) =>
      if n !in done {
        PushWeight(n, p, c, next, done + {n});
        LighterWhenDone(c, done, done + {n});
        PushDownRows(w, n, p, c, next);
        var (t, next1) := PushDown(n, p, c, next);
        if Moves(p, c) { ProcessRows(w, t, done + {n}, next1); }
        var (t2, done2, next2) := if Moves(p, c) then Process(t, done + {n}, next1) else (t, done + {n}, next1);
        ProcessBelowRows(w, t2, n, done2, next2);
      }
    case Cross(kids) => ProcessKidsRows(w, kids, done, next);
    case Join(p, kids) => ProcessKidsRows(w, kids, done, next);
    case Other(op, c) => ProcessRows(w, c, done, next);
  }

  lemma {:induction false} ProcessKidsRows(w: World, plans: seq<Plan>, done: set<nat>, next: nat)
    requires AllApart(plans)
    ensures KidFiltered(w, ProcessKids(plans, done, next).0) == KidFiltered(w, plans)
    ensures KidsOrFree(plans) ==> KidsOrFree(ProcessKids(plans, done, next).0)
    decreases WeightOf(plans, done), SizeOf(plans), 2
  {
    if plans != [] {
      ProcessRows(w, plans[0], done, next);
      var (k, d, m) := Process(plans[0], done, next);
      AllLighterWhenDone(plans[1..], done, d);
      ProcessKidsRows(w, plans[1..], d, m);
      var ks := ProcessKids(plans[1..], d, m).0;
      assert ([k] + ks)[1..] == ks;
    }
  }

  lemma {:induction false} ProcessBelowRows(w: World, plan: Plan, n: nat, done: set<nat>, next: nat)
    requires WellFormed(plan)
    ensures Filtered(w, ProcessBelow(plan, n, done, next).0) == Filtered(w, plan)
    ensures PlanOrFree(plan) ==> PlanOrFree(ProcessBelow(plan, n, done, next).0)
    decreases Weight(plan, done), Size(plan), 0
  {
    match plan
    case Access(_) =>
    case Select(m, p, c) => if m == n { ProcessRows(w, c, done, next); } else { ProcessBelowRows(w, c, n, done, next); }
    case Cross(kids) => ProcessBelowKidsRows(w, kids, n, done, next);
    case Join(p, kids) => ProcessBelowKidsRows(w, kids, n, done, next);
    case Other(op, c) => ProcessBelowRows(w, c, n, done, next);
  }

  lemma {:induction false} ProcessBelowKidsRows(w: World, plans: seq<Plan>, n: nat, done: set<nat>, next: nat)
    requires AllApart(plans)
    ensures KidFiltered(w, ProcessBelowKids(plans, n, done, next).0) == KidFiltered(w, plans)
    ensures KidsOrFree(plans) ==> KidsOrFree(ProcessBelowKids(plans, n, done, next).0)
    decreases WeightOf(plans, done), SizeOf(plans), 2
  {
    if plans != [] {
      ProcessBelowRows(w, plans[0], n, done, next);
      var (k, d, m) := ProcessBelow(plans[0], n, done, next);
      AllLighterWhenDone(plans[1..], done, d);
      ProcessBelowKidsRows(w, plans[1..], n, d, m);
      var ks := ProcessBelowKids(plans[1..], n, d, m).0;
      assert ([k] + ks)[1..] == ks;
    }
  }

  // ---------- Implicit joins ----------

  lemma {:induction false} JoinPassRows(w: World, plan: Plan)
    ensures Filtered(w, JoinPass(plan)) == Filtered(w, plan)
    ensures Core(plan) ==> Core(JoinPass(plan))
    ensures PlanOrFree(plan) ==> PlanOrFree(JoinPass(plan))
    decreases plan, 0
  {
    match plan
    case Access(_) =>
    case Select(n, p, child) =>
      if p.Atom? && p.isJoin && child.Cross? {
        JoinPassAllRows(w, child.kids);
        assert Core(child) == AllCore(child.kids) && PlanOrFree(child) == KidsOrFree(child.kids);
      } else {
        JoinPassRows(w, child);
      }
    case Cross(kids) => JoinPassAllRows(w, kids);
    case Join(p, kids) => JoinPassAllRows(w, kids);
    case Other(op, child) => JoinPassRows(w, child);
  }

  lemma {:induction false} JoinPassAllRows(w: World, plans: seq<Plan>)
    ensures KidFiltered(w, JoinPassAll(plans)) == KidFiltered(w, plans)
    ensures AllCore(plans) ==> AllCore(JoinPassAll(plans))
    ensures KidsOrFree(plans) ==> KidsOrFree(JoinPassAll(plans))
    decreases plans, 1
  {
    if plans != [] {
      JoinPassRows(w, plans[0]);
      JoinPassAllRows(w, plans[1..]);
      var c, cs := JoinPass(plans[0]), JoinPassAll(plans[1..]);
      assert ([c] + cs)[1..] == cs;
    }
  }

  // ---------- The four passes ----------

  lemma RewriteKeepsFilters(w: World, plan: Plan, fromCount: nat, hasWhere: bool, next: nat)
    requires WellFormed(plan)
    ensures var r := Rewrite(plan, fromCount, hasWhere, next);
      Filtered(w, r) == Filtered(w, plan) && (Core(plan) ==> Core(r)) && (PlanOrFree(plan) ==> PlanOrFree(r))
  {
    var (p1, n1) := AndPass(plan, next);
    AndPassKeeps(plan, next);
    AndPassRows(w, plan, next);
    var p2 := if fromCount >= 3 then CrossPass(p1) else p1;
    CrossPassBoth(w, p1);
    var p3 := if hasWhere then Process(p2, {}, n1).0 else p2;
    ProcessRows(w, p2, {}, n1);
    JoinPassRows(w, p3);
  }

  /** Without OR, the rewritten plan delivers the same row sequence, limits and all. */
  lemma RewriteKeepsSequence(w: World, plan: Plan, fromCount: nat, hasWhere: bool, next: nat)
    requires WellFormed(plan) && PlanOrFree(plan)
    ensures Rows(w, Rewrite(plan, fromCount, hasWhere, next)) == Rows(w, plan)
  {
    RewriteKeepsFilters(w, plan, fromCount, hasWhere, next);
    OrFreePlan(w, plan);
    OrFreePlan(w, Rewrite(plan, fromCount, hasWhere, next));
  }

  /** The part below the other nodes. */
  function Body(plan: Plan): Plan {
    if plan.Other? then Body(plan.child) else plan
  }

  lemma {:induction false} BodyIsCore(plan: Plan)
    requires WellFormed(plan)
    ensures WellFormed(Body(plan)) && Core(Body(plan))
  {
    match plan
    case Other(_, child) => BodyIsCore(child);
    case Cross(kids) => ApartCore(kids);
    case Join(_, kids) => ApartCore(kids);
    case _ =>
  }

  lemma {:induction false} PassesWorkOnBody(plan: Plan, next: nat)
    ensures Body(AndPass(plan, next).0) == AndPass(Body(plan), next).0 && AndPass(plan, next).1 == AndPass(Body(plan), next).1
    ensures Body(CrossPass(plan)) == CrossPass(Body(plan)) && Body(JoinPass(plan)) == JoinPass(Body(plan))
    ensures WellFormed(plan) && WellFormed(Body(plan)) ==> Body(Process(plan, {}, next).0) == Process(Body(plan), {}, next).0
  {
    match plan
    case Other(_, child) => PassesWorkOnBody(child, next);
    case Select(_, p, child) =>
      NotOther(Break(p), AndPass(child, next).0, AndPass(child, next).1);
      if WellFormed(plan) { ProcessNotOther(plan, {}, next); }
    case Cross(kids) => LeftDeepIsCross(CrossPassAll(kids));
    case _ =>
  }

  lemma NotOther(ps: seq<Pred>, c: Plan, next: nat)
    requires ps != []
    ensures Chain(ps, c, next).Select?
  {
  }

  lemma {:induction false} LeftDeepIsCross(kids: seq<Plan>)
    ensures LeftDeep(kids).Cross?
    decreases |kids|
  {
    if |kids| > 2 { LeftDeepIsCross([Cross(kids[..2])] + kids[2..]); }
  }

  lemma ProcessNotOther(plan: Plan, done: set<nat>, next: nat)
    requires WellFormed(plan) && Core(plan)
    ensures !Process(plan, done, next).0.Other?
  {
    assert Core(Process(plan, done, next).0);
  }

  /** With OR, the part below the other nodes still delivers the same rows, possibly in another
      order. */
  lemma RewriteKeepsRows(w: World, plan: Plan, fromCount: nat, hasWhere: bool, next: nat)
    requires WellFormed(plan)
    ensures multiset(Rows(w, Body(Rewrite(plan, fromCount, hasWhere, next)))) == multiset(Rows(w, Body(plan)))
  {
    BodyIsCore(plan);
    var body := Body(plan);
    RewriteKeepsFilters(w, body, fromCount, hasWhere, next);
    CoreKeepsRows(w, body);
    CoreKeepsRows(w, Rewrite(body, fromCount, hasWhere, next));
    RewriteBody(plan, fromCount, hasWhere, next);
  }

  lemma RewriteBody(plan: Plan, fromCount: nat, hasWhere: bool, next: nat)
    requires WellFormed(plan) && WellFormed(Body(plan))
    ensures Body(Rewrite(plan, fromCount, hasWhere, next)) == Rewrite(Body(plan), fromCount, hasWhere, next)
  {
    var (p1, n1) := AndPass(plan, next);
    AndPassKeeps(plan, next);
    AndPassKeeps(Body(plan), next);
    PassesWorkOnBody(plan, next);
    var p2 := if fromCount >= 3 then CrossPass(p1) else p1;
    CrossPassKeeps(p1);
    CrossPassKeeps(Body(p1));
    PassesWorkOnBody(p1, n1);
    PassesWorkOnBody(p2, n1);
    PassesWorkOnBody(if hasWhere then Process(p2, {}, n1).0 else p2, n1);
  }

  // ---------- With OR the order can change ----------

  const T: Table := "t"

  /** Two rows; atom 0 holds of both, atom 1 of the second only, atom 2 of the first only.  The upper node
      is LIMIT 1. */
  function Example(): World {
    World(_ => [1, 2], (id: int, row: Row) => id == 0 || row == map[T := if id == 1 then 2 else 1],
          (_, rows) => if rows == [] then [] else rows[..1])
  }

  const BOTH := Atom(0, {T}, false)
  const EITHER := Or([Atom(1, {T}, false), Atom(2, {T}, false)])

  /** WHERE c AND (a OR b) */
  function ExamplePlan(): Plan { Select(0, And([BOTH, EITHER]), Access(T)) }

  lemma ExampleTruth(v: int)
    requires v == 1 || v == 2
    ensures Truth(Example(), Atom(1, {T}, false), map[T := v]) == (v == 2)
    ensures Truth(Example(), Atom(2, {T}, false), map[T := v]) == (v == 1)
    ensures Truth(Example(), BOTH, map[T := v])
  {
    var row: Row := map[T := v];
    assert Restrict(row, {T}) == row;
    assert row[T] == v;
  }

  lemma PairPositions(w: World, p: Pred, x: Row, y: Row)
    ensures Positions(w, p, [x, y], 0) ==
      (if Truth(w, p, x) then [0] else []) + (if Truth(w, p, y) then [1] else [])
  {
    assert Positions(w, p, [x, y], 2) == [];
    assert Positions(w, p, [x, y], 1) == (if Truth(w, p, y) then [1] else []);
  }

  /** The OR delivers the second row first. */
  lemma ExampleOr()
    ensures Eval(Example(), EITHER, [map[T := 1], map[T := 2]]) == [1, 0]
  {
    var w, a, b := Example(), Atom(1, {T}, false), Atom(2, {T}, false);
    var rows: seq<Row> := [map[T := 1], map[T := 2]];
    ExampleTruth(1);
    ExampleTruth(2);
    PairPositions(w, a, rows[0], rows[1]);
    PairPositions(w, b, rows[0], rows[1]);
    assert [a, b][1..] == [b] && [b][1..] == [];
    var results := EvalAll(w, [a, b], rows);
    assert Eval(w, a, rows) == [1] && Eval(w, b, rows) == [0];
    assert EvalAll(w, [b], rows) == [Eval(w, b, rows)];
    assert results == [Eval(w, a, rows)] + EvalAll(w, [a, b][1..], rows);
    assert results == [[1], [0]];
    var first: seq<seq<nat>> := [[1]];
    assert results[..1] == first && first[..0] == [];
    assert [1][1..] == [] && NotIn([1], []) == [1];
    assert Union(results[..1]) == [1];
    assert [0][1..] == [] && NotIn([0], [1]) == [0];
  }

  lemma ExampleRows()
    ensures Rows(Example(), Access(T)) == [map[T := 1], map[T := 2]]
    ensures Rows(Example(), ExamplePlan()) == [map[T := 1], map[T := 2]]
  {
    var w := Example();
    var rows: seq<Row> := [map[T := 1], map[T := 2]];
    assert [1, 2][1..] == [2] && [2][1..] == [];
    assert TableRows(T, [2]) == [rows[1]];
    ExampleTruth(1);
    ExampleTruth(2);
    PairPositions(w, BOTH, rows[0], rows[1]);
    ExampleOr();
    assert [BOTH, EITHER][1..] == [EITHER] && [EITHER][1..] == [];
    var results := EvalAll(w, [BOTH, EITHER], rows);
    assert Eval(w, BOTH, rows) == [0, 1] && Eval(w, EITHER, rows) == [1, 0];
    assert EvalAll(w, [EITHER], rows) == [Eval(w, EITHER, rows)];
    assert results == [Eval(w, BOTH, rows)] + EvalAll(w, [BOTH, EITHER][1..], rows);
    assert results == [[0, 1], [1, 0]];
    assert InAll(0, results) && InAll(1, results);
    assert [0, 1][1..] == [1] && [1][1..] == [];
    assert KeepIn([1], results) == [1];
    AtTwo(rows, 0, 1);
  }

  lemma AtTwo(rows: seq<Row>, i: nat, j: nat)
    requires i < |rows| && j < |rows|
    ensures At(rows, [i, j]) == [rows[i], rows[j]]
  {
    assert [i, j][1..] == [j] && [j][1..] == [];
    assert At(rows, [j]) == [rows[j]];
  }

  /** Both selections sink below each other in turn, which restores the chain. */
  lemma ExampleRewritten()
    ensures WellFormed(ExamplePlan())
    ensures Rewrite(ExamplePlan(), 1, true, 1) == Select(1, BOTH, Select(2, EITHER, Access(T)))
  {
    var access := Access(T);
    var chain := Select(1, BOTH, Select(2, EITHER, access));
    var swapped := Select(2, EITHER, Select(1, BOTH, access));
    assert Break(BOTH) == [BOTH] && Break(EITHER) == [EITHER];
    assert [BOTH, EITHER][1..] == [EITHER] && [EITHER][1..] == [];
    assert BreakAll([EITHER]) == [EITHER];
    assert Break(And([BOTH, EITHER])) == [BOTH, EITHER];
    assert Chain([EITHER], access, 2) == Select(2, EITHER, access);
    assert AndPass(ExamplePlan(), 1).0 == chain;
    ExampleProcess(access, chain, swapped, AndPass(ExamplePlan(), 1).1);
  }

  lemma ExampleProcess(access: Plan, chain: Plan, swapped: Plan, next: nat)
    requires access == Access(T) && chain == Select(1, BOTH, Select(2, EITHER, access)) && swapped == Select(2, EITHER, Select(1, BOTH, access))
    ensures Process(chain, {}, next).0 == chain
  {
    assert PushDown(1, BOTH, Select(2, EITHER, access), next) == (swapped, next);
    assert PushDown(2, EITHER, Select(1, BOTH, access), next) == (chain, next);
    assert Process(chain, {1, 2}, next) == (chain, {1, 2}, next);
    assert ProcessBelow(Select(2, EITHER, access), 2, {1, 2}, next) == (Select(2, EITHER, access), {1, 2}, next);
    assert ProcessBelow(chain, 2, {1, 2}, next) == (chain, {1, 2}, next);
    assert {1} + {2} == {1, 2} && {} + {1} == {1};
    assert Process(swapped, {1}, next) == (chain, {1, 2}, next);
    assert Process(Select(2, EITHER, access), {1, 2}, next) == (Select(2, EITHER, access), {1, 2}, next);
    assert ProcessBelow(chain, 1, {1, 2}, next) == (chain, {1, 2}, next);
  }

  /** Intersecting the results of c and (a OR b) keeps c's order; a chain of selections passes on the
      order of the OR. */
  lemma OrChangesOrder()
    ensures WellFormed(ExamplePlan())
    ensures Rows(Example(), Rewrite(ExamplePlan(), 1, true, 1)) == [map[T := 2], map[T := 1]]
    ensures Rows(Example(), ExamplePlan()) == [map[T := 1], map[T := 2]]
  {
    var w := Example();
    var rows: seq<Row> := [map[T := 1], map[T := 2]];
    ExampleRows();
    ExampleRewritten();
    ExampleOr();
    AtTwo(rows, 1, 0);
    ExampleTruth(1);
    ExampleTruth(2);
    var inner := [rows[1], rows[0]];
    PairPositions(w, BOTH, inner[0], inner[1]);
    AtTwo(inner, 0, 1);
    assert Rows(w, Select(2, EITHER, Access(T))) == inner;
  }

  /** Below a limit the order decides which rows are delivered: with LIMIT 1 it is another row. */
  lemma LimitDeliversOtherRows()
    ensures WellFormed(Other(0, ExamplePlan()))
    ensures Rows(Example(), Other(0, ExamplePlan())) == [map[T := 1]]
    ensures Rows(Example(), Rewrite(Other(0, ExamplePlan()), 1, true, 1)) == [map[T := 2]]
  {
    OrChangesOrder();
    var w, r := Example(), Rewrite(ExamplePlan(), 1, true, 1);
    assert Rewrite(Other(0, ExamplePlan()), 1, true, 1) == Other(0, r);
    assert Rows(w, Other(0, r)) == w.apply(0, Rows(w, r));
    assert Rows(w, Other(0, ExamplePlan())) == w.apply(0, Rows(w, ExamplePlan()));
  }
}
