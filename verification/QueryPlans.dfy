/** Logical query plans and what they mean: sequences of rows. */
module QueryPlans {

  type Table = string
  type Value = int

  /** One value (a row of a table) for every table it comes from. */
  type Row = map<Table, Value>

  /** A value predicate or join predicate mentions some tables; AND and OR combine predicates. */
  datatype Pred = Atom(id: int, tables: set<Table>, isJoin: bool) | And(kids: seq<Pred>) | Or(kids: seq<Pred>)

  /** A select node has an identity of its own; Other stands for every node above the selections
      (limit, skip, project, order by, aggregation, group by). */
  datatype Plan =
    | Access(table: Table)
    | Select(node: nat, pred: Pred, child: Plan)
    | Cross(kids: seq<Plan>)
    | Join(pred: Pred, kids: seq<Plan>)
    | Other(op: int, child: Plan)

  /** Everything a plan's meaning depends on: table contents, the truth of the atoms (which see only
      the tables they mention), and what the other nodes do. */
  datatype World = World(rows: Table -> seq<Value>, holds: (int, Row) -> bool, apply: (int, seq<Row>) -> seq<Row>)

  // ---------- Predicates ----------

  function Restrict(row: Row, tables: set<Table>): Row {
    map t | t in row && t in tables :: row[t]
  }

  function PredTables(p: Pred): set<Table> {
    match p
    case Atom(_, tables, _) => tables
    case And(kids) => KidTables(kids)
    case Or(kids) => KidTables(kids)
  }

  function KidTables(ps: seq<Pred>): set<Table> {
    if ps == [] then {} else PredTables(ps[0]) + KidTables(ps[1..])
  }

  /** An AND or OR without children selects nothing, as intersecting or uniting no relations does. */
  function Truth(w: World, p: Pred, row: Row): bool {
    match p
    case Atom(id, tables, _) => w.holds(id, Restrict(row, tables))
    case And(kids) => kids != [] && AllTrue(w, kids, row)
    case Or(kids) => AnyTrue(w, kids, row)
  }

  function AllTrue(w: World, ps: seq<Pred>, row: Row): bool {
    ps == [] || (Truth(w, ps[0], row) && AllTrue(w, ps[1..], row))
  }

  function AnyTrue(w: World, ps: seq<Pred>, row: Row): bool {
    ps != [] && (Truth(w, ps[0], row) || AnyTrue(w, ps[1..], row))
  }

  /** Which entries a predicate selects, and in what order it delivers them: positions in rows.
      AND keeps the order of its first child's result, OR appends what each child adds. */
  function Eval(w: World, p: Pred, rows: seq<Row>): seq<nat>
    decreases p, 0
  {
    match p
    case Atom(_, _, _) => Positions(w, p, rows, 0)
    case And(kids) => if kids == [] then [] else Common(EvalAll(w, kids, rows))
    case Or(kids) => Union(EvalAll(w, kids, rows))
  }

  function EvalAll(w: World, ps: seq<Pred>, rows: seq<Row>): (r: seq<seq<nat>>)
    ensures |r| == |ps|
    decreases ps, 1
  {
    if ps == [] then [] else [Eval(w, ps[0], rows)] + EvalAll(w, ps[1..], rows)
  }

  function Positions(w: World, p: Pred, rows: seq<Row>, from: nat): seq<nat>
    decreases |rows| - from
  {
    if from >= |rows| then [] else
    (if Truth(w, p, rows[from]) then [from] else []) + Positions(w, p, rows, from + 1)
  }

  /** Relation.intersect: the entries that are in all results, in the order of the first. */
  function Common(results: seq<seq<nat>>): seq<nat>
    requires results != []
  {
    KeepIn(results[0], results)
  }

  function KeepIn(xs: seq<nat>, results: seq<seq<nat>>): seq<nat> {
    if xs == [] then [] else (if InAll(xs[0], results) then [xs[0]] else []) + KeepIn(xs[1..], results)
  }

  predicate InAll(x: nat, results: seq<seq<nat>>) {
    forall i :: 0 <= i < |results| ==> x in results[i]
  }

  /** Relation.union: each result adds the entries not yet there. */
  function Union(results: seq<seq<nat>>): seq<nat> {
    if results == [] then [] else
    var before := Union(results[..|results| - 1]);
    before + NotIn(results[|results| - 1], before)
  }

  function NotIn(xs: seq<nat>, before: seq<nat>): seq<nat> {
    if xs == [] then [] else (if xs[0] !in before then [xs[0]] else []) + NotIn(xs[1..], before)
  }

  function At(rows: seq<Row>, positions: seq<nat>): seq<Row> {
    if positions == [] then [] else
    (if positions[0] < |rows| then [rows[positions[0]]] else []) + At(rows, positions[1..])
  }

  function Filter(w: World, p: Pred, rows: seq<Row>): seq<Row> {
    if rows == [] then [] else (if Truth(w, p, rows[0]) then [rows[0]] else []) + Filter(w, p, rows[1..])
  }

  // ---------- Plans ----------

  function TableRows(table: Table, values: seq<Value>): seq<Row> {
    if values == [] then [] else [map[table := values[0]]] + TableRows(table, values[1..])
  }

  function Extend(row: Row, right: seq<Row>): seq<Row> {
    if right == [] then [] else [row + right[0]] + Extend(row, right[1..])
  }

  /** The cross product of two relations, the left one varying slowest. */
  function Pairs(left: seq<Row>, right: seq<Row>): seq<Row> {
    if left == [] then [] else Extend(left[0], right) + Pairs(left[1..], right)
  }

  function Product(lists: seq<seq<Row>>): seq<Row> {
    if lists == [] then [map[]] else Pairs(Product(lists[..|lists| - 1]), lists[|lists| - 1])
  }

  /** The rows a plan delivers, in order. */
  function Rows(w: World, plan: Plan): seq<Row>
    decreases plan, 0
  {
    match plan
    case Access(table) => TableRows(table, w.rows(table))
    case Select(_, p, child) => At(Rows(w, child), Eval(w, p, Rows(w, child)))
    case Cross(kids) => Product(KidRows(w, kids))
    case Join(p, kids) => At(Product(KidRows(w, kids)), Eval(w, p, Product(KidRows(w, kids))))
    case Other(op, child) => w.apply(op, Rows(w, child))
  }

  function KidRows(w: World, plans: seq<Plan>): (r: seq<seq<Row>>)
    ensures |r| == |plans|
    decreases plans, 1
  {
    if plans == [] then [] else [Rows(w, plans[0])] + KidRows(w, plans[1..])
  }

  /** The same with every selection a plain filter. */
  function Filtered(w: World, plan: Plan): seq<Row>
    decreases plan, 0
  {
    match plan
    case Access(table) => TableRows(table, w.rows(table))
    case Select(_, p, child) => Filter(w, p, Filtered(w, child))
    case Cross(kids) => Product(KidFiltered(w, kids))
    case Join(p, kids) => Filter(w, p, Product(KidFiltered(w, kids)))
    case Other(op, child) => w.apply(op, Filtered(w, child))
  }

  function KidFiltered(w: World, plans: seq<Plan>): (r: seq<seq<Row>>)
    ensures |r| == |plans|
    decreases plans, 1
  {
    if plans == [] then [] else [Filtered(w, plans[0])] + KidFiltered(w, plans[1..])
  }

  function Tables(plan: Plan): set<Table>
    decreases plan, 0
  {
    match plan
    case Access(table) => {table}
    case Select(_, _, child) => Tables(child)
    case Cross(kids) => TablesOf(kids)
    case Join(_, kids) => TablesOf(kids)
    case Other(_, child) => Tables(child)
  }

  function TablesOf(plans: seq<Plan>): set<Table>
    decreases plans, 1
  {
    if plans == [] then {} else Tables(plans[0]) + TablesOf(plans[1..])
  }

  /** Distinct tables, no product of fewer than two, other nodes only above. */
  predicate WellFormed(plan: Plan)
    decreases plan, 0
  {
    match plan
    case Access(_) => true
    case Select(_, _, child) => WellFormed(child) && Core(child)
    case Cross(kids) => |kids| > 1 && AllApart(kids)
    case Join(_, kids) => |kids| > 1 && AllApart(kids)
    case Other(_, child) => WellFormed(child)
  }

  predicate AllApart(plans: seq<Plan>)
    decreases plans, 1
  {
    plans == [] || (WellFormed(plans[0]) && Core(plans[0]) && Tables(plans[0]) !! TablesOf(plans[1..]) && AllApart(plans[1..]))
  }

  /** The part of a plan that only selects and combines. */
  predicate Core(plan: Plan)
    decreases plan, 0
  {
    match plan
    case Access(_) => true
    case Select(_, _, child) => Core(child)
    case Cross(kids) => AllCore(kids)
    case Join(_, kids) => AllCore(kids)
    case Other(_, _) => false
  }

  predicate AllCore(plans: seq<Plan>)
    decreases plans, 1
  {
    plans == [] || (Core(plans[0]) && AllCore(plans[1..]))
  }

  // ---------- When a predicate is a plain filter ----------

  predicate OrFree(p: Pred) {
    match p
    case Atom(_, _, _) => true
    case And(kids) => AllOrFree(kids)
    case Or(_) => false
  }

  predicate AllOrFree(ps: seq<Pred>) {
    ps == [] || (OrFree(ps[0]) && AllOrFree(ps[1..]))
  }

  predicate PlanOrFree(plan: Plan)
    decreases plan, 0
  {
    match plan
    case Access(_) => true
    case Select(_, p, child) => OrFree(p) && PlanOrFree(child)
    case Cross(kids) => KidsOrFree(kids)
    case Join(p, kids) => OrFree(p) && KidsOrFree(kids)
    case Other(_, child) => PlanOrFree(child)
  }

  predicate KidsOrFree(plans: seq<Plan>)
    decreases plans, 1
  {
    plans == [] || (PlanOrFree(plans[0]) && KidsOrFree(plans[1..]))
  }
}
