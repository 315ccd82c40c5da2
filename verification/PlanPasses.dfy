/** The four logical passes on plans.  A plan is rewritten as a value; node numbers stand for the
    identity of select nodes. */
module PlanPasses {
  import opened QueryPlans

  // ---------- AndPredicatePass ----------

  /** The conjuncts of a predicate, nested ANDs flattened. */
  function Break(p: Pred): (ps: seq<Pred>)
    ensures ps != []
    decreases p, 0
  {
    match p
    case And(kids) => if kids == [] then [p] else BreakAll(kids)
    case _ => [p]
  }

  function BreakAll(ps: seq<Pred>): (qs: seq<Pred>)
    ensures ps != [] ==> qs != []
    decreases ps, 1
  {
    if ps == [] then [] else Break(ps[0]) + BreakAll(ps[1..])
  }

  /** New select nodes, one below the other. */
  function Chain(ps: seq<Pred>, child: Plan, next: nat): Plan {
    if ps == [] then child else Select(next, ps[0], Chain(ps[1..], child, next + 1))
  }

  function AndPass(plan: Plan, next: nat): (Plan, nat)
    decreases plan, 0
  {
    match plan
    case Access(_) => (plan, next)
    case Select(_, p, child) =>
      var (c, n) := AndPass(child, next);
      (Chain(Break(p), c, n), n + |Break(p)|)
    case Cross(kids) => var (ks, n) := AndPassAll(kids, next); (Cross(ks), n)
    case Join(p, kids) => var (ks, n) := AndPassAll(kids, next); (Join(p, ks), n)
    case Other(op, child) => var (c, n) := AndPass(child, next); (Other(op, c), n)
  }

  function AndPassAll(plans: seq<Plan>, next: nat): (seq<Plan>, nat)
    decreases plans, 1
  {
    if plans == [] then ([], next) else
    var (c, n) := AndPass(plans[0], next);
    var (cs, m) := AndPassAll(plans[1..], n);
    ([c] + cs, m)
  }

  // ---------- CrossProductPass ----------

  /** While there are more than two children, the first two become a product of their own. */
  function LeftDeep(kids: seq<Plan>): Plan
    decreases |kids|
  {
    if |kids| <= 2 then Cross(kids) else LeftDeep([Cross(kids[..2])] + kids[2..])
  }

  function CrossPass(plan: Plan): Plan
    decreases plan, 0
  {
    match plan
    case Access(_) => plan
    case Select(n, p, child) => Select(n, p, CrossPass(child))
    case Cross(kids) => LeftDeep(CrossPassAll(kids))
    case Join(p, kids) => Join(p, CrossPassAll(kids))
    case Other(op, child) => Other(op, CrossPass(child))
  }

  function CrossPassAll(plans: seq<Plan>): (r: seq<Plan>)
    ensures |r| == |plans|
    decreases plans, 1
  {
    if plans == [] then [] else [CrossPass(plans[0])] + CrossPassAll(plans[1..])
  }

  // ---------- PushDownSelectionsPass ----------

  /** Whether the plan reads all tables of the predicate. */
  predicate Refers(plan: Plan, p: Pred) { PredTables(p) <= Tables(plan) }

  predicate SomeRefers(kids: seq<Plan>, p: Pred) { exists i :: 0 <= i < |kids| && Refers(kids[i], p) }

  /** Pushes select node n, which stands above c, as far down as it goes: it changes places with a
      select node and is copied above those children of a product or join that have its tables. */
  function PushDown(n: nat, p: Pred, c: Plan, next: nat): (Plan, nat)
    decreases c, 0
  {
    match c
    case Select(m, q, d) => var (d', next') := PushDown(n, p, d, next); (Select(m, q, d'), next')
    case Cross(kids) =>
      if SomeRefers(kids, p) then var (ks, next') := PushKids(p, kids, next); (Cross(ks), next')
      else (Select(n, p, c), next)
    case Join(q, kids) =>
      if SomeRefers(kids, p) then var (ks, next') := PushKids(p, kids, next); (Join(q, ks), next')
      else (Select(n, p, c), next)
    case _ => (Select(n, p, c), next)
  }

  function PushKids(p: Pred, kids: seq<Plan>, next: nat): (seq<Plan>, nat)
    decreases kids, 1
  {
    if kids == [] then ([], next) else
    var (k, n) := if Refers(kids[0], p) then PushDown(next, p, kids[0], next + 1) else (kids[0], next);
    var (ks, m) := PushKids(p, kids[1..], n);
    ([k] + ks, m)
  }

  /** Whether another node took the place of the select node. */
  predicate Moves(p: Pred, c: Plan) {
    match c
    case Select(_, _, _) => true
    case Cross(kids) => SomeRefers(kids, p)
    case Join(_, kids) => SomeRefers(kids, p)
    case _ => false
  }

  // ---------- How much is left to push ----------

  function Leaves(plan: Plan): nat
    decreases plan, 0
  {
    match plan
    case Access(_) => 1
    case Select(_, _, child) => Leaves(child)
    case Cross(kids) => LeavesOf(kids)
    case Join(_, kids) => LeavesOf(kids)
    case Other(_, child) => Leaves(child)
  }

  function LeavesOf(plans: seq<Plan>): nat
    decreases plans, 1
  {
    if plans == [] then 0 else Leaves(plans[0]) + LeavesOf(plans[1..])
  }

  function Size(plan: Plan): (n: nat)
    ensures n > 0
    decreases plan, 0
  {
    match plan
    case Access(_) => 1
    case Select(_, _, child) => 1 + Size(child)
    case Cross(kids) => 1 + SizeOf(kids)
    case Join(_, kids) => 1 + SizeOf(kids)
    case Other(_, child) => 1 + Size(child)
  }

  function SizeOf(plans: seq<Plan>): nat
    decreases plans, 1
  {
    if plans == [] then 0 else Size(plans[0]) + SizeOf(plans[1..])
  }

  /** What pushing a node over l leaves can leave to its copies is less than this. */
  function Burden(l: nat): nat { if l == 0 then 0 else 2 * l - 1 }

  /** The burden of the select nodes not yet pushed. */
  function Weight(plan: Plan, done: set<nat>): nat
    decreases plan, 0
  {
    match plan
    case Access(_) => 0
    case Select(n, _, child) => (if n in done then 0 else Burden(Leaves(child))) + Weight(child, done)
    case Cross(kids) => WeightOf(kids, done)
    case Join(_, kids) => WeightOf(kids, done)
    case Other(_, child) => Weight(child, done)
  }

  function WeightOf(plans: seq<Plan>, done: set<nat>): nat
    decreases plans, 1
  {
    if plans == [] then 0 else Weight(plans[0], done) + WeightOf(plans[1..], done)
  }

  lemma {:induction false} SomeLeaf(plan: Plan)
    requires WellFormed(plan)
    ensures Leaves(plan) > 0
    decreases plan, 0
  {
    match plan
    case Access(_) =>
    case Select(_, _, child) => SomeLeaf(child);
    case Cross(kids) => SomeLeaves(kids);
    case Join(_, kids) => SomeLeaves(kids);
    case Other(_, child) => SomeLeaf(child);
  }

  lemma {:induction false} SomeLeaves(plans: seq<Plan>)
    requires AllApart(plans)
    ensures LeavesOf(plans) >= |plans|
    decreases plans, 1
  {
    if plans != [] {
      SomeLeaf(plans[0]);
      SomeLeaves(plans[1..]);
    }
  }

  lemma {:induction false} LighterWhenDone(plan: Plan, done: set<nat>, done': set<nat>)
    requires done <= done'
    ensures Weight(plan, done') <= Weight(plan, done)
    decreases plan, 0
  {
    match plan
    case Access(_) =>
    case Select(_, _, child) => LighterWhenDone(child, done, done');
    case Cross(kids) => AllLighterWhenDone(kids, done, done');
    case Join(_, kids) => AllLighterWhenDone(kids, done, done');
    case Other(_, child) => LighterWhenDone(child, done, done');
  }

  lemma {:induction false} AllLighterWhenDone(plans: seq<Plan>, done: set<nat>, done': set<nat>)
    requires done <= done'
    ensures WeightOf(plans, done') <= WeightOf(plans, done)
    decreases plans, 1
  {
    if plans != [] {
      LighterWhenDone(plans[0], done, done');
      AllLighterWhenDone(plans[1..], done, done');
    }
  }

  /** Pushing keeps the leaves and the shape, and the copies weigh less than the node did. */
  lemma {:induction false} PushWeight(n: nat, p: Pred, c: Plan, next: nat, done: set<nat>)
    requires WellFormed(c) && Core(c)
    ensures var r := PushDown(n, p, c, next).0;
      && WellFormed(r) && Core(r) && Tables(r) == Tables(c) && Leaves(r) == Leaves(c)
      && Weight(r, done) <= Weight(c, done) + Burden(Leaves(c))
      && (n in done ==> Weight(r, done) < Weight(c, done) + Burden(Leaves(c)))
    decreases c, 0
  {
    SomeLeaf(c);
    match c
    case Select(m, q, d) => PushWeight(n, p, d, next, done);
    case Cross(kids) => if SomeRefers(kids, p) { PushKidsWeight(p, kids, next, done); }
    case Join(q, kids) => if SomeRefers(kids, p) { PushKidsWeight(p, kids, next, done); }
    case _ =>
  }

  lemma {:induction false} PushKidsWeight(p: Pred, kids: seq<Plan>, next: nat, done: set<nat>)
    requires AllApart(kids)
    ensures var r := PushKids(p, kids, next).0;
      && |r| == |kids| && AllApart(r) && AllCore(r) && TablesOf(r) == TablesOf(kids) && LeavesOf(r) == LeavesOf(kids)
      && WeightOf(r, done) + |kids| <= WeightOf(kids, done) + 2 * LeavesOf(kids)
    decreases kids, 1
  {
    if kids != [] {
      SomeLeaf(kids[0]);
      var (k, n) := if Refers(kids[0], p) then PushDown(next, p, kids[0], next + 1) else (kids[0], next);
      if Refers(kids[0], p) { PushWeight(next, p, kids[0], next + 1, done); }
      PushKidsWeight(p, kids[1..], n, done);
      var ks := PushKids(p, kids[1..], n).0;
      assert PushKids(p, kids, next).0 == [k] + ks && ([k] + ks)[1..] == ks;
    }
  }

  // ---------- The traversal ----------

  ghost predicate SameFrame(plan: Plan, r: Plan) {
    WellFormed(r) && Tables(r) == Tables(plan) && Leaves(r) == Leaves(plan) && (Core(plan) ==> Core(r))
  }

  /** Visits a node: an unvisited select node is pushed down, whatever took its place is visited, and
      then its children where it now stands. */
  function Process(plan: Plan, done: set<nat>, next: nat): (r: (Plan, set<nat>, nat))
    requires WellFormed(plan)
    ensures SameFrame(plan, r.0) && done <= r.1 && Weight(r.0, r.1) <= Weight(plan, done)
    decreases Weight(plan, done), Size(plan), 1
  {
    match plan
    case Access(_) => (plan, done, next)
    case Select(n, p, c) =>
      if n in done then (plan, done, next) else
      PushWeight(n, p, c, next, done + {n});
      LighterWhenDone(c, done, done + {n});
      var (t, next1) := PushDown(n, p, c, next);
      var (t2, done2, next2) := if Moves(p, c) then Process(t, done + {n}, next1) else (t, done + {n}, next1);
      ProcessBelow(t2, n, done2, next2)
    case Cross(kids) =>
      var (ks, d, m) := ProcessKids(kids, done, next);
      ApartCore(ks);
      (Cross(ks), d, m)
    case Join(p, kids) =>
      var (ks, d, m) := ProcessKids(kids, done, next);
      ApartCore(ks);
      (Join(p, ks), d, m)
    case Other(op, c) =>
      var (k, d, m) := Process(c, done, next);
      (Other(op, k), d, m)
  }

  function ProcessKids(plans: seq<Plan>, done: set<nat>, next: nat): (r: (seq<Plan>, set<nat>, nat))
    requires AllApart(plans)
    ensures |r.0| == |plans| && AllApart(r.0) && TablesOf(r.0) == TablesOf(plans) && LeavesOf(r.0) == LeavesOf(plans)
    ensures done <= r.1 && WeightOf(r.0, r.1) <= WeightOf(plans, done)
    decreases WeightOf(plans, done), SizeOf(plans), 2
  {
    if plans == [] then ([], done, next) else
    var (k, d, m) := Process(plans[0], done, next);
    AllLighterWhenDone(plans[1..], done, d);
    var (ks, d', m') := ProcessKids(plans[1..], d, m);
    LighterWhenDone(k, d, d');
    assert ([k] + ks)[1..] == ks;
    ([k] + ks, d', m')
  }

  /** Visits the children of select node n, wherever in the plan it is. */
  function ProcessBelow(plan: Plan, n: nat, done: set<nat>, next: nat): (r: (Plan, set<nat>, nat))
    requires WellFormed(plan)
    ensures SameFrame(plan, r.0) && done <= r.1 && Weight(r.0, r.1) <= Weight(plan, done)
    decreases Weight(plan, done), Size(plan), 0
  {
    match plan
    case Access(_) => (plan, done, next)
    case Select(m, p, c) =>
      var (k, d, m') := if m == n then Process(c, done, next) else ProcessBelow(c, n, done, next);
      (Select(m, p, k), d, m')
    case Cross(kids) =>
      var (ks, d, m) := ProcessBelowKids(kids, n, done, next);
      ApartCore(ks);
      (Cross(ks), d, m)
    case Join(p, kids) =>
      var (ks, d, m) := ProcessBelowKids(kids, n, done, next);
      ApartCore(ks);
      (Join(p, ks), d, m)
    case Other(op, c) =>
      var (k, d, m) := ProcessBelow(c, n, done, next);
      (Other(op, k), d, m)
  }

  function ProcessBelowKids(plans: seq<Plan>, n: nat, done: set<nat>, next: nat): (r: (seq<Plan>, set<nat>, nat))
    requires AllApart(plans)
    ensures |r.0| == |plans| && AllApart(r.0) && TablesOf(r.0) == TablesOf(plans) && LeavesOf(r.0) == LeavesOf(plans)
    ensures done <= r.1 && WeightOf(r.0, r.1) <= WeightOf(plans, done)
    decreases WeightOf(plans, done), SizeOf(plans), 2
  {
    if plans == [] then ([], done, next) else
    var (k, d, m) := ProcessBelow(plans[0], n, done, next);
    AllLighterWhenDone(plans[1..], done, d);
    var (ks, d', m') := ProcessBelowKids(plans[1..], n, d, m);
    LighterWhenDone(k, d, d');
    assert ([k] + ks)[1..] == ks;
    ([k] + ks, d', m')
  }

  lemma {:induction false} ApartCore(plans: seq<Plan>)
    requires AllApart(plans)
    ensures AllCore(plans)
  {
    if plans != [] { ApartCore(plans[1..]); }
  }

  // ---------- ImplicitJoinsPass ----------

  function JoinPass(plan: Plan): Plan
    decreases plan, 0
  {
    match plan
    case Access(_) => plan
    case Select(n, p, child) =>
      if p.Atom? && p.isJoin && child.Cross? then Join(p, JoinPassAll(child.kids)) else Select(n, p, JoinPass(child))
    case Cross(kids) => Cross(JoinPassAll(kids))
    case Join(p, kids) => Join(p, JoinPassAll(kids))
    case Other(op, child) => Other(op, JoinPass(child))
  }

  function JoinPassAll(plans: seq<Plan>): (r: seq<Plan>)
    ensures |r| == |plans|
    decreases plans, 1
  {
    if plans == [] then [] else [JoinPass(plans[0])] + JoinPassAll(plans[1..])
  }
}
