/** What selections deliver: exactly the satisfying rows, in order as long as there is no OR. */
module PlanMeaning {
  import opened QueryPlans
  import opened ConcatMaps

  // ---------- Which positions a predicate delivers ----------

  ghost predicate Satisfies(w: World, p: Pred, rows: seq<Row>, k: nat) {
    k < |rows| && Truth(w, p, rows[k])
  }

  /** The positions listed are those of the satisfying rows, each once. */
  ghost predicate Selects(w: World, p: Pred, rows: seq<Row>, xs: seq<nat>) {
    NoRepeats(xs) && forall k: nat :: k in xs <==> Satisfies(w, p, rows, k)
  }

  lemma {:induction false} PositionsSelect(w: World, p: Pred, rows: seq<Row>, from: nat)
    ensures NoRepeats(Positions(w, p, rows, from))
    ensures forall k: nat :: k in Positions(w, p, rows, from) <==> from <= k && Satisfies(w, p, rows, k)
    decreases |rows| - from
  {
    if from < |rows| {
      PositionsSelect(w, p, rows, from + 1);
      Joined([from], Positions(w, p, rows, from + 1));
      assert [] + Positions(w, p, rows, from + 1) == Positions(w, p, rows, from + 1);
    }
  }

  lemma {:induction false} EvalSelects(w: World, p: Pred, rows: seq<Row>)
    ensures Selects(w, p, rows, Eval(w, p, rows))
    decreases p, 0
  {
    match p
    case Atom(_, _, _) => PositionsSelect(w, p, rows, 0);
    case And(kids) =>
      if kids != [] {
        EvalAllSelect(w, kids, rows);
        var results := EvalAll(w, kids, rows);
        KeepInMembers(results[0], results);
        forall k: nat ensures k in Eval(w, p, rows) <==> Satisfies(w, p, rows, k) {
          AllTrueIff(w, kids, rows, k);
        }
      }
    case Or(kids) =>
      EvalAllSelect(w, kids, rows);
      UnionMembers(EvalAll(w, kids, rows));
      forall k: nat ensures k in Eval(w, p, rows) <==> Satisfies(w, p, rows, k) {
        AnyTrueIff(w, kids, rows, k);
      }
  }

  lemma {:induction false} EvalAllSelect(w: World, ps: seq<Pred>, rows: seq<Row>)
    ensures forall i :: 0 <= i < |ps| ==> Selects(w, ps[i], rows, EvalAll(w, ps, rows)[i])
    decreases ps, 1
  {
    if ps != [] {
      EvalSelects(w, ps[0], rows);
      EvalAllSelect(w, ps[1..], rows);
      forall i | 0 <= i < |ps| ensures Selects(w, ps[i], rows, EvalAll(w, ps, rows)[i]) {
        if i > 0 { assert ps[i] == ps[1..][i - 1] && EvalAll(w, ps, rows)[i] == EvalAll(w, ps[1..], rows)[i - 1]; }
      }
    }
  }

  lemma {:induction false} AllTrueIff(w: World, ps: seq<Pred>, rows: seq<Row>, k: nat)
    ensures k < |rows| ==> (AllTrue(w, ps, rows[k]) <==> forall i :: 0 <= i < |ps| ==> Satisfies(w, ps[i], rows, k))
  {
    if k < |rows| && ps != [] {
      AllTrueIff(w, ps[1..], rows, k);
      assert forall i :: 0 < i < |ps| ==> ps[i] == ps[1..][i - 1];
      if AllTrue(w, ps, rows[k]) {
        forall i | 0 <= i < |ps| ensures Satisfies(w, ps[i], rows, k) {
          if i > 0 { assert Satisfies(w, ps[1..][i - 1], rows, k); }
        }
      }
      if forall i :: 0 <= i < |ps| ==> Satisfies(w, ps[i], rows, k) {
        assert Satisfies(w, ps[0], rows, k);
        forall i | 0 <= i < |ps[1..]| ensures Satisfies(w, ps[1..][i], rows, k) { assert Satisfies(w, ps[i + 1], rows, k); }
      }
    }
  }

  lemma {:induction false} AnyTrueIff(w: World, ps: seq<Pred>, rows: seq<Row>, k: nat)
    ensures k < |rows| ==> (AnyTrue(w, ps, rows[k]) <==> exists i :: 0 <= i < |ps| && Satisfies(w, ps[i], rows, k))
  {
    if k < |rows| && ps != [] {
      AnyTrueIff(w, ps[1..], rows, k);
      if AnyTrue(w, ps[1..], rows[k]) {
        var i :| 0 <= i < |ps[1..]| && Satisfies(w, ps[1..][i], rows, k);
        assert Satisfies(w, ps[i + 1], rows, k);
      }
      if Truth(w, ps[0], rows[k]) { assert Satisfies(w, ps[0], rows, k); }
      if i :| 0 <= i < |ps| && Satisfies(w, ps[i], rows, k) {
        if i > 0 { assert Satisfies(w, ps[1..][i - 1], rows, k); }
      }
    }
  }

  lemma {:induction false} KeepInMembers(xs: seq<nat>, results: seq<seq<nat>>)
    ensures forall k: nat :: k in KeepIn(xs, results) <==> k in xs && InAll(k, results)
    ensures NoRepeats(xs) ==> NoRepeats(KeepIn(xs, results))
  {
    if xs != [] {
      KeepInMembers(xs[1..], results);
      assert forall k: nat :: k in xs <==> k == xs[0] || k in xs[1..];
    }
  }

  lemma {:induction false} NotInMembers(xs: seq<nat>, before: seq<nat>)
    ensures forall k: nat :: k in NotIn(xs, before) <==> k in xs && k !in before
    ensures NoRepeats(xs) ==> NoRepeats(NotIn(xs, before))
  {
    if xs != [] {
      NotInMembers(xs[1..], before);
      assert forall k: nat :: k in xs <==> k == xs[0] || k in xs[1..];
    }
  }

  lemma {:induction false} UnionMembers(results: seq<seq<nat>>)
    ensures forall k: nat :: k in Union(results) <==> exists i :: 0 <= i < |results| && k in results[i]
    ensures (forall i :: 0 <= i < |results| ==> NoRepeats(results[i])) ==> NoRepeats(Union(results))
  {
    if results != [] {
      var n := |results| - 1;
      var before := Union(results[..n]);
      UnionMembers(results[..n]);
      NotInMembers(results[n], before);
      forall k: nat ensures k in Union(results) <==> exists i :: 0 <= i < |results| && k in results[i] {
        if k in before {
          var i :| 0 <= i < n && k in results[..n][i];
          assert k in results[i];
        }
        if i :| 0 <= i < |results| && k in results[i] {
          if i < n { assert k in results[..n][i]; }
        }
      }
      if forall i :: 0 <= i < |results| ==> NoRepeats(results[i]) {
        assert forall i :: 0 <= i < n ==> NoRepeats(results[..n][i]);
        Joined(before, NotIn(results[n], before));
      }
    }
  }

  lemma Joined(a: seq<nat>, b: seq<nat>)
    requires NoRepeats(a) && NoRepeats(b) && forall k :: k in b ==> k !in a
    ensures NoRepeats(a + b)
  {
    forall i, j | 0 <= i < j < |a + b| ensures (a + b)[i] != (a + b)[j] {
      if i < |a| <= j { assert b[j - |a|] in b && a[i] in a; }
    }
  }

  // ---------- Without OR the order is kept ----------

  lemma {:induction false} OrFreeKeepsOrder(w: World, p: Pred, rows: seq<Row>)
    requires OrFree(p)
    ensures Eval(w, p, rows) == Positions(w, p, rows, 0)
    decreases p
  {
    match p
    case Atom(_, _, _) =>
    case And(kids) =>
      if kids == [] {
        NoPositions(w, p, rows, 0);
      } else {
        OrFreeKeepsOrder(w, kids[0], rows);
        var results := EvalAll(w, kids, rows);
        EvalAllSelect(w, kids, rows);
        forall k: nat ensures InAll(k, results) <==> Satisfies(w, p, rows, k) {
          AllTrueIff(w, kids, rows, k);
          if InAll(k, results) { assert k in results[0] && Satisfies(w, kids[0], rows, k); }
        }
        KeepsOrder(w, kids[0], p, rows, 0, results);
      }
  }

  lemma {:induction false} NoPositions(w: World, p: Pred, rows: seq<Row>, from: nat)
    requires p == And([])
    ensures Positions(w, p, rows, from) == []
    decreases |rows| - from
  {
    if from < |rows| { NoPositions(w, p, rows, from + 1); }
  }

  lemma {:induction false} KeepsOrder(w: World, q: Pred, p: Pred, rows: seq<Row>, from: nat, results: seq<seq<nat>>)
    requires forall k: nat :: InAll(k, results) <==> Satisfies(w, p, rows, k)
    requires forall k: nat :: Satisfies(w, p, rows, k) ==> Satisfies(w, q, rows, k)
    ensures KeepIn(Positions(w, q, rows, from), results) == Positions(w, p, rows, from)
    decreases |rows| - from
  {
    if from < |rows| {
      KeepsOrder(w, q, p, rows, from + 1, results);
      assert InAll(from, results) <==> Satisfies(w, p, rows, from);
      var rest := Positions(w, q, rows, from + 1);
      if Truth(w, q, rows[from]) {
        assert ([from] + rest)[1..] == rest;
      } else {
        assert !Satisfies(w, q, rows, from);
        assert [] + rest == rest;
      }
      assert [] + Positions(w, p, rows, from + 1) == Positions(w, p, rows, from + 1);
    }
  }

  lemma {:induction false} PositionsFilter(w: World, p: Pred, rows: seq<Row>, from: nat)
    requires from <= |rows|
    ensures At(rows, Positions(w, p, rows, from)) == Filter(w, p, rows[from..])
    decreases |rows| - from
  {
    if from < |rows| {
      PositionsFilter(w, p, rows, from + 1);
      var rest := Positions(w, p, rows, from + 1);
      assert ([from] + rest)[1..] == rest && [] + rest == rest;
      assert rows[from..][1..] == rows[from + 1..];
      assert [] + Filter(w, p, rows[from + 1..]) == Filter(w, p, rows[from + 1..]);
    }
  }

  lemma SelectIsFilter(w: World, p: Pred, rows: seq<Row>)
    requires OrFree(p)
    ensures At(rows, Eval(w, p, rows)) == Filter(w, p, rows)
  {
    OrFreeKeepsOrder(w, p, rows);
    PositionsFilter(w, p, rows, 0);
    assert rows[0..] == rows;
  }

  /** A plan whose predicates have no OR delivers what plain filters deliver, in that order. */
  lemma {:induction false} OrFreePlan(w: World, plan: Plan)
    requires PlanOrFree(plan)
    ensures Rows(w, plan) == Filtered(w, plan)
    decreases plan, 0
  {
    match plan
    case Access(_) =>
    case Select(_, p, child) =>
      OrFreePlan(w, child);
      SelectIsFilter(w, p, Rows(w, child));
    case Cross(kids) => OrFreeKids(w, kids);
    case Join(p, kids) =>
      OrFreeKids(w, kids);
      SelectIsFilter(w, p, Product(KidRows(w, kids)));
    case Other(_, child) => OrFreePlan(w, child);
  }

  lemma {:induction false} OrFreeKids(w: World, plans: seq<Plan>)
    requires KidsOrFree(plans)
    ensures KidRows(w, plans) == KidFiltered(w, plans)
    decreases plans, 1
  {
    if plans != [] {
      OrFreePlan(w, plans[0]);
      OrFreeKids(w, plans[1..]);
    }
  }

  // ---------- With OR the rows are still the same ----------

  function AtOne(rows: seq<Row>): nat -> seq<Row> {
    (k: nat) => if k < |rows| then [rows[k]] else []
  }

  lemma {:induction false} AtIsConcatMap(rows: seq<Row>, xs: seq<nat>)
    ensures At(rows, xs) == ConcatMap(AtOne(rows), xs)
  {
    if xs != [] { AtIsConcatMap(rows, xs[1..]); }
  }

  function KeepOne(w: World, p: Pred): Row -> seq<Row> {
    (row: Row) => if Truth(w, p, row) then [row] else []
  }

  lemma {:induction false} FilterIsConcatMap(w: World, p: Pred, rows: seq<Row>)
    ensures Filter(w, p, rows) == ConcatMap(KeepOne(w, p), rows)
  {
    if rows != [] { FilterIsConcatMap(w, p, rows[1..]); }
  }

  function PairOne(row: Row): Row -> seq<Row> {
    (right: Row) => [row + right]
  }

  lemma {:induction false} ExtendIsConcatMap(row: Row, right: seq<Row>)
    ensures Extend(row, right) == ConcatMap(PairOne(row), right)
  {
    if right != [] { ExtendIsConcatMap(row, right[1..]); }
  }

  function ExtendOne(right: seq<Row>): Row -> seq<Row> {
    (row: Row) => Extend(row, right)
  }

  lemma {:induction false} PairsIsConcatMap(left: seq<Row>, right: seq<Row>)
    ensures Pairs(left, right) == ConcatMap(ExtendOne(right), left)
  {
    if left != [] { PairsIsConcatMap(left[1..], right); }
  }

  /** Whatever a predicate does to the order, it delivers the rows a plain filter delivers. */
  lemma SelectKeepsRows(w: World, p: Pred, rows: seq<Row>)
    ensures multiset(At(rows, Eval(w, p, rows))) == multiset(Filter(w, p, rows))
  {
    EvalSelects(w, p, rows);
    PositionsSelect(w, p, rows, 0);
    SameMembersSameCounts(Eval(w, p, rows), Positions(w, p, rows, 0));
    AtIsConcatMap(rows, Eval(w, p, rows));
    AtIsConcatMap(rows, Positions(w, p, rows, 0));
    Reordered(AtOne(rows), Eval(w, p, rows), Positions(w, p, rows, 0));
    PositionsFilter(w, p, rows, 0);
    assert rows[0..] == rows;
  }

  lemma FilterReordered(w: World, p: Pred, xs: seq<Row>, ys: seq<Row>)
    requires multiset(xs) == multiset(ys)
    ensures multiset(Filter(w, p, xs)) == multiset(Filter(w, p, ys))
  {
    FilterIsConcatMap(w, p, xs);
    FilterIsConcatMap(w, p, ys);
    Reordered(KeepOne(w, p), xs, ys);
  }

  lemma {:induction false} PairsReorderedRight(left: seq<Row>, xs: seq<Row>, ys: seq<Row>)
    requires multiset(xs) == multiset(ys)
    ensures multiset(Pairs(left, xs)) == multiset(Pairs(left, ys))
  {
    if left != [] {
      PairsReorderedRight(left[1..], xs, ys);
      ExtendIsConcatMap(left[0], xs);
      ExtendIsConcatMap(left[0], ys);
      Reordered(PairOne(left[0]), xs, ys);
    }
  }

  lemma PairsReordered(ls: seq<Row>, ls': seq<Row>, rs: seq<Row>, rs': seq<Row>)
    requires multiset(ls) == multiset(ls') && multiset(rs) == multiset(rs')
    ensures multiset(Pairs(ls, rs)) == multiset(Pairs(ls', rs'))
  {
    PairsIsConcatMap(ls, rs);
    PairsIsConcatMap(ls', rs);
    Reordered(ExtendOne(rs), ls, ls');
    PairsReorderedRight(ls', rs, rs');
  }

  lemma {:induction false} ProductReordered(xss: seq<seq<Row>>, yss: seq<seq<Row>>)
    requires |xss| == |yss| && forall i :: 0 <= i < |xss| ==> multiset(xss[i]) == multiset(yss[i])
    ensures multiset(Product(xss)) == multiset(Product(yss))
  {
    if xss != [] {
      var n := |xss| - 1;
      ProductReordered(xss[..n], yss[..n]);
      PairsReordered(Product(xss[..n]), Product(yss[..n]), xss[n], yss[n]);
    }
  }

  /** The selecting and combining part of any plan delivers the rows that plain filters deliver. */
  lemma {:induction false} CoreKeepsRows(w: World, plan: Plan)
    requires Core(plan)
    ensures multiset(Rows(w, plan)) == multiset(Filtered(w, plan))
    decreases plan, 0
  {
    match plan
    case Access(_) =>
    case Select(_, p, child) =>
      CoreKeepsRows(w, child);
      SelectKeepsRows(w, p, Rows(w, child));
      FilterReordered(w, p, Rows(w, child), Filtered(w, child));
    case Cross(kids) =>
      CoreKidsKeepRows(w, kids);
      ProductReordered(KidRows(w, kids), KidFiltered(w, kids));
    case Join(p, kids) =>
      CoreKidsKeepRows(w, kids);
      ProductReordered(KidRows(w, kids), KidFiltered(w, kids));
      SelectKeepsRows(w, p, Product(KidRows(w, kids)));
      FilterReordered(w, p, Product(KidRows(w, kids)), Product(KidFiltered(w, kids)));
  }

  lemma {:induction false} CoreKidsKeepRows(w: World, plans: seq<Plan>)
    requires AllCore(plans)
    ensures forall i :: 0 <= i < |plans| ==> multiset(KidRows(w, plans)[i]) == multiset(KidFiltered(w, plans)[i])
    decreases plans, 1
  {
    if plans != [] {
      CoreKeepsRows(w, plans[0]);
      CoreKidsKeepRows(w, plans[1..]);
    }
  }
}
