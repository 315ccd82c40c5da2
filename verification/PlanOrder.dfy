/** What the rewriter does to the order of the rows when a predicate has OR. */
module PlanOrder {
  import opened QueryPlans
  import opened PlanMeaning
  import opened PlanPasses
  import opened PlanRewriter

  // ---------- A selection row by row ----------

  function Keep(f: Row -> bool, rows: seq<Row>): seq<Row> {
    if rows == [] then [] else (if f(rows[0]) then [rows[0]] else []) + Keep(f, rows[1..])
  }

  function IsTrue(w: World, p: Pred): Row -> bool { (row: Row) => Truth(w, p, row) }

  function NoneTrue(w: World, ps: seq<Pred>): Row -> bool { (row: Row) => !AnyTrue(w, ps, row) }

  /** The rows in the order a selection delivers them: AND filters what its first child delivers, OR
      appends what each child adds. */
  function Delivered(w: World, p: Pred, rows: seq<Row>): seq<Row>
    decreases p, 0
  {
    match p
    case Atom(_, _, _) => Keep(IsTrue(w, p), rows)
    case And(kids) => if kids == [] then [] else Keep(IsTrue(w, p), Delivered(w, kids[0], rows))
    case Or(kids) => DeliveredByAny(w, kids, rows)
  }

  function DeliveredByAny(w: World, ps: seq<Pred>, rows: seq<Row>): seq<Row>
    decreases ps, 1
  {
    if ps == [] then [] else
    var n := |ps| - 1;
    DeliveredByAny(w, ps[..n], rows) + Keep(NoneTrue(w, ps[..n]), Delivered(w, ps[n], rows))
  }

  lemma {:induction false} KeepIsFilter(w: World, p: Pred, rows: seq<Row>)
    ensures Keep(IsTrue(w, p), rows) == Filter(w, p, rows)
  {
    if rows != [] { KeepIsFilter(w, p, rows[1..]); }
  }

  lemma KeepFirst(f: Row -> bool, rows: seq<Row>)
    requires rows != []
    ensures Keep(f, rows) == (if f(rows[0]) then [rows[0]] else []) + Keep(f, rows[1..])
  {
  }

  lemma Regroup<T>(a: seq<T>, b: seq<T>, c: seq<T>)
    ensures a + (b + c) == a + b + c
  {
  }

  lemma {:induction false} KeepConcat(f: Row -> bool, a: seq<Row>, b: seq<Row>)
    ensures Keep(f, a + b) == Keep(f, a) + Keep(f, b)
  {
    if a == [] {
      assert a + b == b;
    } else {
      hide Keep;
      KeepConcat(f, a[1..], b);
      assert (a + b)[1..] == a[1..] + b;
      KeepFirst(f, a);
      KeepFirst(f, a + b);
      Regroup(if f(a[0]) then [a[0]] else [], Keep(f, a[1..]), Keep(f, b));
    }
  }

  lemma {:induction false} KeepsCommute(f: Row -> bool, g: Row -> bool, rows: seq<Row>)
    ensures Keep(f, Keep(g, rows)) == Keep(g, Keep(f, rows))
  {
    if rows != [] {
      KeepsCommute(f, g, rows[1..]);
      var one := [rows[0]];
      assert one[1..] == [];
      KeepConcat(f, if g(rows[0]) then one else [], Keep(g, rows[1..]));
      KeepConcat(g, if f(rows[0]) then one else [], Keep(f, rows[1..]));
    }
  }

  lemma {:induction false} KeepAll(f: Row -> bool, rows: seq<Row>)
    requires forall row :: row in rows ==> f(row)
    ensures Keep(f, rows) == rows
  {
    if rows != [] {
      assert rows[0] in rows;
      KeepAll(f, rows[1..]);
    }
  }

  lemma {:induction false} KeepMembers(f: Row -> bool, rows: seq<Row>)
    ensures forall row :: row in Keep(f, rows) <==> row in rows && f(row)
  {
    if rows != [] { KeepMembers(f, rows[1..]); }
  }

  // ---------- It is what the positions say ----------

  lemma AtFirst(rows: seq<Row>, xs: seq<nat>)
    requires xs != []
    ensures At(rows, xs) == (if xs[0] < |rows| then [rows[xs[0]]] else []) + At(rows, xs[1..])
  {
  }

  lemma {:induction false} AtConcat(rows: seq<Row>, a: seq<nat>, b: seq<nat>)
    ensures At(rows, a + b) == At(rows, a) + At(rows, b)
  {
    if a == [] {
      assert a + b == b;
    } else {
      hide At;
      AtConcat(rows, a[1..], b);
      assert (a + b)[1..] == a[1..] + b;
      AtFirst(rows, a);
      AtFirst(rows, a + b);
      Regroup(if a[0] < |rows| then [rows[a[0]]] else [], At(rows, a[1..]), At(rows, b));
    }
  }

  lemma {:induction false} KeepInRows(f: Row -> bool, rows: seq<Row>, xs: seq<nat>, results: seq<seq<nat>>)
    requires forall k :: k in xs ==> k < |rows| && (InAll(k, results) <==> f(rows[k]))
    ensures At(rows, KeepIn(xs, results)) == Keep(f, At(rows, xs))
  {
    if xs != [] {
      assert forall k :: k in xs[1..] ==> k in xs;
      KeepInRows(f, rows, xs[1..], results);
      assert xs[0] in xs;
      AtConcat(rows, if InAll(xs[0], results) then [xs[0]] else [], KeepIn(xs[1..], results));
      assert [xs[0]][1..] == [];
    }
  }

  lemma {:induction false} NotInRows(f: Row -> bool, rows: seq<Row>, xs: seq<nat>, before: seq<nat>)
    requires forall k :: k in xs ==> k < |rows| && (k !in before <==> f(rows[k]))
    ensures At(rows, NotIn(xs, before)) == Keep(f, At(rows, xs))
  {
    if xs != [] {
      assert forall k :: k in xs[1..] ==> k in xs;
      NotInRows(f, rows, xs[1..], before);
      assert xs[0] in xs;
      AtConcat(rows, if xs[0] !in before then [xs[0]] else [], NotIn(xs[1..], before));
      assert [xs[0]][1..] == [];
    }
  }

  lemma {:induction false} EvalAllAt(w: World, ps: seq<Pred>, rows: seq<Row>)
    ensures forall i :: 0 <= i < |ps| ==> EvalAll(w, ps, rows)[i] == Eval(w, ps[i], rows)
  {
    if ps != [] { EvalAllAt(w, ps[1..], rows); }
  }

  /** A selection's result without positions. */
  lemma {:induction false} SelectDelivers(w: World, p: Pred, rows: seq<Row>)
    ensures At(rows, Eval(w, p, rows)) == Delivered(w, p, rows)
    decreases p, 0
  {
    match p
    case Atom(_, _, _) =>
      SelectIsFilter(w, p, rows);
      KeepIsFilter(w, p, rows);
    case And(kids) =>
      if kids != [] {
        var results := EvalAll(w, kids, rows);
        SelectDelivers(w, kids[0], rows);
        EvalAllSelect(w, kids, rows);
        forall k | k in results[0] ensures k < |rows| && (InAll(k, results) <==> IsTrue(w, p)(rows[k])) {
          assert Satisfies(w, kids[0], rows, k);
          AllTrueIff(w, kids, rows, k);
        }
        KeepInRows(IsTrue(w, p), rows, results[0], results);
      }
    case Or(kids) => UnionDelivers(w, kids, rows);
  }

  lemma {:induction false} UnionDelivers(w: World, ps: seq<Pred>, rows: seq<Row>)
    ensures At(rows, Union(EvalAll(w, ps, rows))) == DeliveredByAny(w, ps, rows)
    decreases ps, 1
  {
    if ps != [] {
      var n := |ps| - 1;
      var before := Union(EvalAll(w, ps[..n], rows));
      var last := Eval(w, ps[n], rows);
      UnionDelivers(w, ps[..n], rows);
      SelectDelivers(w, ps[n], rows);
      EvalAllAt(w, ps, rows);
      EvalAllAt(w, ps[..n], rows);
      assert EvalAll(w, ps, rows)[..n] == EvalAll(w, ps[..n], rows);
      EvalSelects(w, ps[n], rows);
      EvalSelects(w, Or(ps[..n]), rows);
      forall k | k in last ensures k < |rows| && (k !in before <==> NoneTrue(w, ps[..n])(rows[k])) {
        assert Satisfies(w, ps[n], rows, k);
        assert k in before <==> Satisfies(w, Or(ps[..n]), rows, k);
      }
      NotInRows(NoneTrue(w, ps[..n]), rows, last, before);
      AtConcat(rows, before, NotIn(last, before));
    }
  }

  // ---------- Laws of delivery ----------

  lemma DeliveredMembers(w: World, p: Pred, rows: seq<Row>)
    ensures forall row :: row in Delivered(w, p, rows) <==> row in rows && Truth(w, p, row)
  {
    SelectDelivers(w, p, rows);
    SelectKeepsRows(w, p, rows);
    KeepIsFilter(w, p, rows);
    KeepMembers(IsTrue(w, p), rows);
    forall row ensures row in Delivered(w, p, rows) <==> row in Keep(IsTrue(w, p), rows) {
      assert row in Delivered(w, p, rows) <==> row in multiset(Delivered(w, p, rows));
      assert row in Filter(w, p, rows) <==> row in multiset(Filter(w, p, rows));
    }
  }

  /** Filtering before or after a selection, whatever order that delivers, is the same. */
  lemma {:induction false} KeepDelivered(f: Row -> bool, w: World, p: Pred, rows: seq<Row>)
    ensures Keep(f, Delivered(w, p, rows)) == Delivered(w, p, Keep(f, rows))
    decreases p, 0
  {
    match p
    case Atom(_, _, _) => KeepsCommute(f, IsTrue(w, p), rows);
    case And(kids) =>
      if kids != [] {
        KeepDelivered(f, w, kids[0], rows);
        KeepsCommute(f, IsTrue(w, p), Delivered(w, kids[0], rows));
      }
    case Or(kids) => KeepDeliveredByAny(f, w, kids, rows);
  }

  lemma {:induction false} KeepDeliveredByAny(f: Row -> bool, w: World, ps: seq<Pred>, rows: seq<Row>)
    ensures Keep(f, DeliveredByAny(w, ps, rows)) == DeliveredByAny(w, ps, Keep(f, rows))
    decreases ps, 1
  {
    if ps != [] {
      var n := |ps| - 1;
      var none := NoneTrue(w, ps[..n]);
      KeepDeliveredByAny(f, w, ps[..n], rows);
      KeepDelivered(f, w, ps[n], rows);
      KeepsCommute(f, none, Delivered(w, ps[n], rows));
      KeepConcat(f, DeliveredByAny(w, ps[..n], rows), Keep(none, Delivered(w, ps[n], rows)));
    }
  }

  lemma OrFreeDelivers(w: World, p: Pred, rows: seq<Row>)
    requires OrFree(p)
    ensures Delivered(w, p, rows) == Filter(w, p, rows)
  {
    SelectDelivers(w, p, rows);
    SelectIsFilter(w, p, rows);
  }

  /** The first conjunct alone decides the order. */
  lemma {:induction false} FirstConjunctLeads(w: World, p: Pred, rows: seq<Row>)
    ensures Delivered(w, p, rows) == Keep(IsTrue(w, p), Delivered(w, Break(p)[0], rows))
    decreases p
  {
    match p
    case And(kids) =>
      if kids == [] {
        KeepAll(IsTrue(w, p), []);
      } else {
        FirstConjunctLeads(w, kids[0], rows);
        assert Break(p)[0] == Break(kids[0])[0];
        assert forall row :: Truth(w, p, row) ==> AllTrue(w, kids, row) && Truth(w, kids[0], row);
        KeepBoth(IsTrue(w, p), IsTrue(w, kids[0]), Delivered(w, Break(kids[0])[0], rows));
      }
    case _ =>
      DeliveredMembers(w, p, rows);
      KeepAll(IsTrue(w, p), Delivered(w, p, rows));
  }

  lemma {:induction false} KeepBoth(f: Row -> bool, g: Row -> bool, rows: seq<Row>)
    requires forall row :: f(row) ==> g(row)
    ensures Keep(f, Keep(g, rows)) == Keep(f, rows)
  {
    if rows != [] {
      KeepBoth(f, g, rows[1..]);
      assert [rows[0]][1..] == [];
      KeepConcat(f, if g(rows[0]) then [rows[0]] else [], Keep(g, rows[1..]));
    }
  }

  // ---------- Which rows an OR leaves where they are ----------

  /** The first alternative that holds. */
  function First(w: World, ps: seq<Pred>, row: Row): (i: nat)
    ensures i <= |ps| && (i < |ps| ==> Truth(w, ps[i], row))
    ensures forall j :: 0 <= j < i ==> !Truth(w, ps[j], row)
  {
    if ps == [] || Truth(w, ps[0], row) then 0 else
    var i := First(w, ps[1..], row);
    assert forall j :: 0 < j <= i ==> ps[j] == ps[1..][j - 1] || j == |ps|;
    i + 1
  }

  /** Row b is not preferred to row a: an OR prefers earlier alternatives, an AND leaves it to its first
      conjunct, an atom has no preference. */
  predicate NotPreferred(w: World, p: Pred, b: Row, a: Row) {
    match p
    case Atom(_, _, _) => true
    case And(kids) => kids == [] || NotPreferred(w, kids[0], b, a)
    case Or(kids) =>
      var i, j := First(w, kids, a), First(w, kids, b);
      i < j || (i == j && (i < |kids| ==> NotPreferred(w, kids[i], b, a)))
  }

  /** No row comes after one to which it is preferred. */
  ghost predicate NeverPreferred(w: World, p: Pred, rows: seq<Row>) {
    forall i, j :: 0 <= i < j < |rows| ==> NotPreferred(w, p, rows[j], rows[i])
  }

  ghost predicate Partitioned(f: Row -> bool, rows: seq<Row>) {
    forall i, j :: 0 <= i < j < |rows| && f(rows[j]) ==> f(rows[i])
  }

  function Negated(f: Row -> bool): Row -> bool { (row: Row) => !f(row) }

  lemma {:induction false} PartitionedSplits(f: Row -> bool, rows: seq<Row>)
    requires Partitioned(f, rows)
    ensures Keep(f, rows) + Keep(Negated(f), rows) == rows
  {
    hide Keep;
    if rows == [] {
      KeepAll(f, rows);
      KeepAll(Negated(f), rows);
    } else {
      var rest := rows[1..];
      if f(rows[0]) {
        forall i, j | 0 <= i < j < |rest| && f(rest[j]) ensures f(rest[i]) { assert f(rows[j + 1]) && f(rows[i + 1]); }
        PartitionedSplits(f, rest);
        KeepFirst(f, rows);
        KeepFirst(Negated(f), rows);
        Regroup([rows[0]], Keep(f, rest), Keep(Negated(f), rest));
        assert [] + Keep(Negated(f), rest) == Keep(Negated(f), rest) && [rows[0]] + rest == rows;
      } else {
        assert forall j :: 0 <= j < |rows| ==> !f(rows[j]);
        NoneKept(f, rows);
        KeepAll(Negated(f), rows);
        assert [] + rows == rows;
      }
    }
  }

  lemma PartitionedIff(f: Row -> bool, rows: seq<Row>)
    ensures Keep(f, rows) + Keep(Negated(f), rows) == rows <==> Partitioned(f, rows)
  {
    var xs, ys := Keep(f, rows), Keep(Negated(f), rows);
    KeepMembers(f, rows);
    KeepMembers(Negated(f), rows);
    if Partitioned(f, rows) { PartitionedSplits(f, rows); }
    if xs + ys == rows {
      forall j | |xs| <= j < |rows| ensures !f(rows[j]) { assert rows[j] == ys[j - |xs|] && ys[j - |xs|] in ys; }
      forall i, j | 0 <= i < j < |rows| && f(rows[j]) ensures f(rows[i]) { assert rows[i] == xs[i] && xs[i] in xs; }
    }
  }

  /** Two blocks make up the rows exactly if they are the two kinds of rows, and these stand apart. */
  lemma BlocksIff(f: Row -> bool, rows: seq<Row>, xs: seq<Row>, ys: seq<Row>)
    requires (forall row :: row in xs ==> f(row)) && (forall row :: row in ys ==> !f(row))
    ensures xs + ys == rows <==> xs == Keep(f, rows) && ys == Keep(Negated(f), rows) && Partitioned(f, rows)
  {
    PartitionedIff(f, rows);
    if xs + ys == rows {
      KeepConcat(f, xs, ys);
      KeepConcat(Negated(f), xs, ys);
      KeepAll(f, xs);
      KeepAll(Negated(f), ys);
      NoneKept(f, ys);
      NoneKept(Negated(f), xs);
      assert xs + [] == xs && [] + ys == ys;
    }
  }

  /** Alternatives below k are preferred to alternative k: a preference over the rows of both kinds is one
      over each kind, with the preferred kind first. */
  lemma NeverPreferredIff(w: World, p: Pred, f: Row -> bool, rows: seq<Row>)
    requires forall a, b :: a in rows && b in rows && f(a) && !f(b) ==> NotPreferred(w, p, b, a) && !NotPreferred(w, p, a, b)
    ensures NeverPreferred(w, p, rows) <==>
      Partitioned(f, rows) && NeverPreferred(w, p, Keep(f, rows)) && NeverPreferred(w, p, Keep(Negated(f), rows))
  {
    hide NeverPreferred, NotPreferred, Keep;
    var xs, ys := Keep(f, rows), Keep(Negated(f), rows);
    PartitionedIff(f, rows);
    KeepMembers(f, rows);
    KeepMembers(Negated(f), rows);
    if NeverPreferred(w, p, rows) {
      ThenPartitioned(w, p, f, rows);
      BlocksPreferred(w, p, xs, ys);
    }
    if Partitioned(f, rows) && NeverPreferred(w, p, xs) && NeverPreferred(w, p, ys) {
      BlocksPreferred(w, p, xs, ys);
    }
  }

  lemma ThenPartitioned(w: World, p: Pred, f: Row -> bool, rows: seq<Row>)
    requires forall a, b :: a in rows && b in rows && f(a) && !f(b) ==> !NotPreferred(w, p, a, b)
    requires NeverPreferred(w, p, rows)
    ensures Partitioned(f, rows)
  {
    hide NotPreferred;
    forall i, j | 0 <= i < j < |rows| && f(rows[j]) ensures f(rows[i]) {
      assert NotPreferred(w, p, rows[j], rows[i]) && rows[i] in rows && rows[j] in rows;
    }
  }

  lemma BlocksPreferred(w: World, p: Pred, xs: seq<Row>, ys: seq<Row>)
    requires forall a, b :: a in xs && b in ys ==> NotPreferred(w, p, b, a)
    ensures NeverPreferred(w, p, xs + ys) <==> NeverPreferred(w, p, xs) && NeverPreferred(w, p, ys)
  {
    hide NotPreferred;
    var rows := xs + ys;
    if NeverPreferred(w, p, rows) {
      forall i, j | 0 <= i < j < |xs| ensures NotPreferred(w, p, xs[j], xs[i]) {
        assert rows[i] == xs[i] && rows[j] == xs[j];
      }
      forall i, j | 0 <= i < j < |ys| ensures NotPreferred(w, p, ys[j], ys[i]) {
        assert rows[|xs| + i] == ys[i] && rows[|xs| + j] == ys[j];
      }
    }
    if NeverPreferred(w, p, xs) && NeverPreferred(w, p, ys) {
      forall i, j | 0 <= i < j < |rows| ensures NotPreferred(w, p, rows[j], rows[i]) {
        if i < |xs| <= j {
          assert xs[i] in xs && ys[j - |xs|] in ys;
        } else if i >= |xs| {
          assert rows[i] == ys[i - |xs|] && rows[j] == ys[j - |xs|];
        }
      }
    }
  }

  lemma AnyBelow(w: World, ps: seq<Pred>, k: nat, row: Row)
    requires k <= |ps|
    ensures AnyTrue(w, ps[..k], row) <==> First(w, ps, row) < k
  {
    AnyTrueIff(w, ps[..k], [row], 0);
    var i := First(w, ps, row);
    if i < k { assert ps[..k][i] == ps[i] && Satisfies(w, ps[..k][i], [row], 0); }
    if j :| 0 <= j < k && Satisfies(w, ps[..k][j], [row], 0) { assert Truth(w, ps[j], row); }
  }

  /** A selection leaves satisfying rows where they are exactly if none comes after one to which it is
      preferred. */
  lemma {:induction false} UnmovedIff(w: World, p: Pred, rows: seq<Row>)
    requires forall row :: row in rows ==> Truth(w, p, row)
    ensures Delivered(w, p, rows) == rows <==> NeverPreferred(w, p, rows)
    decreases p, 0
  {
    match p
    case Atom(_, _, _) => KeepAll(IsTrue(w, p), rows);
    case And(kids) =>
      DeliveredMembers(w, p, rows);
      assert Delivered(w, p, rows) == [] || Delivered(w, p, rows)[0] in Delivered(w, p, rows);
      if rows != [] {
        assert rows[0] in rows;
        forall row | row in rows ensures Truth(w, kids[0], row) { assert AllTrue(w, kids, row); }
        UnmovedIff(w, kids[0], rows);
        DeliveredMembers(w, kids[0], rows);
        KeepAll(IsTrue(w, p), Delivered(w, kids[0], rows));
      }
    case Or(kids) =>
      assert kids[..|kids|] == kids;
      forall row | row in rows ensures First(w, kids, row) < |kids| { AnyBelow(w, kids, |kids|, row); }
      UnmovedByAnyIff(w, kids, |kids|, rows);
  }

  function FirstBelow(w: World, kids: seq<Pred>, k: nat): Row -> bool { (row: Row) => First(w, kids, row) < k }

  lemma {:induction false} UnmovedByAnyIff(w: World, kids: seq<Pred>, k: nat, rows: seq<Row>)
    requires k <= |kids| && forall row :: row in rows ==> First(w, kids, row) < k
    ensures DeliveredByAny(w, kids[..k], rows) == rows <==> NeverPreferred(w, Or(kids), rows)
    decreases kids, k + 1
  {
    assert rows != [] ==> rows[0] in rows;
    if k > 0 {
      hide Delivered, DeliveredByAny, NeverPreferred, Keep, Partitioned, First;
      var f := FirstBelow(w, kids, k - 1);
      var xs, ys := Keep(f, rows), Keep(Negated(f), rows);
      KeepMembers(f, rows);
      KeepMembers(Negated(f), rows);
      BlocksDelivered(w, kids, k, rows);
      UnmovedByAnyIff(w, kids, k - 1, xs);
      RowsSatisfy(w, kids, k - 1, ys);
      UnmovedIff(w, kids[k - 1], ys);
      LastPreference(w, kids, k, ys);
      BlocksIff(f, rows, DeliveredByAny(w, kids[..k - 1], xs), Delivered(w, kids[k - 1], ys));
      EarlierPreferred(w, kids, k - 1);
      NeverPreferredIff(w, Or(kids), f, rows);
    }
  }

  lemma RowsSatisfy(w: World, kids: seq<Pred>, k: nat, rows: seq<Row>)
    requires k < |kids| && forall row :: row in rows ==> First(w, kids, row) == k
    ensures forall row :: row in rows ==> Truth(w, kids[k], row)
  {
    forall row | row in rows ensures Truth(w, kids[k], row) { assert First(w, kids, row) == k; }
  }

  lemma EarlierPreferred(w: World, kids: seq<Pred>, k: nat)
    ensures forall a, b :: First(w, kids, a) < k <= First(w, kids, b) ==>
      NotPreferred(w, Or(kids), b, a) && !NotPreferred(w, Or(kids), a, b)
  {
  }

  lemma BlocksDelivered(w: World, kids: seq<Pred>, k: nat, rows: seq<Row>)
    requires 0 < k <= |kids|
    ensures var f := FirstBelow(w, kids, k - 1);
      var xs, ys := DeliveredByAny(w, kids[..k - 1], Keep(f, rows)), Delivered(w, kids[k - 1], Keep(Negated(f), rows));
      && DeliveredByAny(w, kids[..k], rows) == xs + ys
      && (forall row :: row in xs ==> f(row)) && (forall row :: row in ys ==> !f(row))
  {
    hide First, Keep, Truth;
    var f, before, last := FirstBelow(w, kids, k - 1), kids[..k - 1], kids[k - 1];
    LastAlternative(w, kids, k, rows);
    forall row ensures Truth(w, Or(before), row) == f(row) && NoneTrue(w, before)(row) == Negated(f)(row) {
      AnyBelow(w, kids, k - 1, row);
      assert Truth(w, Or(before), row) == AnyTrue(w, before, row) by { OrIsAny(w, before, row); }
    }
    hide AnyTrue;
    KeepDeliveredByAny(f, w, before, rows);
    OrDelivers(w, before, rows);
    OrDelivers(w, before, Keep(f, rows));
    DeliveredMembers(w, Or(before), rows);
    KeepAll(f, DeliveredByAny(w, before, rows));
    KeepDelivered(NoneTrue(w, before), w, last, rows);
    SameKeep(NoneTrue(w, before), Negated(f), rows);
    KeepMembers(Negated(f), rows);
    DeliveredMembers(w, last, Keep(Negated(f), rows));
    DeliveredMembers(w, Or(before), Keep(f, rows));
  }

  lemma OrIsAny(w: World, ps: seq<Pred>, row: Row)
    ensures Truth(w, Or(ps), row) == AnyTrue(w, ps, row)
  {
  }

  lemma OrDelivers(w: World, ps: seq<Pred>, rows: seq<Row>)
    ensures Delivered(w, Or(ps), rows) == DeliveredByAny(w, ps, rows)
  {
  }

  lemma LastAlternative(w: World, kids: seq<Pred>, k: nat, rows: seq<Row>)
    requires 0 < k <= |kids|
    ensures DeliveredByAny(w, kids[..k], rows) ==
      DeliveredByAny(w, kids[..k - 1], rows) + Keep(NoneTrue(w, kids[..k - 1]), Delivered(w, kids[k - 1], rows))
  {
    assert kids[..k][..k - 1] == kids[..k - 1];
  }

  lemma {:induction false} SameKeep(f: Row -> bool, g: Row -> bool, rows: seq<Row>)
    requires forall row :: f(row) == g(row)
    ensures Keep(f, rows) == Keep(g, rows)
  {
    if rows != [] { SameKeep(f, g, rows[1..]); }
  }

  lemma LastPreference(w: World, kids: seq<Pred>, k: nat, rows: seq<Row>)
    requires 0 < k <= |kids| && forall row :: row in rows ==> First(w, kids, row) == k - 1
    ensures NeverPreferred(w, Or(kids), rows) <==> NeverPreferred(w, kids[k - 1], rows)
  {
    forall i, j | 0 <= i < j < |rows|
      ensures NotPreferred(w, Or(kids), rows[j], rows[i]) <==> NotPreferred(w, kids[k - 1], rows[j], rows[i])
    {
      assert rows[i] in rows && rows[j] in rows;
    }
  }

  // ---------- Delivery from the first factor of a product ----------

  lemma {:induction false} PairsConcat(a: seq<Row>, b: seq<Row>, right: seq<Row>)
    ensures Pairs(a + b, right) == Pairs(a, right) + Pairs(b, right)
  {
    hide Extend;
    if a == [] {
      assert a + b == b;
    } else {
      PairsConcat(a[1..], b, right);
      assert (a + b)[1..] == a[1..] + b;
    }
  }

  lemma {:induction false} ExtendKeep(f: Row -> bool, row: Row, right: seq<Row>)
    requires forall r :: r in right ==> f(row + r) == f(row)
    ensures Keep(f, Extend(row, right)) == if f(row) then Extend(row, right) else []
  {
    if right != [] {
      assert right[0] in right;
      ExtendKeep(f, row, right[1..]);
      assert Extend(row, right)[1..] == Extend(row, right[1..]);
    }
  }

  lemma {:induction false} PairsKeep(f: Row -> bool, left: seq<Row>, right: seq<Row>)
    requires forall l, r :: l in left && r in right ==> f(l + r) == f(l)
    ensures Keep(f, Pairs(left, right)) == Pairs(Keep(f, left), right)
  {
    if left != [] {
      assert left[0] in left;
      PairsKeep(f, left[1..], right);
      ExtendKeep(f, left[0], right);
      KeepConcat(f, Extend(left[0], right), Pairs(left[1..], right));
      PairsConcat(if f(left[0]) then [left[0]] else [], Keep(f, left[1..]), right);
      assert [left[0]][1..] == [] && Extend(left[0], right) + [] == Extend(left[0], right);
    }
  }

  /** None of the tables occurs in the rows. */
  ghost predicate Unseen(tables: set<Table>, rows: seq<Row>) {
    forall r, t :: r in rows && t in tables ==> t !in r
  }

  lemma TruthOfPair(w: World, p: Pred, l: Row, r: Row)
    requires forall t :: t in PredTables(p) ==> t !in r
    ensures Truth(w, p, l + r) == Truth(w, p, l)
  {
    TruthLocal(w, p, l + r, l);
  }

  lemma AnyOfPair(w: World, ps: seq<Pred>, l: Row, r: Row)
    requires forall t :: t in KidTables(ps) ==> t !in r
    ensures AnyTrue(w, ps, l + r) == AnyTrue(w, ps, l)
  {
    AllTruthLocal(w, ps, l + r, l);
  }

  lemma KidTablesConcat(a: seq<Pred>, b: seq<Pred>)
    ensures KidTables(a + b) == KidTables(a) + KidTables(b)
  {
    if a == [] {
      assert a + b == b;
    } else {
      KidTablesConcat(a[1..], b);
      assert (a + b)[1..] == a[1..] + b;
    }
  }

  lemma LastKidTables(ps: seq<Pred>)
    requires ps != []
    ensures var n := |ps| - 1; KidTables(ps) == KidTables(ps[..n]) + PredTables(ps[n])
  {
    var n := |ps| - 1;
    var last := [ps[n]];
    assert ps == ps[..n] + last && last[1..] == [];
    KidTablesConcat(ps[..n], last);
  }

  lemma {:induction false} PairsDelivered(w: World, p: Pred, left: seq<Row>, right: seq<Row>)
    requires Unseen(PredTables(p), right)
    ensures Delivered(w, p, Pairs(left, right)) == Pairs(Delivered(w, p, left), right)
    decreases p, 0
  {
    match p
    case Atom(_, _, _) => PairsKeepTrue(w, p, left, right);
    case And(kids) =>
      if kids != [] {
        assert PredTables(p) == KidTables(kids) && PredTables(kids[0]) <= KidTables(kids);
        PairsDelivered(w, kids[0], left, right);
        DeliveredMembers(w, kids[0], left);
        PairsKeepTrue(w, p, Delivered(w, kids[0], left), right);
      }
    case Or(kids) => PairsDeliveredByAny(w, kids, left, right);
  }

  lemma PairsKeepTrue(w: World, p: Pred, left: seq<Row>, right: seq<Row>)
    requires Unseen(PredTables(p), right)
    ensures Keep(IsTrue(w, p), Pairs(left, right)) == Pairs(Keep(IsTrue(w, p), left), right)
  {
    forall l, r | l in left && r in right ensures IsTrue(w, p)(l + r) == IsTrue(w, p)(l) {
      TruthOfPair(w, p, l, r);
    }
    PairsKeep(IsTrue(w, p), left, right);
  }

  lemma {:induction false} PairsDeliveredByAny(w: World, ps: seq<Pred>, left: seq<Row>, right: seq<Row>)
    requires Unseen(KidTables(ps), right)
    ensures DeliveredByAny(w, ps, Pairs(left, right)) == Pairs(DeliveredByAny(w, ps, left), right)
    decreases ps, 1
  {
    if ps != [] {
      var n := |ps| - 1;
      LastKidTables(ps);
      PairsDeliveredByAny(w, ps[..n], left, right);
      PairsDelivered(w, ps[n], left, right);
      var none, last := NoneTrue(w, ps[..n]), Delivered(w, ps[n], left);
      DeliveredMembers(w, ps[n], left);
      forall l, r | l in last && r in right ensures none(l + r) == none(l) {
        AnyOfPair(w, ps[..n], l, r);
      }
      PairsKeep(none, last, right);
      PairsConcat(DeliveredByAny(w, ps[..n], left), Keep(none, last), right);
    }
  }

  // ---------- Plans with one OR, in their first factor ----------

  /** p is the one predicate that may have OR, and it sits in the first factor of every product. */
  predicate LedBy(p: Pred, plan: Plan) {
    match plan
    case Access(_) => false
    case Select(_, q, c) => (q == p && PlanOrFree(c)) || (OrFree(q) && LedBy(p, c))
    case Cross(kids) => kids != [] && LedBy(p, kids[0]) && OthersPlain(p, kids[1..])
    case Join(q, kids) => OrFree(q) && kids != [] && LedBy(p, kids[0]) && OthersPlain(p, kids[1..])
    case Other(_, c) => LedBy(p, c)
  }

  predicate OthersPlain(p: Pred, others: seq<Plan>) {
    KidsOrFree(others) && PredTables(p) !! TablesOf(others)
  }

  /** No factor but the first has all tables of the predicate, all the way down. */
  predicate StaysLeft(p: Pred, plan: Plan) {
    match plan
    case Access(_) => true
    case Select(_, _, c) => StaysLeft(p, c)
    case Cross(kids) => kids != [] ==> StaysLeft(p, kids[0]) && NoneRefers(p, kids[1..])
    case Join(_, kids) => kids != [] ==> StaysLeft(p, kids[0]) && NoneRefers(p, kids[1..])
    case Other(_, c) => StaysLeft(p, c)
  }

  predicate NoneRefers(p: Pred, plans: seq<Plan>) {
    plans == [] || (!Refers(plans[0], p) && NoneRefers(p, plans[1..]))
  }

  /** Conjunct i is the only one with OR. */
  predicate OnlyOr(p: Pred, i: nat) {
    i < |Break(p)| && !OrFree(Break(p)[i]) && forall j :: 0 <= j < |Break(p)| && j != i ==> OrFree(Break(p)[j])
  }

  // ---------- What such a plan delivers ----------

  lemma {:induction false} ProductDelivered(w: World, p: Pred, first: seq<Row>, rest: seq<seq<Row>>)
    requires forall i :: 0 <= i < |rest| ==> Unseen(PredTables(p), rest[i])
    ensures Product([Delivered(w, p, first)] + rest) == Delivered(w, p, Product([first] + rest))
  {
    hide Pairs, Delivered, Unseen;
    var first' := Delivered(w, p, first);
    if rest == [] {
      ProductOne(first);
      ProductOne(first');
      assert [first] + rest == [first] && [first'] + rest == [first'];
    } else {
      var n := |rest| - 1;
      ProductDelivered(w, p, first, rest[..n]);
      assert ([first] + rest)[..n + 1] == [first] + rest[..n] && ([first'] + rest)[..n + 1] == [first'] + rest[..n];
      PairsDelivered(w, p, Product([first] + rest[..n]), rest[n]);
    }
  }

  lemma {:induction false} KidsUnseen(w: World, tables: set<Table>, plans: seq<Plan>)
    requires AllApart(plans) && tables !! TablesOf(plans)
    ensures forall i :: 0 <= i < |plans| ==> Unseen(tables, KidFiltered(w, plans)[i])
  {
    if plans != [] {
      PlanOver(w, plans[0]);
      KidsUnseen(w, tables, plans[1..]);
    }
  }

  /** The first conjunct of the leading predicate decides the order of the whole plan. */
  lemma {:induction false} LedRows(w: World, p: Pred, plan: Plan)
    requires WellFormed(plan) && Core(plan) && LedBy(p, plan)
    ensures Rows(w, plan) == Delivered(w, Break(p)[0], Filtered(w, plan))
    decreases plan
  {
    var lead := Break(p)[0];
    match plan
    case Select(_, q, c) =>
      if OrFree(q) && LedBy(p, c) {
        LedRows(w, p, c);
        SelectIsFilter(w, q, Rows(w, c));
        FilterDelivered(w, q, lead, Filtered(w, c));
      } else {
        OrFreePlan(w, c);
        SelectDelivers(w, p, Rows(w, c));
        FirstConjunctLeads(w, p, Rows(w, c));
        KeepIsFilter(w, p, Delivered(w, lead, Rows(w, c)));
        FilterDelivered(w, p, lead, Filtered(w, c));
      }
    case Cross(kids) => LedProduct(w, p, kids);
    case Join(q, kids) =>
      LedProduct(w, p, kids);
      SelectIsFilter(w, q, Product(KidRows(w, kids)));
      FilterDelivered(w, q, lead, Product(KidFiltered(w, kids)));
  }

  lemma FilterDelivered(w: World, q: Pred, p: Pred, rows: seq<Row>)
    ensures Filter(w, q, Delivered(w, p, rows)) == Delivered(w, p, Filter(w, q, rows))
  {
    KeepDelivered(IsTrue(w, q), w, p, rows);
    KeepIsFilter(w, q, rows);
    KeepIsFilter(w, q, Delivered(w, p, rows));
  }

  lemma {:induction false} LedProduct(w: World, p: Pred, kids: seq<Plan>)
    requires AllApart(kids) && kids != [] && LedBy(p, kids[0]) && OthersPlain(p, kids[1..])
    ensures Product(KidRows(w, kids)) == Delivered(w, Break(p)[0], Product(KidFiltered(w, kids)))
    decreases kids
  {
    var lead, rest := Break(p)[0], kids[1..];
    LedRows(w, p, kids[0]);
    OrFreeKids(w, rest);
    ConjunctTables(p, 0);
    KidsUnseen(w, PredTables(lead), rest);
    ProductDelivered(w, lead, Filtered(w, kids[0]), KidFiltered(w, rest));
  }

  lemma {:induction false} BreakTables(p: Pred)
    ensures KidTables(Break(p)) == PredTables(p)
    decreases p, 0
  {
    assert Break(p) == [p] ==> Break(p)[1..] == [];
    if p.And? && p.kids != [] { BreakAllTables(p.kids); }
  }

  lemma {:induction false} BreakAllTables(ps: seq<Pred>)
    ensures KidTables(BreakAll(ps)) == KidTables(ps)
    decreases ps, 1
  {
    if ps != [] {
      BreakTables(ps[0]);
      BreakAllTables(ps[1..]);
      KidTablesConcat(Break(ps[0]), BreakAll(ps[1..]));
    }
  }

  lemma {:induction false} OneOfKidTables(ps: seq<Pred>, i: nat)
    requires i < |ps|
    ensures PredTables(ps[i]) <= KidTables(ps)
  {
    if i > 0 { OneOfKidTables(ps[1..], i - 1); }
  }

  lemma ConjunctTables(p: Pred, i: nat)
    requires i < |Break(p)|
    ensures PredTables(Break(p)[i]) <= PredTables(p)
  {
    BreakTables(p);
    OneOfKidTables(Break(p), i);
  }

  /** Conjuncts are not broken further. */
  lemma {:induction false} ConjunctIsWhole(p: Pred, i: nat)
    requires i < |Break(p)|
    ensures Break(Break(p)[i]) == [Break(p)[i]]
    decreases p, 0
  {
    if p.And? && p.kids != [] { ConjunctsAreWhole(p.kids, i); }
  }

  lemma {:induction false} ConjunctsAreWhole(ps: seq<Pred>, i: nat)
    requires i < |BreakAll(ps)|
    ensures Break(BreakAll(ps)[i]) == [BreakAll(ps)[i]]
    decreases ps, 1
  {
    var n := |Break(ps[0])|;
    if i < n { ConjunctIsWhole(ps[0], i); } else { ConjunctsAreWhole(ps[1..], i - n); }
  }

  // ---------- The passes leave the leading predicate in front ----------

  lemma {:induction false} ChainLed(p: Pred, ps: seq<Pred>, i: nat, c: Plan, next: nat)
    requires i < |ps| && ps[i] == p && PlanOrFree(c) && forall j :: 0 <= j < |ps| && j != i ==> OrFree(ps[j])
    ensures LedBy(p, Chain(ps, c, next))
  {
    if i > 0 { ChainLed(p, ps[1..], i - 1, c, next + 1); } else { ChainPlain(ps[1..], c, next + 1); }
  }

  lemma {:induction false} ChainPlain(ps: seq<Pred>, c: Plan, next: nat)
    requires PlanOrFree(c) && forall j :: 0 <= j < |ps| ==> OrFree(ps[j])
    ensures PlanOrFree(Chain(ps, c, next))
  {
    if ps != [] { ChainPlain(ps[1..], c, next + 1); }
  }

  lemma {:induction false} ChainOver(p: Pred, ps: seq<Pred>, c: Plan, next: nat)
    ensures AllOrFree(ps) && LedBy(p, c) ==> LedBy(p, Chain(ps, c, next))
    ensures StaysLeft(p, Chain(ps, c, next)) == StaysLeft(p, c)
  {
    if ps != [] { ChainOver(p, ps[1..], c, next + 1); }
  }

  lemma {:induction false} AndPassLed(p: Pred, i: nat, plan: Plan, next: nat)
    requires WellFormed(plan) && OnlyOr(p, i) && LedBy(p, plan)
    ensures LedBy(Break(p)[i], AndPass(plan, next).0)
    decreases plan
  {
    var lead := Break(p)[i];
    match plan
    case Select(_, q, child) =>
      var (c, n) := AndPass(child, next);
      if OrFree(q) && LedBy(p, child) {
        AndPassLed(p, i, child, next);
        BreakOrFree(q);
        ChainOver(lead, Break(q), c, n);
      } else {
        AndPassKeeps(child, next);
        ChainLed(lead, Break(p), i, c, n);
      }
    case Cross(kids) => AndPassKidsLed(p, i, kids, next);
    case Join(_, kids) => AndPassKidsLed(p, i, kids, next);
    case Other(_, child) => AndPassLed(p, i, child, next);
  }

  lemma {:induction false} AndPassKidsLed(p: Pred, i: nat, kids: seq<Plan>, next: nat)
    requires AllApart(kids) && OnlyOr(p, i) && kids != [] && LedBy(p, kids[0]) && OthersPlain(p, kids[1..])
    ensures var r := AndPassAll(kids, next).0;
      r != [] && LedBy(Break(p)[i], r[0]) && OthersPlain(Break(p)[i], r[1..])
    decreases kids
  {
    var (c, n) := AndPass(kids[0], next);
    AndPassLed(p, i, kids[0], next);
    AndPassAllKeeps(kids[1..], n);
    ConjunctTables(p, i);
    var cs := AndPassAll(kids[1..], n).0;
    assert ([c] + cs)[1..] == cs;
  }

  lemma {:induction false} AndPassStays(p: Pred, plan: Plan, next: nat)
    requires WellFormed(plan)
    ensures StaysLeft(p, plan) ==> StaysLeft(p, AndPass(plan, next).0)
    decreases plan, 0
  {
    match plan
    case Access(_) =>
    case Select(_, q, child) =>
      AndPassStays(p, child, next);
      var (c, n) := AndPass(child, next);
      ChainOver(p, Break(q), c, n);
    case Cross(kids) => AndPassKidsStay(p, kids, next);
    case Join(_, kids) => AndPassKidsStay(p, kids, next);
    case Other(_, child) => AndPassStays(p, child, next);
  }

  lemma {:induction false} AndPassKidsStay(p: Pred, kids: seq<Plan>, next: nat)
    requires AllApart(kids)
    ensures var r := AndPassAll(kids, next).0;
      && (NoneRefers(p, kids) ==> NoneRefers(p, r))
      && (kids != [] ==> r != [] && (StaysLeft(p, kids[0]) ==> StaysLeft(p, r[0])) && (NoneRefers(p, kids[1..]) ==> NoneRefers(p, r[1..])))
    decreases kids, 1
  {
    if kids != [] {
      var (c, n) := AndPass(kids[0], next);
      AndPassStays(p, kids[0], next);
      AndPassKeeps(kids[0], next);
      AndPassKidsStay(p, kids[1..], n);
      var cs := AndPassAll(kids[1..], n).0;
      assert ([c] + cs)[1..] == cs;
    }
  }

  lemma {:induction false} LeftDeepLed(p: Pred, kids: seq<Plan>)
    requires |kids| > 1
    ensures LedBy(p, Cross(kids)) ==> LedBy(p, LeftDeep(kids))
    ensures StaysLeft(p, Cross(kids)) ==> StaysLeft(p, LeftDeep(kids))
    decreases |kids|
  {
    if |kids| > 2 {
      var pair, rest := kids[..2], kids[2..];
      var kids' := [Cross(pair)] + rest;
      SplitSecond(p, kids);
      assert kids'[1..] == rest && pair[0] == kids[0];
      assert StaysLeft(p, Cross(kids)) ==> StaysLeft(p, Cross(pair));
      assert LedBy(p, Cross(kids)) ==> LedBy(p, Cross(pair));
      assert LedBy(p, Cross(pair)) && OthersPlain(p, rest) ==> LedBy(p, Cross(kids'));
      assert StaysLeft(p, Cross(pair)) && NoneRefers(p, rest) ==> StaysLeft(p, Cross(kids'));
      LeftDeepLed(p, kids');
      assert LeftDeep(kids) == LeftDeep(kids');
    }
  }

  lemma SplitSecond(p: Pred, kids: seq<Plan>)
    requires |kids| > 1
    ensures OthersPlain(p, kids[1..]) ==> OthersPlain(p, kids[..2][1..]) && OthersPlain(p, kids[2..])
    ensures NoneRefers(p, kids[1..]) ==> NoneRefers(p, kids[..2][1..]) && NoneRefers(p, kids[2..])
  {
    var one := [kids[1]];
    assert kids[..2][1..] == one && one[1..] == [] && kids[1..][1..] == kids[2..];
    assert TablesOf(kids[1..]) == Tables(kids[1]) + TablesOf(kids[2..]);
    assert TablesOf(one) == Tables(kids[1]) + TablesOf([]);
    assert KidsOrFree(one) == (PlanOrFree(kids[1]) && KidsOrFree([]));
    assert NoneRefers(p, one) == (!Refers(kids[1], p) && NoneRefers(p, []));
  }

  lemma {:induction false} CrossPassLed(p: Pred, plan: Plan)
    requires WellFormed(plan)
    ensures LedBy(p, plan) ==> LedBy(p, CrossPass(plan))
    ensures StaysLeft(p, plan) ==> StaysLeft(p, CrossPass(plan))
    decreases plan, 0
  {
    match plan
    case Access(_) =>
    case Select(_, _, child) =>
      CrossPassLed(p, child);
      CrossPassKeeps(child);
    case Cross(kids) =>
      CrossPassKidsLed(p, kids);
      LeftDeepLed(p, CrossPassAll(kids));
    case Join(_, kids) => CrossPassKidsLed(p, kids);
    case Other(_, child) => CrossPassLed(p, child);
  }

  lemma {:induction false} CrossPassKidsLed(p: Pred, kids: seq<Plan>)
    requires AllApart(kids)
    ensures var r := CrossPassAll(kids);
      && (NoneRefers(p, kids) ==> NoneRefers(p, r))
      && (kids != [] ==> (StaysLeft(p, kids[0]) ==> StaysLeft(p, r[0])) && (NoneRefers(p, kids[1..]) ==> NoneRefers(p, r[1..])))
      && (kids != [] && LedBy(p, kids[0]) && OthersPlain(p, kids[1..]) ==> LedBy(p, r[0]) && OthersPlain(p, r[1..]))
    decreases kids, 1
  {
    if kids != [] {
      CrossPassLed(p, kids[0]);
      CrossPassKeeps(kids[0]);
      CrossPassKidsLed(p, kids[1..]);
      CrossPassAllBoth(World(_ => [], (_, _) => true, (_, rows) => rows), kids[1..]);
      var c, cs := CrossPass(kids[0]), CrossPassAll(kids[1..]);
      assert ([c] + cs)[1..] == cs;
    }
  }

  /** Pushing any predicate keeps the others out of later factors, and the leading one in front. */
  lemma {:induction false} PushDownLed(p: Pred, n: nat, q: Pred, c: Plan, next: nat)
    requires WellFormed(c) && Core(c)
    ensures var r := PushDown(n, q, c, next).0;
      && (StaysLeft(p, c) ==> StaysLeft(p, r))
      && (OrFree(q) && LedBy(p, c) ==> LedBy(p, r))
      && (q == p && PlanOrFree(c) && StaysLeft(p, c) ==> LedBy(p, r))
    decreases c, 0
  {
    match c
    case Select(_, _, d) =>
      PushDownLed(p, n, q, d, next);
      PushDownRows(World(_ => [], (_, _) => true, (_, rows) => rows), n, q, d, next);
    case Cross(kids) => if SomeRefers(kids, q) { PushKidsLed(p, q, kids, next); }
    case Join(_, kids) => if SomeRefers(kids, q) { PushKidsLed(p, q, kids, next); }
    case _ =>
  }

  lemma {:induction false} PushKidsLed(p: Pred, q: Pred, kids: seq<Plan>, next: nat)
    requires AllApart(kids) && SomeRefers(kids, q)
    ensures var r := PushKids(q, kids, next).0;
      && r != []
      && (StaysLeft(p, kids[0]) && NoneRefers(p, kids[1..]) ==> StaysLeft(p, r[0]) && NoneRefers(p, r[1..]))
      && (OrFree(q) && LedBy(p, kids[0]) && OthersPlain(p, kids[1..]) ==> LedBy(p, r[0]) && OthersPlain(p, r[1..]))
      && (q == p && KidsOrFree(kids) && StaysLeft(p, kids[0]) && NoneRefers(p, kids[1..]) ==> LedBy(p, r[0]) && OthersPlain(p, r[1..]))
    decreases kids, 1
  {
    var w := World(_ => [], (_, _) => true, (_, rows) => rows);
    var (k, n) := if Refers(kids[0], q) then PushDown(next, q, kids[0], next + 1) else (kids[0], next);
    PushDownLed(p, next, q, kids[0], next + 1);
    var rest := kids[1..];
    PushKidsWeight(q, rest, n, {});
    PushKidsRows(w, q, rest, n);
    PushKidsRefer(p, q, rest, n);
    var ks := PushKids(q, rest, n).0;
    assert ([k] + ks)[1..] == ks;
    if NoneRefers(q, rest) {
      var i :| 0 <= i < |kids| && Refers(kids[i], q);
      NoneOfThem(q, rest);
      assert i > 0 ==> kids[i] == rest[i - 1];
    }
  }

  lemma {:induction false} NoneOfThem(p: Pred, plans: seq<Plan>)
    ensures NoneRefers(p, plans) <==> !SomeRefers(plans, p)
  {
    if plans != [] {
      NoneOfThem(p, plans[1..]);
      if SomeRefers(plans[1..], p) {
        var i :| 0 <= i < |plans[1..]| && Refers(plans[1..][i], p);
        assert Refers(plans[i + 1], p);
      }
      if SomeRefers(plans, p) && !Refers(plans[0], p) {
        var i :| 0 <= i < |plans| && Refers(plans[i], p);
        assert Refers(plans[1..][i - 1], p);
      }
    }
  }

  lemma {:induction false} PushKidsRefer(p: Pred, q: Pred, kids: seq<Plan>, next: nat)
    requires AllApart(kids)
    ensures var r := PushKids(q, kids, next).0;
      (NoneRefers(p, kids) ==> NoneRefers(p, r)) && (NoneRefers(q, kids) ==> r == kids)
    decreases kids
  {
    if kids != [] {
      var (k, n) := if Refers(kids[0], q) then PushDown(next, q, kids[0], next + 1) else (kids[0], next);
      PushWeight(next, q, kids[0], next + 1, {});
      PushKidsRefer(p, q, kids[1..], n);
      var ks := PushKids(q, kids[1..], n).0;
      assert ([k] + ks)[1..] == ks;
    }
  }

  lemma ProcessPlain(plan: Plan, done: set<nat>, next: nat)
    requires WellFormed(plan) && PlanOrFree(plan)
    ensures PlanOrFree(Process(plan, done, next).0)
  {
    ProcessRows(World(_ => [], (_, _) => true, (_, rows) => rows), plan, done, next);
  }

  lemma {:induction false} ProcessLed(p: Pred, plan: Plan, done: set<nat>, next: nat)
    requires WellFormed(plan) && StaysLeft(p, plan)
    ensures StaysLeft(p, Process(plan, done, next).0)
    ensures LedBy(p, plan) ==> LedBy(p, Process(plan, done, next).0)
    decreases Weight(plan, done), Size(plan), 1
  {
    match plan
    case Access(_) =>
    case Select(n, q, c) =>
      if n !in done {
        PushWeight(n, q, c, next, done + {n});
        LighterWhenDone(c, done, done + {n});
        PushDownLed(p, n, q, c, next);
        var (t, next1) := PushDown(n, q, c, next);
        if Moves(q, c) { ProcessLed(p, t, done + {n}, next1); }
        var (t2, done2, next2) := if Moves(q, c) then Process(t, done + {n}, next1) else (t, done + {n}, next1);
        ProcessBelowLed(p, t2, n, done2, next2);
      }
    case Cross(kids) => ProcessKidsLed(p, kids, done, next);
    case Join(_, kids) => ProcessKidsLed(p, kids, done, next);
    case Other(_, c) => ProcessLed(p, c, done, next);
  }

  lemma {:induction false} ProcessKidsLed(p: Pred, kids: seq<Plan>, done: set<nat>, next: nat)
    requires AllApart(kids) && kids != [] && StaysLeft(p, kids[0]) && NoneRefers(p, kids[1..])
    ensures var r := ProcessKids(kids, done, next).0;
      && StaysLeft(p, r[0]) && NoneRefers(p, r[1..])
      && (LedBy(p, kids[0]) && OthersPlain(p, kids[1..]) ==> LedBy(p, r[0]) && OthersPlain(p, r[1..]))
    decreases WeightOf(kids, done), SizeOf(kids), 2
  {
    var w := World(_ => [], (_, _) => true, (_, rows) => rows);
    var (k, d, m) := Process(kids[0], done, next);
    ProcessLed(p, kids[0], done, next);
    ProcessKidsRefer(p, kids[1..], d, m);
    ProcessKidsRows(w, kids[1..], d, m);
    var ks := ProcessKids(kids[1..], d, m).0;
    assert ([k] + ks)[1..] == ks;
  }

  lemma {:induction false} ProcessKidsRefer(p: Pred, kids: seq<Plan>, done: set<nat>, next: nat)
    requires AllApart(kids) && NoneRefers(p, kids)
    ensures NoneRefers(p, ProcessKids(kids, done, next).0)
    decreases kids
  {
    if kids != [] {
      var (k, d, m) := Process(kids[0], done, next);
      ProcessKidsRefer(p, kids[1..], d, m);
      var ks := ProcessKids(kids[1..], d, m).0;
      assert ([k] + ks)[1..] == ks;
    }
  }

  lemma {:induction false} ProcessBelowLed(p: Pred, plan: Plan, n: nat, done: set<nat>, next: nat)
    requires WellFormed(plan) && StaysLeft(p, plan)
    ensures StaysLeft(p, ProcessBelow(plan, n, done, next).0)
    ensures LedBy(p, plan) ==> LedBy(p, ProcessBelow(plan, n, done, next).0)
    decreases Weight(plan, done), Size(plan), 0
  {
    match plan
    case Access(_) =>
    case Select(m, q, c) =>
      if m == n {
        ProcessLed(p, c, done, next);
        if PlanOrFree(c) { ProcessPlain(c, done, next); }
      } else {
        ProcessBelowLed(p, c, n, done, next);
        if PlanOrFree(c) { ProcessBelowPlain(c, n, done, next); }
      }
    case Cross(kids) => ProcessBelowKidsLed(p, kids, n, done, next);
    case Join(_, kids) => ProcessBelowKidsLed(p, kids, n, done, next);
    case Other(_, c) => ProcessBelowLed(p, c, n, done, next);
  }

  lemma ProcessBelowPlain(plan: Plan, n: nat, done: set<nat>, next: nat)
    requires WellFormed(plan) && PlanOrFree(plan)
    ensures PlanOrFree(ProcessBelow(plan, n, done, next).0)
  {
    ProcessBelowRows(World(_ => [], (_, _) => true, (_, rows) => rows), plan, n, done, next);
  }

  lemma {:induction false} ProcessBelowKidsLed(p: Pred, kids: seq<Plan>, n: nat, done: set<nat>, next: nat)
    requires AllApart(kids) && kids != [] && StaysLeft(p, kids[0]) && NoneRefers(p, kids[1..])
    ensures var r := ProcessBelowKids(kids, n, done, next).0;
      && StaysLeft(p, r[0]) && NoneRefers(p, r[1..])
      && (LedBy(p, kids[0]) && OthersPlain(p, kids[1..]) ==> LedBy(p, r[0]) && OthersPlain(p, r[1..]))
    decreases WeightOf(kids, done), SizeOf(kids), 2
  {
    var w := World(_ => [], (_, _) => true, (_, rows) => rows);
    var (k, d, m) := ProcessBelow(kids[0], n, done, next);
    ProcessBelowLed(p, kids[0], n, done, next);
    ProcessBelowKidsRefer(p, kids[1..], n, d, m);
    ProcessBelowKidsRows(w, kids[1..], n, d, m);
    var ks := ProcessBelowKids(kids[1..], n, d, m).0;
    assert ([k] + ks)[1..] == ks;
  }

  lemma {:induction false} ProcessBelowKidsRefer(p: Pred, kids: seq<Plan>, n: nat, done: set<nat>, next: nat)
    requires AllApart(kids) && NoneRefers(p, kids)
    ensures NoneRefers(p, ProcessBelowKids(kids, n, done, next).0)
    decreases kids
  {
    if kids != [] {
      var (k, d, m) := ProcessBelow(kids[0], n, done, next);
      ProcessBelowKidsRefer(p, kids[1..], n, d, m);
      var ks := ProcessBelowKids(kids[1..], n, d, m).0;
      assert ([k] + ks)[1..] == ks;
    }
  }

  lemma {:induction false} JoinPassLed(p: Pred, plan: Plan)
    requires WellFormed(plan)
    ensures WellFormed(JoinPass(plan)) && Tables(JoinPass(plan)) == Tables(plan) && (Core(plan) ==> Core(JoinPass(plan)))
    ensures LedBy(p, plan) && !OrFree(p) ==> LedBy(p, JoinPass(plan))
    decreases plan, 0
  {
    var w := World(_ => [], (_, _) => true, (_, rows) => rows);
    JoinPassRows(w, plan);
    match plan
    case Access(_) =>
    case Select(n, q, child) =>
      JoinPassLed(p, child);
      JoinPassRows(w, child);
      if child.Cross? { JoinPassKidsLed(p, child.kids); }
    case Cross(kids) => JoinPassKidsLed(p, kids);
    case Join(_, kids) => JoinPassKidsLed(p, kids);
    case Other(_, child) => JoinPassLed(p, child);
  }

  lemma {:induction false} JoinPassKidsLed(p: Pred, kids: seq<Plan>)
    requires AllApart(kids)
    ensures var r := JoinPassAll(kids);
      && AllApart(r) && TablesOf(r) == TablesOf(kids)
      && (kids != [] && LedBy(p, kids[0]) && OthersPlain(p, kids[1..]) && !OrFree(p) ==> LedBy(p, r[0]) && OthersPlain(p, r[1..]))
    decreases kids, 1
  {
    if kids != [] {
      var w := World(_ => [], (_, _) => true, (_, rows) => rows);
      JoinPassLed(p, kids[0]);
      JoinPassKidsLed(p, kids[1..]);
      JoinPassAllRows(w, kids[1..]);
      var c, cs := JoinPass(kids[0]), JoinPassAll(kids[1..]);
      assert ([c] + cs)[1..] == cs;
    }
  }

  // ---------- Which plans keep their order ----------

  lemma RewriteLed(p: Pred, i: nat, plan: Plan, fromCount: nat, hasWhere: bool, next: nat)
    requires WellFormed(plan) && LedBy(p, plan) && OnlyOr(p, i) && StaysLeft(Break(p)[i], plan)
    ensures var r := Rewrite(plan, fromCount, hasWhere, next);
      WellFormed(r) && (Core(plan) ==> Core(r)) && LedBy(Break(p)[i], r)
  {
    var q := Break(p)[i];
    var (p1, n1) := AndPass(plan, next);
    AndPassKeeps(plan, next);
    AndPassLed(p, i, plan, next);
    AndPassStays(q, plan, next);
    var p2 := if fromCount >= 3 then CrossPass(p1) else p1;
    CrossPassKeeps(p1);
    CrossPassLed(q, p1);
    var p3 := if hasWhere then Process(p2, {}, n1).0 else p2;
    ProcessLed(q, p2, {}, n1);
    JoinPassLed(q, p3);
  }

  lemma {:induction false} FilterFull(w: World, p: Pred, rows: seq<Row>)
    ensures |Filter(w, p, rows)| <= |rows|
    ensures |Filter(w, p, rows)| == |rows| ==> Filter(w, p, rows) == rows
  {
    if rows != [] { FilterFull(w, p, rows[1..]); }
  }

  /** One predicate with OR in the first factor, OR in one of its conjuncts: the rewritten plan delivers
      the filtered rows in the order of the OR.  The plan as written does so only if that conjunct comes
      first, and otherwise delivers them unmoved.  So the rewriter keeps the sequence exactly if the OR
      comes first, or if along the filtered rows the first alternative that holds never falls. */
  lemma OneOrKeepsSequenceIff(w: World, p: Pred, i: nat, plan: Plan, fromCount: nat, hasWhere: bool, next: nat)
    requires WellFormed(plan) && Core(plan) && LedBy(p, plan) && OnlyOr(p, i) && StaysLeft(Break(p)[i], plan)
    ensures var filtered := Filtered(w, plan);
      var moved := Delivered(w, Break(p)[i], filtered);
      && Rows(w, Rewrite(plan, fromCount, hasWhere, next)) == moved
      && Rows(w, plan) == (if i == 0 then moved else filtered)
      && (Rows(w, Rewrite(plan, fromCount, hasWhere, next)) == Rows(w, plan) <==> i == 0 || NeverPreferred(w, Break(p)[i], filtered))
  {
    var r := Rewrite(plan, fromCount, hasWhere, next);
    RewriteLed(p, i, plan, fromCount, hasWhere, next);
    RewriteKeepsFilters(w, plan, fromCount, hasWhere, next);
    ConjunctIsWhole(p, i);
    LedRows(w, Break(p)[i], r);
    LedRows(w, p, plan);
    if i != 0 {
      var filtered := Filtered(w, plan);
      ReorderedSatisfy(w, Break(p)[i], filtered, r);
      UnmovedIff(w, Break(p)[i], filtered);
      OrFreeDelivers(w, Break(p)[0], filtered);
      CoreKeepsRows(w, plan);
      assert |Rows(w, plan)| == |multiset(Rows(w, plan))| && |filtered| == |multiset(filtered)|;
      FilterFull(w, Break(p)[0], filtered);
    }
  }

  /** What delivers all of the rows holds for all of them. */
  lemma ReorderedSatisfy(w: World, q: Pred, rows: seq<Row>, r: Plan)
    requires Core(r) && Filtered(w, r) == rows && Rows(w, r) == Delivered(w, q, rows)
    ensures forall row :: row in rows ==> Truth(w, q, row)
  {
    CoreKeepsRows(w, r);
    DeliveredMembers(w, q, rows);
    forall row | row in rows ensures Truth(w, q, row) {
      assert row in multiset(rows) && row in multiset(Rows(w, r));
    }
  }

  lemma RewriteBelow(op: int, c: Plan, fromCount: nat, hasWhere: bool, next: nat)
    requires WellFormed(c)
    ensures WellFormed(Other(op, c)) && Rewrite(Other(op, c), fromCount, hasWhere, next) == Other(op, Rewrite(c, fromCount, hasWhere, next))
  {
    AndPassKeeps(c, next);
    CrossPassKeeps(AndPass(c, next).0);
  }

  /** With an OR that comes first the sequence stays the same, limits and all. */
  lemma {:induction false} LeadingOrKeepsSequence(w: World, p: Pred, plan: Plan, fromCount: nat, hasWhere: bool, next: nat)
    requires WellFormed(plan) && LedBy(p, plan) && OnlyOr(p, 0) && StaysLeft(Break(p)[0], plan)
    ensures Rows(w, Rewrite(plan, fromCount, hasWhere, next)) == Rows(w, plan)
    decreases plan
  {
    if plan.Other? {
      LeadingOrKeepsSequence(w, p, plan.child, fromCount, hasWhere, next);
      RewriteBelow(plan.op, plan.child, fromCount, hasWhere, next);
    } else {
      BodyIsCore(plan);
      OneOrKeepsSequenceIff(w, p, 0, plan, fromCount, hasWhere, next);
    }
  }

  ghost predicate OrderBlind(w: World) {
    forall op, xs, ys :: multiset(xs) == multiset(ys) ==> multiset(w.apply(op, xs)) == multiset(w.apply(op, ys))
  }

  /** When the nodes above do not look at the order, the whole plan delivers the same rows. */
  lemma {:induction false} RewriteKeepsAllRows(w: World, plan: Plan, fromCount: nat, hasWhere: bool, next: nat)
    requires WellFormed(plan) && OrderBlind(w)
    ensures multiset(Rows(w, Rewrite(plan, fromCount, hasWhere, next))) == multiset(Rows(w, plan))
    decreases plan
  {
    if plan.Other? {
      RewriteKeepsAllRows(w, plan.child, fromCount, hasWhere, next);
      RewriteBelow(plan.op, plan.child, fromCount, hasWhere, next);
    } else {
      RewriteKeepsRows(w, plan, fromCount, hasWhere, next);
      BodyIsCore(plan);
      RewriteKeepsFilters(w, plan, fromCount, hasWhere, next);
    }
  }

  // ---------- An OR about a later factor ----------

  /** FROM t, u WHERE a OR b */
  function LaterOr(a: Pred, b: Pred, t: Table, u: Table): Plan {
    Select(0, Or([a, b]), Cross([Access(t), Access(u)]))
  }

  ghost predicate AboutLater(a: Pred, b: Pred, t: Table, u: Table) {
    t != u && OrFree(a) && OrFree(b) && PredTables(Or([a, b])) == {u}
  }

  lemma JustOne(plan: Plan, plan': Plan)
    ensures var one := [plan];
      && one[1..] == [] && TablesOf(one) == Tables(plan)
      && (WellFormed(plan) && Core(plan) ==> AllApart(one))
      && [plan', plan][1..] == one
      && (WellFormed(plan') && Core(plan') && WellFormed(plan) && Core(plan) && Tables(plan') !! Tables(plan) ==> AllApart([plan', plan]))
  {
    var one := [plan];
    assert one[1..] == [];
    assert TablesOf(one) == Tables(plan) + TablesOf([]);
    assert AllApart([]);
    assert one[0] == plan;
    assert [plan', plan][1..] == one;
  }

  /** The OR sinks onto u. */
  lemma LaterOrRewritten(a: Pred, b: Pred, t: Table, u: Table, next: nat)
    requires AboutLater(a, b, t, u)
    ensures WellFormed(LaterOr(a, b, t, u))
    ensures Rewrite(LaterOr(a, b, t, u), 2, true, next) == Cross([Access(t), Select(next + 1, Or([a, b]), Access(u))])
  {
    var q := Or([a, b]);
    var left, right, below := Access(t), Access(u), Select(next + 1, q, Access(u));
    JustOne(right, left);
    JustOne(below, left);
    ApartCore([left, right]);
    assert [q][1..] == [] && Break(q) == [q];
    assert [right] + [] == [right] && [left] + [right] == [left, right];
    assert [below] + [] == [below] && [left] + [below] == [left, below];
    assert AndPassAll([right], next) == ([right], next);
    assert AndPassAll([left, right], next) == ([left, right], next);
    assert Chain([q], Cross([left, right]), next) == Select(next, q, Chain([], Cross([left, right]), next + 1));
    assert AndPass(LaterOr(a, b, t, u), next).0 == Select(next, q, Cross([left, right]));
    LaterOrPushed(q, t, u, next);
    assert JoinPass(right) == right && JoinPass(left) == left && JoinPass(below) == below;
    assert JoinPassAll([below]) == [below] && JoinPassAll([left, below]) == [left, below];
  }

  lemma LaterOrPushed(q: Pred, t: Table, u: Table, n: nat)
    requires q.Or? && t != u && PredTables(q) == {u}
    ensures var plan := Select(n, q, Cross([Access(t), Access(u)]));
      WellFormed(plan) && Process(plan, {}, n + 1).0 == Cross([Access(t), Select(n + 1, q, Access(u))])
  {
    var left, right, below := Access(t), Access(u), Select(n + 1, q, Access(u));
    var kids, kids' := [left, right], [left, below];
    JustOne(right, left);
    JustOne(below, left);
    ApartCore([left, right]);
    assert !Refers(kids[0], q) && Refers(kids[1], q) && SomeRefers(kids, q) && Moves(q, Cross(kids));
    assert PushDown(n + 1, q, right, n + 2) == (below, n + 2);
    assert [below] + [] == [below] && [left] + [below] == [left, below];
    assert PushKids(q, [right], n + 1) == ([below], n + 2);
    assert PushKids(q, kids, n + 1) == (kids', n + 2);
    assert PushDown(n, q, Cross(kids), n + 1) == (Cross(kids'), n + 2);
    var done, done' := {n}, {n, n + 1};
    assert {} + {n} == done && done + {n + 1} == done';
    assert Process(right, done', n + 2) == (right, done', n + 2);
    assert ProcessBelow(below, n + 1, done', n + 2) == (below, done', n + 2);
    assert Process(below, done, n + 2) == (below, done', n + 2);
    assert Process(left, done, n + 2) == (left, done, n + 2);
    assert ProcessKids([below], done, n + 2) == ([below], done', n + 2);
    assert ProcessKids(kids', done, n + 2) == (kids', done', n + 2);
    assert Process(Cross(kids'), done, n + 2) == (Cross(kids'), done', n + 2);
    assert ProcessBelow(right, n, done', n + 2) == (right, done', n + 2);
    assert ProcessBelow(below, n, done', n + 2) == (below, done', n + 2);
    assert ProcessBelowKids([below], n, done', n + 2) == ([below], done', n + 2);
    assert ProcessBelowKids(kids', n, done', n + 2) == (kids', done', n + 2);
    assert ProcessBelow(Cross(kids'), n, done', n + 2) == (Cross(kids'), done', n + 2);
    assert Process(Select(n, q, Cross(kids)), {}, n + 1) == ProcessBelow(Cross(kids'), n, done', n + 2);
  }

  /** The rows for which b alone holds come after those for which a holds. */
  lemma EitherDelivers(w: World, a: Pred, b: Pred, rows: seq<Row>)
    requires OrFree(a) && OrFree(b)
    ensures Delivered(w, Or([a, b]), rows) == Keep(IsTrue(w, a), rows) + Keep(OnlySecond(w, a, b), rows)
  {
    var first := [a];
    OrFreeDelivers(w, a, rows);
    OrFreeDelivers(w, b, rows);
    KeepIsFilter(w, a, rows);
    KeepIsFilter(w, b, rows);
    assert [a, b][..1] == first && first[..0] == [] && first[1..] == [];
    KeepAll(NoneTrue(w, []), Delivered(w, a, rows));
    assert DeliveredByAny(w, first, rows) == Delivered(w, a, rows);
    forall row ensures NoneTrue(w, first)(row) <==> !Truth(w, a, row) {
      assert AnyTrue(w, first, row) <==> Truth(w, a, row) || AnyTrue(w, [], row);
    }
    KeepEach(NoneTrue(w, first), IsTrue(w, b), OnlySecond(w, a, b), rows);
  }

  function OnlySecond(w: World, a: Pred, b: Pred): Row -> bool { (row: Row) => Truth(w, b, row) && !Truth(w, a, row) }

  lemma {:induction false} KeepEach(f: Row -> bool, g: Row -> bool, h: Row -> bool, rows: seq<Row>)
    requires forall row :: h(row) <==> f(row) && g(row)
    ensures Keep(f, Keep(g, rows)) == Keep(h, rows)
  {
    if rows != [] {
      KeepEach(f, g, h, rows[1..]);
      assert [rows[0]][1..] == [];
      KeepConcat(f, if g(rows[0]) then [rows[0]] else [], Keep(g, rows[1..]));
    }
  }

  lemma {:induction false} ExtendKeepRight(f: Row -> bool, row: Row, right: seq<Row>)
    requires forall r :: r in right ==> f(row + r) == f(r)
    ensures Keep(f, Extend(row, right)) == Extend(row, Keep(f, right))
  {
    if right != [] {
      assert right[0] in right;
      ExtendKeepRight(f, row, right[1..]);
      assert Extend(row, right)[1..] == Extend(row, right[1..]);
      ExtendConcat(row, if f(right[0]) then [right[0]] else [], Keep(f, right[1..]));
      assert [right[0]][1..] == [] && [row + right[0]] + [] == [row + right[0]];
    }
  }

  lemma {:induction false} PairsKeepRight(f: Row -> bool, left: seq<Row>, right: seq<Row>)
    requires forall l, r :: l in left && r in right ==> f(l + r) == f(r)
    ensures Keep(f, Pairs(left, right)) == Pairs(left, Keep(f, right))
  {
    if left != [] {
      assert left[0] in left;
      PairsKeepRight(f, left[1..], right);
      ExtendKeepRight(f, left[0], right);
      KeepConcat(f, Extend(left[0], right), Pairs(left[1..], right));
    }
  }

  lemma {:induction false} ExtendConcat(row: Row, a: seq<Row>, b: seq<Row>)
    ensures Extend(row, a + b) == Extend(row, a) + Extend(row, b) && |Extend(row, a)| == |a|
  {
    if a == [] {
      assert a + b == b;
    } else {
      ExtendConcat(row, a[1..], b);
      assert (a + b)[1..] == a[1..] + b;
    }
  }

  lemma {:induction false} PairsNone(left: seq<Row>)
    ensures Pairs(left, []) == []
  {
    if left != [] { PairsNone(left[1..]); }
  }

  /** Going through the left rows with all of a + b is not going through them with a and then with b. */
  lemma PairsTwice(f: Row -> bool, left: seq<Row>, a: seq<Row>, b: seq<Row>)
    requires forall l, r :: l in left && r in a ==> f(l + r)
    requires forall l, r :: l in left && r in b ==> !f(l + r)
    ensures Pairs(left, a + b) == Pairs(left, a) + Pairs(left, b) <==> |left| <= 1 || a == [] || b == []
  {
    hide Pairs;
    PairsNone(left);
    if a == [] {
      assert a + b == b && [] + Pairs(left, b) == Pairs(left, b);
    } else if b == [] {
      assert a + b == a && Pairs(left, a) + [] == Pairs(left, a);
    } else if |left| > 1 {
      assert left[0] in left && left[1] in left && a[0] in a && b[0] in b;
      PairsApart(f, left, a, b);
    } else {
      PairsFew(left, a, b);
    }
  }

  lemma PairsFew(left: seq<Row>, a: seq<Row>, b: seq<Row>)
    requires |left| <= 1
    ensures Pairs(left, a + b) == Pairs(left, a) + Pairs(left, b)
  {
    if left != [] {
      assert left[1..] == [];
      ExtendConcat(left[0], a, b);
    }
  }

  lemma PairsApart(f: Row -> bool, left: seq<Row>, a: seq<Row>, b: seq<Row>)
    requires |left| > 1 && a != [] && b != [] && f(left[1] + a[0]) && !f(left[0] + b[0])
    ensures Pairs(left, a + b) != Pairs(left, a) + Pairs(left, b)
  {
    hide Extend, Pairs;
    var first, second := left[0], left[1];
    ExtendConcat(first, a, b);
    ExtendHead(first, b);
    ExtendHead(second, a);
    var rest := left[1..];
    assert rest[0] == second;
    var as1, as2, bs1 := Extend(first, a), Extend(second, a), Extend(first, b);
    var more, more', more'' := Pairs(rest, a + b), Pairs(rest[1..], a), Pairs(left, b);
    PairsFirst(left, a + b);
    PairsFirst(left, a);
    PairsFirst(rest, a);
    ThenFirst(as1, bs1, more);
    ThenFirst(as1, as2, more');
    Regroup(as1, as2 + more', more'');
    ThenFirst(as1, as2 + more', more'');
  }

  lemma PairsFirst(left: seq<Row>, right: seq<Row>)
    requires left != []
    ensures Pairs(left, right) == Extend(left[0], right) + Pairs(left[1..], right)
  {
  }

  lemma ThenFirst<T>(a: seq<T>, b: seq<T>, c: seq<T>)
    requires b != []
    ensures (a + b + c)[|a|] == b[0] && (a + (b + c))[|a|] == b[0]
  {
  }

  lemma ExtendHead(row: Row, right: seq<Row>)
    requires right != []
    ensures Extend(row, right) != [] && Extend(row, right)[0] == row + right[0]
  {
  }

  /** An OR about the later of two tables: the rewriter keeps the sequence exactly if the first table has
      at most one row, or one of the two alternatives adds nothing. */
  lemma LaterOrKeepsSequenceIff(w: World, a: Pred, b: Pred, t: Table, u: Table, next: nat)
    requires AboutLater(a, b, t, u)
    ensures WellFormed(LaterOr(a, b, t, u))
    ensures Rows(w, Rewrite(LaterOr(a, b, t, u), 2, true, next)) == Rows(w, LaterOr(a, b, t, u)) <==>
      || |w.rows(t)| <= 1
      || (forall row :: row in TableRows(u, w.rows(u)) ==> !Truth(w, a, row))
      || (forall row :: row in TableRows(u, w.rows(u)) && Truth(w, b, row) ==> Truth(w, a, row))
  {
    hide Pairs, Rewrite, Rows, Delivered, TableRows, Keep, Truth;
    var q := Or([a, b]);
    var left, right := TableRows(t, w.rows(t)), TableRows(u, w.rows(u));
    LaterOrRewritten(a, b, t, u, next);
    LaterOrRows(w, q, Access(t), Access(u), next + 1);
    AccessRows(w, t);
    AccessRows(w, u);
    SelectDelivers(w, q, Pairs(left, right));
    SelectDelivers(w, q, right);
    RightTruth(w, a, b, t, u);
    EitherOfPairs(w, a, b, left, right);
    TableRowsLength(t, w.rows(t));
    NoneKept(IsTrue(w, a), right);
    NoneKept(OnlySecond(w, a, b), right);
  }

  lemma AccessRows(w: World, t: Table)
    ensures Rows(w, Access(t)) == TableRows(t, w.rows(t))
  {
  }

  lemma EitherOfPairs(w: World, a: Pred, b: Pred, left: seq<Row>, right: seq<Row>)
    requires OrFree(a) && OrFree(b)
    requires forall l, r :: l in left && r in right ==> Truth(w, a, l + r) == Truth(w, a, r) && Truth(w, b, l + r) == Truth(w, b, r)
    ensures Pairs(left, Delivered(w, Or([a, b]), right)) == Delivered(w, Or([a, b]), Pairs(left, right)) <==>
      |left| <= 1 || Keep(IsTrue(w, a), right) == [] || Keep(OnlySecond(w, a, b), right) == []
  {
    hide Pairs, Delivered, Keep, Truth;
    var fst, snd := Keep(IsTrue(w, a), right), Keep(OnlySecond(w, a, b), right);
    EitherDelivers(w, a, b, Pairs(left, right));
    EitherDelivers(w, a, b, right);
    PairsKeepRight(IsTrue(w, a), left, right);
    PairsKeepRight(OnlySecond(w, a, b), left, right);
    KeepMembers(IsTrue(w, a), right);
    KeepMembers(OnlySecond(w, a, b), right);
    PairsTwice(IsTrue(w, a), left, fst, snd);
  }

  lemma NoneKept(f: Row -> bool, rows: seq<Row>)
    ensures Keep(f, rows) == [] <==> forall row :: row in rows ==> !f(row)
  {
    KeepMembers(f, rows);
    if Keep(f, rows) != [] { assert Keep(f, rows)[0] in Keep(f, rows); }
  }

  lemma {:induction false} TableRowsLength(table: Table, values: seq<Value>)
    ensures |TableRows(table, values)| == |values|
  {
    if values != [] { TableRowsLength(table, values[1..]); }
  }

  lemma LaterOrRows(w: World, q: Pred, left: Plan, right: Plan, n: nat)
    ensures Rows(w, Select(0, q, Cross([left, right]))) == At(Pairs(Rows(w, left), Rows(w, right)), Eval(w, q, Pairs(Rows(w, left), Rows(w, right))))
    ensures Rows(w, Cross([left, Select(n, q, right)])) == Pairs(Rows(w, left), At(Rows(w, right), Eval(w, q, Rows(w, right))))
  {
    TwoFactors(w, left, right);
    TwoFactors(w, left, Select(n, q, right));
  }

  lemma TwoFactors(w: World, left: Plan, right: Plan)
    ensures Rows(w, Cross([left, right])) == Pairs(Rows(w, left), Rows(w, right))
  {
    var kids := [left, right];
    assert kids[1..] == [right] && kids[1..][1..] == [];
    assert KidRows(w, kids[1..]) == [Rows(w, right)];
    var rows := [Rows(w, left), Rows(w, right)];
    assert KidRows(w, kids) == rows && rows[..1] == [Rows(w, left)];
    ProductOne(Rows(w, left));
  }

  lemma RightTruth(w: World, a: Pred, b: Pred, t: Table, u: Table)
    requires AboutLater(a, b, t, u)
    ensures forall l, r :: l in TableRows(t, w.rows(t)) && r in TableRows(u, w.rows(u)) ==>
      Truth(w, a, l + r) == Truth(w, a, r) && Truth(w, b, l + r) == Truth(w, b, r)
  {
    TableRowsOver(t, w.rows(t));
    TableRowsOver(u, w.rows(u));
    assert [a, b][1..] == [b];
    assert KidTables([a, b]) == PredTables(a) + KidTables([b]) && KidTables([b]) == PredTables(b) + KidTables([b][1..]);
    forall l, r | l in TableRows(t, w.rows(t)) && r in TableRows(u, w.rows(u))
      ensures Truth(w, a, l + r) == Truth(w, a, r) && Truth(w, b, l + r) == Truth(w, b, r)
    {
      TruthLocal(w, a, l + r, r);
      TruthLocal(w, b, l + r, r);
    }
  }

  const U: Table := "u"

  /** Two rows in every table; atom id holds of the rows whose value is id. */
  function TwoRows(): World {
    World(_ => [1, 2], (id: int, row: Row) => row == map[U := id], (_, rows) => rows)
  }

  /** WHERE u.v = 2 OR u.v = 1 over two tables of two rows: the rewriter changes the sequence. */
  lemma OrBelowProductChangesOrder()
    ensures var plan := LaterOr(Atom(2, {U}, false), Atom(1, {U}, false), T, U);
      WellFormed(plan) && Rows(TwoRows(), Rewrite(plan, 2, true, 1)) != Rows(TwoRows(), plan)
  {
    var w, a, b := TwoRows(), Atom(2, {U}, false), Atom(1, {U}, false);
    assert [a, b][1..] == [b] && [b][1..] == [];
    assert KidTables([a, b]) == {U} + KidTables([b]) && KidTables([b]) == {U} + KidTables([]);
    TwoRowsOfU();
    LaterOrKeepsSequenceIff(w, a, b, T, U, 1);
    assert |w.rows(T)| == 2;
  }

  lemma TwoRowsOfU()
    ensures var w, r1: Row, r2: Row := TwoRows(), map[U := 1], map[U := 2];
      && r1 in TableRows(U, w.rows(U)) && r2 in TableRows(U, w.rows(U))
      && Truth(w, Atom(2, {U}, false), r2) && Truth(w, Atom(1, {U}, false), r1) && !Truth(w, Atom(2, {U}, false), r1)
  {
    var r1: Row, r2: Row := map[U := 1], map[U := 2];
    assert [1, 2][1..] == [2] && [2][1..] == [];
    assert TableRows(U, [1, 2]) == [r1] + TableRows(U, [2]) && TableRows(U, [2]) == [r2] + TableRows(U, []);
    assert Restrict(r1, {U}) == r1 && Restrict(r2, {U}) == r2 && r1[U] == 1 && r2[U] == 2;
  }
}
