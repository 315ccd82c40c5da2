/** Any WHERE over one table: when the rewriter keeps the sequence of rows. */
module PlanTies {
  import opened QueryPlans
  import opened PlanMeaning
  import opened PlanPasses
  import opened PlanRewriter
  import opened PlanOrder

  // ---------- Preferences are orders ----------

  lemma {:induction false} PreferenceReflexive(w: World, p: Pred, a: Row)
    ensures NotPreferred(w, p, a, a)
    decreases p
  {
    match p
    case Atom(_, _, _) =>
    case And(kids) => if kids != [] { PreferenceReflexive(w, kids[0], a); }
    case Or(kids) =>
      var i := First(w, kids, a);
      if i < |kids| { PreferenceReflexive(w, kids[i], a); }
  }

  lemma {:induction false} PreferenceTransitive(w: World, p: Pred, a: Row, b: Row, c: Row)
    requires NotPreferred(w, p, b, a) && NotPreferred(w, p, c, b)
    ensures NotPreferred(w, p, c, a)
    decreases p
  {
    match p
    case Atom(_, _, _) =>
    case And(kids) => if kids != [] { PreferenceTransitive(w, kids[0], a, b, c); }
    case Or(kids) =>
      var i, j, k := First(w, kids, a), First(w, kids, b), First(w, kids, c);
      if i == j == k && i < |kids| { PreferenceTransitive(w, kids[i], a, b, c); }
  }

  predicate Tied(w: World, p: Pred, a: Row, b: Row) {
    NotPreferred(w, p, a, b) && NotPreferred(w, p, b, a)
  }

  function TiedTo(w: World, p: Pred, a: Row): Row -> bool { (b: Row) => Tied(w, p, a, b) }

  // ---------- What a selection delivers is in its order ----------

  lemma {:induction false} KeepNeverPreferred(w: World, p: Pred, f: Row -> bool, rows: seq<Row>)
    requires NeverPreferred(w, p, rows)
    ensures NeverPreferred(w, p, Keep(f, rows))
  {
    if rows != [] {
      var rest := rows[1..];
      hide NotPreferred;
      forall i, j | 0 <= i < j < |rest| ensures NotPreferred(w, p, rest[j], rest[i]) {
        assert NotPreferred(w, p, rows[j + 1], rows[i + 1]);
      }
      KeepNeverPreferred(w, p, f, rest);
      KeepMembers(f, rest);
      forall a, b | a in [rows[0]] && b in Keep(f, rest) ensures NotPreferred(w, p, b, a) {
        var j :| 0 <= j < |rest| && rest[j] == b;
        assert NotPreferred(w, p, rows[j + 1], rows[0]);
      }
      BlocksPreferred(w, p, [rows[0]], Keep(f, rest));
      KeepFirst(f, rows);
      assert [] + Keep(f, rest) == Keep(f, rest);
    }
  }

  lemma {:induction false} DeliveredInOrder(w: World, p: Pred, rows: seq<Row>)
    ensures NeverPreferred(w, p, Delivered(w, p, rows))
    decreases p, 0
  {
    match p
    case Atom(_, _, _) =>
    case And(kids) =>
      if kids != [] {
        DeliveredInOrder(w, kids[0], rows);
        KeepNeverPreferred(w, kids[0], IsTrue(w, p), Delivered(w, kids[0], rows));
      }
    case Or(kids) =>
      assert kids[..|kids|] == kids;
      DeliveredByAnyInOrder(w, kids, |kids|, rows);
  }

  lemma {:induction false} DeliveredByAnyInOrder(w: World, kids: seq<Pred>, k: nat, rows: seq<Row>)
    requires k <= |kids|
    ensures NeverPreferred(w, Or(kids), DeliveredByAny(w, kids[..k], rows))
    decreases kids, k + 1
  {
    if k > 0 {
      hide Delivered, DeliveredByAny, NeverPreferred, NotPreferred, Keep, First;
      var f, last := FirstBelow(w, kids, k - 1), kids[k - 1];
      var xs, ys := DeliveredByAny(w, kids[..k - 1], Keep(f, rows)), Delivered(w, last, Keep(Negated(f), rows));
      BlocksDelivered(w, kids, k, rows);
      DeliveredByAnyInOrder(w, kids, k - 1, Keep(f, rows));
      DeliveredInOrder(w, last, Keep(Negated(f), rows));
      DeliveredMembers(w, last, Keep(Negated(f), rows));
      forall row | row in ys ensures First(w, kids, row) == k - 1 { NotEarlier(w, kids, k - 1, row); }
      LastPreference(w, kids, k, ys);
      EarlierPreferred(w, kids, k - 1);
      BlocksPreferred(w, Or(kids), xs, ys);
    } else {
      assert kids[..0] == [];
    }
  }

  lemma NotEarlier(w: World, kids: seq<Pred>, k: nat, row: Row)
    requires k < |kids| && Truth(w, kids[k], row) && First(w, kids, row) >= k
    ensures First(w, kids, row) == k
  {
  }

  // ---------- A selection forgets the order between rows that are not tied ----------

  lemma {:induction false} SameWhenTiesAre(w: World, p: Pred, xs: seq<Row>, ys: seq<Row>)
    requires NeverPreferred(w, p, xs) && NeverPreferred(w, p, ys)
    requires forall a :: Keep(TiedTo(w, p, a), xs) == Keep(TiedTo(w, p, a), ys)
    ensures xs == ys
    decreases |xs|
  {
    hide NotPreferred, NeverPreferred, Tied, Keep;
    if xs == [] {
      if ys != [] {
        KeepsItsFirst(w, p, ys);
        KeepNothing(TiedTo(w, p, ys[0]));
      }
    } else {
      SameFirst(w, p, xs, ys);
      SameTails(w, p, xs, ys);
      TailNeverPreferred(w, p, xs);
      TailNeverPreferred(w, p, ys);
      SameWhenTiesAre(w, p, xs[1..], ys[1..]);
      assert xs == [xs[0]] + xs[1..] && ys == [ys[0]] + ys[1..];
    }
  }

  lemma KeepNothing(f: Row -> bool)
    ensures Keep(f, []) == []
  {
  }

  lemma SameTails(w: World, p: Pred, xs: seq<Row>, ys: seq<Row>)
    requires xs != [] && ys != [] && xs[0] == ys[0]
    requires forall a :: Keep(TiedTo(w, p, a), xs) == Keep(TiedTo(w, p, a), ys)
    ensures forall a :: Keep(TiedTo(w, p, a), xs[1..]) == Keep(TiedTo(w, p, a), ys[1..])
  {
    hide NotPreferred, Tied, Keep;
    forall a ensures Keep(TiedTo(w, p, a), xs[1..]) == Keep(TiedTo(w, p, a), ys[1..]) {
      var f := TiedTo(w, p, a);
      KeepFirst(f, xs);
      KeepFirst(f, ys);
      SameAfter(if f(xs[0]) then [xs[0]] else [], Keep(f, xs[1..]), Keep(f, ys[1..]));
    }
  }

  lemma SameAfter<T>(a: seq<T>, b: seq<T>, c: seq<T>)
    requires a + b == a + c
    ensures b == c
  {
    assert (a + b)[|a|..] == b && (a + c)[|a|..] == c;
  }

  lemma TailNeverPreferred(w: World, p: Pred, rows: seq<Row>)
    requires rows != [] && NeverPreferred(w, p, rows)
    ensures NeverPreferred(w, p, rows[1..])
  {
    forall i, j | 0 <= i < j < |rows[1..]| ensures NotPreferred(w, p, rows[1..][j], rows[1..][i]) {
      assert NotPreferred(w, p, rows[j + 1], rows[i + 1]);
    }
  }

  lemma KeepsItsFirst(w: World, p: Pred, rows: seq<Row>)
    requires rows != []
    ensures var k := Keep(TiedTo(w, p, rows[0]), rows); k != [] && k[0] == rows[0]
  {
    PreferenceReflexive(w, p, rows[0]);
  }

  lemma SameFirst(w: World, p: Pred, xs: seq<Row>, ys: seq<Row>)
    requires xs != [] && NeverPreferred(w, p, xs) && NeverPreferred(w, p, ys)
    requires forall a :: Keep(TiedTo(w, p, a), xs) == Keep(TiedTo(w, p, a), ys)
    ensures ys != [] && xs[0] == ys[0]
  {
    hide NotPreferred;
    var a := xs[0];
    KeepsItsFirst(w, p, xs);
    KeepMembers(TiedTo(w, p, a), ys);
    assert a in ys;
    var b := ys[0];
    KeepsItsFirst(w, p, ys);
    KeepMembers(TiedTo(w, p, b), xs);
    assert b in xs;
    PreferenceReflexive(w, p, a);
    var j :| 0 <= j < |xs| && xs[j] == b;
    var i :| 0 <= i < |ys| && ys[i] == a;
    assert j == 0 || NotPreferred(w, p, xs[j], xs[0]);
    assert i == 0 || NotPreferred(w, p, ys[i], ys[0]);
    assert Tied(w, p, a, b);
    KeepFirst(TiedTo(w, p, a), ys);
  }

  lemma TiedStay(w: World, p: Pred, a: Row, rows: seq<Row>)
    requires forall row :: row in rows ==> Truth(w, p, row)
    ensures Keep(TiedTo(w, p, a), Delivered(w, p, rows)) == Keep(TiedTo(w, p, a), rows)
  {
    hide NotPreferred, Truth;
    var tied := Keep(TiedTo(w, p, a), rows);
    KeepDelivered(TiedTo(w, p, a), w, p, rows);
    KeepMembers(TiedTo(w, p, a), rows);
    forall i, j | 0 <= i < j < |tied| ensures NotPreferred(w, p, tied[j], tied[i]) {
      assert tied[i] in tied && tied[j] in tied;
      PreferenceTransitive(w, p, tied[i], a, tied[j]);
    }
    UnmovedIff(w, p, tied);
  }

  /** Two selections by one predicate deliver the same exactly if its ties come in the same order. */
  lemma SameDeliveredIff(w: World, p: Pred, xs: seq<Row>, ys: seq<Row>)
    requires (forall row :: row in xs ==> Truth(w, p, row)) && (forall row :: row in ys ==> Truth(w, p, row))
    ensures Delivered(w, p, xs) == Delivered(w, p, ys) <==> forall a :: Keep(TiedTo(w, p, a), xs) == Keep(TiedTo(w, p, a), ys)
  {
    hide Delivered, NotPreferred, NeverPreferred, Keep, Truth;
    forall a ensures Keep(TiedTo(w, p, a), Delivered(w, p, xs)) == Keep(TiedTo(w, p, a), xs)
      && Keep(TiedTo(w, p, a), Delivered(w, p, ys)) == Keep(TiedTo(w, p, a), ys)
    {
      TiedStay(w, p, a, xs);
      TiedStay(w, p, a, ys);
    }
    if forall a :: Keep(TiedTo(w, p, a), xs) == Keep(TiedTo(w, p, a), ys) {
      DeliveredInOrder(w, p, xs);
      DeliveredInOrder(w, p, ys);
      SameWhenTiesAre(w, p, Delivered(w, p, xs), Delivered(w, p, ys));
    }
  }

  // ---------- Several selections on top of each other ----------

  function DeliveredAll(w: World, ps: seq<Pred>, rows: seq<Row>): seq<Row> {
    if ps == [] then rows else Delivered(w, ps[0], DeliveredAll(w, ps[1..], rows))
  }

  /** Ties of one predicate are left to the next. */
  predicate NotPreferredByAll(w: World, ps: seq<Pred>, b: Row, a: Row) {
    ps == [] || (NotPreferred(w, ps[0], b, a) && (Tied(w, ps[0], a, b) ==> NotPreferredByAll(w, ps[1..], b, a)))
  }

  ghost predicate NeverPreferredByAll(w: World, ps: seq<Pred>, rows: seq<Row>) {
    forall i, j :: 0 <= i < j < |rows| ==> NotPreferredByAll(w, ps, rows[j], rows[i])
  }

  /** Rows that the first predicate ties come in the order of the others. */
  ghost predicate TiesInOrder(w: World, p: Pred, ps: seq<Pred>, rows: seq<Row>) {
    forall i, j :: 0 <= i < j < |rows| && Tied(w, p, rows[i], rows[j]) ==> NotPreferredByAll(w, ps, rows[j], rows[i])
  }

  lemma {:induction false} KeepDeliveredAll(f: Row -> bool, w: World, ps: seq<Pred>, rows: seq<Row>)
    ensures Keep(f, DeliveredAll(w, ps, rows)) == DeliveredAll(w, ps, Keep(f, rows))
  {
    if ps != [] {
      KeepDeliveredAll(f, w, ps[1..], rows);
      KeepDelivered(f, w, ps[0], DeliveredAll(w, ps[1..], rows));
    }
  }

  lemma {:induction false} DeliveredAllMembers(w: World, ps: seq<Pred>, rows: seq<Row>)
    ensures forall row :: row in DeliveredAll(w, ps, rows) <==> row in rows && AllTrue(w, ps, row)
  {
    if ps != [] {
      DeliveredAllMembers(w, ps[1..], rows);
      DeliveredMembers(w, ps[0], DeliveredAll(w, ps[1..], rows));
    }
  }

  lemma {:induction false} KeptPair(f: Row -> bool, rows: seq<Row>, i: nat, j: nat) returns (k: nat, l: nat)
    requires i < j < |rows| && f(rows[i]) && f(rows[j])
    ensures k < l < |Keep(f, rows)| && Keep(f, rows)[k] == rows[i] && Keep(f, rows)[l] == rows[j]
  {
    KeepFirst(f, rows);
    var rest := rows[1..];
    if i > 0 {
      k, l := KeptPair(f, rest, i - 1, j - 1);
      if f(rows[0]) { k, l := k + 1, l + 1; }
    } else {
      KeepMembers(f, rest);
      assert rest[j - 1] in rest;
      var m :| 0 <= m < |Keep(f, rest)| && Keep(f, rest)[m] == rows[j];
      k, l := 0, m + 1;
    }
  }

  lemma {:induction false} KeptFrom(f: Row -> bool, rows: seq<Row>, k: nat, l: nat) returns (i: nat, j: nat)
    requires k < l < |Keep(f, rows)|
    ensures i < j < |rows| && Keep(f, rows)[k] == rows[i] && Keep(f, rows)[l] == rows[j]
  {
    KeepFirst(f, rows);
    var rest := rows[1..];
    if !f(rows[0]) {
      i, j := KeptFrom(f, rest, k, l);
      i, j := i + 1, j + 1;
    } else if k > 0 {
      i, j := KeptFrom(f, rest, k - 1, l - 1);
      i, j := i + 1, j + 1;
    } else {
      KeepMembers(f, rest);
      assert Keep(f, rest)[l - 1] in Keep(f, rest);
      var m :| 0 <= m < |rest| && rest[m] == Keep(f, rest)[l - 1];
      i, j := 0, m + 1;
    }
  }

  lemma TiesByClass(w: World, p: Pred, ps: seq<Pred>, rows: seq<Row>)
    ensures TiesInOrder(w, p, ps, rows) <==> forall a :: NeverPreferredByAll(w, ps, Keep(TiedTo(w, p, a), rows))
  {
    hide NotPreferred, NotPreferredByAll, Keep;
    if TiesInOrder(w, p, ps, rows) {
      forall a ensures NeverPreferredByAll(w, ps, Keep(TiedTo(w, p, a), rows)) {
        var f := TiedTo(w, p, a);
        KeepMembers(f, rows);
        forall k, l | 0 <= k < l < |Keep(f, rows)| ensures NotPreferredByAll(w, ps, Keep(f, rows)[l], Keep(f, rows)[k]) {
          var i, j := KeptFrom(f, rows, k, l);
          assert Keep(f, rows)[k] in Keep(f, rows) && Keep(f, rows)[l] in Keep(f, rows);
          PreferenceTransitive(w, p, rows[i], a, rows[j]);
          PreferenceTransitive(w, p, rows[j], a, rows[i]);
        }
      }
    }
    if forall a :: NeverPreferredByAll(w, ps, Keep(TiedTo(w, p, a), rows)) {
      forall i, j | 0 <= i < j < |rows| && Tied(w, p, rows[i], rows[j]) ensures NotPreferredByAll(w, ps, rows[j], rows[i]) {
        PreferenceReflexive(w, p, rows[i]);
        var k, l := KeptPair(TiedTo(w, p, rows[i]), rows, i, j);
        assert NeverPreferredByAll(w, ps, Keep(TiedTo(w, p, rows[i]), rows));
      }
    }
  }

  /** The selections below p make no difference to what p delivers exactly if its ties are in their order. */
  lemma {:induction false} TiesIff(w: World, p: Pred, ps: seq<Pred>, rows: seq<Row>)
    requires forall row :: row in rows ==> Truth(w, p, row) && AllTrue(w, ps, row)
    ensures Delivered(w, p, DeliveredAll(w, ps, rows)) == Delivered(w, p, rows) <==> TiesInOrder(w, p, ps, rows)
    decreases |ps|, 1
  {
    hide Delivered, NotPreferred, Tied, NeverPreferredByAll, TiesInOrder;
    DeliveredAllMembers(w, ps, rows);
    SameDeliveredIff(w, p, DeliveredAll(w, ps, rows), rows);
    TiesByClass(w, p, ps, rows);
    forall a ensures Keep(TiedTo(w, p, a), DeliveredAll(w, ps, rows)) == Keep(TiedTo(w, p, a), rows) <==>
      NeverPreferredByAll(w, ps, Keep(TiedTo(w, p, a), rows))
    {
      KeepDeliveredAll(TiedTo(w, p, a), w, ps, rows);
      KeepMembers(TiedTo(w, p, a), rows);
      AllUnmovedIff(w, ps, Keep(TiedTo(w, p, a), rows));
    }
  }

  /** Selections on top of each other leave rows where they are exactly if none comes after one to which
      they prefer it. */
  lemma {:induction false} AllUnmovedIff(w: World, ps: seq<Pred>, rows: seq<Row>)
    requires forall row :: row in rows ==> AllTrue(w, ps, row)
    ensures DeliveredAll(w, ps, rows) == rows <==> NeverPreferredByAll(w, ps, rows)
    decreases |ps|, 0
  {
    if ps != [] {
      var p, rest := ps[0], ps[1..];
      var below := DeliveredAll(w, rest, rows);
      hide Delivered, NotPreferred, DeliveredAll;
      assert DeliveredAll(w, ps, rows) == Delivered(w, p, below) by { TopOfAll(w, ps, rows); }
      TiesIff(w, p, rest, rows);
      UnmovedIff(w, p, rows);
      DeliveredInOrder(w, p, below);
      FirstOfAll(w, ps, rows);
    }
  }

  lemma TopOfAll(w: World, ps: seq<Pred>, rows: seq<Row>)
    requires ps != []
    ensures DeliveredAll(w, ps, rows) == Delivered(w, ps[0], DeliveredAll(w, ps[1..], rows))
  {
  }

  lemma FirstOfAll(w: World, ps: seq<Pred>, rows: seq<Row>)
    requires ps != []
    ensures NeverPreferredByAll(w, ps, rows) <==> NeverPreferred(w, ps[0], rows) && TiesInOrder(w, ps[0], ps[1..], rows)
  {
    hide NotPreferred, Tied;
  }

  // ---------- The rewriter on one table ----------

  /** Select nodes with their numbers, one below the other, above a table. */
  function Stack(qs: seq<(nat, Pred)>, t: Table): Plan {
    if qs == [] then Access(t) else Select(qs[0].0, qs[0].1, Stack(qs[1..], t))
  }

  ghost predicate NumbersApart(qs: seq<(nat, Pred)>) {
    forall i, j :: 0 <= i < j < |qs| ==> qs[i].0 != qs[j].0
  }

  function Numbers(qs: seq<(nat, Pred)>): set<nat> { set i | 0 <= i < |qs| :: qs[i].0 }

  lemma {:induction false} StackSound(qs: seq<(nat, Pred)>, t: Table)
    ensures WellFormed(Stack(qs, t)) && Core(Stack(qs, t)) && JoinPass(Stack(qs, t)) == Stack(qs, t) && CrossPass(Stack(qs, t)) == Stack(qs, t)
  {
    if qs != [] { StackSound(qs[1..], t); }
  }

  /** A pushed selection goes to the bottom. */
  lemma {:induction false} PushStack(q: (nat, Pred), qs: seq<(nat, Pred)>, t: Table, next: nat)
    ensures PushDown(q.0, q.1, Stack(qs, t), next) == (Stack(qs + [q], t), next)
  {
    if qs == [] {
      assert qs + [q] == [q] && [q][1..] == [];
    } else {
      PushStack(q, qs[1..], t, next);
      assert (qs + [q])[1..] == qs[1..] + [q];
    }
  }

  lemma {:induction false} BelowStack(qs: seq<(nat, Pred)>, t: Table, n: nat, done: set<nat>, next: nat)
    requires Numbers(qs) <= done
    ensures WellFormed(Stack(qs, t)) && ProcessBelow(Stack(qs, t), n, done, next) == (Stack(qs, t), done, next)
  {
    StackSound(qs, t);
    if qs != [] {
      var rest := qs[1..];
      RestNumbers(qs);
      BelowStack(rest, t, n, done, next);
      DoneStack(rest, t, done, next);
    }
  }

  lemma RestNumbers(qs: seq<(nat, Pred)>)
    requires qs != []
    ensures Numbers(qs) == {qs[0].0} + Numbers(qs[1..])
  {
    forall n ensures n in Numbers(qs) <==> n == qs[0].0 || n in Numbers(qs[1..]) {
      if n in Numbers(qs) {
        var i :| 0 <= i < |qs| && qs[i].0 == n;
        assert i > 0 ==> qs[1..][i - 1].0 == n;
      }
      if n in Numbers(qs[1..]) {
        var i :| 0 <= i < |qs[1..]| && qs[1..][i].0 == n;
        assert qs[i + 1].0 == n;
      }
    }
  }

  lemma DoneStack(qs: seq<(nat, Pred)>, t: Table, done: set<nat>, next: nat)
    requires Numbers(qs) <= done
    ensures WellFormed(Stack(qs, t)) && Process(Stack(qs, t), done, next) == (Stack(qs, t), done, next)
  {
    StackSound(qs, t);
    if qs != [] { RestNumbers(qs); }
  }

  /** Each selection goes to the bottom in turn, which leaves them as they were. */
  lemma {:induction false} ProcessStack(todo: seq<(nat, Pred)>, ready: seq<(nat, Pred)>, t: Table, next: nat)
    requires NumbersApart(todo + ready)
    ensures WellFormed(Stack(todo + ready, t))
    ensures Process(Stack(todo + ready, t), Numbers(ready), next) == (Stack(ready + todo, t), Numbers(todo + ready), next)
    decreases |todo|
  {
    var qs := todo + ready;
    StackSound(qs, t);
    if todo == [] {
      assert qs == ready && ready + todo == ready;
      DoneStack(ready, t, Numbers(ready), next);
    } else {
      hide *;
      var q, rest, done := todo[0], todo[1..] + ready, Numbers(ready);
      Rotation(todo, ready);
      StackSound(rest, t);
      PushStack(q, rest, t, next);
      StackSound(rest + [q], t);
      ProcessStack(todo[1..], ready + [q], t, next);
      PushedIsProcessed(q, rest, t, done, next, ready + todo);
    }
  }

  /** What the first step moves from the one sequence to the other. */
  lemma Rotation(todo: seq<(nat, Pred)>, ready: seq<(nat, Pred)>)
    requires todo != [] && NumbersApart(todo + ready)
    ensures var q, rest, ready' := todo[0], todo[1..] + ready, ready + [todo[0]];
      && todo + ready == [q] + rest && rest + [q] == todo[1..] + ready' && ready' + todo[1..] == ready + todo
      && q.0 !in Numbers(ready) && NumbersApart(todo[1..] + ready')
      && Numbers(ready') == Numbers(ready) + {q.0} && Numbers(todo[1..] + ready') == Numbers(todo + ready)
      && Numbers(ready) + Numbers([q] + rest) == Numbers(todo + ready)
      && Numbers(ready + todo) <= Numbers(ready) + Numbers([q] + rest)
      && (rest == [] ==> ready + todo == [q])
  {
    var q := todo[0];
    assert todo == [q] + todo[1..];
    assert todo + ready == [q] + (todo[1..] + ready) == [q] + todo[1..] + ready;
    assert todo[1..] + ready + [q] == todo[1..] + (ready + [q]) && ready + [q] + todo[1..] == ready + todo;
    NotDone(q, todo, ready);
    NumbersMoved(q, todo[1..], ready);
    NumbersWithin(todo, ready);
  }

  lemma NotDone(q: (nat, Pred), todo: seq<(nat, Pred)>, ready: seq<(nat, Pred)>)
    requires todo != [] && q == todo[0] && NumbersApart(todo + ready)
    ensures q.0 !in Numbers(ready)
  {
    forall i | 0 <= i < |ready| ensures ready[i].0 != q.0 { assert (todo + ready)[|todo| + i] == ready[i] && (todo + ready)[0] == q; }
  }

  lemma NumbersWithin(todo: seq<(nat, Pred)>, ready: seq<(nat, Pred)>)
    ensures Numbers(ready) <= Numbers(todo + ready) && Numbers(ready + todo) <= Numbers(todo + ready)
  {
    var qs := todo + ready;
    forall i | 0 <= i < |ready| ensures ready[i].0 in Numbers(qs) { assert qs[|todo| + i].0 == ready[i].0; }
    forall i | 0 <= i < |ready + todo| ensures (ready + todo)[i].0 in Numbers(qs) {
      assert (ready + todo)[i] == qs[if i < |ready| then |todo| + i else i - |ready|];
    }
  }

  lemma NumbersMoved(q: (nat, Pred), rest: seq<(nat, Pred)>, ready: seq<(nat, Pred)>)
    ensures NumbersApart([q] + rest + ready) ==> NumbersApart(rest + (ready + [q]))
    ensures Numbers(ready + [q]) == Numbers(ready) + {q.0}
    ensures Numbers(rest + (ready + [q])) == Numbers([q] + rest + ready)
  {
    var before, after := [q] + rest + ready, rest + (ready + [q]);
    assert forall i :: 0 <= i < |after| ==> after[i] == before[if i == |after| - 1 then 0 else i + 1];
    assert forall i :: 0 <= i < |before| ==> before[i] == after[if i == 0 then |after| - 1 else i - 1];
    assert forall i :: 0 <= i < |ready| ==> (ready + [q])[i] == ready[i];
    assert (ready + [q])[|ready|] == q;
    forall n ensures n in Numbers(ready + [q]) <==> n in Numbers(ready) + {q.0} {
      if n in Numbers(ready) {
        var i :| 0 <= i < |ready| && ready[i].0 == n;
        assert (ready + [q])[i].0 == n;
      }
      if n in Numbers(ready + [q]) {
        var i :| 0 <= i < |ready + [q]| && (ready + [q])[i].0 == n;
        assert i < |ready| ==> ready[i].0 == n;
      }
    }
    forall n ensures n in Numbers(after) <==> n in Numbers(before) {
      if n in Numbers(after) {
        var i :| 0 <= i < |after| && after[i].0 == n;
        assert before[if i == |after| - 1 then 0 else i + 1].0 == n;
      }
      if n in Numbers(before) {
        var i :| 0 <= i < |before| && before[i].0 == n;
        assert after[if i == 0 then |after| - 1 else i - 1].0 == n;
      }
    }
  }

  lemma PushedIsProcessed(q: (nat, Pred), rest: seq<(nat, Pred)>, t: Table, done: set<nat>, next: nat, result: seq<(nat, Pred)>)
    requires q.0 !in done && WellFormed(Stack(rest + [q], t)) && WellFormed(Stack([q] + rest, t))
    requires rest != [] ==> Process(Stack(rest + [q], t), done + {q.0}, next) == (Stack(result, t), done + Numbers([q] + rest), next)
    requires (rest == [] ==> result == [q]) && Numbers(result) <= done + Numbers([q] + rest)
    ensures Process(Stack([q] + rest, t), done, next) == (Stack(result, t), done + Numbers([q] + rest), next)
  {
    PushStack(q, rest, t, next);
    assert ([q] + rest)[1..] == rest;
    BelowStack(result, t, q.0, done + Numbers([q] + rest), next);
    RestNumbers([q] + rest);
    assert Stack([q] + rest, t) == Select(q.0, q.1, Stack(rest, t));
    if rest == [] {
      assert rest + [q] == [q] && Numbers(rest) == {} && !Moves(q.1, Stack(rest, t));
      assert Stack(rest + [q], t) == Stack(result, t) && done + Numbers([q] + rest) == done + {q.0};
      assert ProcessBelow(Stack(result, t), q.0, done + {q.0}, next) == (Stack(result, t), done + {q.0}, next);
    } else {
      assert Moves(q.1, Stack(rest, t));
    }
  }

  function Numbered(ps: seq<Pred>, next: nat): (qs: seq<(nat, Pred)>)
    ensures |qs| == |ps| && forall i :: 0 <= i < |ps| ==> qs[i] == (next + i, ps[i])
  {
    seq(|ps|, i requires 0 <= i < |ps| => (next + i, ps[i]))
  }

  lemma {:induction false} ChainIsStack(ps: seq<Pred>, t: Table, next: nat)
    ensures Chain(ps, Access(t), next) == Stack(Numbered(ps, next), t)
  {
    if ps != [] {
      ChainIsStack(ps[1..], t, next + 1);
      assert Numbered(ps, next)[1..] == Numbered(ps[1..], next + 1);
    }
  }

  /** A WHERE over one table becomes the chain of its conjuncts, and stays that. */
  lemma OneTableRewritten(n: nat, p: Pred, t: Table, fromCount: nat, hasWhere: bool, next: nat)
    ensures WellFormed(Select(n, p, Access(t)))
    ensures Rewrite(Select(n, p, Access(t)), fromCount, hasWhere, next) == Chain(Break(p), Access(t), next)
  {
    var plan, qs := Select(n, p, Access(t)), Numbered(Break(p), next);
    ChainIsStack(Break(p), t, next);
    StackSound(qs, t);
    var n1 := AndPass(plan, next).1;
    assert AndPass(plan, next).0 == Stack(qs, t);
    assert qs + [] == qs && [] + qs == qs && Numbers([]) == {};
    ProcessStack(qs, [], t, n1);
    AndPassKeeps(plan, next);
    CrossPassKeeps(Stack(qs, t));
  }

  lemma {:induction false} ChainRows(w: World, ps: seq<Pred>, t: Table, next: nat)
    ensures Rows(w, Chain(ps, Access(t), next)) == DeliveredAll(w, ps, TableRows(t, w.rows(t)))
  {
    if ps != [] {
      ChainRows(w, ps[1..], t, next + 1);
      SelectDelivers(w, ps[0], Rows(w, Chain(ps[1..], Access(t), next + 1)));
    }
  }

  /** For any WHERE over one table: the rewriter keeps the sequence exactly if, among the rows that satisfy
      it, those that the first conjunct ties come in the order of the other conjuncts. */
  lemma OneTableKeepsSequenceIff(w: World, n: nat, p: Pred, t: Table, fromCount: nat, hasWhere: bool, next: nat)
    ensures WellFormed(Select(n, p, Access(t)))
    ensures Rows(w, Rewrite(Select(n, p, Access(t)), fromCount, hasWhere, next)) == Rows(w, Select(n, p, Access(t))) <==>
      TiesInOrder(w, Break(p)[0], Break(p)[1..], Filter(w, p, TableRows(t, w.rows(t))))
  {
    var all, ps := TableRows(t, w.rows(t)), Break(p);
    var rows := Filter(w, p, all);
    OneTableRewritten(n, p, t, fromCount, hasWhere, next);
    ChainRows(w, ps, t, next);
    SelectDelivers(w, p, all);
    hide Delivered, TiesInOrder, Rewrite, Break, Chain, AllTrue, Truth;
    FirstConjunctLeads(w, p, all);
    KeepDelivered(IsTrue(w, p), w, ps[0], all);
    KeepIsFilter(w, p, all);
    OnlySatisfying(w, p, all);
    KeepMembers(IsTrue(w, p), all);
    forall row | row in rows ensures Truth(w, ps[0], row) && AllTrue(w, ps[1..], row) { ConjunctsHold(w, p, row); }
    TiesIff(w, ps[0], ps[1..], rows);
    TopOfAll(w, ps, rows);
  }

  lemma ConjunctsHold(w: World, p: Pred, row: Row)
    requires Truth(w, p, row)
    ensures Truth(w, Break(p)[0], row) && AllTrue(w, Break(p)[1..], row)
  {
    BreakIsConjunction(w, p, row);
  }

  lemma OnlySatisfying(w: World, p: Pred, rows: seq<Row>)
    ensures DeliveredAll(w, Break(p), Filter(w, p, rows)) == DeliveredAll(w, Break(p), rows)
  {
    var ps := Break(p);
    KeepDeliveredAll(IsTrue(w, p), w, ps, rows);
    KeepIsFilter(w, p, rows);
    DeliveredAllMembers(w, ps, rows);
    forall row | row in DeliveredAll(w, ps, rows) ensures Truth(w, p, row) { BreakIsConjunction(w, p, row); }
    KeepAll(IsTrue(w, p), DeliveredAll(w, ps, rows));
  }
}
