/** What the rewriter's passes achieve: the shape of a rewritten plan. */
module PlanShapes {
  import opened QueryPlans
  import opened PlanPasses
  import opened PlanRewriter

  // ---------- Conjunctions are broken ----------

  predicate IsBroken(p: Pred) { p.And? ==> p.kids == [] }

  /** No selection has a conjunction of anything. */
  predicate Broken(plan: Plan)
    decreases plan, 0
  {
    match plan
    case Access(_) => true
    case Select(_, p, child) => IsBroken(p) && Broken(child)
    case Cross(kids) => AllBroken(kids)
    case Join(_, kids) => AllBroken(kids)
    case Other(_, child) => Broken(child)
  }

  predicate AllBroken(plans: seq<Plan>)
    decreases plans, 1
  {
    plans == [] || (Broken(plans[0]) && AllBroken(plans[1..]))
  }

  lemma {:induction false} BreakBreaks(p: Pred)
    ensures forall i :: 0 <= i < |Break(p)| ==> IsBroken(Break(p)[i])
    decreases p, 0
  {
    if p.And? && p.kids != [] { BreakAllBreaks(p.kids); }
  }

  lemma {:induction false} BreakAllBreaks(ps: seq<Pred>)
    ensures forall i :: 0 <= i < |BreakAll(ps)| ==> IsBroken(BreakAll(ps)[i])
    decreases ps, 1
  {
    if ps != [] {
      BreakBreaks(ps[0]);
      BreakAllBreaks(ps[1..]);
    }
  }

  lemma {:induction false} ChainBroken(ps: seq<Pred>, c: Plan, next: nat)
    requires Broken(c) && forall i :: 0 <= i < |ps| ==> IsBroken(ps[i])
    ensures Broken(Chain(ps, c, next))
  {
    if ps != [] { ChainBroken(ps[1..], c, next + 1); }
  }

  lemma {:induction false} AndPassBreaks(plan: Plan, next: nat)
    ensures Broken(AndPass(plan, next).0)
    decreases plan, 0
  {
    match plan
    case Access(_) =>
    case Select(_, p, child) =>
      AndPassBreaks(child, next);
      BreakBreaks(p);
      ChainBroken(Break(p), AndPass(child, next).0, AndPass(child, next).1);
    case Cross(kids) => AndPassAllBreaks(kids, next);
    case Join(_, kids) => AndPassAllBreaks(kids, next);
    case Other(_, child) => AndPassBreaks(child, next);
  }

  lemma {:induction false} AndPassAllBreaks(plans: seq<Plan>, next: nat)
    ensures AllBroken(AndPassAll(plans, next).0)
    decreases plans, 1
  {
    if plans != [] {
      var (c, n) := AndPass(plans[0], next);
      AndPassBreaks(plans[0], next);
      AndPassAllBreaks(plans[1..], n);
      var cs := AndPassAll(plans[1..], n).0;
      assert ([c] + cs)[1..] == cs;
    }
  }

  // ---------- Products have two factors ----------

  /** Every product and join has two children. */
  predicate Binary(plan: Plan)
    decreases plan, 0
  {
    match plan
    case Access(_) => true
    case Select(_, _, child) => Binary(child)
    case Cross(kids) => |kids| == 2 && AllBinary(kids)
    case Join(_, kids) => |kids| == 2 && AllBinary(kids)
    case Other(_, child) => Binary(child)
  }

  predicate AllBinary(plans: seq<Plan>)
    decreases plans, 1
  {
    plans == [] || (Binary(plans[0]) && AllBinary(plans[1..]))
  }

  /** Every join has two children; the plans that come from queries have no joins at all. */
  predicate JoinsBinary(plan: Plan)
    decreases plan, 0
  {
    match plan
    case Access(_) => true
    case Select(_, _, child) => JoinsBinary(child)
    case Cross(kids) => AllJoinsBinary(kids)
    case Join(_, kids) => |kids| == 2 && AllJoinsBinary(kids)
    case Other(_, child) => JoinsBinary(child)
  }

  predicate AllJoinsBinary(plans: seq<Plan>)
    decreases plans, 1
  {
    plans == [] || (JoinsBinary(plans[0]) && AllJoinsBinary(plans[1..]))
  }

  /** In every product only the first factor may be a product. */
  predicate LeansLeft(plan: Plan)
    decreases plan, 0
  {
    match plan
    case Access(_) => true
    case Select(_, _, child) => LeansLeft(child)
    case Cross(kids) => AllLean(kids) && (kids == [] || NoProducts(kids[1..]))
    case Join(_, kids) => AllLean(kids)
    case Other(_, child) => LeansLeft(child)
  }

  predicate AllLean(plans: seq<Plan>)
    decreases plans, 1
  {
    plans == [] || (LeansLeft(plans[0]) && AllLean(plans[1..]))
  }

  predicate NoProducts(plans: seq<Plan>) { forall i :: 0 <= i < |plans| ==> !plans[i].Cross? }

  lemma {:induction false} LeftDeepShape(kids: seq<Plan>)
    requires |kids| > 1
    ensures LeftDeep(kids).Cross?
    ensures AllBinary(kids) ==> Binary(LeftDeep(kids))
    ensures AllLean(kids) && NoProducts(kids[1..]) ==> LeansLeft(LeftDeep(kids))
    ensures AllBroken(kids) ==> Broken(LeftDeep(kids))
    decreases |kids|
  {
    if |kids| > 2 {
      var one, pair, rest := [kids[1]], kids[..2], kids[2..];
      assert pair == [kids[0]] + one && pair[1..] == one && one[1..] == [];
      assert forall i :: 0 <= i < |rest| ==> rest[i] == kids[1..][i + 1];
      var kids' := [Cross(pair)] + rest;
      assert kids'[1..] == rest;
      if AllBinary(kids) {
        assert AllBinary(kids[1..]) && kids[1..][1..] == rest;
        assert AllBinary(rest) && AllBinary(one);
        assert AllBinary(pair) && AllBinary(kids');
      }
      if AllBroken(kids) {
        assert AllBroken(kids[1..]) && kids[1..][1..] == rest;
        assert AllBroken(rest) && AllBroken(one);
        assert AllBroken(pair) && AllBroken(kids');
      }
      if AllLean(kids) && NoProducts(kids[1..]) {
        assert AllLean(kids[1..]) && kids[1..][1..] == rest;
        assert AllLean(rest) && AllLean(one);
        assert kids[1] == kids[1..][0] && NoProducts(one);
        assert AllLean(pair) && AllLean(kids');
      }
      LeftDeepShape(kids');
      assert LeftDeep(kids) == LeftDeep(kids');
    }
  }

  /** Afterwards every product has two factors, of which only the first may be a product that was made. */
  lemma {:induction false} CrossPassShape(plan: Plan)
    requires WellFormed(plan)
    ensures JoinsBinary(plan) ==> Binary(CrossPass(plan))
    ensures LeansLeft(plan) ==> LeansLeft(CrossPass(plan))
    ensures (CrossPass(plan).Cross? <==> plan.Cross?) && (Broken(plan) ==> Broken(CrossPass(plan)))
    decreases plan, 0
  {
    match plan
    case Access(_) =>
    case Select(_, _, child) => CrossPassShape(child);
    case Cross(kids) =>
      CrossPassAllShape(kids);
      var ks := CrossPassAll(kids);
      assert forall i :: 0 <= i < |kids| - 1 ==> ks[1..][i] == ks[i + 1] && kids[1..][i] == kids[i + 1];
      LeftDeepShape(ks);
    case Join(_, kids) => CrossPassAllShape(kids);
    case Other(_, child) => CrossPassShape(child);
  }

  lemma {:induction false} CrossPassAllShape(plans: seq<Plan>)
    requires AllApart(plans)
    ensures var r := CrossPassAll(plans);
      && (AllJoinsBinary(plans) ==> AllBinary(r)) && (AllLean(plans) ==> AllLean(r)) && (AllBroken(plans) ==> AllBroken(r))
      && forall i :: 0 <= i < |r| ==> (r[i].Cross? <==> plans[i].Cross?)
    decreases plans, 1
  {
    if plans != [] {
      CrossPassShape(plans[0]);
      CrossPassAllShape(plans[1..]);
      var c, cs := CrossPass(plans[0]), CrossPassAll(plans[1..]);
      assert ([c] + cs)[1..] == cs;
      assert forall i :: 0 < i < |plans| ==> plans[i] == plans[1..][i - 1] && ([c] + cs)[i] == cs[i - 1];
    }
  }

  /** Two tables leave no room for a wider product. */
  lemma {:induction false} FewTablesBinary(plan: Plan)
    requires WellFormed(plan) && Leaves(plan) <= 2
    ensures Binary(plan)
    decreases plan, 0
  {
    match plan
    case Access(_) =>
    case Select(_, _, child) => FewTablesBinary(child);
    case Cross(kids) => FewKidsBinary(kids);
    case Join(_, kids) => FewKidsBinary(kids);
    case Other(_, child) => FewTablesBinary(child);
  }

  lemma {:induction false} FewKidsBinary(kids: seq<Plan>)
    requires AllApart(kids) && LeavesOf(kids) <= 2
    ensures |kids| <= 2 && AllBinary(kids)
    decreases kids, 1
  {
    SomeLeaves(kids);
    if kids != [] {
      FewTablesBinary(kids[0]);
      FewKidsBinary(kids[1..]);
    }
  }

  lemma {:induction false} ChainShape(ps: seq<Pred>, c: Plan, next: nat)
    ensures JoinsBinary(Chain(ps, c, next)) == JoinsBinary(c) && Leaves(Chain(ps, c, next)) == Leaves(c)
  {
    if ps != [] { ChainShape(ps[1..], c, next + 1); }
  }

  lemma {:induction false} AndPassShape(plan: Plan, next: nat)
    ensures JoinsBinary(AndPass(plan, next).0) == JoinsBinary(plan) && Leaves(AndPass(plan, next).0) == Leaves(plan)
    decreases plan, 0
  {
    match plan
    case Access(_) =>
    case Select(_, p, child) =>
      AndPassShape(child, next);
      ChainShape(Break(p), AndPass(child, next).0, AndPass(child, next).1);
    case Cross(kids) => AndPassAllShape(kids, next);
    case Join(_, kids) => AndPassAllShape(kids, next);
    case Other(_, child) => AndPassShape(child, next);
  }

  lemma {:induction false} AndPassAllShape(plans: seq<Plan>, next: nat)
    ensures var r := AndPassAll(plans, next).0;
      |r| == |plans| && AllJoinsBinary(r) == AllJoinsBinary(plans) && LeavesOf(r) == LeavesOf(plans)
    decreases plans, 1
  {
    if plans != [] {
      var (c, n) := AndPass(plans[0], next);
      AndPassShape(plans[0], next);
      AndPassAllShape(plans[1..], n);
      var cs := AndPassAll(plans[1..], n).0;
      assert ([c] + cs)[1..] == cs;
    }
  }

  // ---------- Joins are made ----------

  predicate IsJoin(p: Pred) { p.Atom? && p.isJoin }

  /** No selection by a join predicate stands directly on a product. */
  predicate Joined(plan: Plan)
    decreases plan, 0
  {
    match plan
    case Access(_) => true
    case Select(_, p, child) => !(IsJoin(p) && child.Cross?) && Joined(child)
    case Cross(kids) => AllJoined(kids)
    case Join(_, kids) => AllJoined(kids)
    case Other(_, child) => Joined(child)
  }

  predicate AllJoined(plans: seq<Plan>)
    decreases plans, 1
  {
    plans == [] || (Joined(plans[0]) && AllJoined(plans[1..]))
  }

  // ---------- Selections are as far down as they go ----------

  /** The tables of each factor of the product below the selections of c. */
  function Factors(c: Plan): seq<set<Table>> {
    match c
    case Select(_, _, d) => Factors(d)
    case Cross(kids) => TablesEach(kids)
    case Join(_, kids) => TablesEach(kids)
    case _ => []
  }

  function TablesEach(plans: seq<Plan>): (r: seq<set<Table>>)
    ensures |r| == |plans| && forall i :: 0 <= i < |plans| ==> r[i] == Tables(plans[i])
  {
    if plans == [] then [] else [Tables(plans[0])] + TablesEach(plans[1..])
  }

  /** No factor has all tables of p. */
  predicate Settled(p: Pred, c: Plan) {
    forall tables :: tables in Factors(c) ==> !(PredTables(p) <= tables)
  }

  /** Every selection is settled. */
  predicate Pushed(plan: Plan)
    decreases plan, 0
  {
    match plan
    case Access(_) => true
    case Select(_, p, child) => Settled(p, child) && Pushed(child)
    case Cross(kids) => AllPushed(kids)
    case Join(_, kids) => AllPushed(kids)
    case Other(_, child) => Pushed(child)
  }

  predicate AllPushed(plans: seq<Plan>)
    decreases plans, 1
  {
    plans == [] || (Pushed(plans[0]) && AllPushed(plans[1..]))
  }

  /** The numbers of the select nodes. */
  function Numbers(plan: Plan): set<nat>
    decreases plan, 0
  {
    match plan
    case Access(_) => {}
    case Select(n, _, child) => {n} + Numbers(child)
    case Cross(kids) => NumbersOf(kids)
    case Join(_, kids) => NumbersOf(kids)
    case Other(_, child) => Numbers(child)
  }

  function NumbersOf(plans: seq<Plan>): set<nat>
    decreases plans, 1
  {
    if plans == [] then {} else Numbers(plans[0]) + NumbersOf(plans[1..])
  }

  /** No number comes twice. */
  predicate Numbered(plan: Plan)
    decreases plan, 0
  {
    match plan
    case Access(_) => true
    case Select(n, _, child) => n !in Numbers(child) && Numbered(child)
    case Cross(kids) => AllNumbered(kids)
    case Join(_, kids) => AllNumbered(kids)
    case Other(_, child) => Numbered(child)
  }

  predicate AllNumbered(plans: seq<Plan>)
    decreases plans, 1
  {
    plans == [] || (Numbered(plans[0]) && Numbers(plans[0]) !! NumbersOf(plans[1..]) && AllNumbered(plans[1..]))
  }

  /** Selections already visited are settled.  Any other is settled too, unless that is excused: by free
      at the top, and below a visited selection by whether that one is in open. */
  predicate Excused(plan: Plan, done: set<nat>, open: set<nat>, free: bool)
    decreases plan, 0
  {
    match plan
    case Access(_) => true
    case Select(n, p, child) =>
      && (Settled(p, child) || (free && n !in done))
      && Excused(child, done, open, if n in done then n in open else free)
    case Cross(kids) => AllExcused(kids, done, open, free)
    case Join(_, kids) => AllExcused(kids, done, open, free)
    case Other(_, child) => Excused(child, done, open, free)
  }

  predicate AllExcused(plans: seq<Plan>, done: set<nat>, open: set<nat>, free: bool)
    decreases plans, 1
  {
    plans == [] || (Excused(plans[0], done, open, free) && AllExcused(plans[1..], done, open, free))
  }

  lemma {:induction false} NothingExcused(plan: Plan, done: set<nat>)
    requires Excused(plan, done, {}, false)
    ensures Pushed(plan)
    decreases plan, 0
  {
    match plan
    case Access(_) =>
    case Select(_, _, child) => NothingExcused(child, done);
    case Cross(kids) => NoneExcused(kids, done);
    case Join(_, kids) => NoneExcused(kids, done);
    case Other(_, child) => NothingExcused(child, done);
  }

  lemma {:induction false} NoneExcused(plans: seq<Plan>, done: set<nat>)
    requires AllExcused(plans, done, {}, false)
    ensures AllPushed(plans)
    decreases plans, 1
  {
    if plans != [] {
      NothingExcused(plans[0], done);
      NoneExcused(plans[1..], done);
    }
  }

  lemma {:induction false} AllFree(plan: Plan, open: set<nat>)
    ensures Excused(plan, {}, open, true)
    decreases plan, 0
  {
    match plan
    case Access(_) =>
    case Select(_, _, child) => AllFree(child, open);
    case Cross(kids) => KidsFree(kids, open);
    case Join(_, kids) => KidsFree(kids, open);
    case Other(_, child) => AllFree(child, open);
  }

  lemma {:induction false} KidsFree(plans: seq<Plan>, open: set<nat>)
    ensures AllExcused(plans, {}, open, true)
    decreases plans, 1
  {
    if plans != [] {
      AllFree(plans[0], open);
      KidsFree(plans[1..], open);
    }
  }

  /** Only the numbers of the plan matter, and being freer is easier. */
  lemma {:induction false} ExcusedSame(plan: Plan, done: set<nat>, done': set<nat>, open: set<nat>, open': set<nat>, free: bool, free': bool)
    requires Excused(plan, done, open, free) && (free ==> free')
    requires forall n :: n in Numbers(plan) ==> (n in done <==> n in done') && (n in open <==> n in open')
    ensures Excused(plan, done', open', free')
    decreases plan, 0
  {
    match plan
    case Access(_) =>
    case Select(n, _, child) =>
      ExcusedSame(child, done, done', open, open', if n in done then n in open else free, if n in done' then n in open' else free');
    case Cross(kids) => AllExcusedSame(kids, done, done', open, open', free, free');
    case Join(_, kids) => AllExcusedSame(kids, done, done', open, open', free, free');
    case Other(_, child) => ExcusedSame(child, done, done', open, open', free, free');
  }

  lemma {:induction false} AllExcusedSame(plans: seq<Plan>, done: set<nat>, done': set<nat>, open: set<nat>, open': set<nat>, free: bool, free': bool)
    requires AllExcused(plans, done, open, free) && (free ==> free')
    requires forall n :: n in NumbersOf(plans) ==> (n in done <==> n in done') && (n in open <==> n in open')
    ensures AllExcused(plans, done', open', free')
    decreases plans, 1
  {
    if plans != [] {
      ExcusedSame(plans[0], done, done', open, open', free, free');
      AllExcusedSame(plans[1..], done, done', open, open', free, free');
    }
  }

  // ---------- Pushing one selection down ----------

  lemma StoppedIsSettled(p: Pred, c: Plan)
    requires !Moves(p, c)
    ensures Settled(p, c)
  {
    forall tables | tables in Factors(c) ensures !(PredTables(p) <= tables) {
      var i :| 0 <= i < |Factors(c)| && Factors(c)[i] == tables;
      assert !Refers(c.kids[i], p);
    }
  }

  lemma {:induction false} PushDownShape(n: nat, p: Pred, c: Plan, next: nat)
    requires WellFormed(c) && Core(c)
    ensures var r := PushDown(n, p, c, next).0;
      Factors(r) == Factors(c) && (Binary(c) ==> Binary(r)) && (IsBroken(p) && Broken(c) ==> Broken(r))
    decreases c, 0
  {
    match c
    case Select(_, _, d) => PushDownShape(n, p, d, next);
    case Cross(kids) => if SomeRefers(kids, p) { PushKidsShape(p, kids, next); }
    case Join(_, kids) => if SomeRefers(kids, p) { PushKidsShape(p, kids, next); }
    case Access(_) =>
  }

  lemma {:induction false} PushKidsShape(p: Pred, kids: seq<Plan>, next: nat)
    requires AllApart(kids)
    ensures var r := PushKids(p, kids, next).0;
      && |r| == |kids| && TablesEach(r) == TablesEach(kids)
      && (AllBinary(kids) ==> AllBinary(r)) && (IsBroken(p) && AllBroken(kids) ==> AllBroken(r))
    decreases kids, 1
  {
    if kids != [] {
      var (k, n) := if Refers(kids[0], p) then PushDown(next, p, kids[0], next + 1) else (kids[0], next);
      if Refers(kids[0], p) {
        PushDownShape(next, p, kids[0], next + 1);
        PushWeight(next, p, kids[0], next + 1, {});
      }
      PushKidsShape(p, kids[1..], n);
      var ks := PushKids(p, kids[1..], n).0;
      assert PushKids(p, kids, next).0 == [k] + ks && ([k] + ks)[1..] == ks;
    }
  }

  /** The selection, or each copy of it, stops where it is settled, and no other is unsettled by it. */
  lemma {:induction false} PushedIsSettled(n: nat, p: Pred, c: Plan, next: nat, done: set<nat>, open: set<nat>, free: bool)
    requires WellFormed(c) && Core(c) && Excused(c, done, open, free)
    requires (n in done ==> n in open) && forall m :: m in done ==> m < next
    ensures var (r, next') := PushDown(n, p, c, next); next' >= next && Excused(r, done, open, free)
    decreases c, 0
  {
    if !Moves(p, c) {
      StoppedIsSettled(p, c);
      ExcusedSame(c, done, done, open, open, free, n in done || free);
    }
    match c
    case Select(m, q, d) =>
      PushDownShape(n, p, d, next);
      PushedIsSettled(n, p, d, next, done, open, if m in done then m in open else free);
    case Cross(kids) => if SomeRefers(kids, p) { PushedKidsAreSettled(p, kids, next, done, open, free); }
    case Join(_, kids) => if SomeRefers(kids, p) { PushedKidsAreSettled(p, kids, next, done, open, free); }
    case Access(_) =>
  }

  lemma {:induction false} PushedKidsAreSettled(p: Pred, kids: seq<Plan>, next: nat, done: set<nat>, open: set<nat>, free: bool)
    requires AllApart(kids) && AllExcused(kids, done, open, free)
    requires forall m :: m in done ==> m < next
    ensures var (r, next') := PushKids(p, kids, next); next' >= next && AllExcused(r, done, open, free)
    decreases kids, 1
  {
    if kids != [] {
      var (k, n) := if Refers(kids[0], p) then PushDown(next, p, kids[0], next + 1) else (kids[0], next);
      if Refers(kids[0], p) { PushedIsSettled(next, p, kids[0], next + 1, done, open, free); }
      PushedKidsAreSettled(p, kids[1..], n, done, open, free);
      var ks := PushKids(p, kids[1..], n).0;
      assert PushKids(p, kids, next).0 == [k] + ks && ([k] + ks)[1..] == ks;
    }
  }

  // ---------- Numbers ----------

  /** Only numbers there were before, and new ones from next on. */
  predicate NewOr(numbers: set<nat>, before: set<nat>, next: nat, next': nat) {
    next <= next' && forall m :: m in numbers ==> m in before || next <= m < next'
  }

  predicate Under(numbers: set<nat>, next: nat) { forall m :: m in numbers ==> m < next }

  lemma {:induction false} PushDownNumbers(n: nat, p: Pred, c: Plan, next: nat)
    requires Numbered(c) && n !in Numbers(c) && Under(Numbers(c), next) && n < next
    ensures var (r, next') := PushDown(n, p, c, next); Numbered(r) && NewOr(Numbers(r), Numbers(c) + {n}, next, next')
    decreases c, 0
  {
    match c
    case Select(_, _, d) => PushDownNumbers(n, p, d, next);
    case Cross(kids) => if SomeRefers(kids, p) { PushKidsNumbers(p, kids, next); }
    case Join(_, kids) => if SomeRefers(kids, p) { PushKidsNumbers(p, kids, next); }
    case Access(_) =>
    case Other(_, _) =>
  }

  lemma {:induction false} PushKidsNumbers(p: Pred, kids: seq<Plan>, next: nat)
    requires AllNumbered(kids) && Under(NumbersOf(kids), next)
    ensures var (r, next') := PushKids(p, kids, next); AllNumbered(r) && NewOr(NumbersOf(r), NumbersOf(kids), next, next')
    decreases kids, 1
  {
    if kids != [] {
      var (k, n) := if Refers(kids[0], p) then PushDown(next, p, kids[0], next + 1) else (kids[0], next);
      if Refers(kids[0], p) { PushDownNumbers(next, p, kids[0], next + 1); }
      PushKidsNumbers(p, kids[1..], n);
      var ks := PushKids(p, kids[1..], n).0;
      assert PushKids(p, kids, next).0 == [k] + ks && ([k] + ks)[1..] == ks;
    }
  }

  lemma NewOrNext(numbers: set<nat>, between: set<nat>, before: set<nat>, next: nat, next': nat, next'': nat)
    requires NewOr(between, before, next, next') && NewOr(numbers, between, next', next'')
    ensures NewOr(numbers, before, next, next'')
  {
  }

  lemma NewOrUnion(numbers: set<nat>, a: set<nat>, b: set<nat>, before: set<nat>, next: nat, next': nat, next'': nat)
    requires NewOr(b, before, next, next') && NewOr(a, before, next, next'') && next' <= next''
    requires forall m :: m in numbers ==> m in a || m in b || m in before
    ensures NewOr(numbers, before, next, next'')
  {
  }

  lemma {:induction false} ProcessNumbers(plan: Plan, done: set<nat>, next: nat)
    requires WellFormed(plan) && Numbered(plan) && Under(Numbers(plan), next)
    ensures var (r, done', next') := Process(plan, done, next);
      && Numbered(r) && NewOr(Numbers(r), Numbers(plan), next, next') && NewOr(done' - done, Numbers(plan), next, next')
    decreases Weight(plan, done), Size(plan), 1
  {
    match plan
    case Access(_) =>
    case Select(n, p, c) =>
      if n !in done {
        PushWeight(n, p, c, next, done + {n});
        LighterWhenDone(c, done, done + {n});
        PushDownNumbers(n, p, c, next);
        var (t, next1) := PushDown(n, p, c, next);
        if Moves(p, c) { ProcessNumbers(t, done + {n}, next1); }
        var (t2, done2, next2) := if Moves(p, c) then Process(t, done + {n}, next1) else (t, done + {n}, next1);
        ProcessBelowNumbers(t2, n, done2, next2);
        hide NewOr;
        NewOrNext(Numbers(t2), Numbers(t), Numbers(plan), next, next1, next2);
        NewOrNext(done2 - (done + {n}), Numbers(t), Numbers(plan), next, next1, next2);
        var (r, done3, next3) := ProcessBelow(t2, n, done2, next2);
        NewOrNext(Numbers(r), Numbers(t2), Numbers(plan), next, next2, next3);
        NewOrNext(done3 - done2, Numbers(t2), Numbers(plan), next, next2, next3);
        NewOrUnion(done3 - done, done3 - done2, done2 - (done + {n}), Numbers(plan), next, next2, next3);
      }
    case Cross(kids) => ProcessKidsNumbers(kids, done, next);
    case Join(_, kids) => ProcessKidsNumbers(kids, done, next);
    case Other(_, c) => ProcessNumbers(c, done, next);
  }

  lemma {:induction false} ProcessKidsNumbers(plans: seq<Plan>, done: set<nat>, next: nat)
    requires AllApart(plans) && AllNumbered(plans) && Under(NumbersOf(plans), next)
    ensures var (r, done', next') := ProcessKids(plans, done, next);
      && AllNumbered(r) && NewOr(NumbersOf(r), NumbersOf(plans), next, next') && NewOr(done' - done, NumbersOf(plans), next, next')
    decreases WeightOf(plans, done), SizeOf(plans), 2
  {
    if plans != [] {
      ProcessNumbers(plans[0], done, next);
      var (k, d, m) := Process(plans[0], done, next);
      AllLighterWhenDone(plans[1..], done, d);
      ProcessKidsNumbers(plans[1..], d, m);
      var ks := ProcessKids(plans[1..], d, m).0;
      assert ([k] + ks)[1..] == ks;
    }
  }

  lemma {:induction false} ProcessBelowNumbers(plan: Plan, n: nat, done: set<nat>, next: nat)
    requires WellFormed(plan) && Numbered(plan) && Under(Numbers(plan), next)
    ensures var (r, done', next') := ProcessBelow(plan, n, done, next);
      && Numbered(r) && NewOr(Numbers(r), Numbers(plan), next, next') && NewOr(done' - done, Numbers(plan), next, next')
    decreases Weight(plan, done), Size(plan), 0
  {
    match plan
    case Access(_) =>
    case Select(m, _, c) => if m == n { ProcessNumbers(c, done, next); } else { ProcessBelowNumbers(c, n, done, next); }
    case Cross(kids) => ProcessBelowKidsNumbers(kids, n, done, next);
    case Join(_, kids) => ProcessBelowKidsNumbers(kids, n, done, next);
    case Other(_, c) => ProcessBelowNumbers(c, n, done, next);
  }

  lemma {:induction false} ProcessBelowKidsNumbers(plans: seq<Plan>, n: nat, done: set<nat>, next: nat)
    requires AllApart(plans) && AllNumbered(plans) && Under(NumbersOf(plans), next)
    ensures var (r, done', next') := ProcessBelowKids(plans, n, done, next);
      && AllNumbered(r) && NewOr(NumbersOf(r), NumbersOf(plans), next, next') && NewOr(done' - done, NumbersOf(plans), next, next')
    decreases WeightOf(plans, done), SizeOf(plans), 2
  {
    if plans != [] {
      ProcessBelowNumbers(plans[0], n, done, next);
      var (k, d, m) := ProcessBelow(plans[0], n, done, next);
      AllLighterWhenDone(plans[1..], done, d);
      ProcessBelowKidsNumbers(plans[1..], n, d, m);
      var ks := ProcessBelowKids(plans[1..], n, d, m).0;
      assert ([k] + ks)[1..] == ks;
    }
  }

  // ---------- The traversal ----------

  ghost predicate SameShape(plan: Plan, r: Plan) {
    Factors(r) == Factors(plan) && (Binary(plan) ==> Binary(r)) && (Broken(plan) ==> Broken(r))
  }

  ghost predicate SameShapes(plans: seq<Plan>, r: seq<Plan>) {
    |r| == |plans| && TablesEach(r) == TablesEach(plans) && (AllBinary(plans) ==> AllBinary(r)) && (AllBroken(plans) ==> AllBroken(r))
  }

  lemma {:induction false} ProcessShape(plan: Plan, done: set<nat>, next: nat)
    requires WellFormed(plan)
    ensures SameShape(plan, Process(plan, done, next).0)
    decreases Weight(plan, done), Size(plan), 1
  {
    match plan
    case Access(_) =>
    case Select(n, p, c) =>
      if n !in done {
        PushWeight(n, p, c, next, done + {n});
        LighterWhenDone(c, done, done + {n});
        PushDownShape(n, p, c, next);
        var (t, next1) := PushDown(n, p, c, next);
        if Moves(p, c) { ProcessShape(t, done + {n}, next1); }
        var (t2, done2, next2) := if Moves(p, c) then Process(t, done + {n}, next1) else (t, done + {n}, next1);
        ProcessBelowShape(t2, n, done2, next2);
      }
    case Cross(kids) => ProcessKidsShape(kids, done, next);
    case Join(_, kids) => ProcessKidsShape(kids, done, next);
    case Other(_, c) => ProcessShape(c, done, next);
  }

  lemma {:induction false} ProcessKidsShape(plans: seq<Plan>, done: set<nat>, next: nat)
    requires AllApart(plans)
    ensures SameShapes(plans, ProcessKids(plans, done, next).0)
    decreases WeightOf(plans, done), SizeOf(plans), 2
  {
    if plans != [] {
      ProcessShape(plans[0], done, next);
      var (k, d, m) := Process(plans[0], done, next);
      AllLighterWhenDone(plans[1..], done, d);
      ProcessKidsShape(plans[1..], d, m);
      var ks := ProcessKids(plans[1..], d, m).0;
      assert ([k] + ks)[1..] == ks;
    }
  }

  lemma {:induction false} ProcessBelowShape(plan: Plan, n: nat, done: set<nat>, next: nat)
    requires WellFormed(plan)
    ensures SameShape(plan, ProcessBelow(plan, n, done, next).0)
    decreases Weight(plan, done), Size(plan), 0
  {
    match plan
    case Access(_) =>
    case Select(m, _, c) => if m == n { ProcessShape(c, done, next); } else { ProcessBelowShape(c, n, done, next); }
    case Cross(kids) => ProcessBelowKidsShape(kids, n, done, next);
    case Join(_, kids) => ProcessBelowKidsShape(kids, n, done, next);
    case Other(_, c) => ProcessBelowShape(c, n, done, next);
  }

  lemma {:induction false} ProcessBelowKidsShape(plans: seq<Plan>, n: nat, done: set<nat>, next: nat)
    requires AllApart(plans)
    ensures SameShapes(plans, ProcessBelowKids(plans, n, done, next).0)
    decreases WeightOf(plans, done), SizeOf(plans), 2
  {
    if plans != [] {
      ProcessBelowShape(plans[0], n, done, next);
      var (k, d, m) := ProcessBelow(plans[0], n, done, next);
      AllLighterWhenDone(plans[1..], done, d);
      ProcessBelowKidsShape(plans[1..], n, d, m);
      var ks := ProcessBelowKids(plans[1..], n, d, m).0;
      assert ([k] + ks)[1..] == ks;
    }
  }

  lemma StillUnder(done: set<nat>, done': set<nat>, numbers: set<nat>, next: nat, next': nat)
    requires Under(done, next) && Under(numbers, next) && NewOr(done' - done, numbers, next, next')
    ensures Under(done', next')
  {
    forall m | m in done' ensures m < next' {
      if m !in done { assert m in done' - done; }
    }
  }

  lemma PushSettles(n: nat, p: Pred, c: Plan, done: set<nat>, next: nat, open: set<nat>)
    requires WellFormed(c) && Core(c) && Numbered(c) && n !in Numbers(c) && Under(Numbers(c), next) && Under(done, next) && n < next
    requires n !in done && Excused(c, done, open, true)
    ensures var (t, next1) := PushDown(n, p, c, next);
      && Excused(t, done + {n}, open + {n}, Moves(p, c)) && Numbered(t)
      && Under(Numbers(t), next1) && Under(done + {n}, next1)
  {
    PushDownNumbers(n, p, c, next);
    ExcusedSame(c, done, done + {n}, open, open + {n}, true, true);
    PushedIsSettled(n, p, c, next, done + {n}, open + {n}, true);
    if !Moves(p, c) { StoppedIsSettled(p, c); }
  }

  /** Visiting a node leaves every selection below it settled, except below visited ones in open. */
  lemma {:induction false} ProcessSettles(plan: Plan, done: set<nat>, next: nat, open: set<nat>)
    requires WellFormed(plan) && Numbered(plan) && Under(Numbers(plan), next) && Under(done, next)
    requires open <= done && Excused(plan, done, open, true)
    ensures var (r, done', _) := Process(plan, done, next); Excused(r, done', open, false)
    decreases Weight(plan, done), Size(plan), 1
  {
    ProcessNumbers(plan, done, next);
    match plan
    case Access(_) =>
    case Select(n, p, c) =>
      if n !in done {
        PushWeight(n, p, c, next, done + {n});
        LighterWhenDone(c, done, done + {n});
        PushSettles(n, p, c, done, next, open);
        var (t, next1) := PushDown(n, p, c, next);
        if Moves(p, c) {
          ProcessSettles(t, done + {n}, next1, open + {n});
          ProcessNumbers(t, done + {n}, next1);
          StillUnder(done + {n}, Process(t, done + {n}, next1).1, Numbers(t), next1, Process(t, done + {n}, next1).2);
        }
        var (t2, done2, next2) := if Moves(p, c) then Process(t, done + {n}, next1) else (t, done + {n}, next1);
        ProcessBelowSettles(t2, n, done2, next2, open, false);
      }
    case Cross(kids) => ProcessKidsSettles(kids, done, next, open);
    case Join(_, kids) => ProcessKidsSettles(kids, done, next, open);
    case Other(_, c) => ProcessSettles(c, done, next, open);
  }

  lemma {:induction false} ProcessKidsSettles(plans: seq<Plan>, done: set<nat>, next: nat, open: set<nat>)
    requires AllApart(plans) && AllNumbered(plans) && Under(NumbersOf(plans), next) && Under(done, next)
    requires open <= done && AllExcused(plans, done, open, true)
    ensures var (r, done', _) := ProcessKids(plans, done, next); AllExcused(r, done', open, false)
    decreases WeightOf(plans, done), SizeOf(plans), 2
  {
    if plans != [] {
      ProcessSettles(plans[0], done, next, open);
      ProcessNumbers(plans[0], done, next);
      var (k, d, m) := Process(plans[0], done, next);
      AllLighterWhenDone(plans[1..], done, d);
      AllExcusedSame(plans[1..], done, d, open, open, true, true);
      ProcessKidsSettles(plans[1..], d, m, open);
      ProcessKidsNumbers(plans[1..], d, m);
      var (ks, d', m') := ProcessKids(plans[1..], d, m);
      ExcusedSame(k, d, d', open, open, false, false);
      assert ([k] + ks)[1..] == ks;
    }
  }

  /** Visiting what is below n settles that too. */
  lemma {:induction false} ProcessBelowSettles(plan: Plan, n: nat, done: set<nat>, next: nat, open: set<nat>, free: bool)
    requires WellFormed(plan) && Numbered(plan) && Under(Numbers(plan), next) && Under(done, next)
    requires open <= done && n in done && n !in open && Excused(plan, done, open + {n}, free)
    ensures var (r, done', _) := ProcessBelow(plan, n, done, next); Excused(r, done', open, free)
    decreases Weight(plan, done), Size(plan), 0
  {
    match plan
    case Access(_) =>
    case Select(m, p, c) =>
      if m == n {
        ExcusedSame(c, done, done, open + {n}, open, true, true);
        ProcessSettles(c, done, next, open);
        ProcessNumbers(c, done, next);
        ProcessShape(c, done, next);
      } else {
        ProcessBelowSettles(c, n, done, next, open, if m in done then m in open else free);
        ProcessBelowNumbers(c, n, done, next);
        ProcessBelowShape(c, n, done, next);
      }
    case Cross(kids) => ProcessBelowKidsSettles(kids, n, done, next, open, free);
    case Join(_, kids) => ProcessBelowKidsSettles(kids, n, done, next, open, free);
    case Other(_, c) => ProcessBelowSettles(c, n, done, next, open, free);
  }

  lemma {:induction false} ProcessBelowKidsSettles(plans: seq<Plan>, n: nat, done: set<nat>, next: nat, open: set<nat>, free: bool)
    requires AllApart(plans) && AllNumbered(plans) && Under(NumbersOf(plans), next) && Under(done, next)
    requires open <= done && n in done && n !in open && AllExcused(plans, done, open + {n}, free)
    ensures var (r, done', _) := ProcessBelowKids(plans, n, done, next); AllExcused(r, done', open, free)
    decreases WeightOf(plans, done), SizeOf(plans), 2
  {
    if plans != [] {
      ProcessBelowSettles(plans[0], n, done, next, open, free);
      ProcessBelowNumbers(plans[0], n, done, next);
      var (k, d, m) := ProcessBelow(plans[0], n, done, next);
      AllLighterWhenDone(plans[1..], done, d);
      AllExcusedSame(plans[1..], done, d, open + {n}, open + {n}, free, free);
      ProcessBelowKidsSettles(plans[1..], n, d, m, open, free);
      ProcessBelowKidsNumbers(plans[1..], n, d, m);
      var (ks, d', m') := ProcessBelowKids(plans[1..], n, d, m);
      ExcusedSame(k, d, d', open, open, free, free);
      assert ([k] + ks)[1..] == ks;
    }
  }

  // ---------- Numbers before selections are pushed ----------

  /** The numbers are all from this range. */
  predicate Between(numbers: set<nat>, next: nat, next': nat) {
    next <= next' && forall m :: m in numbers ==> next <= m < next'
  }

  lemma {:induction false} ChainNumbers(ps: seq<Pred>, c: Plan, next: nat)
    requires Numbered(c) && Under(Numbers(c), next)
    ensures var r := Chain(ps, c, next);
      Numbered(r) && forall m :: m in Numbers(r) ==> m in Numbers(c) || next <= m < next + |ps|
  {
    if ps != [] { ChainNumbers(ps[1..], c, next + 1); }
  }

  lemma {:induction false} AndPassNumbers(plan: Plan, next: nat)
    ensures var (r, next') := AndPass(plan, next); Numbered(r) && Between(Numbers(r), next, next')
    decreases plan, 0
  {
    match plan
    case Access(_) =>
    case Select(_, p, child) =>
      AndPassNumbers(child, next);
      ChainNumbers(Break(p), AndPass(child, next).0, AndPass(child, next).1);
    case Cross(kids) => AndPassAllNumbers(kids, next);
    case Join(_, kids) => AndPassAllNumbers(kids, next);
    case Other(_, child) => AndPassNumbers(child, next);
  }

  lemma {:induction false} AndPassAllNumbers(plans: seq<Plan>, next: nat)
    ensures var (r, next') := AndPassAll(plans, next); AllNumbered(r) && Between(NumbersOf(r), next, next')
    decreases plans, 1
  {
    if plans != [] {
      var (c, n) := AndPass(plans[0], next);
      AndPassNumbers(plans[0], next);
      AndPassAllNumbers(plans[1..], n);
      var cs := AndPassAll(plans[1..], n).0;
      assert ([c] + cs)[1..] == cs;
    }
  }

  lemma {:induction false} LeftDeepNumbers(kids: seq<Plan>)
    requires |kids| > 1
    ensures Numbers(LeftDeep(kids)) == NumbersOf(kids) && (AllNumbered(kids) ==> Numbered(LeftDeep(kids)))
    decreases |kids|
  {
    if |kids| > 2 {
      var one, pair, rest := [kids[1]], kids[..2], kids[2..];
      assert pair == [kids[0]] + one && pair[1..] == one && one[1..] == [];
      assert kids[1..][1..] == rest && kids[1..][0] == kids[1];
      var kids' := [Cross(pair)] + rest;
      assert kids'[1..] == rest;
      assert NumbersOf(one) == Numbers(kids[1]) && NumbersOf(pair) == Numbers(kids[0]) + Numbers(kids[1]);
      assert NumbersOf(kids[1..]) == Numbers(kids[1]) + NumbersOf(rest);
      assert NumbersOf(kids') == NumbersOf(pair) + NumbersOf(rest);
      if AllNumbered(kids) {
        assert AllNumbered(kids[1..]);
        assert AllNumbered(rest) && AllNumbered(one);
        assert AllNumbered(pair) && AllNumbered(kids');
      }
      LeftDeepNumbers(kids');
      assert LeftDeep(kids) == LeftDeep(kids');
    }
  }

  lemma {:induction false} CrossPassNumbers(plan: Plan)
    requires WellFormed(plan)
    ensures Numbers(CrossPass(plan)) == Numbers(plan) && (Numbered(plan) ==> Numbered(CrossPass(plan)))
    decreases plan, 0
  {
    match plan
    case Access(_) =>
    case Select(_, _, child) => CrossPassNumbers(child);
    case Cross(kids) =>
      CrossPassAllNumbers(kids);
      LeftDeepNumbers(CrossPassAll(kids));
    case Join(_, kids) => CrossPassAllNumbers(kids);
    case Other(_, child) => CrossPassNumbers(child);
  }

  lemma {:induction false} CrossPassAllNumbers(plans: seq<Plan>)
    requires AllApart(plans)
    ensures var r := CrossPassAll(plans); NumbersOf(r) == NumbersOf(plans) && (AllNumbered(plans) ==> AllNumbered(r))
    decreases plans, 1
  {
    if plans != [] {
      CrossPassNumbers(plans[0]);
      CrossPassAllNumbers(plans[1..]);
      var c, cs := CrossPass(plans[0]), CrossPassAll(plans[1..]);
      assert ([c] + cs)[1..] == cs;
    }
  }

  // ---------- Joins at last, and all passes ----------

  lemma {:induction false} JoinPassShape(plan: Plan)
    ensures var r := JoinPass(plan);
      && Joined(r) && (r.Cross? ==> plan.Cross?) && Tables(r) == Tables(plan) && Factors(r) == Factors(plan)
      && (Binary(plan) ==> Binary(r)) && (Broken(plan) ==> Broken(r)) && (Pushed(plan) ==> Pushed(r))
    decreases plan, 0
  {
    match plan
    case Access(_) =>
    case Select(_, p, child) =>
      if IsJoin(p) && child.Cross? {
        var kids := child.kids;
        JoinPassAllShape(kids);
        assert child == Cross(kids);
        assert JoinPass(plan) == Join(p, JoinPassAll(kids));
        assert Tables(child) == TablesOf(kids) && Factors(child) == TablesEach(kids);
        assert Binary(child) ==> |kids| == 2 && AllBinary(kids);
        assert (Broken(child) ==> AllBroken(kids)) && (Pushed(child) ==> AllPushed(kids));
      } else {
        JoinPassShape(child);
      }
    case Cross(kids) => JoinPassAllShape(kids);
    case Join(_, kids) => JoinPassAllShape(kids);
    case Other(_, child) => JoinPassShape(child);
  }

  lemma {:induction false} JoinPassAllShape(plans: seq<Plan>)
    ensures var r := JoinPassAll(plans);
      && AllJoined(r) && TablesOf(r) == TablesOf(plans) && TablesEach(r) == TablesEach(plans)
      && (AllBinary(plans) ==> AllBinary(r)) && (AllBroken(plans) ==> AllBroken(r)) && (AllPushed(plans) ==> AllPushed(r))
    decreases plans, 1
  {
    if plans != [] {
      JoinPassShape(plans[0]);
      JoinPassAllShape(plans[1..]);
      var c, cs := JoinPass(plans[0]), JoinPassAll(plans[1..]);
      assert ([c] + cs)[1..] == cs;
    }
  }

  /** After the traversal every selection is where no factor below has all its tables. */
  lemma ProcessPushes(plan: Plan, next: nat)
    requires WellFormed(plan) && Numbered(plan) && Under(Numbers(plan), next)
    ensures Pushed(Process(plan, {}, next).0)
  {
    AllFree(plan, {});
    ProcessSettles(plan, {}, next, {});
    var (r, done, _) := Process(plan, {}, next);
    NothingExcused(r, done);
  }

  /** What a rewritten plan looks like: no conjunctions; products and joins of two, whatever the number of
      tables; every selection below every product it can go below; no product left that could be a join. */
  lemma RewriteShape(plan: Plan, fromCount: nat, hasWhere: bool, next: nat)
    requires WellFormed(plan)
    ensures var r := Rewrite(plan, fromCount, hasWhere, next);
      && Broken(r)
      && (JoinsBinary(plan) && (fromCount >= 3 || Leaves(plan) <= 2) ==> Binary(r))
      && (hasWhere ==> Pushed(r))
      && (fromCount >= 2 ==> Joined(r))
  {
    var (p1, n1) := AndPass(plan, next);
    AndPassKeeps(plan, next);
    AndPassBreaks(plan, next);
    AndPassShape(plan, next);
    AndPassNumbers(plan, next);
    var p2 := if fromCount >= 3 then CrossPass(p1) else p1;
    CrossPassKeeps(p1);
    CrossPassShape(p1);
    CrossPassNumbers(p1);
    if Leaves(plan) <= 2 && fromCount < 3 { FewTablesBinary(p1); }
    var p3 := if hasWhere then Process(p2, {}, n1).0 else p2;
    if hasWhere {
      ProcessShape(p2, {}, n1);
      ProcessPushes(p2, n1);
    }
    JoinPassShape(p3);
  }
}
