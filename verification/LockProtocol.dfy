/** Two-phase table locks: the rules for one table, and what the rules keep for the whole system. */
module LockProtocol {
  import opened Sets

  type Table = string
  type TaskId = int

  datatype Option<T> = None | Some(value: T)

  datatype LockType = Exclusive | ReservedReadOnly | ReservedReadWrite | Shared

  datatype Task = Task(id: TaskId, priority: int, readOnly: bool, scope: set<Table>)

  /** The locks on one table. */
  datatype Locks = Locks(exclusive: Option<TaskId>, reservedReadWrite: Option<TaskId>,
                         reservedReadOnly: set<TaskId>, shared: set<TaskId>)

  const FREE := Locks(None, None, {}, {})

  type LockTable = imap<Table, Locks>

  function LocksOf(table: LockTable, item: Table): Locks {
    if item in table then table[item] else FREE
  }

  // ---------- The rules for one table ----------

  predicate CanAcquire(l: Locks, id: TaskId, lockType: LockType) {
    match lockType
    case Exclusive => l.shared == {} && l.reservedReadOnly == {} && l.exclusive.None? && l.reservedReadWrite == Some(id)
    case Shared => l.exclusive.None? && l.reservedReadWrite.None? && id in l.reservedReadOnly
    case ReservedReadOnly => l.reservedReadWrite.None?
    case ReservedReadWrite => l.reservedReadOnly == {} && (l.reservedReadWrite.None? || l.reservedReadWrite == Some(id))
  }

  function Grant(l: Locks, id: TaskId, lockType: LockType): Locks {
    match lockType
    case Exclusive => l.(reservedReadWrite := None, exclusive := Some(id))
    case Shared => l.(shared := l.shared + {id}, reservedReadOnly := l.reservedReadOnly - {id})
    case ReservedReadOnly => l.(reservedReadOnly := l.reservedReadOnly + {id})
    case ReservedReadWrite => l.(reservedReadWrite := Some(id))
  }

  function Release(l: Locks, id: TaskId): Locks {
    Locks(if l.exclusive == Some(id) then None else l.exclusive,
          if l.reservedReadWrite == Some(id) then None else l.reservedReadWrite,
          l.reservedReadOnly - {id}, l.shared - {id})
  }

  function FirstLock(t: Task): LockType { if t.readOnly then ReservedReadOnly else ReservedReadWrite }

  function SecondLock(t: Task): LockType { if t.readOnly then Shared else Exclusive }

  // ---------- The rules for a scope ----------

  predicate CanAcquireAll(table: LockTable, t: Task, lockType: LockType) {
    forall item :: item in t.scope ==> CanAcquire(LocksOf(table, item), t.id, lockType)
  }

  ghost predicate GrantedOn(table: LockTable, table': LockTable, items: set<Table>, id: TaskId, lockType: LockType) {
    forall item :: LocksOf(table', item) == (if item in items then Grant(LocksOf(table, item), id, lockType) else LocksOf(table, item))
  }

  ghost predicate ReleasedOn(table: LockTable, table': LockTable, items: set<Table>, id: TaskId) {
    forall item :: LocksOf(table', item) == (if item in items then Release(LocksOf(table, item), id) else LocksOf(table, item))
  }

  /** Reserved read-write locks on the scope are gone; nothing else has changed. */
  ghost predicate Cleared(table: LockTable, table': LockTable, scope: set<Table>) {
    forall item :: LocksOf(table', item) ==
      (if item in scope then LocksOf(table, item).(reservedReadWrite := None) else LocksOf(table, item))
  }

  /** Only the locks of one table have changed. */
  ghost predicate ItemChanged(table: LockTable, table': LockTable, item: Table, locks: Locks) {
    forall x :: LocksOf(table', x) == (if x == item then locks else LocksOf(table, x))
  }

  lemma ItemByItem(table: LockTable, now: LockTable, next: LockTable, done: set<Table>, item: Table, id: TaskId, lockType: LockType)
    requires item !in done
    ensures GrantedOn(table, now, done, id, lockType) && ItemChanged(now, next, item, Grant(LocksOf(now, item), id, lockType)) ==>
            GrantedOn(table, next, done + {item}, id, lockType)
    ensures ReleasedOn(table, now, done, id) && ItemChanged(now, next, item, Release(LocksOf(now, item), id)) ==>
            ReleasedOn(table, next, done + {item}, id)
    ensures Cleared(table, now, done) && ItemChanged(now, next, item, LocksOf(now, item).(reservedReadWrite := None)) ==>
            Cleared(table, next, done + {item})
  {
  }

  lemma NothingDone(table: LockTable, id: TaskId, lockType: LockType)
    ensures GrantedOn(table, table, {}, id, lockType) && ReleasedOn(table, table, {}, id) && Cleared(table, table, {})
  {
  }

  /** table' is table with the lock granted to t on its whole scope. */
  ghost predicate Granted(table: LockTable, table': LockTable, t: Task, lockType: LockType) {
    GrantedOn(table, table', t.scope, t.id, lockType)
  }

  ghost predicate Released(table: LockTable, table': LockTable, t: Task) {
    ReleasedOn(table, table', t.scope, t.id)
  }

  // ---------- What is always true ----------

  /** The queued and the running tasks, and when each last reserved its whole scope. */
  datatype System = System(locks: LockTable, queued: set<Task>, running: set<Task>, stamps: map<TaskId, nat>, clock: nat)

  ghost predicate Conflict(t: Task, u: Task) { t.id != u.id && !(t.readOnly && u.readOnly) }

  ghost predicate Reserves(s: System, h: Task, item: Table) {
    LocksOf(s.locks, item).reservedReadWrite == Some(h.id) || h.id in LocksOf(s.locks, item).reservedReadOnly
  }

  function StampOf(s: System, t: Task): int { if t.id in s.stamps then s.stamps[t.id] else -1 }

  ghost predicate Known(s: System, t: Task) { t in s.queued || t in s.running }

  ghost predicate OneTaskPerId(s: System) {
    forall t, u :: Known(s, t) && Known(s, u) && t.id == u.id ==> t == u && (t in s.queued <==> u !in s.running)
  }

  ghost predicate TableExclusion(l: Locks) {
    && (l.exclusive.Some? ==> l.shared == {})
    && (l.reservedReadWrite.Some? ==> l.reservedReadOnly == {})
  }

  /** The tasks with some lock on the table. */
  function LockedBy(l: Locks): set<TaskId> {
    (if l.exclusive.Some? then {l.exclusive.value} else {})
    + (if l.reservedReadWrite.Some? then {l.reservedReadWrite.value} else {})
    + l.reservedReadOnly + l.shared
  }

  /** Whom the rules let through: a writer that is alone on the table and has reserved it, a reader with
      a reservation while no writer holds the table, and a reservation that takes none away and leaves
      the two kinds of reservations apart. */
  lemma AcquirableMeans(l: Locks, id: TaskId)
    requires TableExclusion(l)
    ensures CanAcquire(l, id, Exclusive) <==> l.reservedReadWrite == Some(id) && l.exclusive.None? && id !in l.shared && LockedBy(l) == {id}
    ensures CanAcquire(l, id, Shared) <==> id in l.reservedReadOnly && l.exclusive.None?
    ensures CanAcquire(l, id, ReservedReadOnly) <==> TableExclusion(Grant(l, id, ReservedReadOnly))
    ensures CanAcquire(l, id, ReservedReadWrite) <==>
      TableExclusion(Grant(l, id, ReservedReadWrite)) && (l.reservedReadWrite.Some? ==> l.reservedReadWrite.value == id)
  {
    assert id in Grant(l, id, ReservedReadOnly).reservedReadOnly;
    if l.shared != {} { var x := SomeOf(l.shared); assert x in LockedBy(l); }
    if CanAcquire(l, id, Exclusive) { assert LockedBy(l) == {id}; }
  }

  /** What is acquired keeps writers apart from everybody else. */
  lemma GrantKeepsExclusion(l: Locks, id: TaskId, lockType: LockType)
    requires TableExclusion(l) && CanAcquire(l, id, lockType)
    ensures TableExclusion(Grant(l, id, lockType)) && LockedBy(Grant(l, id, lockType)) == LockedBy(l) + {id}
    ensures lockType == Exclusive ==> LockedBy(Grant(l, id, lockType)) == {id}
    ensures lockType == Shared ==> forall x :: Grant(l, id, lockType).exclusive != Some(x) && Grant(l, id, lockType).reservedReadWrite != Some(x)
  {
  }

  /** A released table has forgotten the task, and nobody else. */
  lemma ReleaseForgets(l: Locks, id: TaskId)
    ensures LockedBy(Release(l, id)) == LockedBy(l) - {id}
    ensures TableExclusion(l) ==> TableExclusion(Release(l, id))
    ensures forall x, lockType :: x != id && CanAcquire(l, x, lockType) ==> CanAcquire(Release(l, id), x, lockType)
  {
  }

  /** Every lock on the table has an owner of the right kind, with the table in its scope. */
  ghost predicate Owned(s: System, item: Table) {
    var l := LocksOf(s.locks, item);
    && (l.exclusive.Some? ==> exists r :: r in s.running && r.id == l.exclusive.value && !r.readOnly && item in r.scope)
    && (forall id :: id in l.shared ==> exists r :: r in s.running && r.id == id && r.readOnly && item in r.scope)
    && (l.reservedReadWrite.Some? ==> exists q :: q in s.queued && q.id == l.reservedReadWrite.value && !q.readOnly && item in q.scope)
    && (forall id :: id in l.reservedReadOnly ==> exists q :: q in s.queued && q.id == id && q.readOnly && item in q.scope)
  }

  /** A running task has its second lock on its whole scope. */
  ghost predicate Holding(s: System, r: Task) {
    forall item :: item in r.scope ==>
      if r.readOnly then r.id in LocksOf(s.locks, item).shared else LocksOf(s.locks, item).exclusive == Some(r.id)
  }

  /** Waiting goes from earlier to later reservers. */
  ghost predicate WaitsForLater(s: System, t: Task, h: Task) {
    forall item :: item in t.scope && Reserves(s, h, item) && Conflict(t, h) ==> StampOf(s, t) < StampOf(s, h)
  }

  ghost predicate Stamped(s: System, h: Task) {
    forall item :: Reserves(s, h, item) ==> h.id in s.stamps
  }

  ghost predicate Inv(s: System) {
    && OneTaskPerId(s)
    && (forall item :: TableExclusion(LocksOf(s.locks, item)))
    && (forall item :: Owned(s, item))
    && (forall r :: r in s.running ==> Holding(s, r))
    && (forall id :: id in s.stamps ==> s.stamps[id] < s.clock)
    && (forall h :: h in s.queued ==> Stamped(s, h))
    && (forall t, h :: t in s.queued && h in s.queued ==> WaitsForLater(s, t, h))
  }

  /** Safety: two running tasks that share a table are both read-only. */
  lemma RunningTasksAreCompatible(s: System, r: Task, u: Task, item: Table)
    requires Inv(s) && r in s.running && u in s.running && r != u && item in r.scope && item in u.scope
    ensures r.readOnly && u.readOnly
  {
    assert Known(s, r) && Known(s, u);
    assert Holding(s, r) && Holding(s, u);
    assert TableExclusion(LocksOf(s.locks, item));
  }

  // ---------- Why a task waits ----------

  ghost predicate BlockedBy(s: System, t: Task, u: Task, item: Table) {
    item in t.scope && Conflict(t, u) && ((u in s.running && item in u.scope) || (u in s.queued && Reserves(s, u, item)))
  }

  ghost predicate Stuck(s: System, t: Task) {
    exists u, item :: BlockedBy(s, t, u, item)
  }

  /** Some other task is in the way exactly when one of the two phases fails now. */
  lemma FirstPhaseFails(s: System, t: Task)
    requires Inv(s) && t in s.queued && !CanAcquireAll(s.locks, t, FirstLock(t))
    ensures Stuck(s, t)
  {
    var item :| item in t.scope && !CanAcquire(LocksOf(s.locks, item), t.id, FirstLock(t));
    var l := LocksOf(s.locks, item);
    assert Owned(s, item);
    if l.reservedReadWrite.Some? && l.reservedReadWrite != Some(t.id) {
      var q :| q in s.queued && q.id == l.reservedReadWrite.value && !q.readOnly && item in q.scope;
      assert BlockedBy(s, t, q, item);
    } else if t.readOnly {
      var q :| q in s.queued && q.id == t.id && !q.readOnly && item in q.scope;
      assert Known(s, q) && Known(s, t);
    } else {
      var id := SomeOf(l.reservedReadOnly);
      var q :| q in s.queued && q.id == id && q.readOnly && item in q.scope;
      if q.id == t.id { assert Known(s, q) && Known(s, t); }
      assert BlockedBy(s, t, q, item);
    }
  }

  lemma SecondPhaseFails(s: System, t: Task)
    requires Inv(s) && t in s.queued && !CanAcquireAll(s.locks, t, SecondLock(t))
    requires forall item :: item in t.scope ==> CanAcquire(LocksOf(s.locks, item), t.id, FirstLock(t)) && Reserves(s, t, item)
    ensures Stuck(s, t)
  {
    var item :| item in t.scope && !CanAcquire(LocksOf(s.locks, item), t.id, SecondLock(t));
    var l := LocksOf(s.locks, item);
    assert Owned(s, item) && TableExclusion(l);
    assert CanAcquire(l, t.id, FirstLock(t)) && Reserves(s, t, item);
    assert Known(s, t);
    if l.exclusive.Some? {
      var r :| r in s.running && r.id == l.exclusive.value && !r.readOnly && item in r.scope;
      assert Known(s, r);
      assert BlockedBy(s, t, r, item);
    } else {
      var id := SomeOf(l.shared);
      var r :| r in s.running && r.id == id && r.readOnly && item in r.scope;
      assert Known(s, r);
      assert BlockedBy(s, t, r, item);
    }
  }

  /** Both phases would succeed now. */
  ghost predicate CanStart(s: System, t: Task) {
    CanAcquireAll(s.locks, t, FirstLock(t)) &&
    forall item :: item in t.scope ==> CanAcquire(Grant(LocksOf(s.locks, item), t.id, FirstLock(t)), t.id, SecondLock(t))
  }

  lemma StuckCannotStart(s: System, t: Task)
    requires Inv(s) && t in s.queued && Stuck(s, t)
    ensures !CanStart(s, t)
  {
    var u, item :| BlockedBy(s, t, u, item);
    var l := LocksOf(s.locks, item);
    assert TableExclusion(l) && Owned(s, item);
    if u in s.running && item in u.scope {
      assert Holding(s, u);
    } else {
      ReservedKind(s, u, item);
    }
  }

  lemma ReservedKind(s: System, h: Task, item: Table)
    requires Inv(s) && h in s.queued && Reserves(s, h, item)
    ensures if h.readOnly then h.id in LocksOf(s.locks, item).reservedReadOnly else LocksOf(s.locks, item).reservedReadWrite == Some(h.id)
    ensures item in h.scope
  {
    var l := LocksOf(s.locks, item);
    assert Owned(s, item);
    assert Known(s, h);
    if l.reservedReadWrite == Some(h.id) {
      var q :| q in s.queued && q.id == h.id && !q.readOnly && item in q.scope;
      assert Known(s, q);
    } else {
      var q :| q in s.queued && q.id == h.id && q.readOnly && item in q.scope;
      assert Known(s, q);
    }
  }

  /** No stall: if every queued task is stuck, some task is running. */
  lemma NoStall(s: System)
    requires Inv(s) && (forall t :: t in s.queued ==> Stuck(s, t))
    ensures s.queued != {} ==> s.running != {}
  {
    if s.queued != {} && s.running == {} {
      var t := Latest(s, s.queued);
      var u, item :| BlockedBy(s, t, u, item);
      BlockersAreLater(s, t, u, item);
    }
  }

  lemma BlockersAreLater(s: System, t: Task, u: Task, item: Table)
    requires Inv(s) && t in s.queued && BlockedBy(s, t, u, item) && u !in s.running
    ensures u in s.queued && StampOf(s, t) < StampOf(s, u)
  {
    assert WaitsForLater(s, t, u);
  }

  lemma {:induction false} Latest(s: System, ts: set<Task>) returns (t: Task)
    requires ts != {}
    ensures t in ts && forall u :: u in ts ==> StampOf(s, u) <= StampOf(s, t)
    decreases |ts|
  {
    t :| t in ts;
    if ts - {t} != {} {
      var u := Latest(s, ts - {t});
      if StampOf(s, t) < StampOf(s, u) { t := u; }
    }
  }

  // ---------- The steps ----------

  /** A new task, with its priority's privilege already exercised or not. */
  lemma Scheduled(s: System, locks: LockTable, t: Task)
    requires Inv(s) && t.id !in s.stamps && (forall u :: Known(s, u) ==> u.id != t.id)
    requires Cleared(s.locks, locks, t.scope) || locks == s.locks
    ensures Inv(s.(locks := locks, queued := s.queued + {t}))
  {
    var s' := s.(locks := locks, queued := s.queued + {t});
    forall item ensures TableExclusion(LocksOf(s'.locks, item)) && Owned(s', item) {
      assert TableExclusion(LocksOf(s.locks, item)) && Owned(s, item);
      OwnersStay(s, s', item);
    }
    forall r | r in s'.running ensures Holding(s', r) { assert Holding(s, r); }
    forall h | h in s'.queued ensures Stamped(s', h) {
      if h == t {
        forall item ensures !Reserves(s', t, item) { NoReservation(s, t, item); }
      } else {
        StampsStay(s, s', h);
      }
    }
    forall a, h | a in s'.queued && h in s'.queued ensures WaitsForLater(s', a, h) {
      if h == t {
        forall item ensures !Reserves(s', t, item) { NoReservation(s, t, item); }
      } else {
        if a != t { assert WaitsForLater(s, a, h); }
        if a == t { assert Stamped(s, h); }
      }
    }
  }

  lemma StampsStay(s: System, s': System, h: Task)
    requires Stamped(s, h) && s.stamps.Keys <= s'.stamps.Keys
    requires forall item :: Reserves(s', h, item) ==> Reserves(s, h, item)
    ensures Stamped(s', h)
  {
  }

  lemma OwnersStay(s: System, s': System, item: Table)
    requires Owned(s, item) && s.queued <= s'.queued && s.running <= s'.running
    requires LocksOf(s'.locks, item) == LocksOf(s.locks, item) || LocksOf(s'.locks, item) == LocksOf(s.locks, item).(reservedReadWrite := None)
    ensures Owned(s', item)
  {
  }

  lemma NoReservation(s: System, t: Task, item: Table)
    requires Inv(s) && (forall u :: Known(s, u) ==> u.id != t.id)
    ensures !Reserves(s, t, item)
  {
    assert Owned(s, item);
    if Reserves(s, t, item) {
      var q :| q in s.queued && q.id == t.id;
      assert Known(s, q);
    }
  }

  ghost function Reserved(s: System, locks: LockTable, t: Task): System {
    s.(locks := locks, stamps := s.stamps[t.id := s.clock], clock := s.clock + 1)
  }

  /** The first phase: t reserves its whole scope. */
  lemma FirstPhase(s: System, locks: LockTable, t: Task)
    requires Inv(s) && t in s.queued && CanAcquireAll(s.locks, t, FirstLock(t)) && Granted(s.locks, locks, t, FirstLock(t))
    ensures Inv(Reserved(s, locks, t))
    ensures forall item :: item in t.scope ==> CanAcquire(LocksOf(locks, item), t.id, FirstLock(t)) && Reserves(Reserved(s, locks, t), t, item)
  {
    var s' := Reserved(s, locks, t);
    assert Known(s, t);
    forall item ensures TableExclusion(LocksOf(locks, item)) && Owned(s', item) {
      assert TableExclusion(LocksOf(s.locks, item)) && Owned(s, item);
      if item in t.scope { assert CanAcquire(LocksOf(s.locks, item), t.id, FirstLock(t)); }
    }
    forall r | r in s'.running ensures Holding(s', r) { assert Holding(s, r); }
    forall h | h in s'.queued ensures Stamped(s', h) {
      if h != t {
        assert Known(s, h);
        StampsStay(s, s', h);
      }
    }
    forall a, h | a in s'.queued && h in s'.queued ensures WaitsForLater(s', a, h) {
      assert WaitsForLater(s, a, h);
      if a == t && h != t {
        forall item | item in t.scope && Conflict(t, h) ensures !Reserves(s', h, item) { NothingInTheWay(s, locks, t, h, item); }
      }
      if h != t && a != t {
        forall item | Reserves(s', h, item) ensures Reserves(s, h, item) { assert Known(s, h); }
      }
    }
    forall item | item in t.scope ensures CanAcquire(LocksOf(locks, item), t.id, FirstLock(t)) && Reserves(s', t, item) {
      assert CanAcquire(LocksOf(s.locks, item), t.id, FirstLock(t));
    }
  }

  lemma NothingInTheWay(s: System, locks: LockTable, t: Task, h: Task, item: Table)
    requires Inv(s) && t in s.queued && h in s.queued && h != t && item in t.scope && Conflict(t, h)
    requires CanAcquireAll(s.locks, t, FirstLock(t)) && Granted(s.locks, locks, t, FirstLock(t))
    ensures !Reserves(Reserved(s, locks, t), h, item)
  {
    assert CanAcquire(LocksOf(s.locks, item), t.id, FirstLock(t));
    if Reserves(s, h, item) { ReservedKind(s, h, item); }
  }

  /** The second phase: t leaves the queue and runs. */
  lemma SecondPhase(s: System, locks: LockTable, t: Task)
    requires Inv(s) && t in s.queued && CanAcquireAll(s.locks, t, SecondLock(t)) && Granted(s.locks, locks, t, SecondLock(t))
    ensures Inv(s.(locks := locks, queued := s.queued - {t}, running := s.running + {t}))
  {
    var s' := s.(locks := locks, queued := s.queued - {t}, running := s.running + {t});
    assert Known(s, t);
    forall u, v | Known(s', u) && Known(s', v) && u.id == v.id ensures u == v && (u in s'.queued <==> v !in s'.running) {
      assert Known(s, u) && Known(s, v);
    }
    forall item ensures TableExclusion(LocksOf(locks, item)) && Owned(s', item) {
      assert TableExclusion(LocksOf(s.locks, item)) && Owned(s, item);
      if item in t.scope { assert CanAcquire(LocksOf(s.locks, item), t.id, SecondLock(t)); }
      StartOwned(s, s', t, item);
    }
    forall r | r in s'.running ensures Holding(s', r) {
      if r != t { assert Holding(s, r) && Known(s, r); StartHolding(s, s', t, r); }
    }
    forall h | h in s'.queued ensures Stamped(s', h) { StampsStay(s, s', h); }
    forall a, h | a in s'.queued && h in s'.queued ensures WaitsForLater(s', a, h) {
      assert WaitsForLater(s, a, h);
    }
  }

  lemma StartHolding(s: System, s': System, t: Task, r: Task)
    requires Inv(s) && t in s.queued && r in s.running && Holding(s, r)
    requires CanAcquireAll(s.locks, t, SecondLock(t)) && Granted(s.locks, s'.locks, t, SecondLock(t))
    ensures Holding(s', r)
  {
    forall item | item in r.scope
      ensures if r.readOnly then r.id in LocksOf(s'.locks, item).shared else LocksOf(s'.locks, item).exclusive == Some(r.id)
    {
      if item in t.scope { assert CanAcquire(LocksOf(s.locks, item), t.id, SecondLock(t)); }
    }
  }

  lemma StartOwned(s: System, s': System, t: Task, item: Table)
    requires Inv(s) && t in s.queued && s'.queued == s.queued - {t} && s'.running == s.running + {t}
    requires CanAcquireAll(s.locks, t, SecondLock(t)) && Granted(s.locks, s'.locks, t, SecondLock(t))
    ensures Owned(s', item)
  {
    var l, l' := LocksOf(s.locks, item), LocksOf(s'.locks, item);
    assert Owned(s, item) && Known(s, t);
    if item in t.scope {
      assert CanAcquire(l, t.id, SecondLock(t));
      assert t in s'.running;
    }
    if l'.reservedReadWrite.Some? {
      var q :| q in s.queued && q.id == l.reservedReadWrite.value && !q.readOnly && item in q.scope;
      assert q in s'.queued;
    }
    forall id | id in l'.reservedReadOnly ensures exists q :: q in s'.queued && q.id == id && q.readOnly && item in q.scope {
      var q :| q in s.queued && q.id == id && q.readOnly && item in q.scope;
      assert q in s'.queued;
    }
  }

  /** A task finishes, successfully or not: its locks go. */
  lemma Finished(s: System, locks: LockTable, t: Task)
    requires Inv(s) && t in s.running && Released(s.locks, locks, t)
    ensures Inv(s.(locks := locks, running := s.running - {t}))
  {
    var s' := s.(locks := locks, running := s.running - {t});
    assert Known(s, t);
    forall u, v | Known(s', u) && Known(s', v) && u.id == v.id ensures u == v && (u in s'.queued <==> v !in s'.running) {
      assert Known(s, u) && Known(s, v);
    }
    forall item ensures TableExclusion(LocksOf(locks, item)) && Owned(s', item) {
      assert TableExclusion(LocksOf(s.locks, item)) && Owned(s, item);
      FinishOwned(s, s', t, item);
    }
    forall r | r in s'.running ensures Holding(s', r) { assert Holding(s, r) && Known(s, r); }
    forall h | h in s'.queued ensures Stamped(s', h) { StampsStay(s, s', h); }
    forall a, h | a in s'.queued && h in s'.queued ensures WaitsForLater(s', a, h) {
      assert WaitsForLater(s, a, h);
    }
  }

  lemma FinishOwned(s: System, s': System, t: Task, item: Table)
    requires Inv(s) && t in s.running && s'.queued == s.queued && s'.running == s.running - {t} && Released(s.locks, s'.locks, t)
    ensures Owned(s', item)
  {
    var l, l' := LocksOf(s.locks, item), LocksOf(s'.locks, item);
    assert Owned(s, item) && Known(s, t);
    if l'.exclusive.Some? {
      var r :| r in s.running && r.id == l.exclusive.value && !r.readOnly && item in r.scope;
      assert r != t;
      assert r in s'.running;
    }
    forall id | id in l'.shared ensures exists r :: r in s'.running && r.id == id && r.readOnly && item in r.scope {
      var r :| r in s.running && r.id == id && r.readOnly && item in r.scope;
      assert r in s'.running;
    }
  }

  // ---------- A pass only makes tasks wait for other tasks ----------

  lemma StuckAfterFirstPhase(s: System, locks: LockTable, x: Task, t: Task)
    requires Inv(s) && x in s.queued && t in s.queued && Stuck(s, t)
    requires CanAcquireAll(s.locks, x, FirstLock(x)) && Granted(s.locks, locks, x, FirstLock(x))
    ensures Stuck(Reserved(s, locks, x), t)
  {
    var u, item :| BlockedBy(s, t, u, item);
    assert item in x.scope ==> CanAcquire(LocksOf(s.locks, item), x.id, FirstLock(x));
    assert BlockedBy(Reserved(s, locks, x), t, u, item);
  }

  lemma StuckAfterSecondPhase(s: System, locks: LockTable, x: Task, t: Task)
    requires Inv(s) && x in s.queued && t in s.queued && t != x && Stuck(s, t)
    requires CanAcquireAll(s.locks, x, SecondLock(x)) && Granted(s.locks, locks, x, SecondLock(x))
    ensures Stuck(s.(locks := locks, queued := s.queued - {x}, running := s.running + {x}), t)
  {
    var u, item :| BlockedBy(s, t, u, item);
    var s' := s.(locks := locks, queued := s.queued - {x}, running := s.running + {x});
    if u in s.queued && Reserves(s, u, item) {
      ReservedKind(s, u, item);
      assert Known(s, u) && Known(s, x);
      assert item in x.scope ==> CanAcquire(LocksOf(s.locks, item), x.id, SecondLock(x));
    }
    assert BlockedBy(s', t, u, item);
  }

  // ---------- Who is let through ----------

  /** Nobody is in the way of a task that is not stuck: both phases succeed. */
  lemma FreeCanStart(s: System, t: Task)
    requires Inv(s) && t in s.queued && !Stuck(s, t)
    ensures CanAcquireAll(s.locks, t, FirstLock(t))
    ensures forall locks :: Granted(s.locks, locks, t, FirstLock(t)) ==> CanAcquireAll(locks, t, SecondLock(t))
  {
    if !CanAcquireAll(s.locks, t, FirstLock(t)) { FirstPhaseFails(s, t); }
    forall locks | Granted(s.locks, locks, t, FirstLock(t)) ensures CanAcquireAll(locks, t, SecondLock(t)) {
      FirstPhase(s, locks, t);
      var s' := Reserved(s, locks, t);
      if !CanAcquireAll(locks, t, SecondLock(t)) {
        SecondPhaseFails(s', t);
        FreeAfterOwn(s, locks, t);
      }
    }
  }

  lemma FreeAfterOwn(s: System, locks: LockTable, t: Task)
    requires Inv(s) && t in s.queued && CanAcquireAll(s.locks, t, FirstLock(t)) && Granted(s.locks, locks, t, FirstLock(t))
    requires Stuck(Reserved(s, locks, t), t)
    ensures Stuck(s, t)
  {
    var u, item :| BlockedBy(Reserved(s, locks, t), t, u, item);
    assert CanAcquire(LocksOf(s.locks, item), t.id, FirstLock(t));
    assert BlockedBy(s, t, u, item);
  }

  /** Tasks that conflict share no table. */
  ghost predicate OutOfTheWay(t: Task, u: Task) { Conflict(t, u) ==> t.scope !! u.scope }

  /** Only x, on its scope, can come into the way of others by what is granted to it. */
  ghost predicate OnlyFor(s: System, s': System, x: Task) {
    && s'.queued <= s.queued && s'.running <= s.running + {x}
    && forall u, item :: Known(s, u) && u != x && Reserves(s', u, item) ==> Reserves(s, u, item)
  }

  lemma StaysFree(s: System, s': System, x: Task, t: Task)
    requires Inv(s) && Inv(s') && x in s.queued && t in s.queued && t != x && OutOfTheWay(t, x) && OnlyFor(s, s', x) && !Stuck(s, t)
    ensures !Stuck(s', t)
  {
    if Stuck(s', t) {
      var u, item :| BlockedBy(s', t, u, item);
      if u == x {
        if u in s'.queued && Reserves(s', u, item) { ReservedKind(s', u, item); }
      } else {
        assert Known(s, u);
        assert BlockedBy(s, t, u, item);
      }
    }
  }

  lemma OnlyForTrans(s: System, s': System, s'': System, x: Task)
    requires OnlyFor(s, s', x) && OnlyFor(s', s'', x) && s'.queued == s.queued && s'.running == s.running
    ensures OnlyFor(s, s'', x)
  {
  }

  lemma GrantedOnlyFor(s: System, locks: LockTable, x: Task, lockType: LockType, stamps: map<TaskId, nat>, clock: nat)
    requires Inv(s) && x in s.queued && Granted(s.locks, locks, x, lockType) && lockType in {FirstLock(x), SecondLock(x)}
    ensures OnlyFor(s, s.(locks := locks, stamps := stamps, clock := clock), x)
    ensures OnlyFor(s, s.(locks := locks, queued := s.queued - {x}, running := s.running + {x}), x)
  {
    forall u | Known(s, u) && u != x ensures u.id != x.id { assert Known(s, x); }
  }

  /** Reservations last until their task runs. */
  ghost predicate ReservationsLast(s: System, s': System) {
    forall q, item :: q in s'.queued && Reserves(s, q, item) ==> Reserves(s', q, item)
  }

  lemma LastTrans(s: System, s': System, s'': System)
    requires ReservationsLast(s, s') && ReservationsLast(s', s'') && s''.queued <= s'.queued
    ensures ReservationsLast(s, s'')
  {
  }

  /** A newcomer is free if no running task is in its way, and no reservation that was not cleared. */
  lemma NewcomerFree(s: System, locks: LockTable, t: Task, cleared: bool)
    requires Inv(s) && (if cleared then Cleared(s.locks, locks, t.scope) else locks == s.locks)
    requires forall r :: r in s.running ==> OutOfTheWay(t, r)
    requires forall q, item :: q in s.queued && item in t.scope && Conflict(t, q) && Reserves(s, q, item) ==> cleared && !q.readOnly
    ensures !Stuck(s.(locks := locks, queued := s.queued + {t}), t)
  {
    var s' := s.(locks := locks, queued := s.queued + {t});
    forall u, item | u in s'.queued && item in t.scope && Conflict(t, u) ensures !Reserves(s', u, item) {
      assert TableExclusion(LocksOf(s.locks, item));
      if Reserves(s, u, item) { ReservedKind(s, u, item); }
    }
    forall u, item ensures !BlockedBy(s', t, u, item) {
      assert u in s.running ==> OutOfTheWay(t, u);
    }
  }

  /** Only write reservations on the task's tables are gone. */
  ghost predicate OthersLast(s: System, s': System, t: Task) {
    forall q, item :: q in s'.queued && q in s.queued && Reserves(s, q, item) && (q.readOnly || item !in t.scope) ==> Reserves(s', q, item)
  }

  lemma ClearingKeeps(s: System, locks: LockTable, t: Task)
    requires Inv(s) && Cleared(s.locks, locks, t.scope)
    ensures OthersLast(s, s.(locks := locks, queued := s.queued + {t}), t)
  {
    var s' := s.(locks := locks, queued := s.queued + {t});
    forall q, item | q in s.queued && Reserves(s, q, item) && (q.readOnly || item !in t.scope) ensures Reserves(s', q, item) {
      ReservedKind(s, q, item);
    }
  }

  lemma OthersLastTrans(s: System, s': System, s'': System, t: Task)
    requires OthersLast(s, s', t) && ReservationsLast(s', s'') && s''.queued <= s'.queued
    ensures OthersLast(s, s'', t)
  {
  }

  lemma SameLocksLast(s: System, s': System)
    requires s'.locks == s.locks
    ensures ReservationsLast(s, s')
  {
  }

  lemma GrantKeepsReservations(s: System, locks: LockTable, x: Task, lockType: LockType, stamps: map<TaskId, nat>, clock: nat)
    requires Inv(s) && x in s.queued && CanAcquireAll(s.locks, x, lockType) && Granted(s.locks, locks, x, lockType)
    ensures lockType == FirstLock(x) ==> ReservationsLast(s, s.(locks := locks, stamps := stamps, clock := clock))
    ensures lockType == SecondLock(x) ==> ReservationsLast(s, s.(locks := locks, queued := s.queued - {x}, running := s.running + {x}))
  {
    forall q | q in s.queued && q != x ensures q.id != x.id { assert Known(s, x) && Known(s, q); }
    forall item | item in x.scope ensures CanAcquire(LocksOf(s.locks, item), x.id, lockType) { }
  }
}
