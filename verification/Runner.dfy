/** The task runner: a priority queue, the lock table and passes over the queue, all updated in place. */
module TaskRunner {
  import opened LockProtocol

  /** The locks of one table.  A lock set that was never created counts as empty. */
  class LockTableEntry {
    var exclusiveLock: Option<TaskId>
    var reservedReadWriteLock: Option<TaskId>
    var reservedReadOnlyLocks: set<TaskId>
    var sharedLocks: set<TaskId>

    ghost function View(): Locks
      reads this
    {
      Locks(exclusiveLock, reservedReadWriteLock, reservedReadOnlyLocks, sharedLocks)
    }

    constructor ()
      ensures View() == FREE
    {
      exclusiveLock, reservedReadWriteLock, reservedReadOnlyLocks, sharedLocks := None, None, {}, {};
    }

    method ReleaseLock(taskId: TaskId)
      modifies this
      ensures View() == Release(old(View()), taskId)
      ensures LockedBy(View()) == LockedBy(old(View())) - {taskId}
      ensures TableExclusion(old(View())) ==> TableExclusion(View())
    {
      ReleaseForgets(View(), taskId);
      if exclusiveLock == Some(taskId) {
        exclusiveLock := None;
      }
      if reservedReadWriteLock == Some(taskId) {
        reservedReadWriteLock := None;
      }
      reservedReadOnlyLocks := reservedReadOnlyLocks - {taskId};
      sharedLocks := sharedLocks - {taskId};
    }

    method CanAcquireLock(taskId: TaskId, lockType: LockType) returns (can: bool)
      ensures can == CanAcquire(View(), taskId, lockType)
      ensures TableExclusion(View()) && can ==> TableExclusion(Grant(View(), taskId, lockType))
      ensures TableExclusion(View()) && lockType == Exclusive ==>
        (can <==> View().reservedReadWrite == Some(taskId) && View().exclusive.None? && taskId !in View().shared && LockedBy(View()) == {taskId})
      ensures TableExclusion(View()) && lockType == Shared ==> (can <==> taskId in View().reservedReadOnly && View().exclusive.None?)
    {
      if TableExclusion(View()) { AcquirableMeans(View(), taskId); }
      var noReservedReadOnlyLocksExist := |reservedReadOnlyLocks| == 0;
      if lockType == Exclusive {
        can := |sharedLocks| == 0 && noReservedReadOnlyLocksExist && exclusiveLock.None? && reservedReadWriteLock == Some(taskId);
      } else if lockType == Shared {
        can := exclusiveLock.None? && reservedReadWriteLock.None? && taskId in reservedReadOnlyLocks;
      } else if lockType == ReservedReadOnly {
        can := reservedReadWriteLock.None?;
      } else {
        can := noReservedReadOnlyLocksExist && (reservedReadWriteLock.None? || reservedReadWriteLock == Some(taskId));
      }
    }

    method GrantLock(taskId: TaskId, lockType: LockType)
      modifies this
      ensures View() == Grant(old(View()), taskId, lockType)
      ensures old(TableExclusion(View()) && CanAcquire(View(), taskId, lockType)) ==>
        TableExclusion(View()) && LockedBy(View()) == LockedBy(old(View())) + {taskId} && (lockType == Exclusive ==> LockedBy(View()) == {taskId})
    {
      if TableExclusion(View()) && CanAcquire(View(), taskId, lockType) { GrantKeepsExclusion(View(), taskId, lockType); }
      if lockType == Exclusive {
        reservedReadWriteLock := None;
        exclusiveLock := Some(taskId);
      } else if lockType == Shared {
        sharedLocks := sharedLocks + {taskId};
        reservedReadOnlyLocks := reservedReadOnlyLocks - {taskId};
      } else if lockType == ReservedReadOnly {
        reservedReadOnlyLocks := reservedReadOnlyLocks + {taskId};
      } else {
        reservedReadWriteLock := Some(taskId);
      }
    }
  }

  class LockManager {
    var lockTable: map<Table, LockTableEntry>

    ghost predicate Valid()
      reads this
    {
      forall a, b :: a in lockTable && b in lockTable && a != b ==> lockTable[a] != lockTable[b]
    }

    /** The locks of every table; a table without an entry is free. */
    ghost function View(): LockTable
      reads this, lockTable.Values
    {
      imap item: Table :: if item in lockTable then lockTable[item].View() else FREE
    }

    constructor ()
      ensures Valid() && lockTable == map[] && forall item :: LocksOf(View(), item) == FREE
    {
      lockTable := map[];
    }

    method GetEntry(item: Table) returns (entry: LockTableEntry)
      requires Valid()
      modifies this
      ensures Valid() && item in lockTable && lockTable[item] == entry && View() == old(View())
      ensures entry.View() == LocksOf(View(), item)
      ensures lockTable.Values <= old(lockTable.Values) + {entry} && (entry in old(lockTable.Values) || fresh(entry))
    {
      if item in lockTable {
        entry := lockTable[item];
      } else {
        entry := new LockTableEntry();
        lockTable := lockTable[item := entry];
      }
    }

    /** All or nothing over the scope. */
    method RequestLock(task: Task, lockType: LockType) returns (granted: bool)
      requires Valid()
      modifies this, lockTable.Values
      ensures Valid() && fresh(lockTable.Values - old(lockTable.Values))
      ensures granted == CanAcquireAll(old(View()), task, lockType)
      ensures if granted then Granted(old(View()), View(), task, lockType) else View() == old(View())
    {
      granted := CanAcquireLock(task, lockType);
      if granted {
        GrantLock(task, lockType);
      }
    }

    method CanAcquireLock(task: Task, lockType: LockType) returns (can: bool)
      requires Valid()
      modifies this
      ensures Valid() && fresh(lockTable.Values - old(lockTable.Values)) && View() == old(View())
      ensures can == CanAcquireAll(View(), task, lockType)
    {
      can := true;
      var rest := task.scope;
      while rest != {}
        invariant rest <= task.scope
        invariant Valid() && fresh(lockTable.Values - old(lockTable.Values)) && View() == old(View())
        invariant can <==> forall item :: item in task.scope - rest ==> CanAcquire(LocksOf(View(), item), task.id, lockType)
        decreases |rest|
      {
        var item :| item in rest;
        rest := rest - {item};
        if can {
          var entry := GetEntry(item);
          can := entry.CanAcquireLock(task.id, lockType);
        }
      }
    }

    method GrantItem(item: Table, taskId: TaskId, lockType: LockType)
      requires Valid()
      modifies this, lockTable.Values
      ensures Valid() && fresh(lockTable.Values - old(lockTable.Values))
      ensures ItemChanged(old(View()), View(), item, Grant(LocksOf(old(View()), item), taskId, lockType))
    {
      var entry := GetEntry(item);
      entry.GrantLock(taskId, lockType);
    }

    method ReleaseItem(item: Table, taskId: TaskId)
      requires Valid()
      modifies this, lockTable.Values
      ensures Valid() && fresh(lockTable.Values - old(lockTable.Values))
      ensures ItemChanged(old(View()), View(), item, Release(LocksOf(old(View()), item), taskId))
    {
      var entry := GetEntry(item);
      entry.ReleaseLock(taskId);
    }

    method ClearItem(item: Table)
      requires Valid()
      modifies this, lockTable.Values
      ensures Valid() && fresh(lockTable.Values - old(lockTable.Values))
      ensures ItemChanged(old(View()), View(), item, LocksOf(old(View()), item).(reservedReadWrite := None))
    {
      var entry := GetEntry(item);
      entry.reservedReadWriteLock := None;
    }

    method GrantLock(task: Task, lockType: LockType)
      requires Valid()
      modifies this, lockTable.Values
      ensures Valid() && fresh(lockTable.Values - old(lockTable.Values))
      ensures Granted(old(View()), View(), task, lockType)
    {
      hide GrantedOn, ReleasedOn, Cleared, ItemChanged, View;
      var rest := task.scope;
      ghost var before := View();
      NothingDone(before, task.id, lockType);
      assert task.scope - rest == {};
      while rest != {}
        invariant rest <= task.scope
        invariant Valid() && fresh(lockTable.Values - old(lockTable.Values))
        invariant GrantedOn(before, View(), task.scope - rest, task.id, lockType)
        decreases |rest|
      {
        var item :| item in rest;
        ghost var now := View();
        GrantItem(item, task.id, lockType);
        ItemByItem(before, now, View(), task.scope - rest, item, task.id, lockType);
        assert task.scope - rest + {item} == task.scope - (rest - {item});
        rest := rest - {item};
      }
      assert task.scope - rest == task.scope;
    }

    method ReleaseLock(task: Task)
      requires Valid()
      modifies this, lockTable.Values
      ensures Valid() && fresh(lockTable.Values - old(lockTable.Values))
      ensures Released(old(View()), View(), task)
    {
      hide GrantedOn, ReleasedOn, Cleared, ItemChanged, View;
      var rest := task.scope;
      ghost var before := View();
      NothingDone(before, task.id, Shared);
      assert task.scope - rest == {};
      while rest != {}
        invariant rest <= task.scope
        invariant Valid() && fresh(lockTable.Values - old(lockTable.Values))
        invariant ReleasedOn(before, View(), task.scope - rest, task.id)
        decreases |rest|
      {
        var item :| item in rest;
        ghost var now := View();
        ReleaseItem(item, task.id);
        ItemByItem(before, now, View(), task.scope - rest, item, task.id, Shared);
        assert task.scope - rest + {item} == task.scope - (rest - {item});
        rest := rest - {item};
      }
      assert task.scope - rest == task.scope;
    }

    /** Removes the reserved read-write locks on the given tables, whoever holds them. */
    method ClearReservedLocks(scope: set<Table>)
      requires Valid()
      modifies this, lockTable.Values
      ensures Valid() && fresh(lockTable.Values - old(lockTable.Values))
      ensures Cleared(old(View()), View(), scope)
    {
      hide GrantedOn, ReleasedOn, Cleared, ItemChanged, View;
      var rest := scope;
      ghost var before := View();
      NothingDone(before, 0, Shared);
      assert scope - rest == {};
      while rest != {}
        invariant rest <= scope
        invariant Valid() && fresh(lockTable.Values - old(lockTable.Values))
        invariant Cleared(before, View(), scope - rest)
        decreases |rest|
      {
        var item :| item in rest;
        ghost var now := View();
        ClearItem(item);
        ItemByItem(before, now, View(), scope - rest, item, 0, Shared);
        assert scope - rest + {item} == scope - (rest - {item});
        rest := rest - {item};
      }
      assert scope - rest == scope;
    }
  }

  // ---------- The queue ----------

  /** Lower priority numbers first, then lower ids. */
  function CompareTasks(t: Task, u: Task): int {
    var priorityDiff := t.priority - u.priority;
    if priorityDiff == 0 then t.id - u.id else priorityDiff
  }

  predicate Precedes(t: Task, u: Task) {
    t.priority < u.priority || (t.priority == u.priority && t.id < u.id)
  }

  lemma ComparedByPriority(t: Task, u: Task)
    ensures CompareTasks(t, u) < 0 <==> Precedes(t, u)
    ensures CompareTasks(t, u) == 0 <==> t.priority == u.priority && t.id == u.id
  {
  }

  ghost predicate InOrder(queue: seq<Task>) {
    forall i, j :: 0 <= i < j < |queue| ==> Precedes(queue[i], queue[j])
  }

  ghost function Members(queue: seq<Task>): set<Task> { set t | t in queue }

  lemma MembersIn(queue: seq<Task>)
    ensures forall t :: t in Members(queue) <==> t in queue
  {
  }

  class TaskQueue {
    var queue: seq<Task>

    ghost predicate Valid()
      reads this
    {
      InOrder(queue)
    }

    constructor ()
      ensures Valid() && queue == []
    {
      queue := [];
    }

    /** Binary insertion; a task that ties with a queued one is not inserted. */
    method Insert(task: Task)
      requires Valid()
      modifies this
      ensures Valid()
      ensures (forall u :: u in old(queue) ==> u.priority != task.priority || u.id != task.id) ==> Members(queue) == old(Members(queue)) + {task}
      ensures (exists u :: u in old(queue) && u.priority == task.priority && u.id == task.id) ==> queue == old(queue)
    {
      var left, right := 0, |queue|;
      while left < right
        invariant 0 <= left <= right <= |queue|
        invariant forall i :: 0 <= i < left ==> Precedes(queue[i], task)
        invariant forall i :: right <= i < |queue| ==> !Precedes(queue[i], task)
      {
        var middle := (left + right) / 2;
        if CompareTasks(queue[middle], task) < 0 {
          left := middle + 1;
        } else {
          right := middle;
        }
      }
      ghost var before := queue;
      if left < |queue| && CompareTasks(queue[left], task) == 0 {
        assert queue[left] in queue;
        return;
      }
      NoTie(queue, task, left);
      queue := queue[..left] + [task] + queue[left..];
      assert forall u :: u in queue <==> u in before[..left] || u == task || u in before[left..];
      assert before == before[..left] + before[left..];
    }

    method GetValues() returns (values: seq<Task>)
      ensures values == queue
    {
      values := queue;
    }

    method Remove(task: Task) returns (removed: bool)
      requires Valid()
      modifies this
      ensures Valid() && Members(queue) == old(Members(queue)) - {task}
      ensures removed <==> task in old(queue)
    {
      var i := 0;
      while i < |queue| && queue[i] != task
        invariant 0 <= i <= |queue| && task !in queue[..i]
      {
        i := i + 1;
      }
      removed := i < |queue|;
      if removed {
        Dropped(queue, i);
        queue := queue[..i] + queue[i + 1..];
      } else {
        assert queue[..i] == queue;
      }
    }
  }

  lemma Dropped(queue: seq<Task>, i: nat)
    requires InOrder(queue) && i < |queue|
    ensures InOrder(queue[..i] + queue[i + 1..])
    ensures Members(queue[..i] + queue[i + 1..]) == Members(queue) - {queue[i]}
  {
    var after := queue[..i] + queue[i + 1..];
    forall j, k | 0 <= j < k < |after| ensures Precedes(after[j], after[k]) {
      assert Precedes(queue[if j < i then j else j + 1], queue[if k < i then k else k + 1]);
    }
    forall j | 0 <= j < |after| ensures after[j] != queue[i] {
      if j < i { assert Precedes(queue[j], queue[i]); } else { assert Precedes(queue[i], queue[j + 1]); }
    }
    forall u | u in queue && u != queue[i] ensures u in after {
      var j :| 0 <= j < |queue| && queue[j] == u;
      assert after[if j < i then j else j - 1] == u;
    }
  }

  lemma NoTie(queue: seq<Task>, task: Task, left: nat)
    requires InOrder(queue) && left <= |queue| && (left < |queue| ==> CompareTasks(queue[left], task) != 0)
    requires forall i :: 0 <= i < left ==> Precedes(queue[i], task)
    requires forall i :: left <= i < |queue| ==> !Precedes(queue[i], task)
    ensures InOrder(queue[..left] + [task] + queue[left..])
    ensures forall u :: u in queue ==> CompareTasks(u, task) != 0
  {
    forall i | left <= i < |queue| ensures Precedes(task, queue[i]) {
      if i > left { assert Precedes(queue[left], queue[i]); }
    }
    var after := queue[..left] + [task] + queue[left..];
    forall i, j | 0 <= i < j < |after| ensures Precedes(after[i], after[j]) {
      if i != left && j != left {
        assert Precedes(queue[if i < left then i else i - 1], queue[if j < left then j else j - 1]);
      }
    }
  }

  // ---------- The runner ----------

  const OBSERVER_QUERY_TASK := 0
  const EXTERNAL_CHANGE_TASK := 1
  const TRANSACTION_TASK := 2

  ghost predicate IdsUnique(tasks: set<Task>) {
    forall t, u :: t in tasks && u in tasks && t.id == u.id ==> t == u
  }

  ghost predicate StampsKnown(stamps: map<TaskId, nat>, tasks: set<Task>) {
    forall id :: id in stamps ==> exists t :: t in tasks && t.id == id
  }

  lemma StampKnown(stamps: map<TaskId, nat>, stamps': map<TaskId, nat>, tasks: set<Task>, task: Task)
    requires StampsKnown(stamps, tasks) && task in tasks && stamps'.Keys <= stamps.Keys + {task.id}
    ensures StampsKnown(stamps', tasks)
  {
  }

  lemma NewcomerKnown(stamps: map<TaskId, nat>, tasks: set<Task>, task: Task)
    requires StampsKnown(stamps, tasks) && IdsUnique(tasks) && forall t :: t in tasks ==> t.id != task.id
    ensures task.id !in stamps && IdsUnique(tasks + {task}) && StampsKnown(stamps, tasks + {task})
  {
    forall id | id in stamps ensures exists t :: t in tasks + {task} && t.id == id {
      var t :| t in tasks && t.id == id;
      assert t in tasks + {task};
    }
  }

  class Runner {
    const queue: TaskQueue
    const lockManager: LockManager
    ghost var running: set<Task>
    ghost var finished: set<Task>
    ghost var stamps: map<TaskId, nat>
    ghost var clock: nat

    ghost function Sys(): System
      reads this, queue, lockManager, lockManager.lockTable.Values
    {
      System(lockManager.View(), Members(queue.queue), running, stamps, clock)
    }

    /** Every task ever scheduled. */
    ghost function Tasks(): set<Task>
      reads this, queue
    {
      Members(queue.queue) + running + finished
    }

    /** True between steps and inside a pass. */
    ghost predicate Consistent()
      reads this, queue, lockManager, lockManager.lockTable.Values
    {
      && lockManager.Valid() && queue.Valid() && Inv(Sys())
      && Members(queue.queue) !! running && Members(queue.queue) !! finished && running !! finished
      && IdsUnique(Tasks()) && StampsKnown(stamps, Tasks())
    }

    /** True between steps: besides, every queued task waits for another task. */
    ghost predicate Valid()
      reads this, queue, lockManager, lockManager.lockTable.Values
    {
      Consistent() && forall t :: t in queue.queue ==> Stuck(Sys(), t)
    }

    constructor ()
      ensures Valid() && fresh(queue) && fresh(lockManager) && Tasks() == {} && lockManager.lockTable == map[]
    {
      queue := new TaskQueue();
      lockManager := new LockManager();
      running, finished, stamps, clock := {}, {}, map[], 0;
      new;
      EmptySystem(Sys());
    }

    /** In every reachable state: as long as some scheduled task is unfinished, some task is
        running, so that finishing running tasks gets through all of them. */
    lemma NeverStalls()
      requires Valid()
      ensures Tasks() != finished ==> running != {}
    {
      if queue.queue != [] {
        assert queue.queue[0] in Sys().queued;
        NoStall(Sys());
      } else if running == {} {
        assert Tasks() == finished;
      }
    }

    /** In every reachable state: running tasks that share a table only read it. */
    lemma RunningTasksShareOnlyReads(t: Task, u: Task, item: Table)
      requires Valid() && t in running && u in running && t != u && item in t.scope && item in u.scope
      ensures t.readOnly && u.readOnly
    {
      RunningTasksAreCompatible(Sys(), t, u, item);
    }

    /** In every reachable state: no queued task could start, so no wake-up has been missed. */
    lemma NothingMissed(t: Task)
      requires Valid() && t in queue.queue
      ensures !CanStart(Sys(), t)
    {
      StuckCannotStart(Sys(), t);
    }

    method ScheduleTask(task: Task)
      requires Valid() && forall t :: t in Tasks() ==> t.id != task.id
      modifies this, queue, lockManager, lockManager.lockTable.Values
      ensures Valid() && fresh(lockManager.lockTable.Values - old(lockManager.lockTable.Values))
      ensures Tasks() == old(Tasks()) + {task} && finished == old(finished) && old(running) <= running
      ensures old(LetThrough(task)) ==> task in running
      ensures if task.priority >= TRANSACTION_TASK then ReservationsLast(old(Sys()), Sys()) else OthersLast(old(Sys()), Sys(), task)
    {
      hide Inv, Stuck, IdsUnique, StampsKnown, Cleared, OutOfTheWay, Conflict, Reserves, ReservationsLast, OthersLast;
      ghost var s, tasks, free := Sys(), Tasks(), LetThrough(task);
      NewcomerKnown(stamps, tasks, task);
      if task.priority < TRANSACTION_TASK {
        lockManager.ClearReservedLocks(task.scope);
      }
      queue.Insert(task);
      FreshTask(s, lockManager.View(), task);
      ghost var s' := Sys();
      assert s' == s.(locks := lockManager.View(), queued := s.queued + {task});
      assert Tasks() == tasks + {task};
      MembersIn(old(queue.queue));
      MembersIn(queue.queue);
      if free { NewcomerFree(s, lockManager.View(), task, task.priority < TRANSACTION_TASK); }
      if task.priority < TRANSACTION_TASK { ClearingKeeps(s, lockManager.View(), task); } else { SameLocksLast(s, s'); }
      ConsumePending();
      if task.priority < TRANSACTION_TASK { OthersLastTrans(s, s', Sys(), task); } else { LastTrans(s, s', Sys()); }
    }

    /** Nothing keeps the task from running at once: the running tasks do not conflict with it on a table,
        nor do tasks that come before it in the queue, and no reservation that it may not clear is in its
        way.  Observer queries and external changes clear write reservations, other tasks none. */
    ghost predicate LetThrough(task: Task)
      reads this, queue, lockManager, lockManager.lockTable.Values
    {
      && (forall r :: r in running ==> OutOfTheWay(task, r))
      && NoneAhead(task)
      && (forall q, item :: q in queue.queue && item in task.scope && Conflict(task, q) && Reserves(Sys(), q, item) ==>
            task.priority <= EXTERNAL_CHANGE_TASK && !q.readOnly)
    }

    /** A task's execution ends; success and failure differ only in what its promise is told. */
    method OnTaskDone(task: Task)
      requires Valid() && task in running
      modifies this, queue, lockManager, lockManager.lockTable.Values
      ensures Valid() && fresh(lockManager.lockTable.Values - old(lockManager.lockTable.Values))
      ensures Tasks() == old(Tasks()) && finished == old(finished) + {task} && old(running) - {task} <= running
      ensures forall t :: t in old(queue.queue) && old(NextInLine(t, task)) ==> t in running
      ensures ReservationsLast(old(Sys()), Sys())
    {
      hide Inv, Stuck, IdsUnique, StampsKnown, Released, OutOfTheWay, Conflict, Reserves, ReservationsLast;
      ghost var s, tasks := Sys(), Tasks();
      lockManager.ReleaseLock(task);
      running, finished := running - {task}, finished + {task};
      Finished(s, lockManager.View(), task);
      ghost var s' := Sys();
      assert s' == s.(locks := lockManager.View(), running := s.running - {task});
      assert Tasks() == tasks;
      MembersIn(queue.queue);
      ReleaseFrees(s, lockManager.View(), task);
      ConsumePending();
      LastTrans(s, s', Sys());
    }

    /** When the running task has ended, nothing keeps t from running. */
    ghost predicate NextInLine(t: Task, task: Task)
      reads this, queue, lockManager, lockManager.lockTable.Values
    {
      Next(Sys(), t, task) && NoneAhead(t)
    }

    /** One pass over a copy of the queue, starting whatever can start. */
    method ConsumePending()
      requires Consistent()
      modifies this`running, this`stamps, this`clock, queue, lockManager, lockManager.lockTable.Values
      ensures Valid() && fresh(lockManager.lockTable.Values - old(lockManager.lockTable.Values))
      ensures Tasks() == old(Tasks()) && old(running) <= running
      ensures forall t :: t in old(queue.queue) && old(!Stuck(Sys(), t) && NoneAhead(t)) ==> t in running
      ensures ReservationsLast(old(Sys()), Sys()) && Sys().queued <= old(Sys().queued)
    {
      hide Consistent, Inv, Stuck, IdsUnique, StampsKnown, Precedes, CompareTasks, OutOfTheWay, ReservationsLast;
      var values := queue.GetValues();
      QueueInOrder();
      ghost var s := Sys();
      AllLast(s);
      MembersIn(queue.queue);
      var i := 0;
      while i < |values|
        invariant 0 <= i <= |values| && InOrder(values)
        invariant Consistent() && fresh(lockManager.lockTable.Values - old(lockManager.lockTable.Values))
        invariant Tasks() == old(Tasks()) && old(running) <= running
        invariant forall t :: t in queue.queue ==> t in values
        invariant forall k :: i <= k < |values| ==> values[k] in queue.queue
        invariant forall k :: 0 <= k < i ==> values[k] in queue.queue ==> Stuck(Sys(), values[k])
        invariant forall k :: i <= k < |values| && InLine(s, values, k) ==> !Stuck(Sys(), values[k])
        invariant forall k :: 0 <= k < i && InLine(s, values, k) ==> values[k] in running
        invariant ReservationsLast(s, Sys()) && Sys().queued <= s.queued
      {
        ghost var before, now := queue.queue, Sys();
        NotAgain(values, i);
        TryTask(values[i]);
        MembersIn(queue.queue);
        MembersIn(before);
        LastTrans(s, now, Sys());
        i := i + 1;
      }
      forall t | t in values && !Stuck(s, t) && (forall u :: u in values && Precedes(u, t) ==> OutOfTheWay(t, u)) ensures t in running {
        var k :| 0 <= k < |values| && values[k] == t;
        EarlierPrecede(values, k);
      }
    }

    /** No task that comes before t in the queue conflicts with it on a table. */
    ghost predicate NoneAhead(t: Task)
      reads queue
    {
      forall u :: u in queue.queue && Precedes(u, t) ==> OutOfTheWay(t, u)
    }

    lemma QueueInOrder()
      requires Consistent()
      ensures InOrder(queue.queue)
    {
    }

    method TryTask(task: Task)
      requires Consistent() && task in queue.queue
      modifies this`running, this`stamps, this`clock, queue, lockManager, lockManager.lockTable.Values
      ensures Consistent() && fresh(lockManager.lockTable.Values - old(lockManager.lockTable.Values))
      ensures Tasks() == old(Tasks()) && old(running) <= running
      ensures Members(queue.queue) == old(Members(queue.queue)) || Members(queue.queue) == old(Members(queue.queue)) - {task}
      ensures task in queue.queue ==> Stuck(Sys(), task)
      ensures forall t :: t in queue.queue && t != task && Stuck(old(Sys()), t) ==> Stuck(Sys(), t)
      ensures !old(Stuck(Sys(), task)) ==> task in running
      ensures forall t :: t in queue.queue && t != task && OutOfTheWay(t, task) && !Stuck(old(Sys()), t) ==> !Stuck(Sys(), t)
      ensures ReservationsLast(old(Sys()), Sys())
    {
      hide Inv, Stuck, IdsUnique, StampsKnown, OnlyFor, OutOfTheWay, ReservationsLast;
      ghost var tasks, s := Tasks(), Sys();
      var acquiredLock;
      if task.readOnly {
        acquiredLock := RequestTwoPhaseLock(task, ReservedReadOnly, Shared);
      } else {
        acquiredLock := RequestTwoPhaseLock(task, ReservedReadWrite, Exclusive);
      }
      if acquiredLock {
        var removed := queue.Remove(task);
        running := running + {task};
      }
      assert Tasks() == tasks;
      StampKnown(s.stamps, stamps, tasks, task);
      forall t | t in queue.queue && t != task && OutOfTheWay(t, task) && !Stuck(s, t) ensures !Stuck(Sys(), t) {
        StaysFree(s, Sys(), task, t);
      }
    }

    method RequestTwoPhaseLock(task: Task, lockType1: LockType, lockType2: LockType) returns (acquiredLock: bool)
      requires Consistent() && task in queue.queue && lockType1 == FirstLock(task) && lockType2 == SecondLock(task)
      modifies this`stamps, this`clock, lockManager, lockManager.lockTable.Values
      ensures lockManager.Valid() && fresh(lockManager.lockTable.Values - old(lockManager.lockTable.Values))
      ensures stamps.Keys <= old(stamps.Keys) + {task.id}
      ensures var s := if acquiredLock then Sys().(queued := Sys().queued - {task}, running := running + {task}) else Sys();
        && Inv(s) && (!acquiredLock ==> Stuck(s, task))
        && (forall t :: t in s.queued && t != task && Stuck(old(Sys()), t) ==> Stuck(s, t))
        && OnlyFor(old(Sys()), s, task) && ReservationsLast(old(Sys()), s)
      ensures !old(Stuck(Sys(), task)) ==> acquiredLock
    {
      hide Inv, Stuck, IdsUnique, StampsKnown, Granted, CanAcquireAll, Precedes, OnlyFor, ReservationsLast;
      acquiredLock := false;
      ghost var s := Sys();
      if !Stuck(s, task) { FreeCanStart(s, task); }
      var acquiredFirstLock := lockManager.RequestLock(task, lockType1);
      if acquiredFirstLock {
        ghost var t := Reserved(s, lockManager.View(), task);
        FirstPhase(s, lockManager.View(), task);
        forall u | u in s.queued && Stuck(s, u) ensures Stuck(t, u) { StuckAfterFirstPhase(s, lockManager.View(), task, u); }
        GrantedOnlyFor(s, lockManager.View(), task, lockType1, t.stamps, t.clock);
        GrantKeepsReservations(s, lockManager.View(), task, lockType1, t.stamps, t.clock);
        stamps, clock := stamps[task.id := clock], clock + 1;
        assert Sys() == t;
        acquiredLock := lockManager.RequestLock(task, lockType2);
        if acquiredLock {
          SecondPhase(t, lockManager.View(), task);
          GrantedOnlyFor(t, lockManager.View(), task, lockType2, t.stamps, t.clock);
          GrantKeepsReservations(t, lockManager.View(), task, lockType2, t.stamps, t.clock);
          ghost var end := t.(locks := lockManager.View(), queued := t.queued - {task}, running := t.running + {task});
          OnlyForTrans(s, t, end, task);
          LastTrans(s, t, end);
          forall u | u in t.queued && u != task && Stuck(t, u)
            ensures Stuck(t.(locks := lockManager.View(), queued := t.queued - {task}, running := t.running + {task}), u)
          {
            StuckAfterSecondPhase(t, lockManager.View(), task, u);
          }
          assert Sys().(queued := Sys().queued - {task}, running := running + {task})
              == t.(locks := lockManager.View(), queued := t.queued - {task}, running := t.running + {task});
        } else {
          SecondPhaseFails(t, task);
          assert Sys() == t;
        }
      } else {
        FirstPhaseFails(s, task);
        assert Sys() == s;
        NothingNew(s, task);
      }
    }
  }

  /** Free at first, and out of the way of all tasks before it. */
  ghost predicate InLine(s: System, values: seq<Task>, k: nat)
    requires k < |values|
  {
    !Stuck(s, values[k]) && forall j :: 0 <= j < k ==> OutOfTheWay(values[k], values[j])
  }

  lemma EarlierPrecede(values: seq<Task>, k: nat)
    requires InOrder(values) && k < |values|
    ensures forall j :: 0 <= j < k ==> values[j] in values && Precedes(values[j], values[k])
  {
  }

  lemma AllLast(s: System)
    ensures ReservationsLast(s, s)
  {
  }

  lemma NothingNew(s: System, x: Task)
    ensures OnlyFor(s, s, x) && ReservationsLast(s, s)
  {
  }

  /** The end of a task leaves the others' reservations, and frees those that only it was in the way of. */
  lemma ReleaseFrees(s: System, locks: LockTable, task: Task)
    requires Inv(s) && task in s.running && Released(s.locks, locks, task)
    ensures var s' := s.(locks := locks, running := s.running - {task});
      ReservationsLast(s, s') && forall t :: t in s.queued && Next(s, t, task) ==> !Stuck(s', t)
  {
    forall q | q in s.queued ensures q.id != task.id { assert Known(s, q) && Known(s, task); }
    hide Inv;
  }

  ghost predicate Next(s: System, t: Task, task: Task) {
    && (forall r :: r in s.running && r != task ==> OutOfTheWay(t, r))
    && (forall q, item :: q in s.queued && item in t.scope && Conflict(t, q) ==> !Reserves(s, q, item))
  }

  /** A task of the queue comes up once in a pass. */
  lemma NotAgain(values: seq<Task>, i: nat)
    requires InOrder(values) && i < |values|
    ensures forall k :: 0 <= k < |values| && k != i ==> values[k] != values[i]
  {
    forall k | 0 <= k < |values| && k != i ensures values[k] != values[i] {
      if k < i { assert Precedes(values[k], values[i]); } else { assert Precedes(values[i], values[k]); }
    }
  }

  lemma EmptySystem(s: System)
    requires s.queued == {} && s.running == {} && s.stamps == map[] && forall item :: LocksOf(s.locks, item) == FREE
    ensures Inv(s)
  {
    forall item ensures TableExclusion(LocksOf(s.locks, item)) && Owned(s, item) {
      assert LocksOf(s.locks, item) == FREE;
    }
  }

  lemma FreshTask(s: System, locks: LockTable, task: Task)
    requires Inv(s) && task.id !in s.stamps && (forall u :: Known(s, u) ==> u.id != task.id)
    requires Cleared(s.locks, locks, task.scope) || locks == s.locks
    ensures Inv(s.(locks := locks, queued := s.queued + {task}))
  {
    Scheduled(s, locks, task);
  }
}
