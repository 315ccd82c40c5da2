# Verified model of lovefield-ts

lovefield-ts is a relational database engine that keeps its rows and indices in memory. This project
models its deterministic core in Dafny and proves what that core is for. The parts are:

* **The B+-tree index** (`BTree*.dfy`, `Flatten.dfy`, `SortedRows.dfy`). `BTreeIndex.BTree` is a heap
  of nodes that are spliced in place, as in the program: leaf and internal splits, deletion with
  stealing and merging across cousins under different parents, repair of separators, range scans in
  both directions with skip and limit. The contract of every operation is about the map from key to
  row ids that the tree stands for. The invariant behind it (`Valid`) says that all leaves are on one
  level, that every level is one chain of neighbours in key order, that every separator is the
  leftmost key of its right subtree, that nodes other than the root are not underfull, and that
  `totalRows` counts the row ids. The proofs work on snapshots of the heap.
* **Key ranges and index scans** (`KeyRanges.dfy`, `IndexScan.dfy`): the interval algebra, the set of
  ranges kept sorted and apart, the ranges of a predicate, and the index plan against the full scan.
* **Locks and tasks** (`LockProtocol.dfy`, `Runner.dfy`): two-phase locking over sets of tables, a
  priority queue, and a runner whose steps are "schedule a task" and "a task ends". `LockProtocol`
  holds the argument on values, `TaskRunner` the classes.
* **The logical query rewriter** (`QueryPlans.dfy`, `PlanMeaning.dfy`, `PlanPasses.dfy`,
  `PlanRewriter.dfy`, `PlanShapes.dfy`, `PlanOrder.dfy`, `PlanTies.dfy`): the four passes that run on
  every SELECT, with the meaning of a plan as the sequence of rows it delivers, and the shape they give it.
* **The journal** (`TableState.dfy`, `TableDiffs.dfy`, `DiffReplay.dfy`, `Schemas.dfy`,
  `Database.dfy`, `CascadeReach.dfy`, `ConstraintChecks.dfy`, `ReferentialIntegrity.dfy`,
  `Journal.dfy`, `SharedColumns.dfy`, `CascadeDiamond.dfy`): row modifications applied to cache and
  indices at once, the net change per table, rollback, foreign keys with cascading updates and
  deletions, the scope of a DELETE. An index is seen here as the map that the B+-tree's contract speaks of.
* **The foreign key graph** (`ForeignKeyGraph.dfy`): the depth-first search that rejects loops.
* **Observed results** (`Subsequences.dfy`, `ResultDiffs.dfy`): longest common subsequence, and the
  diff built on it.
* **Joins** (`Joins.dfy`, `ConcatMaps.dfy`): blocked nested loop, hash and index nested loop.
* **Tree copy** (`TreeCopy.dfy`): the preorder copy with a stack of unfilled parents.

## Where the code does less than it promises

* A B+-tree with an even maximum of keys (the code uses 512) can get an internal node with as many
  keys as the maximum (`lib/index/btree.ts:954-991`). This happens in a merge exactly if the merged
  node is one key short of the minimum and its neighbour is at the minimum
  (`BTreeRemoval.MergeFillsIff`); `BTreeCapacity.RemovalReachesMaximum` is a tree and a removal where it
  happens. The next split below that node gives it one key more, and since `length === max` is not true
  of it then, it is not split (`BTreeIndex.BTree.SplitIfFull`) and can grow further, until it happens
  to have exactly the maximum again after an insertion. With an odd maximum every insertion and removal
  keeps all nodes below the maximum (`BTreeIndex.BTree.Insert`, `BTreeIndex.BTree.Remove`).
* `NOT IN ()` with an empty list is true for every row, but its key ranges are empty
  (`lib/pred/value_predicate.ts:144-177`). `IndexScan.CoversExactlyIff` says for which predicates the
  ranges mean what the predicate means.
* The complement of a range with reversed bounds, and the gaps between keys of which one is listed
  twice, overlap (`lib/index/key_range.ts:136-158`, `lib/index/key_range.ts:208-231`). They still hold
  the right keys, and range sets join them again. `KeyRanges.ComplementIsApartIff` and
  `KeyRanges.ComplementOfKeys` give the exact conditions.
* A predicate with OR delivers rows in another order than a filter would
  (`lib/proc/relation.ts:76-90`): those for which an earlier alternative holds come first. Breaking
  `c AND (a OR b)` into two selections changes the order (`PlanRewriter.OrChangesOrder`), and with LIMIT
  even the rows (`PlanRewriter.LimitDeliversOtherRows`); pushing an OR onto the later factor of a product
  changes it too (`PlanOrder.OrBelowProductChangesOrder`). Over one table the rewriter keeps the sequence
  exactly if the rows that the first conjunct does not tell apart come in the order of the other
  conjuncts (`PlanTies.OneTableKeepsSequenceIff`). Over several, when one predicate has OR in one
  conjunct and stays with the first factor, exactly if that conjunct comes first, or along the result
  the first alternative that holds never falls (`PlanOrder.OneOrKeepsSequenceIff`); on the later of two
  tables, exactly if the first has at most one row or one alternative adds nothing
  (`PlanOrder.LaterOrKeepsSequenceIff`). Without OR the sequence is the same, and in any case the rows
  below the limits are the same up to order.
* Rollback can fail. It adds deleted rows before it removes added ones, so a unique key that went
  from one row to another is in the way (`lib/cache/table_diff.ts:105-136`).
  `DiffReplay.ReplaySucceedsIff` gives the exact condition, `DiffReplay.TakenKeyBlocksRollback` an
  example.
* A cascaded update of a child row is not checked against the other foreign keys of the child table
  (`lib/cache/journal.ts:264-289`). If the child column belongs to a second foreign key, which the
  schema builder allows, an update can break it. `ReferentialIntegrity.UpdateKeepsIntegrityIff` gives
  the exact condition, `SharedColumns.CascadeBreaksOtherForeignKey` an example.
* Where several cascading foreign keys share a child column, the last one in the schema decides what a
  cascaded row refers to (`lib/cache/journal.ts:277-288`).
* The order of tables in a cascading deletion names a table twice if rows of it are found in two
  rounds or from two tables (`lib/cache/constraint_checker.ts:163-193`). The second time its rows are
  gone; if an immediate foreign key refers to the table, the check fails on the missing rows, which is
  the outcome `MissingRow` of the model. `CascadeDiamond.DeletionFails` is an example in a legal schema.
  `Journals.Journal.Remove` has the condition: no other deletion ends in `MissingRow`, none of these
  succeeds, and without restricting references all others do.

## Model

| member | source | states |
|---|---|---|
| `KeyRanges.CompareIsTotalOrder` | lib/index/key_range.ts:62-109 | comparing ranges is reflexive, antisymmetric and transitive, and ties only equal ranges |
| `KeyRanges.AndIsIntersection` | lib/index/key_range.ts:111-122 | the common range of two overlapping ranges holds exactly the keys in both |
| `KeyRanges.BoundingIsUnion` | lib/index/key_range.ts:124-134 | the bounding range of two overlapping ranges holds exactly the keys in either |
| `KeyRanges.ComplementIsComplement` | lib/index/key_range.ts:208-231 | the complement of a range is a list of ranges with exactly the other keys |
| `KeyRanges.ComplementIsApartIff` | lib/index/key_range.ts:208-231 | the two parts of a complement are in order and apart exactly if the lower bound is below the upper one, or they are equal and not both excluded |
| `KeyRanges.BoundedIsRestriction` | lib/index/key_range.ts:275-299 | bounding a range by a minimum and maximum keeps exactly its keys between them, reversed bounds included |
| `KeyRanges.BoundedIsSomeIff` | lib/index/key_range.ts:275-299 | a range is returned exactly if it has room for some number, which may lie between two integers |
| `KeyRanges.ComplementOfKeys` | lib/index/key_range.ts:136-158 | the gaps between the sorted keys of a list hold exactly the keys not in the list; they are in order and apart exactly if no key is listed twice; an empty list gives none |
| `KeyRanges.RangeSet.constructor` | lib/index/single_key_range_set.ts:35-40 | a set made from any ranges is in order and apart and holds their keys |
| `KeyRanges.RangeSet.Add` | lib/index/single_key_range_set.ts:54-78 | after adding any ranges the set is in order and apart and holds exactly the old and the new keys |
| `KeyRanges.Sweep` | lib/index/single_key_range_set.ts:62-77 | the sweep over sorted ranges joins those that overlap: the result is apart and holds the same keys |
| `KeyRanges.Intersect` | lib/index/single_key_range_set.ts:21-33 | the intersection of two range sets holds exactly the keys in both |
| `IndexScan.ToKeyRange` | lib/pred/value_predicate.ts:144-177 | the ranges of a predicate, complemented or not, hold exactly the keys for which it is true; for NOT IN with an empty list they hold none though every key satisfies it |
| `IndexScan.CoversExactlyIff` | lib/pred/combined_predicate.ts:110-129 | the ranges of a column's predicate mean what the predicate means exactly if it has no NOT IN with an empty list, or its other alternatives cover every key |
| `IndexScan.ColumnToKeyRange` | lib/pred/combined_predicate.ts:110-129 | the ranges of an OR of predicates hold exactly the keys for which one of them is true, NOT IN with an empty list counting for nothing |
| `IndexScan.CalculateKeyRanges` | lib/proc/pp/bounded_key_range_calculator.ts:69-87 | folding the ranges of any number of predicates gives exactly the keys that the ranges of all of them hold |
| `IndexScan.ScanIsFilter` | lib/proc/pp/index_range_scan_pass.ts:100-121 | scanning an index that agrees with a column finds each row whose key is in the ranges exactly once and no other, by key and then by row id |
| `IndexScan.IndexRangeScan` | lib/proc/pp/index_range_scan_step.ts:65-96 | the rows that the ranges of all predicates hold have one listing by key and row id, and the index plan delivers a window of it, from the end for a reverse scan, but from the front for a lookup of a single key |
| `IndexScan.ListedRowsSatisfy` | lib/proc/pp/index_range_scan_pass.ts:100-121 | without NOT IN with an empty list the listed rows are those that satisfy all predicates |
| `IndexScan.ListingIsUnique` | lib/index/btree.ts:219-232 | the contents of an index leave no choice in how its rows are listed |
| `BTreeIndex.BTree.SearchKey` | lib/index/btree.ts:1039-1054 | the binary search finds the position of the first key that is not smaller |
| `BTreeIndex.BTree.constructor` | lib/index/btree.ts:46-56 | a new tree made without data is valid, empty and within capacity |
| `BTreeIndex.BTree.Get` | lib/index/btree.ts:576-589 | the row ids filed under the key, in increasing order |
| `BTreeIndex.BTree.ContainsKey` | lib/index/btree.ts:591-598 | true exactly if some row id is filed under the key |
| `BTreeIndex.BTree.ContainsBelow` | lib/index/btree.ts:591-598 | the early exit on an equal separator is right, because separators are live keys |
| `BTreeIndex.BTree.GetRange` | lib/index/btree.ts:105-176 | the row ids whose key is in some range, in index order or reversed, then skipped and limited; without ranges all row ids; forwards, ranges that overlap are listed one after the other up to the number of rows in the tree |
| `BTreeIndex.BTree.Scan` | lib/index/btree.ts:150-176 | going through the leaves range by range collects the wanted slice |
| `BTreeIndex.BTree.ScanRange` | lib/index/btree.ts:668-759 | one range, from its first leaf on, stops only when nothing more can match |
| `BTreeIndex.BTree.ScanLeaf` | lib/index/btree.ts:668-759 | the keys that the two recursive searches bound are exactly the leaf's keys in the range |
| `BTreeIndex.BTree.GetAll` | lib/index/btree.ts:219-232 | all row ids in index order or reversed, skipped and limited |
| `BTreeIndex.BTree.Fill` | lib/index/btree.ts:800-830 | filling from a subtree collects the wanted slice of its row ids |
| `BTreeScan.FindFirstKey` | lib/index/btree.ts:679-703 | the recursive search gives the position of the first key in the range, or -1 if there is none |
| `BTreeScan.FindLastKey` | lib/index/btree.ts:706-730 | the recursive search gives the position of the last key in the range, or -1 if there is none |
| `BTreeScan.RangesAreOneFilter` | lib/index/btree.ts:150-176 | scanning ranges that are in order and apart one after the other is the same as one filter by all of them |
| `BTreeScan.NothingBefore` | lib/index/btree.ts:130-148 | no key before the leaf where a scan starts is in the range |
| `BTreeScan.NothingAfter` | lib/index/btree.ts:731-759 | no key is in the range once a leaf without a match has come after the start |
| `BTreeScan.ReverseWindow` | lib/index/btree.ts:105-128 | a window of the reversed rows is the reversed window counted from the end |
| `BTreeScan.Collector.AppendResultsAt` | lib/index/btree.ts:1092-1116 | one key's row ids go into the results, forwards or from the end, within skip and limit |
| `BTreeScan.Collector.AppendResults` | lib/index/btree.ts:1118-1127 | the same for a run of keys |
| `BTreeScan.Filler.FillLeaf` | lib/index/btree.ts:800-830 | filling from a leaf takes the leaf's share of the window |
| `BTreeIndex.BTree.Add` | lib/index/btree.ts:66-68 | adds exactly one row id to the contents, or reports a duplicate key or row id and leaves the tree as it was; keeps the invariant, and the capacity of nodes if it held |
| `BTreeIndex.BTree.Set` | lib/index/btree.ts:70-72 | replaces the row ids of a key; keeps the invariant, and the capacity of nodes if it held |
| `BTreeIndex.BTree.Insert` | lib/index/btree.ts:618-662 | insertion from the root, including a new root over a split one |
| `BTreeIndex.BTree.InsertBelow` | lib/index/btree.ts:618-662 | what an insertion leaves behind at every level: the node grown, or split under a new node with one key |
| `BTreeIndex.BTree.InsertIntoLeaf` | lib/index/btree.ts:618-648 | the leaf files the row id, splits when full, and reports duplicates before changing anything |
| `BTreeIndex.BTree.InsertIntoInner` | lib/index/btree.ts:648-662 | an internal node takes in the two halves of a split child |
| `BTreeIndex.BTree.SplitIfFull` | lib/index/btree.ts:648-662 | a node is split exactly if it has the maximum of keys at that moment; one that has more is left as it is |
| `BTreeIndex.BTree.SplitLeaf` | lib/index/btree.ts:994-1013 | a full leaf becomes two linked halves under a new node, with the same entries in the same order |
| `BTreeIndex.BTree.SplitInternal` | lib/index/btree.ts:1015-1037 | a full internal node becomes two linked halves under a new node, its middle key moving up |
| `BTreeIndex.BTree.Remove` | lib/index/btree.ts:74-76 | removes exactly a key, or one row id under it, from the contents and keeps the invariant; with an odd maximum it keeps every internal node below the maximum, and if no node was past the maximum before, none is after |
| `BTreeIndex.BTree.Delete` | lib/index/btree.ts:867-911 | what a removal leaves behind at every level, whether or not nodes were stolen from or merged |
| `BTreeIndex.BTree.DeleteFromLeaf` | lib/index/btree.ts:867-896 | the leaf drops the row id or the key |
| `BTreeIndex.BTree.DeleteFromInner` | lib/index/btree.ts:896-911 | an internal node is restored after its child has changed |
| `BTreeIndex.BTree.Fix` | lib/index/btree.ts:845-865 | recomputing the keys of a node makes every one of them the leftmost key of its right subtree |
| `BTreeIndex.BTree.Steal` | lib/index/btree.ts:913-952 | takes one entry or child from a neighbour, even a cousin, with contents, separators and levels kept |
| `BTreeIndex.BTree.Merge` | lib/index/btree.ts:954-991 | hands everything to a neighbour, even a cousin, and leaves the chain and the parent, with contents, separators and levels kept |
| `BTreeDeletion.StealStep` | lib/index/btree.ts:913-952 | stealing is one step of a removal seen from the level |
| `BTreeDeletion.MergeStep` | lib/index/btree.ts:954-991 | merging is one step of a removal seen from the level |
| `BTreeRemoval.MergeFillsIff` | lib/index/btree.ts:954-991 | a merge fills an internal node up to the maximum exactly if the maximum is even, the merged node is one key short of the minimum and its neighbour is at the minimum |
| `BTreeCapacity.RemovalReachesMaximum` | lib/index/btree.ts:867-911 | a sound tree of ten nodes with all internal nodes below the maximum of 6, from which the removal of one key makes a node with 6 keys |
| `BTreeCapacity.KeyOneCanBeRemoved` | lib/index/btree.ts:867-896 | the leaf's and the parent's step of that removal |
| `BTreeDeletion.FixStep` | lib/index/btree.ts:845-865 | repairing a node after its child changed is one step of a removal on the level above |
| `BTreeRemoval.RootCollapses` | lib/index/btree.ts:601-614 | a root with a single child gives way to it |
| `LockProtocol.RunningTasksAreCompatible` | lib/proc/lock_table_entry.ts:47-97 | under the invariant two running tasks that share a table are both read-only |
| `LockProtocol.FirstPhaseFails` | lib/proc/runner.ts:80-93 | a task that cannot get its first locks is blocked by a task that has reserved later or runs |
| `LockProtocol.SecondPhaseFails` | lib/proc/runner.ts:80-93 | the same when only the second locks are refused |
| `LockProtocol.NoStall` | lib/proc/runner.ts:52-78 | when every queued task waits for another task, some task is running |
| `LockProtocol.StuckCannotStart` | lib/proc/runner.ts:80-93 | a task that waits would not get its locks if asked again |
| `LockProtocol.FreeCanStart` | lib/proc/lock_table_entry.ts:57-97 | a task that does not wait for another gets both its locks |
| `LockProtocol.NewcomerFree` | lib/proc/runner.ts:36-48 | a new task waits for nobody if no conflicting task runs on its tables and every conflicting reservation there is cleared |
| `LockProtocol.Scheduled` | lib/proc/runner.ts:36-50 | scheduling, with reservations cleared for a task of higher priority, keeps the invariant |
| `LockProtocol.FirstPhase` | lib/proc/lock_manager.ts:80-84 | granting reservations over a scope keeps the invariant |
| `LockProtocol.SecondPhase` | lib/proc/lock_manager.ts:80-84 | granting the second locks and starting the task keeps the invariant |
| `LockProtocol.Finished` | lib/proc/lock_manager.ts:58-64 | releasing a finished task's locks keeps the invariant |
| `LockProtocol.StuckAfterFirstPhase` | lib/proc/runner.ts:80-93 | another task's reservation leaves waiting tasks waiting |
| `LockProtocol.StuckAfterSecondPhase` | lib/proc/runner.ts:80-93 | another task's start leaves waiting tasks waiting |
| `LockProtocol.AcquirableMeans` | lib/proc/lock_table_entry.ts:47-69 | a writer gets a table that it has reserved and nobody else has any lock on; a reader gets one that it has reserved and no writer holds; a reservation is given exactly if it keeps readers and writers apart and takes none away |
| `LockProtocol.GrantKeepsExclusion` | lib/proc/lock_table_entry.ts:71-97 | a lock that may be acquired leaves writers and readers apart, adds its task to those with a lock and nobody else, and an exclusive one leaves its task alone on the table |
| `LockProtocol.ReleaseForgets` | lib/proc/lock_table_entry.ts:32-45 | a released table has forgotten the task and nobody else, and whatever another task could acquire it still can |
| `TaskRunner.LockManager.RequestLock` | lib/proc/lock_manager.ts:49-56 | all tables of the scope are locked, or none |
| `TaskRunner.LockManager.ReleaseLock` | lib/proc/lock_manager.ts:58-64 | every table of the scope is released and no other changes |
| `TaskRunner.LockManager.ClearReservedLocks` | lib/proc/lock_manager.ts:66-69 | the reservations on the scope are gone and nothing else changes |
| `TaskRunner.TaskQueue.Insert` | lib/proc/task_queue.ts:28-34 | the task joins the queue, where every task has a smaller priority number than those after it, or the same and a smaller id |
| `TaskRunner.TaskQueue.Remove` | lib/proc/task_queue.ts:42-48 | the task leaves the queue, which stays in order |
| `TaskRunner.Runner.ScheduleTask` | lib/proc/runner.ts:36-50 | a task that no conflicting task running, queued before it or holding a reservation it may not clear keeps away is running afterwards; one with the priority of a transaction or lower clears no reservation of another; the invariant holds again after the pass |
| `TaskRunner.Runner.OnTaskDone` | lib/proc/runner.ts:103-114 | the task is from then on finished; every queued task that no conflicting task still running, before it in the queue or holding a reservation keeps away is running afterwards; the invariant holds again |
| `TaskRunner.Runner.ConsumePending` | lib/proc/runner.ts:52-78 | after one pass over a copy of the queue, in its order, every task left waits for another, and a task that none before it keeps away runs |
| `TaskRunner.Runner.RequestTwoPhaseLock` | lib/proc/runner.ts:80-93 | the task starts with all its locks, or waits for another task |
| `TaskRunner.Runner.NeverStalls` | lib/proc/runner.ts:36-115 | in every reachable state with unfinished tasks some task is running |
| `TaskRunner.Runner.NothingMissed` | lib/proc/runner.ts:52-78 | in every reachable state no queued task could start |
| `TaskRunner.Runner.RunningTasksShareOnlyReads` | lib/proc/lock_table_entry.ts:47-97 | in every reachable state running tasks that share a table only read |
| `PlanMeaning.EvalSelects` | lib/pred/combined_predicate.ts:39-43 | a predicate delivers exactly the satisfying entries, each once |
| `PlanMeaning.OrFreePlan` | lib/pred/combined_predicate.ts:145-158 | a plan without OR delivers what plain filters deliver, in that order |
| `PlanMeaning.SelectKeepsRows` | lib/proc/relation.ts:38-90 | with OR a selection delivers the rows of a plain filter up to order |
| `PlanMeaning.CoreKeepsRows` | lib/proc/relation.ts:38-90 | a whole plan delivers the rows of plain filters up to order |
| `PlanRewriter.AndPassRows` | lib/proc/lp/and_predicate_pass.ts:43-104 | breaking conjunctions into chains of selections keeps the rows and their order |
| `PlanShapes.AndPassBreaks` | lib/proc/lp/and_predicate_pass.ts:43-104 | afterwards no selection has a conjunction |
| `PlanRewriter.LeftDeepKeeps` | lib/proc/lp/cross_product_pass.ts:40-57 | a left-deep chain of binary products delivers the rows of the n-ary product, in order |
| `PlanRewriter.CrossPassBoth` | lib/proc/lp/cross_product_pass.ts:40-57 | the pass keeps rows, order and tables of every plan |
| `PlanShapes.CrossPassShape` | lib/proc/lp/cross_product_pass.ts:40-57 | afterwards every product has two factors, of which only the first is a product unless another was one before |
| `PlanRewriter.PushIntoProduct` | lib/proc/lp/push_down_selections_pass.ts:104-149 | filtering every child that has all the tables of a predicate filters the product |
| `PlanRewriter.PushDownRows` | lib/proc/lp/push_down_selections_pass.ts:104-149 | pushing one selection down keeps the filtered rows and their order |
| `PlanRewriter.ProcessRows` | lib/proc/lp/push_down_selections_pass.ts:63-102 | the whole push-down, which terminates because a measure over plan and pending selections falls, keeps the filtered rows and their order |
| `PlanShapes.ProcessPushes` | lib/proc/lp/push_down_selections_pass.ts:63-102 | afterwards no selection stands above a product or join one of whose factors has all its tables |
| `PlanRewriter.JoinPassRows` | lib/proc/lp/implicit_joins_pass.ts:46-69 | turning selections over products into joins keeps rows and order |
| `PlanShapes.JoinPassShape` | lib/proc/lp/implicit_joins_pass.ts:46-69 | afterwards no selection by a join predicate stands directly on a product, and what the passes before achieved still holds |
| `PlanShapes.RewriteShape` | lib/proc/lp/logical_plan_factory.ts:44-49 | all four passes together: no conjunctions, products and joins of two whatever the number of tables, selections as far down as they go, no product left that could be a join |
| `PlanRewriter.RewriteKeepsFilters` | lib/proc/lp/logical_plan_factory.ts:44-49 | all four passes together keep what plain filters deliver |
| `PlanRewriter.RewriteKeepsSequence` | lib/proc/lp/logical_plan_factory.ts:44-49 | for a plan without OR the rewritten plan delivers the same sequence of rows |
| `PlanRewriter.RewriteKeepsRows` | lib/proc/lp/logical_plan_factory.ts:44-49 | with OR the part below limit, skip and the other upper nodes delivers the same rows up to order |
| `PlanOrder.RewriteKeepsAllRows` | lib/proc/lp/logical_plan_factory.ts:44-49 | and so does the whole plan when the upper nodes do not look at the order of the rows |
| `PlanRewriter.LimitDeliversOtherRows` | lib/proc/lp/logical_plan_factory.ts:44-49 | a limit does look at it: a plan with LIMIT 1 that delivers another row once it is rewritten |
| `PlanOrder.SelectDelivers` | lib/proc/relation.ts:38-90 | what a selection delivers, without positions: AND filters the result of its first child, OR appends what each child adds |
| `PlanOrder.LedRows` | lib/proc/relation.ts:38-90 | with OR in one predicate only, in the first factor of every product, the whole plan delivers the filtered rows in the order of that predicate's first conjunct |
| `PlanOrder.UnmovedIff` | lib/proc/relation.ts:38-90 | a selection leaves rows that satisfy it where they are exactly if no row comes after one to which it is preferred: an OR prefers the row for which an earlier alternative holds |
| `PlanOrder.OneOrKeepsSequenceIff` | lib/proc/lp/logical_plan_factory.ts:44-49 | for such a plan, with one conjunct that has OR, the rewriter keeps the sequence of rows exactly if that conjunct comes first, or no row of the filtered result comes after one to which the conjunct prefers it |
| `PlanTies.OneTableKeepsSequenceIff` | lib/proc/lp/logical_plan_factory.ts:44-49 | for any WHERE over one table the rewriter keeps the sequence exactly if, among the rows that satisfy it, those that the first conjunct ties come in the order of the other conjuncts |
| `PlanTies.OneTableRewritten` | lib/proc/lp/push_down_selections_pass.ts:63-102 | pushing the selections over one table below each other in turn brings them back to where they were |
| `PlanOrder.LeadingOrKeepsSequence` | lib/proc/lp/logical_plan_factory.ts:44-49 | an OR that comes first keeps the sequence through limit, skip and all other upper nodes |
| `PlanOrder.LaterOrKeepsSequenceIff` | lib/proc/lp/push_down_selections_pass.ts:104-149 | an OR about the later of two tables is pushed below the product, which keeps the sequence exactly if the first table has at most one row or one alternative adds nothing |
| `PlanOrder.OrBelowProductChangesOrder` | lib/proc/lp/push_down_selections_pass.ts:104-149 | two tables of two rows for which it changes the sequence |
| `PlanRewriter.OrChangesOrder` | lib/proc/lp/and_predicate_pass.ts:43-104 | WHERE c AND (a OR b) on one table: breaking the conjunction changes the order of the rows |
| `TableState.UpdateAgrees` | lib/cache/in_memory_updater.ts:95-129 | an index that agrees with the rows accepts a modification exactly if its unique key is free, and then agrees with the modified rows |
| `TableState.UndoRestores` | lib/cache/in_memory_updater.ts:62-66 | updating with before and after exchanged brings the index back |
| `TableState.AgreesDetermines` | lib/cache/in_memory_updater.ts:53-72 | an index is determined by the rows it agrees with |
| `TableDiffs.AddRepresents` | lib/cache/table_diff.ts:48-57 | recording an insertion keeps the diff the net change |
| `TableDiffs.ModifyRepresents` | lib/cache/table_diff.ts:59-78 | recording an update keeps the diff the net change |
| `TableDiffs.DeleteRepresents` | lib/cache/table_diff.ts:80-92 | recording a deletion keeps the diff the net change |
| `TableDiffs.TableDiff.Add` | lib/cache/table_diff.ts:48-57 | if the diff was the net change up to now, it is still so after a new row, also one that was deleted before |
| `TableDiffs.TableDiff.Modify` | lib/cache/table_diff.ts:59-78 | if the diff was the net change up to now, it is still so after an update, also of an added or modified row |
| `TableDiffs.TableDiff.Delete` | lib/cache/table_diff.ts:80-92 | if the diff was the net change up to now, it is still so after a deletion, also of an added or modified row |
| `TableDiffs.TableDiff.Merge` | lib/cache/table_diff.ts:94-103 | merging a later diff gives the net change over both |
| `TableDiffs.TableDiff.GetReverse` | lib/cache/table_diff.ts:126-136 | replaying everything backwards gives additions and deletions exchanged and modifications turned round |
| `TableDiffs.ReverseRepresents` | lib/cache/table_diff.ts:126-136 | the reverse of a net change is the net change back |
| `DiffReplay.ReplaySucceedsIff` | lib/cache/in_memory_updater.ts:86-92 | applying a diff to the indices leads to the rows it stands for, and is accepted exactly if no unique key given up by a row of the diff is wanted too early by another |
| `DiffReplay.KeptKeysRollBack` | lib/cache/journal.ts:203-212 | a change in which no unique key passes from one row to another can be rolled back |
| `DiffReplay.TakenKeyBlocksRollback` | lib/cache/journal.ts:203-212 | a row deleted and its unique key taken by another: the reverse is refused |
| `InMemoryUpdater.Database.UpdateTableIndicesForRow` | lib/cache/in_memory_updater.ts:53-72 | all indices of the table are updated, or none is changed; accepted exactly if every unique key is free |
| `InMemoryUpdater.Database.UpdateIndicesForDiff` | lib/cache/in_memory_updater.ts:86-92 | accepted exactly if the diff is compatible, and then the indices agree with the rows it leads to |
| `InMemoryUpdater.Database.UpdateCacheForDiff` | lib/cache/in_memory_updater.ts:75-83 | the cache holds the rows the diff leads to |
| `InMemoryUpdater.Database.Update` | lib/cache/in_memory_updater.ts:43-48 | several tables at once: succeeds exactly if every diff is compatible, and then cache and indices agree; otherwise the cache has the tables before the first one refused |
| `ConstraintChecks.ConstraintChecker.CheckReferredKeys` | lib/cache/constraint_checker.ts:211-244 | passes exactly if the new key of every row whose key in the child column of an immediate foreign key is new or differs has a parent row |
| `ConstraintChecks.ConstraintChecker.CheckReferringKeys` | lib/cache/constraint_checker.ts:273-304 | passes exactly if no row whose key in the parent column of an immediate foreign key is gone or differs is referred to by that key before |
| `ConstraintChecks.ConstraintChecker.DetectCascadeUpdates` | lib/cache/constraint_checker.ts:98-115 | lists exactly the child rows that refer, through a cascading foreign key, to a parent key that differs before and after, with the update, in the order of the foreign keys |
| `ConstraintChecks.ConstraintChecker.FindReferringRowIds` | lib/cache/constraint_checker.ts:309-330 | exactly the rows that refer to one of the given rows through a cascading foreign key |
| `ConstraintChecks.ConstraintChecker.DetectCascadeDeletion` | lib/cache/constraint_checker.ts:163-193 | terminates when tables can be ranked, collects exactly the rows one or more cascading references away, lists a table twice exactly if rows of it are found in two rounds or from two tables, and lists what a table leads to before it unless the table comes twice |
| `CascadeReach.ReachedRank` | lib/cache/constraint_checker.ts:163-193 | a chain of references is no longer than the rank of the table |
| `CascadeReach.ReachedTwiceNeedsTwoRoutes` | lib/cache/constraint_checker.ts:163-193 | a table that is found twice has two cascading routes in the schema |
| `CascadeReach.DeleteContext.GetScope` | lib/query/delete_context.ts:32-37 | the scope is the table and every child of a table that cascading leads to |
| `CascadeReach.DeleteContext.ExpandTableScope` | lib/query/delete_context.ts:54-64 | the recursion adds exactly the tables needed below a table |
| `CascadeReach.ReachedIsInScope` | lib/query/delete_context.ts:54-64 | every table a deletion reaches, and every table that refers to one, is in the scope |
| `ReferentialIntegrity.InsertKeepsIntegrity` | lib/cache/journal.ts:112-122 | inserting rows whose keys have parents keeps every immediate foreign key satisfied |
| `ReferentialIntegrity.DeleteKeepsIntegrity` | lib/cache/journal.ts:166-178 | deleting rows that no row refers to keeps every immediate foreign key satisfied |
| `ReferentialIntegrity.ItemsAgree` | lib/cache/journal.ts:264-289 | one foreign key cascades one update at most to a child row |
| `ReferentialIntegrity.LastIsLast` | lib/cache/journal.ts:264-289 | where several foreign keys cascade to one column, the last one in the schema decides |
| `ReferentialIntegrity.CascadedNext` | lib/cache/journal.ts:277-288 | bringing one update down to a child row sets its column and nothing else |
| `ReferentialIntegrity.ParentKeysStay` | lib/schema/builder.ts:180-197 | since no column is both a parent and a child column, cascading leaves parent keys alone |
| `ReferentialIntegrity.UpdateKeepsIntegrityIff` | lib/cache/journal.ts:124-141 | after an update every immediate foreign key holds exactly if the key that each child column ends up with has parents for all foreign keys on the column |
| `ReferentialIntegrity.UnsharedColumnsHold` | lib/cache/journal.ts:124-141 | that condition holds for every update when cascading columns have no other foreign key |
| `SharedColumns.CascadeBreaksOtherForeignKey` | lib/cache/journal.ts:264-289 | a schema with a shared column and an update that passes all checks and breaks the other foreign key |
| `Journals.Journal.ModifyRow` | lib/cache/journal.ts:232-259 | one row changes in cache, all indices and the diff, or nothing changes but the pending rollback |
| `Journals.Journal.Insert` | lib/cache/journal.ts:112-122 | the exact outcome, stated on keys and rows; on success exactly the rows are added, and integrity is kept |
| `Journals.Journal.Update` | lib/cache/journal.ts:124-141 | on success the rows are replaced and the child rows follow; a foreign key refuses exactly if some row has a changed child key without parent, or a changed parent key with a child and no cascade; rows that keep all foreign keys' keys are never refused for one and cascade nothing; integrity afterwards exactly if cascaded keys suit other foreign keys |
| `Journals.NoneRefusedIff` | lib/cache/journal.ts:124-141 | the two checks pass together exactly if no row is refused, which is said of its keys before and after alone |
| `Journals.Journal.UpdateByCascade` | lib/cache/journal.ts:264-289 | every child row that refers to an updated key follows it, and no other row changes |
| `Journals.Journal.RemoveBatch` | lib/cache/journal.ts:305-317 | the rows are deleted, or refused exactly if some row still refers to one of them |
| `Journals.Journal.RemoveByCascade` | lib/cache/journal.ts:294-318 | exactly the rows that the deletion reaches are gone, and integrity is kept; it succeeds if no table that an immediate foreign key refers to is found twice and no reached row is referred to through an immediate foreign key that does not cascade; it fails if there is such a table, or if a row that is not reached refers to a reached one; MissingRow needs such a table |
| `Journals.Journal.Remove` | lib/cache/journal.ts:166-178 | exactly the given rows and those reached from them are gone, and integrity is kept; the same conditions, over the given rows as well, make it succeed or fail; a refusal names a row that is still referred to |
| `CascadeDiamond.DeletionFails` | lib/cache/constraint_checker.ts:163-193 | a legal schema with two routes to one table, rows with integrity, and a deletion that ends in MissingRow whatever order a round has |
| `Journals.Journal.Rollback` | lib/cache/journal.ts:203-212 | succeeds exactly if every reversed diff is compatible, and then cache and indices are those of the journal's start |
| `ForeignKeyGraph.CheckCycleUtil` | lib/schema/builder.ts:217-239 | the search finishes tables after their children, or has found a cycle |
| `ForeignKeyGraph.CheckFkCycle` | lib/schema/builder.ts:130-147 | fails exactly if some cycle goes through at least two tables; otherwise, without self references, children rank below parents |
| `ForeignKeyGraph.RankedHasNoCycle` | lib/schema/builder.ts:130-147 | tables that can be ranked have no cycle |
| `Subsequences.LongestMatching` | lib/structs/math_helper.ts:19-66 | the pairs found match elements in order, and no such pairing has more, for any comparator |
| `Subsequences.MatchingIsLongest` | lib/structs/math_helper.ts:38-45 | the table entry bounds every matching of the two prefixes |
| `Subsequences.FillTable` | lib/structs/math_helper.ts:30-45 | the loops fill the table with the optimal lengths |
| `Subsequences.LongestCommonSubsequence` | lib/structs/math_helper.ts:47-66 | the way back through the table collects an image of each pair of the longest matching |
| `ResultDiffs.DiffCalculator.ApplyDiff` | lib/base/diff_calculator.ts:45-88 | an array that shows the old results shows the new ones afterwards, and an array changed splice by splice as the old + new - 2 * common records say becomes the same |
| `ResultDiffs.DiffCalculator.RemoveOld` | lib/base/diff_calculator.ts:53-66 | the deletion phase leaves what shows the common entries, as do its records |
| `ResultDiffs.DiffCalculator.AddNew` | lib/base/diff_calculator.ts:73-85 | the insertion phase completes them to the new entries, as do its records |
| `ResultDiffs.ObserverRegistryEntry.UpdateResults` | lib/base/observer_registry_entry.ts:63-71 | over any run of updates the array shows the last results, and the records handed to the observers, replayed on the array as it was, give the array as it is |
| `Joins.PairsCommute` | lib/pred/join_predicate.ts:376-396 | which relation is called left only affects the order |
| `Joins.SwappedPairs` | lib/pred/join_predicate.ts:312-337 | exchanging the columns and reversing the operator keeps the matching pairs |
| `Joins.PairsAreListed` | lib/pred/join_predicate.ts:128-186 | every pair of positions whose entries match comes exactly once, left by left, and no other |
| `Joins.PairsAreCombined` | lib/pred/join_predicate.ts:109-117 | an entry is in the result exactly if it is made up of a left and a right entry and its two values stand in <, <=, >, >=, == or != as the operator says |
| `Joins.JoinPredicate.DetectLeftRight` | lib/pred/join_predicate.ts:376-396 | the smaller relation comes first, and the predicate still means the same |
| `Joins.JoinPredicate.NestedLoopJoin` | lib/pred/join_predicate.ts:128-186 | block by block the matching pairs of the product, up to order, for each of the six comparisons |
| `Joins.JoinPredicate.HashJoin` | lib/pred/join_predicate.ts:193-250 | the matching pairs of the product, up to order |
| `Joins.JoinPredicate.IndexNestedLoopJoin` | lib/pred/join_predicate.ts:252-304 | the matching pairs of the outer relation with all rows of the indexed table, up to order |
| `TreeCopy.TreeMapper.Visit` | lib/structs/tree_helper.ts:56-72 | visiting a subtree adds its complete copy to the parent's copy and leaves the right parent on top of the stack |
| `TreeCopy.TreeMapper.Map` | lib/structs/tree_helper.ts:33-77 | a tree of the same shape with every node replaced by its image, and parents and children consistent |

## Left out

* Browser back stores and their transactions, promises, services, builders, SQL and explain strings.
* The rewriter works on plan values: a pass is a function from plan to plan, and the identity of a
  select node, by which the code remembers what it has pushed down, is a number in the node. In-place
  changes of parent and child links are not modelled for it; `TreeCopy` models them for the copy.
* The index scan replaces plan nodes in place in the code; the model proves the two plans equal.
* Keys are integers. Nullable and multi-column indices, descending order and other key types are not
  modelled; neither are the cost estimate, `min`, `max` and serialization of the B+-tree.
* Cached rows are kept per table; the code has one map for all tables, which relies on row ids being
  unique over all tables. Row ids of inserted rows are new, and rows of one call are distinct.
* insertOrReplace, NOT NULL checks and deferred constraints.
* Self-referencing foreign keys: updates and cascading deletions assume that there are none.
* The order of tables in a cascading deletion: the model takes any order within a round.
* Outer joins, and the conversion of hash keys to strings, taken to be injective.
* Scheduling from inside a task's execution; task completion is a step of its own.
* BTreeIndex.BTree.constructor: construction from given data is not modelled; only tests use it, and
  it leaves the row count at 0.
* BTreeIndex.BTree.GetRange: a reverse scan of ranges that overlap is not modelled. The array that it
  reverses can then get longer than the row count, by up to a leaf.
* PlanOrder.OneOrKeepsSequenceIff: over several tables, plans with OR in several conjuncts or in several
  factors are covered only up to order; over one table `PlanTies` covers them.
* Journals.Journal.Remove: two cases depend on the order of tables within a round and are left open.
  A table found twice makes the removal fail, with MissingRow or with a foreign key error before. A row
  that refers through a restricting foreign key, and is itself reached on another way, may go first.
