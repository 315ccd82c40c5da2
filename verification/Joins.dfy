/** Three ways of joining two relations, each of which gives the matching pairs of their product. */
module Joins {
  import opened BTreeStore
  import opened ConcatMaps
  import Sets

  type TableName = string

  /** For each table the entry comes from, the values of its columns. */
  type Entry = map<TableName, map<nat, Key>>

  datatype Column = Column(table: TableName, position: nat)

  datatype Relation = Relation(entries: seq<Entry>, tables: seq<TableName>)

  datatype EvalType = EQ | NEQ | GT | GTE | LT | LTE

  function GetField(entry: Entry, column: Column): Key {
    if column.table in entry && column.position in entry[column.table] then entry[column.table][column.position] else 0
  }

  /** combineEntries, for entries of different tables. */
  function Combine(left: Entry, right: Entry): Entry { left + right }

  predicate Evaluate(op: EvalType, a: Key, b: Key) {
    match op
    case EQ => a == b
    case NEQ => a != b
    case GT => a > b
    case GTE => a >= b
    case LT => a < b
    case LTE => a <= b
  }

  function ReverseOp(op: EvalType): EvalType {
    match op
    case GT => LT
    case LT => GT
    case GTE => LTE
    case LTE => GTE
    case _ => op
  }

  ghost predicate RelationOk(r: Relation) {
    forall e :: e in r.entries ==> forall t :: t in e <==> t in r.tables
  }

  ghost predicate Separate(r1: Relation, r2: Relation) {
    forall t :: t in r1.tables ==> t !in r2.tables
  }

  // ---------- What a join is ----------

  /** The condition: left column, operator, right column. */
  datatype Condition = Condition(left: Column, op: EvalType, right: Column)

  predicate Matches(c: Condition, entry: Entry) {
    Evaluate(c.op, GetField(entry, c.left), GetField(entry, c.right))
  }

  function Swapped(c: Condition): Condition { Condition(c.right, ReverseOp(c.op), c.left) }

  lemma SwappedMatches(c: Condition, entry: Entry)
    ensures Matches(Swapped(c), entry) <==> Matches(c, entry)
  {
  }

  function PairsOf(c: Condition, left: Entry, rights: seq<Entry>): seq<Entry> {
    if rights == [] then []
    else (if Matches(c, Combine(left, rights[0])) then [Combine(left, rights[0])] else []) + PairsOf(c, left, rights[1..])
  }

  /** The product of the entries, left by left, filtered by the condition. */
  function MatchingPairs(c: Condition, lefts: seq<Entry>, rights: seq<Entry>): seq<Entry> {
    if lefts == [] then [] else PairsOf(c, lefts[0], rights) + MatchingPairs(c, lefts[1..], rights)
  }

  lemma {:induction false} PairsOfConcat(c: Condition, left: Entry, rights: seq<Entry>, more: seq<Entry>)
    ensures PairsOf(c, left, rights + more) == PairsOf(c, left, rights) + PairsOf(c, left, more)
  {
    hide Matches, Combine;
    if rights == [] {
      assert rights + more == more;
    } else {
      PairsOfConcat(c, left, rights[1..], more);
      assert (rights + more)[1..] == rights[1..] + more;
      var head := if Matches(c, Combine(left, rights[0])) then [Combine(left, rights[0])] else [];
      assert head + (PairsOf(c, left, rights[1..]) + PairsOf(c, left, more)) == head + PairsOf(c, left, rights[1..]) + PairsOf(c, left, more);
    }
  }

  lemma PairsOfPush(c: Condition, left: Entry, rights: seq<Entry>, j: nat)
    requires j < |rights|
    ensures PairsOf(c, left, rights[..j + 1]) == PairsOf(c, left, rights[..j]) + (if Matches(c, Combine(left, rights[j])) then [Combine(left, rights[j])] else [])
  {
    hide Matches, Combine;
    PairsOfConcat(c, left, rights[..j], [rights[j]]);
    assert rights[..j + 1] == rights[..j] + [rights[j]];
    var one := [rights[j]];
    assert one[1..] == [] && PairsOf(c, left, []) == [];
  }

  lemma PairsPush(c: Condition, lefts: seq<Entry>, i: nat, rights: seq<Entry>)
    requires i < |lefts|
    ensures MatchingPairs(c, lefts[..i + 1], rights) == MatchingPairs(c, lefts[..i], rights) + PairsOf(c, lefts[i], rights)
  {
    hide PairsOf;
    PairsConcat(c, lefts[..i], [lefts[i]], rights);
    assert lefts[..i + 1] == lefts[..i] + [lefts[i]];
    var one := [lefts[i]];
    assert one[1..] == [] && MatchingPairs(c, [], rights) == [];
  }

  lemma {:induction false} PairsConcat(c: Condition, lefts: seq<Entry>, more: seq<Entry>, rights: seq<Entry>)
    ensures MatchingPairs(c, lefts + more, rights) == MatchingPairs(c, lefts, rights) + MatchingPairs(c, more, rights)
  {
    hide PairsOf;
    if lefts == [] {
      assert lefts + more == more;
    } else {
      PairsConcat(c, lefts[1..], more, rights);
      assert (lefts + more)[1..] == lefts[1..] + more;
    }
  }

  lemma {:induction false} PairsSplit(c: Condition, lefts: seq<Entry>, rights: seq<Entry>, more: seq<Entry>)
    ensures multiset(MatchingPairs(c, lefts, rights + more)) == multiset(MatchingPairs(c, lefts, rights)) + multiset(MatchingPairs(c, lefts, more))
  {
    hide PairsOf;
    if lefts != [] {
      PairsSplit(c, lefts[1..], rights, more);
      PairsOfConcat(c, lefts[0], rights, more);
    }
  }

  lemma {:induction false} PairsNone(c: Condition, lefts: seq<Entry>)
    ensures MatchingPairs(c, lefts, []) == []
  {
    if lefts != [] { PairsNone(c, lefts[1..]); }
  }

  lemma {:induction false} PairsOne(c: Condition, lefts: seq<Entry>, right: Entry)
    requires forall l :: l in lefts ==> l.Keys !! right.Keys
    ensures MatchingPairs(c, lefts, [right]) == PairsOf(c, right, lefts)
  {
    hide Matches;
    if lefts != [] {
      PairsOne(c, lefts[1..], right);
      assert lefts[0] in lefts && Combine(lefts[0], right) == Combine(right, lefts[0]);
      assert [right][1..] == [] && PairsOf(c, lefts[0], []) == [];
    }
  }

  /** Which side is called left only affects the order. */
  lemma {:induction false} PairsCommute(c: Condition, lefts: seq<Entry>, rights: seq<Entry>)
    requires forall l, r :: l in lefts && r in rights ==> l.Keys !! r.Keys
    ensures multiset(MatchingPairs(c, lefts, rights)) == multiset(MatchingPairs(c, rights, lefts))
    decreases |rights|
  {
    if rights == [] {
      PairsNone(c, lefts);
    } else {
      hide PairsOf;
      assert rights[0] in rights;
      PairsCommute(c, lefts, rights[1..]);
      PairsOne(c, lefts, rights[0]);
      PairsSplit(c, lefts, [rights[0]], rights[1..]);
      assert [rights[0]] + rights[1..] == rights;
    }
  }

  lemma {:induction false} SwappedPairs(c: Condition, lefts: seq<Entry>, rights: seq<Entry>)
    ensures MatchingPairs(Swapped(c), lefts, rights) == MatchingPairs(c, lefts, rights)
  {
    if lefts != [] {
      SwappedPairs(c, lefts[1..], rights);
      SwappedPairsOf(c, lefts[0], rights);
    }
  }

  lemma {:induction false} SwappedPairsOf(c: Condition, left: Entry, rights: seq<Entry>)
    ensures PairsOf(Swapped(c), left, rights) == PairsOf(c, left, rights)
  {
    if rights != [] {
      SwappedPairsOf(c, left, rights[1..]);
      SwappedMatches(c, Combine(left, rights[0]));
    }
  }

  lemma FieldsApart(c: Condition, l: Entry, r: Entry)
    requires l.Keys !! r.Keys && c.left.table in l && c.right.table in r
    ensures Matches(c, Combine(l, r)) <==> Evaluate(c.op, GetField(l, c.left), GetField(r, c.right))
    ensures Combine(r, l) == Combine(l, r)
  {
  }

  // ---------- Entries with a given key ----------

  function WithField(entries: seq<Entry>, column: Column, key: Key): seq<Entry> {
    if entries == [] then []
    else (if GetField(entries[0], column) == key then [entries[0]] else []) + WithField(entries[1..], column, key)
  }

  lemma {:induction false} WithFieldPush(entries: seq<Entry>, column: Column, key: Key, i: nat)
    requires i < |entries|
    ensures WithField(entries[..i + 1], column, key)
         == WithField(entries[..i], column, key) + (if GetField(entries[i], column) == key then [entries[i]] else [])
    decreases i
  {
    hide GetField;
    if i > 0 {
      WithFieldPush(entries[1..], column, key, i - 1);
      assert entries[..i + 1][1..] == entries[1..][..i] && entries[..i][1..] == entries[1..][..i - 1];
    } else {
      assert entries[..1][1..] == [] && entries[..0] == [];
    }
  }

  function CombineAll(entry: Entry, inner: seq<Entry>): seq<Entry> {
    seq(|inner|, i requires 0 <= i < |inner| => Combine(entry, inner[i]))
  }

  /** For equality, the partners of an entry are the entries with its key. */
  lemma CombineFirst(entry: Entry, first: Entry, rest: seq<Entry>)
    ensures CombineAll(entry, [first] + rest) == [Combine(entry, first)] + CombineAll(entry, rest)
    ensures [] + rest == rest
  {
  }

  lemma FitOne(c: Condition, inner: seq<Entry>, entry: Entry)
    requires inner != [] && Fit(c, inner, [entry])
    ensures inner[0].Keys !! entry.Keys && c.left.table in inner[0] && c.right.table in entry
  {
    assert inner[0] in inner && entry in [entry];
  }

  lemma {:induction false} PartnersHaveKey(c: Condition, entry: Entry, inner: seq<Entry>)
    requires c.op == EQ && Fit(c, inner, [entry])
    ensures PairsOf(c, entry, inner) == CombineAll(entry, WithField(inner, c.left, GetField(entry, c.right)))
  {
    if inner == [] {
      EmptyBucket(entry);
    } else {
      hide GetField, Combine, Matches, Fit, CombineAll;
      FitOne(c, inner, entry);
      assert inner[0] in inner && entry in [entry];
      FitPart(c, inner, inner[1..], [entry], [entry]);
      PartnersHaveKey(c, entry, inner[1..]);
      FieldsApart(c, inner[0], entry);
      CombineFirst(entry, inner[0], WithField(inner[1..], c.left, GetField(entry, c.right)));
    }
  }

  // ---------- The algorithms ----------

  const BLOCK_SIZE_EXPONENT := 8
  const BLOCK_SIZE := 256

  class JoinPredicate {
    var leftColumn: Column
    var rightColumn: Column
    var evaluatorType: EvalType

    ghost function Meaning(): Condition
      reads this
    {
      Condition(leftColumn, evaluatorType, rightColumn)
    }

    /** One column from each relation. */
    ghost predicate Applies(r1: Relation, r2: Relation)
      reads this
    {
      && RelationOk(r1) && RelationOk(r2) && Separate(r1, r2)
      && ((leftColumn.table in r1.tables && rightColumn.table in r2.tables)
          || (leftColumn.table in r2.tables && rightColumn.table in r1.tables))
    }

    constructor (leftColumn: Column, evaluatorType: EvalType, rightColumn: Column)
      ensures Meaning() == Condition(leftColumn, evaluatorType, rightColumn)
    {
      this.leftColumn, this.evaluatorType, this.rightColumn := leftColumn, evaluatorType, rightColumn;
    }

    method ReverseSelf()
      modifies this
      ensures Meaning() == Swapped(old(Meaning()))
    {
      leftColumn, rightColumn := rightColumn, leftColumn;
      match evaluatorType
      case GT => evaluatorType := LT;
      case LT => evaluatorType := GT;
      case GTE => evaluatorType := LTE;
      case LTE => evaluatorType := GTE;
      case _ => return;
    }

    /** The smaller relation comes first, and the predicate is turned to fit. */
    method DetectLeftRight(relation1: Relation, relation2: Relation) returns (left: Relation, right: Relation)
      requires Applies(relation1, relation2)
      modifies this
      ensures (left == relation1 && right == relation2) || (left == relation2 && right == relation1)
      ensures leftColumn.table in left.tables && rightColumn.table in right.tables
      ensures |left.entries| <= |right.entries|
      ensures Meaning() == old(Meaning()) || Meaning() == Swapped(old(Meaning()))
    {
      if leftColumn.table in relation1.tables {
        left, right := relation1, relation2;
      } else {
        left, right := relation2, relation1;
      }
      if |left.entries| > |right.entries| {
        ReverseSelf();
        left, right := right, left;
      }
    }

    /** The right relation is taken in blocks; every entry of the left one meets every block. */
    method NestedLoopJoin(relation1: Relation, relation2: Relation) returns (result: Relation)
      requires Applies(relation1, relation2)
      modifies this
      ensures multiset(result.entries) == multiset(MatchingPairs(old(Meaning()), relation1.entries, relation2.entries))
      ensures forall e :: e in result.entries <==> Joining(old(Meaning()), relation1.entries, relation2.entries, e)
      ensures RelationOk(result) && forall t :: t in result.tables <==> t in relation1.tables || t in relation2.tables
    {
      hide MatchingPairs, Fit;
      var left, right := DetectLeftRight(relation1, relation2);
      ghost var c := Meaning();
      DetectedFit(c, left, right);
      var combinedEntries := [];
      var blockCount := (|right.entries| + BLOCK_SIZE - 1) / BLOCK_SIZE;
      var currentBlock := 0;
      PairsNone(c, left.entries);
      while currentBlock < blockCount
        invariant 0 <= currentBlock <= blockCount && Meaning() == c
        invariant multiset(combinedEntries) == multiset(MatchingPairs(c, left.entries, right.entries[..Min(currentBlock * BLOCK_SIZE, |right.entries|)]))
      {
        var from, limit := currentBlock * BLOCK_SIZE, Min((currentBlock + 1) * BLOCK_SIZE, |right.entries|);
        FitPart(c, left.entries, left.entries, right.entries, right.entries[from..limit]);
        var block := JoinBlock(left.entries, right.entries[from..limit]);
        PairsSplit(c, left.entries, right.entries[..from], right.entries[from..limit]);
        SlicesMeet(right.entries, from, limit);
        combinedEntries := combinedEntries + block;
        currentBlock := currentBlock + 1;
      }
      assert right.entries[..|right.entries|] == right.entries;
      result := Relation(combinedEntries, left.tables + right.tables);
      JoinedEitherWay(old(Meaning()), c, relation1, relation2, left, right, result);
    }

    /** The smaller relation is sorted into buckets by key, and the entries of the other look there. */
    method HashJoin(relation1: Relation, relation2: Relation) returns (result: Relation)
      requires Applies(relation1, relation2) && evaluatorType == EQ
      modifies this
      ensures multiset(result.entries) == multiset(MatchingPairs(old(Meaning()), relation1.entries, relation2.entries))
      ensures forall e :: e in result.entries <==> Joining(old(Meaning()), relation1.entries, relation2.entries, e)
      ensures RelationOk(result) && forall t :: t in result.tables <==> t in relation1.tables || t in relation2.tables
    {
      hide MatchingPairs, Fit, GetField, CombineAll, PairsOf, Combine, WithField, Bucketed;
      var left, right := DetectLeftRight(relation1, relation2);
      ghost var c := Meaning();
      DetectedFit(c, left, right);
      var buckets := FillBuckets(left.entries, leftColumn);
      var combinedEntries := [];
      NoPairs(c, left.entries);
      for i := 0 to |right.entries|
        invariant combinedEntries == MatchingPairs(c, right.entries[..i], left.entries) && Meaning() == c
      {
        var entry := right.entries[i];
        var key := GetField(entry, rightColumn);
        FitPart(c, left.entries, left.entries, right.entries, [entry]);
        PartnersHaveKey(c, entry, left.entries);
        PairsPush(c, right.entries, i, left.entries);
        KeyBucket(buckets, left.entries, c.left, key);
        combinedEntries := combinedEntries + if key in buckets then CombineAll(entry, buckets[key]) else [];
        EmptyBucket(entry);
      }
      assert right.entries[..|right.entries|] == right.entries;
      result := Relation(combinedEntries, left.tables + right.tables);
      JoinedEitherWay(old(Meaning()), c, relation1, relation2, right, left, result);
    }

    method FillBuckets(entries: seq<Entry>, column: Column) returns (buckets: map<Key, seq<Entry>>)
      ensures Bucketed(buckets, entries, column)
    {
      hide GetField;
      buckets := map[];
      for i := 0 to |entries|
        invariant Bucketed(buckets, entries[..i], column)
      {
        var key := GetField(entries[i], column);
        forall k ensures WithField(entries[..i + 1], column, k)
            == WithField(entries[..i], column, k) + (if key == k then [entries[i]] else []) {
          WithFieldPush(entries, column, k, i);
        }
        ghost var before := buckets;
        buckets := buckets[key := Bucket(buckets, key) + [entries[i]]];
        forall k ensures Bucket(buckets, k) == WithField(entries[..i + 1], column, k) {
          assert Bucket(buckets, k) == Bucket(before, k) + (if key == k then [entries[i]] else []);
        }
      }
      assert entries[..|entries|] == entries;
    }

    /** The rows of the indexed table are looked up by the key of each entry of the other relation. The
        ghost parameter lists the table's rows in some order. */
    method IndexNestedLoopJoin(relation1: Relation, relation2: Relation, info: IndexJoinInfo, cache: map<RowId, map<nat, Key>>, ghost listing: seq<RowId>)
      returns (result: Relation)
      requires Applies(relation1, relation2) && evaluatorType == EQ
      requires (info.indexedColumn == leftColumn && info.nonIndexedColumn == rightColumn)
        || (info.indexedColumn == rightColumn && info.nonIndexedColumn == leftColumn)
      requires IndexAgrees(info, cache) && ListsAll(listing, cache)
      requires (if info.indexedColumn.table in relation1.tables then relation1 else relation2).tables == [info.indexedColumn.table]
      ensures var rows := EntriesOf(info.indexedColumn.table, cache, listing);
        if info.indexedColumn.table in relation1.tables
        then multiset(result.entries) == multiset(MatchingPairs(Meaning(), rows, relation2.entries))
        else multiset(result.entries) == multiset(MatchingPairs(Meaning(), relation1.entries, rows))
      ensures var rows := EntriesOf(info.indexedColumn.table, cache, listing);
        forall e :: e in result.entries <==>
          if info.indexedColumn.table in relation1.tables then Joining(Meaning(), rows, relation2.entries, e) else Joining(Meaning(), relation1.entries, rows, e)
      ensures RelationOk(result) && forall t :: t in result.tables <==> t in relation1.tables || t in relation2.tables
    {
      hide MatchingPairs, Fit, PairsOf, GetField;
      var indexedTable := info.indexedColumn.table;
      var outer, inner := relation1, relation2;
      if indexedTable in relation1.tables { outer, inner := relation2, relation1; }
      ghost var c := if info.indexedColumn == leftColumn then Meaning() else Swapped(Meaning());
      ghost var rows := EntriesOf(indexedTable, cache, listing);
      IndexFit(c, info, cache, listing, outer);
      var combinedEntries := [];
      NoPairs(c, rows);
      for i := 0 to |outer.entries|
        invariant multiset(combinedEntries) == multiset(MatchingPairs(c, outer.entries[..i], rows))
      {
        var entry := outer.entries[i];
        PairsPush(c, outer.entries, i, rows);
        FitPart(c, rows, rows, outer.entries, [entry]);
        var found := Lookup(info, cache, entry, c, listing);
        combinedEntries := combinedEntries + found;
      }
      assert outer.entries[..|outer.entries|] == outer.entries;
      result := Relation(combinedEntries, outer.tables + inner.tables);
      IndexJoined(c, Meaning(), outer, rows, inner, result);
    }

    method Lookup(info: IndexJoinInfo, cache: map<RowId, map<nat, Key>>, entry: Entry, ghost c: Condition, ghost listing: seq<RowId>) returns (found: seq<Entry>)
      requires IndexAgrees(info, cache) && ListsAll(listing, cache)
      requires c.op == EQ && c.left == info.indexedColumn && c.right == info.nonIndexedColumn
      requires Fit(c, EntriesOf(info.indexedColumn.table, cache, listing), [entry])
      ensures multiset(found) == multiset(PairsOf(c, entry, EntriesOf(info.indexedColumn.table, cache, listing)))
    {
      hide Fit, PairsOf;
      var key := GetField(entry, info.nonIndexedColumn);
      var ids := if key in info.index then info.index[key] else {};
      var matchingRowIds := Sets.InSomeOrder(ids);
      LookupFinds(info, cache, entry, c, listing, matchingRowIds);
      if |matchingRowIds| == 0 {
        found := [];
      } else if info.isUnique {
        var all := EntriesOf(info.indexedColumn.table, cache, matchingRowIds);
        assert CombineAll(entry, all) == [Combine(entry, all[0])];
        found := [Combine(entry, EntryOf(info.indexedColumn.table, cache[matchingRowIds[0]]))];
      } else {
        found := CombineAll(entry, EntriesOf(info.indexedColumn.table, cache, matchingRowIds));
      }
    }

    /** One block of the right relation. */
    method JoinBlock(lefts: seq<Entry>, block: seq<Entry>) returns (combined: seq<Entry>)
      requires Fit(Meaning(), lefts, block)
      ensures combined == MatchingPairs(Meaning(), lefts, block)
    {
      hide MatchingPairs, Fit;
      combined := [];
      NoPairs(Meaning(), block);
      for i := 0 to |lefts|
        invariant combined == MatchingPairs(Meaning(), lefts[..i], block)
      {
        assert lefts[i] in lefts;
        FitPart(Meaning(), lefts, [lefts[i]], block, block);
        var pairs := JoinEntry(lefts[i], block);
        PairsPush(Meaning(), lefts, i, block);
        combined := combined + pairs;
      }
      assert lefts[..|lefts|] == lefts;
    }

    method JoinEntry(left: Entry, block: seq<Entry>) returns (combined: seq<Entry>)
      requires Fit(Meaning(), [left], block)
      ensures combined == PairsOf(Meaning(), left, block)
    {
      hide PairsOf, Matches, Combine, GetField;
      combined := [];
      ghost var c := Meaning();
      NoPairsOf(c, left);
      var leftValue := GetField(left, leftColumn);
      for j := 0 to |block|
        invariant combined == PairsOf(c, left, block[..j])
      {
        assert block[j] in block && left in [left];
        FieldsApart(c, left, block[j]);
        PairsOfPush(c, left, block, j);
        if Evaluate(evaluatorType, leftValue, GetField(block[j], rightColumn)) {
          combined := combined + [Combine(left, block[j])];
        }
      }
      assert block[..|block|] == block;
    }
  }

  /** The entries come from different tables, and the columns from the side they are meant for. */
  ghost predicate Fit(c: Condition, lefts: seq<Entry>, rights: seq<Entry>) {
    forall l, r :: l in lefts && r in rights ==> l.Keys !! r.Keys && c.left.table in l && c.right.table in r
  }

  lemma FitPart(c: Condition, lefts: seq<Entry>, lefts': seq<Entry>, rights: seq<Entry>, rights': seq<Entry>)
    requires Fit(c, lefts, rights) && (forall l :: l in lefts' ==> l in lefts) && (forall r :: r in rights' ==> r in rights)
    ensures Fit(c, lefts', rights')
  {
  }

  lemma DetectedFit(c: Condition, left: Relation, right: Relation)
    requires RelationOk(left) && RelationOk(right) && (Separate(left, right) || Separate(right, left))
    requires c.left.table in left.tables && c.right.table in right.tables
    ensures Fit(c, left.entries, right.entries)
  {
  }

  lemma NoPairs(c: Condition, rights: seq<Entry>)
    ensures MatchingPairs(c, [], rights) == []
  {
  }

  lemma NoPairsOf(c: Condition, left: Entry)
    ensures PairsOf(c, left, []) == []
  {
  }

  function Bucket(buckets: map<Key, seq<Entry>>, key: Key): seq<Entry> {
    if key in buckets then buckets[key] else []
  }

  ghost predicate Bucketed(buckets: map<Key, seq<Entry>>, entries: seq<Entry>, column: Column) {
    forall key :: Bucket(buckets, key) == WithField(entries, column, key)
  }

  lemma KeyBucket(buckets: map<Key, seq<Entry>>, entries: seq<Entry>, column: Column, key: Key)
    requires Bucketed(buckets, entries, column)
    ensures Bucket(buckets, key) == WithField(entries, column, key)
  {
  }

  lemma SlicesMeet<T>(xs: seq<T>, from: nat, limit: nat)
    requires from <= limit <= |xs|
    ensures xs[..from] + xs[from..limit] == xs[..limit]
  {
  }

  lemma EmptyBucket(entry: Entry)
    ensures CombineAll(entry, []) == []
  {
  }

  // ---------- Rows from an index ----------

  datatype IndexJoinInfo = IndexJoinInfo(indexedColumn: Column, nonIndexedColumn: Column, index: map<Key, set<RowId>>, isUnique: bool)

  function EntryOf(table: TableName, row: map<nat, Key>): Entry { map[table := row] }

  /** Each row once. */
  ghost predicate ListsAll(listing: seq<RowId>, cache: map<RowId, map<nat, Key>>) {
    && NoRepeats(listing)
    && (forall i :: 0 <= i < |listing| ==> listing[i] in cache)
    && forall id :: id in cache ==> id in listing
  }

  function EntriesOf(table: TableName, cache: map<RowId, map<nat, Key>>, ids: seq<RowId>): (entries: seq<Entry>)
    requires forall i :: 0 <= i < |ids| ==> ids[i] in cache
    ensures |entries| == |ids| && forall i :: 0 <= i < |ids| ==> entries[i] == EntryOf(table, cache[ids[i]])
  {
    seq(|ids|, i requires 0 <= i < |ids| => EntryOf(table, cache[ids[i]]))
  }

  ghost predicate IndexAgrees(info: IndexJoinInfo, cache: map<RowId, map<nat, Key>>) {
    && (forall key, id :: (key in info.index && id in info.index[key]) <==>
         (id in cache && GetField(EntryOf(info.indexedColumn.table, cache[id]), info.indexedColumn) == key))
    && (info.isUnique ==> forall key, a, b :: key in info.index && a in info.index[key] && b in info.index[key] ==> a == b)
  }

  lemma IndexFit(c: Condition, info: IndexJoinInfo, cache: map<RowId, map<nat, Key>>, listing: seq<RowId>, outer: Relation)
    requires ListsAll(listing, cache)
    requires RelationOk(outer) && info.indexedColumn.table !in outer.tables
    requires c.left == info.indexedColumn && c.right.table in outer.tables
    ensures Fit(c, EntriesOf(info.indexedColumn.table, cache, listing), outer.entries)
  {
  }

  function KeepOne(entry: Entry, table: TableName, cache: map<RowId, map<nat, Key>>): RowId -> seq<Entry> {
    (id: RowId) => if id in cache then [Combine(entry, EntryOf(table, cache[id]))] else []
  }

  lemma {:induction false} CombinedIsConcatMap(entry: Entry, table: TableName, cache: map<RowId, map<nat, Key>>, ids: seq<RowId>)
    requires forall i :: 0 <= i < |ids| ==> ids[i] in cache
    ensures CombineAll(entry, EntriesOf(table, cache, ids)) == ConcatMap(KeepOne(entry, table, cache), ids)
  {
    if ids != [] {
      hide Combine;
      CombinedIsConcatMap(entry, table, cache, ids[1..]);
      var entries := EntriesOf(table, cache, ids);
      assert entries[1..] == EntriesOf(table, cache, ids[1..]);
      assert CombineAll(entry, entries) == [Combine(entry, entries[0])] + CombineAll(entry, entries[1..]);
      assert KeepOne(entry, table, cache)(ids[0]) == [Combine(entry, entries[0])];
    }
  }

  function WithKey(info: IndexJoinInfo, cache: map<RowId, map<nat, Key>>, ids: seq<RowId>, key: Key): seq<RowId>
    requires forall i :: 0 <= i < |ids| ==> ids[i] in cache
  {
    if ids == [] then []
    else (if GetField(EntryOf(info.indexedColumn.table, cache[ids[0]]), info.indexedColumn) == key then [ids[0]] else []) + WithKey(info, cache, ids[1..], key)
  }

  lemma {:induction false} WithKeyMembers(info: IndexJoinInfo, cache: map<RowId, map<nat, Key>>, ids: seq<RowId>, key: Key)
    requires NoRepeats(ids) && forall i :: 0 <= i < |ids| ==> ids[i] in cache
    ensures NoRepeats(WithKey(info, cache, ids, key)) && forall i :: 0 <= i < |WithKey(info, cache, ids, key)| ==> WithKey(info, cache, ids, key)[i] in cache
    ensures forall id :: id in WithKey(info, cache, ids, key) <==>
      id in ids && GetField(EntryOf(info.indexedColumn.table, cache[id]), info.indexedColumn) == key
  {
    if ids != [] {
      hide GetField;
      var rest := WithKey(info, cache, ids[1..], key);
      WithKeyMembers(info, cache, ids[1..], key);
      assert forall y :: y in rest ==> y in ids[1..];
      FirstNotAgain(ids, rest);
    }
  }

  lemma {:induction false} WithKeyEntries(info: IndexJoinInfo, cache: map<RowId, map<nat, Key>>, ids: seq<RowId>, key: Key)
    requires forall i :: 0 <= i < |ids| ==> ids[i] in cache
    ensures forall i :: 0 <= i < |WithKey(info, cache, ids, key)| ==> WithKey(info, cache, ids, key)[i] in cache
    ensures EntriesOf(info.indexedColumn.table, cache, WithKey(info, cache, ids, key))
         == WithField(EntriesOf(info.indexedColumn.table, cache, ids), info.indexedColumn, key)
  {
    if ids != [] {
      hide GetField;
      var table := info.indexedColumn.table;
      var rest := WithKey(info, cache, ids[1..], key);
      WithKeyEntries(info, cache, ids[1..], key);
      var entries := EntriesOf(table, cache, ids);
      assert entries[1..] == EntriesOf(table, cache, ids[1..]);
      assert EntriesOf(table, cache, [ids[0]] + rest) == [entries[0]] + EntriesOf(table, cache, rest);
    }
  }

  lemma FirstNotAgain<T>(xs: seq<T>, ys: seq<T>)
    requires xs != [] && NoRepeats(xs) && NoRepeats(ys) && forall y :: y in ys ==> y in xs[1..]
    ensures NoRepeats([xs[0]] + ys)
  {
    forall j | 0 <= j < |ys| ensures ys[j] != xs[0] { assert ys[j] in xs[1..]; }
  }

  lemma KeptIsFound(info: IndexJoinInfo, cache: map<RowId, map<nat, Key>>, key: Key, listing: seq<RowId>, found: seq<RowId>, kept: seq<RowId>)
    requires IndexAgrees(info, cache) && ListsAll(listing, cache) && NoRepeats(found) && kept == WithKey(info, cache, listing, key)
    requires forall id :: id in found <==> key in info.index && id in info.index[key]
    ensures NoRepeats(kept) && (forall id :: id in kept <==> id in found)
    ensures (forall i :: 0 <= i < |kept| ==> kept[i] in cache) && (forall i :: 0 <= i < |found| ==> found[i] in cache)
    ensures EntriesOf(info.indexedColumn.table, cache, kept) == WithField(EntriesOf(info.indexedColumn.table, cache, listing), info.indexedColumn, key)
    ensures info.isUnique ==> |found| <= 1
  {
    hide GetField;
    WithKeyMembers(info, cache, listing, key);
    WithKeyEntries(info, cache, listing, key);
    assert forall i :: 0 <= i < |found| ==> found[i] in found;
    assert |found| >= 2 ==> found[0] in found && found[1] in found && found[0] != found[1];
  }

  lemma LookupFinds(info: IndexJoinInfo, cache: map<RowId, map<nat, Key>>, entry: Entry, c: Condition, listing: seq<RowId>, found: seq<RowId>)
    requires IndexAgrees(info, cache) && ListsAll(listing, cache)
    requires c.op == EQ && c.left == info.indexedColumn && c.right == info.nonIndexedColumn
    requires Fit(c, EntriesOf(info.indexedColumn.table, cache, listing), [entry])
    requires var key := GetField(entry, info.nonIndexedColumn);
      forall id :: id in found <==> key in info.index && id in info.index[key]
    requires NoRepeats(found)
    ensures forall i :: 0 <= i < |found| ==> found[i] in cache
    ensures info.isUnique ==> |found| <= 1
    ensures multiset(CombineAll(entry, EntriesOf(info.indexedColumn.table, cache, found)))
         == multiset(PairsOf(c, entry, EntriesOf(info.indexedColumn.table, cache, listing)))
  {
    var key := GetField(entry, info.nonIndexedColumn);
    var table := info.indexedColumn.table;
    assert forall i :: 0 <= i < |found| ==> found[i] in found;
    hide GetField, Combine, Fit, PairsOf, WithField;
    var kept := WithKey(info, cache, listing, key);
    KeptIsFound(info, cache, key, listing, found, kept);
    forall k ensures k in kept <==> k in found { assert k in kept <==> k in found; }
    SameMembersSameCounts(kept, found);
    PartnersHaveKey(c, entry, EntriesOf(table, cache, listing));
    CombinedIsConcatMap(entry, table, cache, kept);
    CombinedIsConcatMap(entry, table, cache, found);
    Reordered(KeepOne(entry, table, cache), kept, found);
  }

  /** The join of the outer relation and the rows, whichever side they were on. */
  lemma IndexJoined(c: Condition, meaning: Condition, outer: Relation, rows: seq<Entry>, inner: Relation, result: Relation)
    requires RelationOk(outer) && Separate(outer, inner) && RelationOk(Relation(rows, inner.tables))
    requires c == meaning || c == Swapped(meaning)
    requires multiset(result.entries) == multiset(MatchingPairs(c, outer.entries, rows)) && result.tables == outer.tables + inner.tables
    ensures multiset(result.entries) == multiset(MatchingPairs(meaning, outer.entries, rows))
    ensures multiset(result.entries) == multiset(MatchingPairs(meaning, rows, outer.entries))
    ensures forall e :: e in result.entries <==> Joining(meaning, outer.entries, rows, e)
    ensures forall e :: e in result.entries <==> Joining(meaning, rows, outer.entries, e)
    ensures RelationOk(result)
  {
    var all := Relation(rows, inner.tables);
    JoinedEitherWay(meaning, c, outer, all, outer, all, result);
    PairsCommute(meaning, outer.entries, rows);
    JoinedEntries(meaning, rows, outer.entries, result.entries);
  }

  function Min(x: nat, y: nat): nat { if x < y then x else y }

  /** What was computed for the detected sides is the join of the given relations. */
  lemma JoinedEitherWay(c: Condition, c': Condition, r1: Relation, r2: Relation, left: Relation, right: Relation, result: Relation)
    requires RelationOk(r1) && RelationOk(r2) && Separate(r1, r2)
    requires (left == r1 && right == r2) || (left == r2 && right == r1)
    requires c' == c || c' == Swapped(c)
    requires multiset(result.entries) == multiset(MatchingPairs(c', left.entries, right.entries)) && forall t :: t in result.tables <==> t in left.tables || t in right.tables
    ensures multiset(result.entries) == multiset(MatchingPairs(c, r1.entries, r2.entries))
    ensures RelationOk(result) && forall t :: t in result.tables <==> t in r1.tables || t in r2.tables
    ensures forall e :: e in result.entries <==> Joining(c, r1.entries, r2.entries, e)
  {
    SwappedPairs(c, left.entries, right.entries);
    PairsCommute(c, left.entries, right.entries);
    forall e | e in result.entries ensures forall t :: t in e <==> t in result.tables {
      assert e in multiset(MatchingPairs(c, left.entries, right.entries));
      PairsAreCombined(c, left.entries, right.entries, e);
    }
    JoinedEntries(c, r1.entries, r2.entries, result.entries);
  }

  // ---------- What the matching pairs are ----------

  /** The six comparisons. */
  ghost predicate Stand(op: EvalType, a: Key, b: Key) {
    (op == LT && a < b) || (op == LTE && a <= b) || (op == GT && a > b) || (op == GTE && a >= b)
    || (op == EQ && a == b) || (op == NEQ && a != b)
  }

  /** The values of the two columns stand in the relation; a value that is missing counts as 0. */
  ghost predicate Related(c: Condition, e: Entry) {
    var left, right := if c.left.table in e then e[c.left.table] else map[], if c.right.table in e then e[c.right.table] else map[];
    Stand(c.op, if c.left.position in left then left[c.left.position] else 0,
                if c.right.position in right then right[c.right.position] else 0)
  }

  /** Some left and some right entry make up e, and its values are related. */
  ghost predicate Joining(c: Condition, lefts: seq<Entry>, rights: seq<Entry>, e: Entry) {
    (exists l, r :: l in lefts && r in rights && e == l + r) && Related(c, e)
  }

  /** at lists, in order, the positions of all pairs of entries whose values stand in the relation. */
  ghost predicate ListsPairs(c: Condition, lefts: seq<Entry>, rights: seq<Entry>, pairs: seq<Entry>, at: seq<(nat, nat)>) {
    && |at| == |pairs|
    && (forall k :: 0 <= k < |at| ==> at[k].0 < |lefts| && at[k].1 < |rights| && pairs[k] == lefts[at[k].0] + rights[at[k].1])
    && (forall k, m :: 0 <= k < m < |at| ==> at[k].0 < at[m].0 || (at[k].0 == at[m].0 && at[k].1 < at[m].1))
    && forall i, j :: 0 <= i < |lefts| && 0 <= j < |rights| ==>
         ((i, j) in at <==> Related(c, lefts[i] + rights[j]))
  }

  /** Every matching pair of positions comes once, and no other. */
  lemma {:induction false} PairsAreListed(c: Condition, lefts: seq<Entry>, rights: seq<Entry>) returns (at: seq<(nat, nat)>)
    ensures ListsPairs(c, lefts, rights, MatchingPairs(c, lefts, rights), at)
  {
    if lefts == [] {
      at := [];
    } else {
      var js := PairsOfAreListed(c, lefts[0], rights);
      var more := PairsAreListed(c, lefts[1..], rights);
      at := FirstRow(js) + Shifted(more);
      RowsListed(c, lefts, rights, js, more);
    }
  }

  function FirstRow(js: seq<nat>): (at: seq<(nat, nat)>)
    ensures |at| == |js| && forall k :: 0 <= k < |js| ==> at[k] == (0, js[k])
  {
    seq(|js|, k requires 0 <= k < |js| => (0, js[k]))
  }

  function Shifted(more: seq<(nat, nat)>): (at: seq<(nat, nat)>)
    ensures |at| == |more| && forall k :: 0 <= k < |more| ==> at[k] == (more[k].0 + 1, more[k].1)
  {
    seq(|more|, k requires 0 <= k < |more| => (more[k].0 + 1, more[k].1))
  }

  /** js are the places below n that fit, in order, and es the items there. */
  ghost predicate Picks<E>(n: nat, fits: seq<bool>, items: seq<E>, es: seq<E>, js: seq<nat>)
    requires n <= |fits| == |items|
  {
    && |js| == |es|
    && (forall k :: 0 <= k < |js| ==> js[k] < n && es[k] == items[js[k]])
    && (forall k, m :: 0 <= k < m < |js| ==> js[k] < js[m])
    && forall j :: 0 <= j < n ==> (j in js <==> fits[j])
  }

  lemma PicksPush<E>(n: nat, fits: seq<bool>, items: seq<E>, es: seq<E>, js: seq<nat>)
    requires n < |fits| == |items| && Picks(n, fits, items, es, js)
    ensures if fits[n] then Picks(n + 1, fits, items, es + [items[n]], js + [n]) else Picks(n + 1, fits, items, es, js)
  {
    assert n !in js;
    assert forall j :: j in js + [n] <==> j in js || j == n;
  }

  ghost predicate ListsPartners(c: Condition, left: Entry, rights: seq<Entry>, js: seq<nat>) {
    Picks(|rights|, Fits(c, left, rights), CombineAll(left, rights), PairsOf(c, left, rights), js)
  }

  ghost function Fits(c: Condition, left: Entry, rights: seq<Entry>): (fits: seq<bool>)
    ensures |fits| == |rights| && forall j :: 0 <= j < |rights| ==> fits[j] == Related(c, left + rights[j])
  {
    seq(|rights|, j requires 0 <= j < |rights| => Related(c, left + rights[j]))
  }

  lemma PairsOfAreListed(c: Condition, left: Entry, rights: seq<Entry>) returns (js: seq<nat>)
    ensures ListsPartners(c, left, rights, js)
  {
    hide PairsOf, Picks, Related, Matches, Combine;
    var fits, items := Fits(c, left, rights), CombineAll(left, rights);
    js := [];
    NoPicks(fits, items);
    NoPairsOf(c, left);
    assert rights[..0] == [] && rights[..|rights|] == rights;
    for n := 0 to |rights|
      invariant Picks(n, fits, items, PairsOf(c, left, rights[..n]), js)
    {
      PairsOfPush(c, left, rights, n);
      MatchesIffJoins(c, left, rights[n]);
      PicksPush(n, fits, items, PairsOf(c, left, rights[..n]), js);
      var was := PairsOf(c, left, rights[..n]);
      assert was + [] == was;
      if fits[n] { js := js + [n]; }
    }
  }

  lemma NoPicks<E>(fits: seq<bool>, items: seq<E>)
    requires |fits| == |items|
    ensures Picks(0, fits, items, [], [])
  {
  }

  lemma MatchesIffJoins(c: Condition, l: Entry, r: Entry)
    ensures Matches(c, Combine(l, r)) <==> Related(c, l + r)
  {
  }

  lemma RowsListed(c: Condition, lefts: seq<Entry>, rights: seq<Entry>, js: seq<nat>, more: seq<(nat, nat)>)
    requires lefts != [] && ListsPartners(c, lefts[0], rights, js)
    requires ListsPairs(c, lefts[1..], rights, MatchingPairs(c, lefts[1..], rights), more)
    ensures ListsPairs(c, lefts, rights, MatchingPairs(c, lefts, rights), FirstRow(js) + Shifted(more))
  {
    hide Related, PairsOf, MatchingPairs;
    var tail, at := lefts[1..], FirstRow(js) + Shifted(more);
    var here, later := PairsOf(c, lefts[0], rights), MatchingPairs(c, tail, rights);
    FirstLeft(c, lefts, rights);
    RowsInOrder(js, more);
    forall k | 0 <= k < |at|
      ensures at[k].0 < |lefts| && at[k].1 < |rights| && (here + later)[k] == Combine(lefts[at[k].0], rights[at[k].1])
    {
      if k < |js| {
        assert at[k] == (0, js[k]) && (here + later)[k] == here[k];
      } else {
        var m := k - |js|;
        assert at[k] == (more[m].0 + 1, more[m].1) && (here + later)[k] == later[m] && lefts[at[k].0] == tail[more[m].0];
      }
    }
    forall i, j | 0 <= i < |lefts| && 0 <= j < |rights| ensures (i, j) in at <==> Related(c, lefts[i] + rights[j]) {
      PlaceListed(js, more, i, j);
      if i > 0 { assert lefts[i] == tail[i - 1] && ((i - 1, j) in more <==> Related(c, tail[i - 1] + rights[j])); }
    }
  }

  lemma RowsInOrder(js: seq<nat>, more: seq<(nat, nat)>)
    requires forall k, m :: 0 <= k < m < |js| ==> js[k] < js[m]
    requires forall k, m :: 0 <= k < m < |more| ==> more[k].0 < more[m].0 || (more[k].0 == more[m].0 && more[k].1 < more[m].1)
    ensures var at := FirstRow(js) + Shifted(more);
      forall k, m :: 0 <= k < m < |at| ==> at[k].0 < at[m].0 || (at[k].0 == at[m].0 && at[k].1 < at[m].1)
  {
    var first, rest := FirstRow(js), Shifted(more);
    var at := first + rest;
    forall k, m | 0 <= k < m < |at| ensures at[k].0 < at[m].0 || (at[k].0 == at[m].0 && at[k].1 < at[m].1) {
      if m < |js| {
        assert at[k] == first[k] && at[m] == first[m] && js[k] < js[m];
      } else if k < |js| {
        assert at[k] == first[k] && at[m] == rest[m - |js|];
      } else {
        assert at[k] == rest[k - |js|] && at[m] == rest[m - |js|];
      }
    }
  }

  lemma FirstLeft(c: Condition, lefts: seq<Entry>, rights: seq<Entry>)
    requires lefts != []
    ensures MatchingPairs(c, lefts, rights) == PairsOf(c, lefts[0], rights) + MatchingPairs(c, lefts[1..], rights)
  {
  }

  lemma PlaceListed(js: seq<nat>, more: seq<(nat, nat)>, i: nat, j: nat)
    ensures (i, j) in FirstRow(js) + Shifted(more) <==> (if i == 0 then j in js else (i - 1, j) in more)
  {
    var first, rest := FirstRow(js), Shifted(more);
    if i == 0 && j in js {
      var k :| 0 <= k < |js| && js[k] == j;
      assert first[k] == (i, j);
    }
    if i > 0 && (i - 1, j) in more {
      var k :| 0 <= k < |more| && more[k] == (i - 1, j);
      assert rest[k] == (i, j);
    }
    if (i, j) in first { var k :| 0 <= k < |first| && first[k] == (i, j); }
    if (i, j) in rest { var k :| 0 <= k < |rest| && rest[k] == (i, j); }
  }

  lemma PairsAreCombined(c: Condition, lefts: seq<Entry>, rights: seq<Entry>, e: Entry)
    ensures e in MatchingPairs(c, lefts, rights) <==> Joining(c, lefts, rights, e)
  {
    hide Related;
    var pairs := MatchingPairs(c, lefts, rights);
    var at := PairsAreListed(c, lefts, rights);
    if e in pairs {
      var k :| 0 <= k < |pairs| && pairs[k] == e;
      assert at[k] in at && at[k] == (at[k].0, at[k].1);
      assert lefts[at[k].0] in lefts && rights[at[k].1] in rights;
    }
    if Joining(c, lefts, rights, e) {
      var l, r :| l in lefts && r in rights && e == l + r;
      var i :| 0 <= i < |lefts| && lefts[i] == l;
      var j :| 0 <= j < |rights| && rights[j] == r;
      assert (i, j) in at;
      var k :| 0 <= k < |at| && at[k] == (i, j);
      assert pairs[k] == e;
    }
  }

  /** The join in any order. */
  lemma JoinedEntries(c: Condition, lefts: seq<Entry>, rights: seq<Entry>, entries: seq<Entry>)
    requires multiset(entries) == multiset(MatchingPairs(c, lefts, rights))
    ensures forall e :: e in entries <==> Joining(c, lefts, rights, e)
  {
    hide Joining;
    forall e ensures e in entries <==> Joining(c, lefts, rights, e) {
      assert e in entries <==> e in multiset(entries);
      assert e in MatchingPairs(c, lefts, rights) <==> e in multiset(MatchingPairs(c, lefts, rights));
      PairsAreCombined(c, lefts, rights, e);
    }
  }
}
