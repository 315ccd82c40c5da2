/** Scanning an index in place of filtering a whole table: predicates become key ranges. */
module IndexScan {
  import opened KeyRanges
  import opened SortedRows
  import opened BTreeStore
  import opened BTreeContents
  import opened BTreeScan
  import BTreeIndex

  // ---------- Predicates on one column ----------

  datatype Comparison = Between(low: int, high: int) | In(values: seq<int>) | Eq(value: int)
                      | Gt(value: int) | Gte(value: int) | Lt(value: int) | Lte(value: int)

  datatype ValuePredicate = ValuePredicate(comparison: Comparison, isComplement: bool)

  predicate Matches(c: Comparison, key: int) {
    match c
    case Between(low, high) => key >= low && key <= high
    case In(values) => key in values
    case Eq(value) => key == value
    case Gt(value) => key > value
    case Gte(value) => key >= value
    case Lt(value) => key < value
    case Lte(value) => key <= value
  }

  /** eval() on a row whose column holds the key. */
  predicate Holds(p: ValuePredicate, key: int) { Matches(p.comparison, key) != p.isComplement }

  /** A value predicate, or an OR of value predicates on the column. */
  datatype ColumnPredicate = One(pred: ValuePredicate) | AnyOf(preds: seq<ValuePredicate>)

  predicate HoldsColumn(p: ColumnPredicate, key: int) {
    match p
    case One(pred) => Holds(pred, key)
    case AnyOf(preds) => exists i :: 0 <= i < |preds| && Holds(preds[i], key)
  }

  /** The one predicate whose key ranges do not say what it means: NOT IN an empty list. */
  predicate EmptyNotIn(p: ValuePredicate) { p.isComplement && p.comparison == In([]) }

  predicate Convertible(p: ColumnPredicate) {
    match p
    case One(pred) => !EmptyNotIn(pred)
    case AnyOf(preds) => forall i :: 0 <= i < |preds| ==> !EmptyNotIn(preds[i])
  }

  /** What the key ranges of a predicate hold: NOT IN an empty list counts for nothing. */
  predicate CoversKey(p: ColumnPredicate, key: int) {
    match p
    case One(pred) => CoversValue(pred, key)
    case AnyOf(preds) => exists i :: 0 <= i < |preds| && CoversValue(preds[i], key)
  }

  predicate CoversValue(p: ValuePredicate, key: int) { Holds(p, key) && !EmptyNotIn(p) }

  predicate CoverAll(preds: seq<ColumnPredicate>, key: int) {
    forall i :: 0 <= i < |preds| ==> CoversKey(preds[i], key)
  }

  /** Key ranges mean what the predicate means exactly if it has no NOT IN an empty list, or has one as
      an alternative to others that hold for every key between them. */
  lemma CoversExactlyIff(p: ColumnPredicate)
    ensures (forall key :: CoversKey(p, key) <==> HoldsColumn(p, key)) <==>
      Convertible(p) || (p.AnyOf? && forall key :: CoversKey(p, key))
    ensures forall key :: CoversKey(p, key) ==> HoldsColumn(p, key)
  {
    match p
    case One(pred) => if EmptyNotIn(pred) { assert HoldsColumn(p, 0) && !CoversKey(p, 0); }
    case AnyOf(preds) =>
      forall key ensures CoversKey(p, key) ==> HoldsColumn(p, key) {
        if i :| 0 <= i < |preds| && CoversValue(preds[i], key) { assert Holds(preds[i], key); }
      }
      if i :| 0 <= i < |preds| && EmptyNotIn(preds[i]) {
        forall key ensures HoldsColumn(p, key) { assert Holds(preds[i], key); }
      } else {
        forall key ensures HoldsColumn(p, key) ==> CoversKey(p, key) {
          if i :| 0 <= i < |preds| && Holds(preds[i], key) { assert CoversValue(preds[i], key); }
        }
      }
  }

  /** Without NOT IN an empty list nothing is missed. */
  lemma CoverAllWhenConvertible(preds: seq<ColumnPredicate>, key: int)
    requires forall i :: 0 <= i < |preds| ==> Convertible(preds[i])
    ensures CoverAll(preds, key) <==> HoldAll(preds, key)
  {
    forall i | 0 <= i < |preds| ensures CoversKey(preds[i], key) <==> HoldsColumn(preds[i], key) {
      CoversExactlyIff(preds[i]);
    }
  }

  function RangeOf(c: Comparison): Range
    requires !c.In?
  {
    match c
    case Between(low, high) => MakeRange(AtKey(low), AtKey(high), false, false)
    case Eq(value) => Only(value)
    case Gte(value) => LowerBound(value, false)
    case Gt(value) => LowerBound(value, true)
    case Lte(value) => UpperBound(value, false)
    case Lt(value) => UpperBound(value, true)
  }

  /** The ranges hold exactly the keys that satisfy the predicate, unless it is NOT IN an empty
      list, which gets no range though every key satisfies it. */
  method ToKeyRange(p: ValuePredicate) returns (result: RangeSet)
    ensures fresh(result) && result.Valid()
    ensures forall key :: result.ContainsKey(key) <==> CoversValue(p, key)
    ensures EmptyNotIn(p) ==> forall key :: !result.ContainsKey(key) && Holds(p, key)
  {
    if p.comparison.In? {
      var keyRanges := seq(|p.comparison.values|, i requires 0 <= i < |p.comparison.values| => Only(p.comparison.values[i]));
      forall key ensures AnyContains(keyRanges, key) <==> key in p.comparison.values {
        if i :| 0 <= i < |keyRanges| && Contains(keyRanges[i], key) { assert p.comparison.values[i] == key; }
        if i :| 0 <= i < |p.comparison.values| && p.comparison.values[i] == key { assert Contains(keyRanges[i], key); }
      }
      if p.isComplement {
        var gaps := ComplementOfKeys(keyRanges);
        result := new RangeSet(gaps);
      } else {
        result := new RangeSet(keyRanges);
      }
    } else {
      var keyRange := RangeOf(p.comparison);
      forall key ensures Contains(keyRange, key) <==> Matches(p.comparison, key) {
      }
      if p.isComplement {
        forall key ensures AnyContains(Complement(keyRange), key) <==> !Contains(keyRange, key) {
          ComplementIsComplement(keyRange, key);
        }
        result := new RangeSet(Complement(keyRange));
      } else {
        forall key ensures AnyContains([keyRange], key) <==> Contains(keyRange, key) {
          assert AnyContains([keyRange], key) <==> Contains([keyRange][0], key);
        }
        result := new RangeSet([keyRange]);
      }
    }
  }

  method ColumnToKeyRange(p: ColumnPredicate) returns (result: RangeSet)
    ensures fresh(result) && result.Valid()
    ensures forall key :: result.ContainsKey(key) <==> CoversKey(p, key)
  {
    match p {
      case One(pred) => result := ToKeyRange(pred);
      case AnyOf(preds) =>
        result := new RangeSet([]);
        for i := 0 to |preds|
          invariant fresh(result) && result.Valid()
          invariant forall key :: result.ContainsKey(key) <==> CoversKey(AnyOf(preds[..i]), key)
        {
          var child := ToKeyRange(preds[i]);
          result.Add(child.ranges);
          forall key ensures CoversKey(AnyOf(preds[..i + 1]), key) <==> CoversKey(AnyOf(preds[..i]), key) || CoversValue(preds[i], key) {
            OneMore(preds, i, key);
          }
        }
        assert preds[..|preds|] == preds;
    }
  }

  lemma OneMore(preds: seq<ValuePredicate>, i: nat, key: int)
    requires i < |preds|
    ensures CoversKey(AnyOf(preds[..i + 1]), key) <==> CoversKey(AnyOf(preds[..i]), key) || CoversValue(preds[i], key)
  {
    var before, after := preds[..i], preds[..i + 1];
    if k :| 0 <= k < |before| && CoversValue(before[k], key) { assert CoversValue(after[k], key); }
    if CoversValue(preds[i], key) { assert CoversValue(after[i], key); }
    if k :| 0 <= k < |after| && CoversValue(after[k], key) { assert k < i ==> CoversValue(before[k], key); }
  }

  predicate HoldAll(preds: seq<ColumnPredicate>, key: int) {
    forall i :: 0 <= i < |preds| ==> HoldsColumn(preds[i], key)
  }

  /** The ranges for a one-column index: starting from all keys, intersect predicate by predicate. */
  method CalculateKeyRanges(preds: seq<ColumnPredicate>) returns (result: RangeSet)
    ensures fresh(result) && result.Valid()
    ensures forall key :: result.ContainsKey(key) <==> CoverAll(preds, key)
  {
    result := new RangeSet([All()]);
    forall key ensures AnyContains([All()], key) { assert Contains([All()][0], key); }
    for i := 0 to |preds|
      invariant fresh(result) && result.Valid()
      invariant forall key :: result.ContainsKey(key) <==> CoverAll(preds[..i], key)
    {
      var next := ColumnToKeyRange(preds[i]);
      result := Intersect(result, next);
      forall key ensures CoverAll(preds[..i + 1], key) <==> CoverAll(preds[..i], key) && CoversKey(preds[i], key) {
        OneMoreOfAll(preds, i, key);
      }
    }
    assert preds[..|preds|] == preds;
  }

  lemma OneMoreOfAll(preds: seq<ColumnPredicate>, i: nat, key: int)
    requires i < |preds|
    ensures CoverAll(preds[..i + 1], key) <==> CoverAll(preds[..i], key) && CoversKey(preds[i], key)
  {
    var before, after := preds[..i], preds[..i + 1];
    if CoverAll(after, key) {
      assert CoversKey(after[i], key);
      forall k | 0 <= k < |before| ensures CoversKey(before[k], key) { assert CoversKey(after[k], key); }
    }
    if CoverAll(before, key) && CoversKey(preds[i], key) {
      forall k | 0 <= k < |after| ensures CoversKey(after[k], key) {
        if k < i { assert CoversKey(before[k], key); }
      }
    }
  }

  // ---------- Index scan = full scan + filter ----------

  /** The column's value in every row of the table. */
  type Column = map<RowId, Key>

  ghost predicate Indexes(m: map<Key, set<RowId>>, column: Column) {
    forall key, id :: (key in m && id in m[key]) <==> (id in column && column[id] == key)
  }

  ghost predicate EachOnce(rows: seq<RowId>) {
    forall i, j :: 0 <= i < j < |rows| ==> rows[i] != rows[j]
  }

  lemma {:induction false} WhereMembers(es: seq<Entry>, rs: seq<Range>, id: RowId)
    ensures id in RowsWhere(es, rs) <==> exists i :: 0 <= i < |es| && AnyContains(rs, es[i].key) && id in es[i].rows
  {
    if es != [] {
      WhereMembers(es[1..], rs, id);
      if id in RowsWhere(es[1..], rs) {
        var i :| 0 <= i < |es[1..]| && AnyContains(rs, es[1..][i].key) && id in es[1..][i].rows;
        assert AnyContains(rs, es[i + 1].key) && id in es[i + 1].rows;
      }
      if i :| 0 <= i < |es| && AnyContains(rs, es[i].key) && id in es[i].rows {
        if i > 0 { assert AnyContains(rs, es[1..][i - 1].key) && id in es[1..][i - 1].rows; }
      }
    }
  }

  /** By key, and rows with the same key by row id. */
  ghost predicate InIndexOrder(rows: seq<RowId>, column: Column) {
    && (forall i :: 0 <= i < |rows| ==> rows[i] in column)
    && (forall i, j :: 0 <= i < j < |rows| ==>
         column[rows[i]] < column[rows[j]] || (column[rows[i]] == column[rows[j]] && rows[i] < rows[j]))
  }

  /** A scan delivers the rows in the order of the index. */
  lemma {:induction false} WhereInOrder(es: seq<Entry>, rs: seq<Range>, column: Column)
    requires Sorted(es) && (forall i :: 0 <= i < |es| ==> Increasing(es[i].rows))
    requires forall i, id :: 0 <= i < |es| && id in es[i].rows ==> id in column && column[id] == es[i].key
    ensures InIndexOrder(RowsWhere(es, rs), column)
  {
    if es != [] {
      var head := if AnyContains(rs, es[0].key) then es[0].rows else [];
      var tail := RowsWhere(es[1..], rs);
      WhereInOrder(es[1..], rs, column);
      forall id | id in tail ensures id in column && es[0].key < column[id] {
        WhereMembers(es[1..], rs, id);
        var i :| 0 <= i < |es[1..]| && AnyContains(rs, es[1..][i].key) && id in es[1..][i].rows;
        assert id in es[i + 1].rows;
      }
      OrderConcat(head, tail, column, es[0].key);
    }
  }

  lemma OrderConcat(a: seq<RowId>, b: seq<RowId>, column: Column, key: Key)
    requires Increasing(a) && (forall id :: id in a ==> id in column && column[id] == key)
    requires InIndexOrder(b, column) && forall id :: id in b ==> id in column && key < column[id]
    ensures InIndexOrder(a + b, column)
  {
    var c := a + b;
    forall i | 0 <= i < |c| ensures c[i] in column { assert i < |a| ==> c[i] in a; }
    forall i, j | 0 <= i < j < |c|
      ensures column[c[i]] < column[c[j]] || (column[c[i]] == column[c[j]] && c[i] < c[j])
    {
      if i < |a| { assert a[i] in a; }
      if j >= |a| { assert b[j - |a|] in b; } else { assert a[j] in a; }
    }
  }

  ghost predicate Separate(es: seq<Entry>) {
    forall i, j, id :: 0 <= i < j < |es| && id in es[i].rows ==> id !in es[j].rows
  }

  lemma {:induction false} WhereOnce(es: seq<Entry>, rs: seq<Range>)
    requires Separate(es) && forall i :: 0 <= i < |es| ==> Increasing(es[i].rows)
    ensures EachOnce(RowsWhere(es, rs))
  {
    if es != [] {
      var head := if AnyContains(rs, es[0].key) then es[0].rows else [];
      var tail := RowsWhere(es[1..], rs);
      forall i, j, id | 0 <= i < j < |es[1..]| && id in es[1..][i].rows ensures id !in es[1..][j].rows {
        assert es[1..][i] == es[i + 1] && es[1..][j] == es[j + 1];
      }
      WhereOnce(es[1..], rs);
      forall id | id in tail ensures id !in head {
        WhereMembers(es[1..], rs, id);
        var i :| 0 <= i < |es[1..]| && AnyContains(rs, es[1..][i].key) && id in es[1..][i].rows;
        assert id in es[i + 1].rows;
      }
      OnceConcat(head, tail);
    }
  }

  lemma OnceConcat(a: seq<RowId>, b: seq<RowId>)
    requires EachOnce(a) && EachOnce(b) && forall id :: id in b ==> id !in a
    ensures EachOnce(a + b)
  {
    forall i, j | 0 <= i < j < |a + b| ensures (a + b)[i] != (a + b)[j] {
      if i < |a| <= j { assert b[j - |a|] in b && a[i] in a; }
    }
  }

  /** Scanning the ranges yields every row whose key lies in one, once, and no other. */
  lemma ScanIsFilter(es: seq<Entry>, unique: bool, rs: seq<Range>, column: Column)
    requires EntriesOk(es, unique) && Indexes(ContentsOf(es), column)
    ensures EachOnce(RowsWhere(es, rs)) && InIndexOrder(RowsWhere(es, rs), column)
    ensures forall id :: id in RowsWhere(es, rs) <==> id in column && AnyContains(rs, column[id])
  {
    ContentsListed(es);
    forall i, id | 0 <= i < |es| && id in es[i].rows ensures id in column && column[id] == es[i].key {
      assert id in ContentsOf(es)[es[i].key];
    }
    forall i, j, id | 0 <= i < j < |es| && id in es[i].rows ensures id !in es[j].rows {
      assert column[id] == es[i].key && es[i].key < es[j].key;
    }
    WhereOnce(es, rs);
    WhereInOrder(es, rs, column);
    forall id ensures id in RowsWhere(es, rs) <==> id in column && AnyContains(rs, column[id]) {
      WhereMembers(es, rs, id);
      if id in column && AnyContains(rs, column[id]) {
        var key := column[id];
        assert key in ContentsOf(es) && id in ContentsOf(es)[key];
        var i :| 0 <= i < |es| && es[i].key == key;
        assert id in es[i].rows;
      }
    }
  }

  lemma NoElements(xs: seq<RowId>)
    ensures xs == [] <==> Elements(xs) == {}
  {
    if xs != [] { assert xs[0] in Elements(xs); }
  }

  /** Two increasing lists of the same row ids are one list. */
  lemma {:induction false} IncreasingUnique(xs: seq<RowId>, ys: seq<RowId>)
    requires Increasing(xs) && Increasing(ys) && Elements(xs) == Elements(ys)
    ensures xs == ys
    decreases |xs|
  {
    if xs == [] {
      NoElements(ys);
    } else {
      assert xs[0] in Elements(ys);
      assert ys[0] in Elements(xs);
      forall x | x in xs[1..] ensures x in ys[1..] { assert x in Elements(ys) && x != ys[0]; }
      forall y | y in ys[1..] ensures y in xs[1..] { assert y in Elements(xs) && y != xs[0]; }
      IncreasingUnique(xs[1..], ys[1..]);
    }
  }

  lemma {:induction false} OnlyKeyRows(es: seq<Entry>, key: Key, rows: seq<RowId>)
    requires Sorted(es) && (forall i :: 0 <= i < |es| ==> Increasing(es[i].rows)) && Increasing(rows)
    requires Elements(rows) == if key in ContentsOf(es) then ContentsOf(es)[key] else {}
    ensures RowsWhere(es, [Only(key)]) == rows
  {
    if es == [] {
      NoElements(rows);
    } else {
      ContentsListed(es);
      assert AnyContains([Only(key)], es[0].key) <==> Contains([Only(key)][0], es[0].key);
      assert forall i :: 0 <= i < |es| - 1 ==> es[1..][i] == es[i + 1];
      if es[0].key == key {
        NoneElsewhere(es[1..], key);
        IncreasingUnique(es[0].rows, rows);
      } else {
        OnlyKeyRows(es[1..], key, rows);
      }
    }
  }

  lemma {:induction false} NoneElsewhere(es: seq<Entry>, key: Key)
    requires forall i :: 0 <= i < |es| ==> es[i].key != key
    ensures RowsWhere(es, [Only(key)]) == []
  {
    if es != [] {
      assert AnyContains([Only(key)], es[0].key) <==> Contains([Only(key)][0], es[0].key);
      assert forall i :: 0 <= i < |es| - 1 ==> es[1..][i] == es[i + 1];
      NoneElsewhere(es[1..], key);
    }
  }

  /** The contents leave no choice of listing. */
  lemma {:induction false} ListingIsUnique(es: seq<Entry>, es': seq<Entry>, unique: bool)
    requires EntriesOk(es, unique) && EntriesOk(es', unique) && ContentsOf(es) == ContentsOf(es')
    ensures es == es'
    decreases |es|
  {
    SameFirst(es, es');
    if es != [] {
      IncreasingUnique(es[0].rows, es'[0].rows);
      WithoutFirst(es);
      WithoutFirst(es');
      ListingIsUnique(es[1..], es'[1..], unique);
      assert es == [es[0]] + es[1..] && es' == [es'[0]] + es'[1..];
    }
  }

  lemma SameFirst(es: seq<Entry>, es': seq<Entry>)
    requires Sorted(es) && Sorted(es') && ContentsOf(es) == ContentsOf(es')
    ensures es == [] <==> es' == []
    ensures es != [] ==> es[0].key == es'[0].key && Elements(es[0].rows) == Elements(es'[0].rows)
  {
    ContentsListed(es);
    ContentsListed(es');
    assert (es != [] ==> es[0].key in ContentsOf(es)) && (es' != [] ==> es'[0].key in ContentsOf(es'));
  }

  lemma WithoutFirst(es: seq<Entry>)
    requires es != [] && Sorted(es)
    ensures ContentsOf(es[1..]) == ContentsOf(es) - {es[0].key}
  {
    ContentsListed(es[1..]);
    assert forall i :: 0 <= i < |es[1..]| ==> es[1..][i] == es[i + 1] && es[1..][i].key != es[0].key;
    TakenBack(ContentsOf(es[1..]), es[0].key, Elements(es[0].rows));
  }

  lemma TakenBack<K, V>(m: map<K, V>, key: K, value: V)
    requires key !in m
    ensures m[key := value] - {key} == m
  {
  }

  /** All rows that the ranges of the predicates hold, in index order. */
  ghost predicate Lists(all: seq<RowId>, column: Column, preds: seq<ColumnPredicate>) {
    InIndexOrder(all, column) && forall id :: id in all <==> id in column && CoverAll(preds, column[id])
  }

  /** There is only one such list. */
  lemma {:induction false} IndexOrderIsUnique(xs: seq<RowId>, ys: seq<RowId>, column: Column)
    requires InIndexOrder(xs, column) && InIndexOrder(ys, column) && forall id :: id in xs <==> id in ys
    ensures xs == ys
    decreases |xs|
  {
    assert (xs != [] ==> xs[0] in xs) && (ys != [] ==> ys[0] in ys);
    if xs != [] {
      assert xs[0] == ys[0];
      forall x | x in xs[1..] ensures x in ys[1..] { assert x in ys && x != ys[0]; }
      forall y | y in ys[1..] ensures y in xs[1..] { assert y in xs && y != xs[0]; }
      IndexOrderIsUnique(xs[1..], ys[1..], column);
    }
  }

  lemma OnlyListing(all: seq<RowId>, column: Column, preds: seq<ColumnPredicate>)
    requires Lists(all, column, preds)
    ensures forall other :: Lists(other, column, preds) ==> other == all
  {
    forall other | Lists(other, column, preds) ensures other == all {
      IndexOrderIsUnique(other, all, column);
    }
  }

  predicate IsOneKey(keyRanges: seq<Range>) { |keyRanges| == 1 && IsOnly(keyRanges[0]) }

  /** IndexRangeScanStep with the ranges of the given predicates: a single key is looked up, anything
      else scanned.  The rows that the ranges hold have one listing in index order; the scan takes them
      from either end, a lookup always from the front. */
  method IndexRangeScan(tree: BTreeIndex.BTree, preds: seq<ColumnPredicate>, reverse: bool, limit: Option<nat>, skip: nat, ghost column: Column)
    returns (rows: seq<RowId>, ghost keyRanges: seq<Range>)
    requires tree.Valid() && |tree.levels| > 0 && Indexes(tree.Contents(), column)
    ensures Disjoint(keyRanges) && forall key :: AnyContains(keyRanges, key) <==> CoverAll(preds, key)
    ensures exists all :: Lists(all, column, preds)
    ensures forall all :: Lists(all, column, preds) ==>
      rows == Window(all, reverse && !IsOneKey(keyRanges), if limit.Some? then limit.value else |all|, skip)
  {
    hide *;
    var ranges := CalculateKeyRanges(preds);
    keyRanges := ranges.ranges;
    ghost var es := Entries(tree.Snap(), tree.levels[0]);
    tree.Meaning();
    ghost var all := RowsWhere(es, keyRanges);
    ScanHolds(es, tree.unique, ranges, column, preds);
    OnlyListing(all, column, preds);
    if |ranges.ranges| == 1 && IsOnly(ranges.ranges[0]) {
      var found := tree.Get(OnlyKey(ranges.ranges[0]));
      LookupIsScan(es, tree.unique, keyRanges, found);
      rows := Slice(found, if limit.Some? then limit.value else |found|, skip);
      ForwardWindow(found, if limit.Some? then limit.value else |found|, skip);
      assert IsOneKey(keyRanges) by { OneKey(keyRanges); }
    } else {
      SortingKeepsDisjoint(keyRanges);
      rows := tree.GetRange(Some(ranges.ranges), reverse, limit, skip);
      assert !IsOneKey(keyRanges) by { OneKey(keyRanges); }
    }
  }

  lemma OneKey(keyRanges: seq<Range>)
    ensures IsOneKey(keyRanges) <==> |keyRanges| == 1 && IsOnly(keyRanges[0])
  {
  }

  /** Without NOT IN an empty list the listed rows are those that satisfy the predicates. */
  lemma ListedRowsSatisfy(all: seq<RowId>, column: Column, preds: seq<ColumnPredicate>)
    requires Lists(all, column, preds) && forall i :: 0 <= i < |preds| ==> Convertible(preds[i])
    ensures forall id :: id in all <==> id in column && HoldAll(preds, column[id])
  {
    forall id | id in column ensures CoverAll(preds, column[id]) <==> HoldAll(preds, column[id]) {
      CoverAllWhenConvertible(preds, column[id]);
    }
  }

  lemma ScanHolds(es: seq<Entry>, unique: bool, ranges: RangeSet, column: Column, preds: seq<ColumnPredicate>)
    requires EntriesOk(es, unique) && Indexes(ContentsOf(es), column)
    requires ranges.Valid() && forall key :: ranges.ContainsKey(key) <==> CoverAll(preds, key)
    ensures Disjoint(ranges.ranges) && Lists(RowsWhere(es, ranges.ranges), column, preds)
    ensures forall key :: AnyContains(ranges.ranges, key) <==> CoverAll(preds, key)
  {
    forall key ensures AnyContains(ranges.ranges, key) <==> CoverAll(preds, key) {
      assert ranges.ContainsKey(key) <==> CoverAll(preds, key);
    }
    ScanIsFilter(es, unique, ranges.ranges, column);
    forall id | id in column ensures AnyContains(ranges.ranges, column[id]) <==> CoverAll(preds, column[id]) {
      assert ranges.ContainsKey(column[id]) <==> CoverAll(preds, column[id]);
    }
  }

  lemma LookupIsScan(es: seq<Entry>, unique: bool, keyRanges: seq<Range>, found: seq<RowId>)
    requires EntriesOk(es, unique) && |keyRanges| == 1 && IsOnly(keyRanges[0]) && Increasing(found)
    requires Elements(found) == if OnlyKey(keyRanges[0]) in ContentsOf(es) then ContentsOf(es)[OnlyKey(keyRanges[0])] else {}
    ensures RowsWhere(es, keyRanges) == found
  {
    assert keyRanges == [Only(OnlyKey(keyRanges[0]))];
    OnlyKeyRows(es, OnlyKey(keyRanges[0]), found);
  }

  lemma ForwardWindow(rows: seq<RowId>, limit: nat, skip: nat)
    ensures Window(rows, false, limit, skip) == Slice(rows, limit, skip)
  {
  }

  /** Ranges that are in order already are left as they are. */
  lemma {:induction false} SortingKeepsDisjoint(rs: seq<Range>)
    requires Disjoint(rs)
    ensures SortRanges(rs) == rs && Disjoint(SortRanges(rs))
  {
    if rs != [] {
      assert forall i :: 0 <= i < |rs| - 1 ==> rs[1..][i] == rs[i + 1];
      forall i, j | 0 <= i < j < |rs[1..]| ensures Before(rs[1..][i], rs[1..][j]) { assert Before(rs[i + 1], rs[j + 1]); }
      SortingKeepsDisjoint(rs[1..]);
      if |rs| > 1 { assert Before(rs[0], rs[1]); }
      assert [rs[0]] + rs[1..] == rs;
    }
  }
}
