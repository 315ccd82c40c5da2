/** Range scans: what a scan yields, and the two ways in which results are collected. */
module BTreeScan {
  import opened Flatten
  import opened BTreeStore
  import opened BTreeSearch
  import opened BTreeContents
  import opened SortedRows
  import opened KeyRanges

  // ---------- What a scan yields ----------

  /** The row ids of the entries whose key is in the range, in index order. */
  ghost function RowsIn(es: seq<Entry>, r: Range): seq<RowId> {
    if es == [] then [] else (if Contains(r, es[0].key) then es[0].rows else []) + RowsIn(es[1..], r)
  }

  /** One range after the other. */
  ghost function RowsOver(es: seq<Entry>, rs: seq<Range>): seq<RowId> {
    if rs == [] then [] else RowsIn(es, rs[0]) + RowsOver(es, rs[1..])
  }

  /** The row ids of the entries whose key is in some range, in index order. */
  ghost function RowsWhere(es: seq<Entry>, rs: seq<Range>): seq<RowId> {
    if es == [] then [] else (if AnyContains(rs, es[0].key) then es[0].rows else []) + RowsWhere(es[1..], rs)
  }

  ghost function AllRows(es: seq<Entry>): seq<RowId> {
    if es == [] then [] else es[0].rows + AllRows(es[1..])
  }

  function Min(a: int, b: int): (m: int)
    ensures m <= a && m <= b && (m == a || m == b)
  {
    if a <= b then a else b
  }

  function Reverse<T>(xs: seq<T>): (ys: seq<T>)
    ensures |ys| == |xs|
  {
    if xs == [] then [] else Reverse(xs[1..]) + [xs[0]]
  }

  function Take<T>(xs: seq<T>, n: nat): seq<T> { xs[..Min(n, |xs|)] }

  function Drop<T>(xs: seq<T>, n: nat): seq<T> { xs[Min(n, |xs|)..] }

  /** The window a caller asks for. */
  function Window<T>(xs: seq<T>, reverse: bool, limit: nat, skip: nat): seq<T> {
    Take(Drop(if reverse then Reverse(xs) else xs, skip), limit)
  }

  /** IndexHelper.slice with both limit and skip given. */
  function Slice(rows: seq<RowId>, limit: nat, skip: nat): (r: seq<RowId>)
    ensures r == Take(Drop(rows, skip), limit)
  {
    var actualLimit := Min(limit, |rows|);
    if actualLimit == 0 then [] else
    var actualSkip := Min(skip, |rows|);
    rows[actualSkip..Min(actualSkip + actualLimit, |rows|)]
  }

  lemma {:induction false} RowsInConcat(a: seq<Entry>, b: seq<Entry>, r: Range)
    ensures RowsIn(a + b, r) == RowsIn(a, r) + RowsIn(b, r)
  {
    if a == [] {
      assert a + b == b;
    } else {
      RowsInConcat(a[1..], b, r);
      assert (a + b)[1..] == a[1..] + b;
    }
  }

  lemma {:induction false} AllRowsConcat(a: seq<Entry>, b: seq<Entry>)
    ensures AllRows(a + b) == AllRows(a) + AllRows(b)
  {
    if a == [] {
      assert a + b == b;
    } else {
      AllRowsConcat(a[1..], b);
      assert (a + b)[1..] == a[1..] + b;
      Flatten.Associate(a[0].rows, AllRows(a[1..]), AllRows(b), []);
    }
  }

  lemma {:induction false} AllRowsTotal(es: seq<Entry>)
    ensures |AllRows(es)| == Total(es)
  {
    if es != [] { AllRowsTotal(es[1..]); }
  }

  lemma {:induction false} RowsWhereBound(es: seq<Entry>, rs: seq<Range>)
    ensures |RowsWhere(es, rs)| <= Total(es)
  {
    if es != [] { RowsWhereBound(es[1..], rs); }
  }

  lemma {:induction false} NoneIn(es: seq<Entry>, r: Range)
    requires forall k :: 0 <= k < |es| ==> !Contains(r, es[k].key)
    ensures RowsIn(es, r) == []
  {
    if es != [] {
      assert !Contains(r, es[0].key);
      forall k | 0 <= k < |es| - 1 ensures !Contains(r, es[1..][k].key) { assert es[1..][k] == es[k + 1]; }
      NoneIn(es[1..], r);
    }
  }

  lemma {:induction false} AllIn(es: seq<Entry>, r: Range)
    requires IsAll(r)
    ensures RowsIn(es, r) == AllRows(es)
  {
    if es != [] { AllIn(es[1..], r); }
  }

  /** Over sorted disjoint ranges, range by range is the same as one pass through the index. */
  lemma {:induction false} RangesAreOneFilter(es: seq<Entry>, rs: seq<Range>)
    requires Sorted(es) && Disjoint(rs)
    ensures RowsOver(es, rs) == RowsWhere(es, rs)
    decreases |rs|
  {
    if rs == [] {
      NoRanges(es);
    } else {
      RangesAreOneFilter(es, rs[1..]);
      FirstRange(es, rs);
    }
  }

  lemma {:induction false} NoRanges(es: seq<Entry>)
    ensures RowsWhere(es, []) == []
  {
    if es != [] { NoRanges(es[1..]); }
  }

  /** The entries of the first range come before those of the others. */
  lemma {:induction false} FirstRange(es: seq<Entry>, rs: seq<Range>)
    requires Sorted(es) && Disjoint(rs) && rs != []
    ensures RowsIn(es, rs[0]) + RowsWhere(es, rs[1..]) == RowsWhere(es, rs)
    decreases |es|
  {
    if es == [] {
      NoRows(rs);
    } else {
      hide Contains, Before, RowsIn, RowsWhere, AnyContains, Disjoint;
      var key, tail, others := es[0].key, es[1..], rs[1..];
      FirstRange(tail, rs);
      FirstOrOther(rs, key);
      FirstEntry(es, rs);
      FirstEntry(es, others);
      if AnyContains(others, key) {
        FirstRangePassed(es, rs);
        NoneIn(es, rs[0]);
        forall k | 0 <= k < |tail| ensures !Contains(rs[0], tail[k].key) { assert tail[k] == es[k + 1]; }
        NoneIn(tail, rs[0]);
      } else {
        FirstEntryIn(es, rs[0]);
        Flatten.Associate(if Contains(rs[0], key) then es[0].rows else [], RowsIn(tail, rs[0]), RowsWhere(tail, others), []);
      }
    }
  }

  lemma NoRows(rs: seq<Range>)
    ensures forall r :: RowsIn([], r) == []
    ensures RowsWhere([], rs) == []
    ensures rs != [] ==> RowsWhere([], rs[1..]) == []
  {
  }

  lemma FirstEntry(es: seq<Entry>, rs: seq<Range>)
    requires es != []
    ensures RowsWhere(es, rs) == (if AnyContains(rs, es[0].key) then es[0].rows else []) + RowsWhere(es[1..], rs)
  {
  }

  lemma FirstEntryIn(es: seq<Entry>, r: Range)
    requires es != []
    ensures RowsIn(es, r) == (if Contains(r, es[0].key) then es[0].rows else []) + RowsIn(es[1..], r)
  {
  }

  lemma FirstOrOther(rs: seq<Range>, key: Key)
    requires rs != []
    ensures AnyContains(rs, key) <==> Contains(rs[0], key) || AnyContains(rs[1..], key)
  {
    AnyConcat([rs[0]], rs[1..], key);
    assert rs == [rs[0]] + rs[1..];
    assert AnyContains([rs[0]], key) <==> Contains([rs[0]][0], key);
  }

  lemma FirstRangePassed(es: seq<Entry>, rs: seq<Range>)
    requires Sorted(es) && Disjoint(rs) && rs != [] && es != [] && AnyContains(rs[1..], es[0].key)
    ensures forall k :: 0 <= k < |es| ==> !Contains(rs[0], es[k].key)
  {
    var key := es[0].key;
    var j :| 0 <= j < |rs[1..]| && Contains(rs[1..][j], key);
    assert Before(rs[0], rs[j + 1]);
    forall k | 0 <= k < |es| ensures !Contains(rs[0], es[k].key) {
      if Contains(rs[0], es[k].key) { BeforeApart(rs[0], rs[j + 1], es[k].key, key); }
    }
  }

  // ---------- Where a key lies relative to a range ----------

  /** Lhs: the range lies to the left of the key; Rhs: to the right; Tie: the key is in it. */
  function Cover(key: Key, r: Range): Favor {
    var left := r.from.Unbound? || (if r.excludeLower then key > r.from.key else key >= r.from.key);
    var right := r.to.Unbound? || (if r.excludeUpper then key < r.to.key else key <= r.to.key);
    if left then (if right then Tie else Lhs) else Rhs
  }

  lemma CoverMonotone(key: Key, key': Key, r: Range)
    requires key <= key'
    ensures Cover(key, r) == Lhs ==> Cover(key', r) == Lhs
    ensures Cover(key', r) == Rhs ==> Cover(key, r) == Rhs
    ensures Contains(r, key) <==> Cover(key, r) == Tie
  {
  }

  ghost predicate NoTie(keys: seq<Key>, r: Range, from: int, to: int) {
    forall k :: 0 <= k < |keys| && from <= k < to ==> Cover(keys[k], r) != Tie
  }

  /** The rows of the keys from position a up to b, exactly those in the range. */
  lemma LeafRowsIn(rec: Rec, r: Range, a: nat, b: nat)
    requires |rec.keys| == |rec.values| && a <= b <= |rec.keys|
    requires forall k :: 0 <= k < |rec.keys| ==> (Contains(r, rec.keys[k]) <==> a <= k < b)
    ensures RowsIn(LeafEntries(rec), r) == AllRows(LeafEntries(rec)[a..b])
  {
    var es := LeafEntries(rec);
    assert es == es[..a] + es[a..b] + es[b..];
    RowsInConcat(es[..a] + es[a..b], es[b..], r);
    RowsInConcat(es[..a], es[a..b], r);
    NoneIn(es[..a], r);
    NoneIn(es[b..], r);
    Every(es[a..b], r);
  }

  lemma {:induction false} Every(es: seq<Entry>, r: Range)
    requires forall k :: 0 <= k < |es| ==> Contains(r, es[k].key)
    ensures RowsIn(es, r) == AllRows(es)
  {
    if es != [] {
      assert Contains(r, es[0].key);
      forall k | 0 <= k < |es| - 1 ensures Contains(r, es[1..][k].key) { assert es[1..][k] == es[k + 1]; }
      Every(es[1..], r);
    }
  }

  /** Beyond an entry that the range lies to the left of, there is nothing. */
  lemma NothingBeyond(es: seq<Entry>, p: nat, r: Range)
    requires Sorted(es) && p < |es| && Cover(es[p].key, r) == Lhs
    ensures RowsIn(es[p..], r) == []
  {
    forall k | 0 <= k < |es[p..]| ensures !Contains(r, es[p..][k].key) {
      assert es[p..][k] == es[p + k];
      assert es[p].key <= es[p + k].key;
      CoverMonotone(es[p].key, es[p + k].key, r);
      CoverMonotone(es[p + k].key, es[p + k].key, r);
    }
    NoneIn(es[p..], r);
  }

  // ---------- Collecting with skip and limit ----------

  /** The parameters a scan passes by reference, with the results found so far. */
  class Collector {
    const limit: nat
    const reverse: bool
    var skip: nat
    var results: seq<RowId>

    constructor (limit: nat, reverse: bool, skip: nat)
      ensures this.limit == limit && this.reverse == reverse && Collected([], skip)
    {
      this.limit, this.reverse, this.skip, results := limit, reverse, skip, [];
    }

    /** The rows P have gone by; skip was skip0 at first.  A reverse scan skips only at the end. */
    ghost predicate Collected(P: seq<RowId>, skip0: nat)
      reads this
    {
      if reverse then skip == skip0 && results == Take(P, limit)
      else skip == (if skip0 <= |P| then 0 else skip0 - |P|) && results == Take(Drop(P, skip0), limit)
    }

    /** Once full, whatever else goes by makes no difference. */
    lemma Full(P: seq<RowId>, Q: seq<RowId>, skip0: nat)
      requires Collected(P, skip0) && |results| >= limit > 0
      ensures Collected(P + Q, skip0)
    {
      if !reverse {
        assert Drop(P + Q, skip0) == Drop(P, skip0) + Q;
      }
    }

    /** The same with nothing to spare: a reverse scan has room for everything. */
    lemma Enough(P: seq<RowId>, Q: seq<RowId>, skip0: nat)
      requires Collected(P, skip0) && |results| >= limit > 0
      ensures Collected(P + Q, skip0)
    {
      Full(P, Q, skip0);
    }

    lemma Done(P: seq<RowId>, skip0: nat)
      requires Collected(P, skip0) && (reverse ==> |P| <= limit)
      ensures results == if reverse then P else Take(Drop(P, skip0), limit)
    {
    }

    /** One row id goes by. */
    method AppendRow(row: RowId, ghost P: seq<RowId>, ghost skip0: nat)
      requires Collected(P, skip0) && |results| < limit
      modifies this
      ensures Collected(P + [row], skip0)
    {
      if !reverse && skip > 0 {
        skip := skip - 1;
      } else {
        results := results + [row];
        if !reverse { assert Drop(P + [row], skip0) == Drop(P, skip0) + [row]; }
      }
    }

    method AppendResultsAt(rows: seq<RowId>, unique: bool, ghost P: seq<RowId>, ghost skip0: nat)
      requires Collected(P, skip0) && RowsOk(rows, unique) && |results| < limit
      modifies this
      ensures Collected(P + rows, skip0)
    {
      if unique {
        AppendRow(rows[0], P, skip0);
        assert rows == [rows[0]];
      } else {
        var j := 0;
        assert P + rows[..0] == P;
        while j < |rows| && |results| < limit
          invariant j <= |rows| && Collected(P + rows[..j], skip0)
        {
          AppendRow(rows[j], P + rows[..j], skip0);
          assert P + rows[..j] + [rows[j]] == P + rows[..j + 1];
          j := j + 1;
        }
        assert P + rows[..j] + rows[j..] == P + rows;
        if j < |rows| {
          Full(P + rows[..j], rows[j..], skip0);
        } else {
          assert rows[..j] == rows;
        }
      }
    }

    /** Appends the values from one position to another; a forward scan stops when it has enough. */
    method AppendResults(values: seq<seq<RowId>>, from: nat, to: nat, unique: bool, ghost es: seq<Entry>, ghost P: seq<RowId>, ghost skip0: nat)
      requires from <= to <= |values| == |es| && limit > 0
      requires forall k :: 0 <= k < |es| ==> es[k].rows == values[k] && RowsOk(values[k], unique)
      requires Collected(P, skip0) && (reverse ==> |P + AllRows(es[from..to])| <= limit)
      modifies this
      ensures Collected(P + AllRows(es[from..to]), skip0)
    {
      hide *;
      var i := from;
      NothingYet(es, from, P);
      while i < to
        invariant from <= i <= to && Collected(P + AllRows(es[from..i]), skip0)
      {
        StreamSplits(es, from, i, to);
        Regroup(P, AllRows(es[from..i]), AllRows(es[i..to]), []);
        Regroup(P, AllRows(es[from..i]), values[i], []);
        if !reverse && |results| >= limit {
          Full(P + AllRows(es[from..i]), AllRows(es[i..to]), skip0);
          return;
        }
        Room(P + AllRows(es[from..i]), values[i], AllRows(es[i + 1..to]), unique, skip0);
        AppendResultsAt(values[i], unique, P + AllRows(es[from..i]), skip0);
        i := i + 1;
      }
    }

    lemma Room(P: seq<RowId>, rows: seq<RowId>, rest: seq<RowId>, unique: bool, skip0: nat)
      requires Collected(P, skip0) && RowsOk(rows, unique) && (reverse ==> |P + (rows + rest)| <= limit)
      ensures reverse ==> |results| < limit
    {
    }
  }

  lemma NothingYet(es: seq<Entry>, from: nat, P: seq<RowId>)
    requires from <= |es|
    ensures P + AllRows(es[from..from]) == P
  {
    assert es[from..from] == [] && P + [] == P;
  }

  lemma StreamSplits(es: seq<Entry>, from: nat, i: nat, to: nat)
    requires from <= i < to <= |es|
    ensures AllRows(es[from..i]) + AllRows(es[i..to]) == AllRows(es[from..to])
    ensures AllRows(es[from..i + 1]) == AllRows(es[from..i]) + es[i].rows
    ensures AllRows(es[i..to]) == es[i].rows + AllRows(es[i + 1..to])
  {
    hide AllRows;
    Slices(es, from, i, to);
    AllRowsConcat(es[from..i], es[i..to]);
    AllRowsConcat(es[from..i], [es[i]]);
    AllRowsConcat([es[i]], es[i + 1..to]);
    AllRowsOne(es[i]);
  }

  lemma Slices<T>(xs: seq<T>, from: nat, i: nat, to: nat)
    requires from <= i < to <= |xs|
    ensures xs[from..i] + xs[i..to] == xs[from..to] && xs[from..i] + [xs[i]] == xs[from..i + 1]
    ensures [xs[i]] + xs[i + 1..to] == xs[i..to]
  {
  }

  lemma AllRowsOne(e: Entry)
    ensures AllRows([e]) == e.rows
  {
    assert [e][1..] == [];
  }

  // ---------- Filling from an offset ----------

  /** The parameters of fill(): rows still to pass over, rows still wanted. */
  class Filler {
    var offset: int
    var count: nat
    var results: seq<RowId>

    constructor (offset: nat, count: nat)
      ensures Filled([], offset, count)
    {
      this.offset, this.count, results := offset, count, [];
    }

    /** The rows P have gone by, of which those from offset on are wanted, wanted in all. */
    ghost predicate Filled(P: seq<RowId>, offset0: nat, wanted: nat)
      reads this
    {
      && results == Take(Drop(P, offset0), wanted)
      && count == wanted - |results|
      && (if |P| <= offset0 then offset == offset0 - |P| else offset <= 0)
    }

    lemma Enough(P: seq<RowId>, Q: seq<RowId>, offset0: nat, wanted: nat)
      requires Filled(P, offset0, wanted) && count == 0 && wanted > 0
      ensures Filled(P + Q, offset0, wanted)
    {
      assert |P| > offset0;
      assert Drop(P + Q, offset0) == Drop(P, offset0) + Q;
    }

    lemma Done(P: seq<RowId>, offset0: nat, wanted: nat)
      requires Filled(P, offset0, wanted)
      ensures results == Take(Drop(P, offset0), wanted)
    {
    }

    /** Takes rows from position j on while some are wanted. */
    method TakeRows(rows: seq<RowId>, start: nat, ghost P: seq<RowId>, ghost offset0: nat, ghost wanted: nat)
      requires start <= |rows| && offset <= 0 && count == wanted - |results| && wanted > 0
      requires |P| + start >= offset0 && results == Take(Drop(P + rows[..start], offset0), wanted)
      requires start > 0 ==> |P| + start == offset0
      modifies this`results, this`count
      ensures results == Take(Drop(P + rows, offset0), wanted) && count == wanted - |results|
    {
      var j := start;
      while j < |rows| && count > 0
        invariant start <= j <= |rows| && count == wanted - |results|
        invariant results == Take(Drop(P + rows[..j], offset0), wanted)
      {
        assert Drop(P + rows[..j + 1], offset0) == Drop(P + rows[..j], offset0) + [rows[j]];
        results := results + [rows[j]];
        count := count - 1;
        j := j + 1;
      }
      assert Drop(P + rows, offset0) == Drop(P + rows[..j], offset0) + rows[j..];
    }

    method FillEntry(rows: seq<RowId>, unique: bool, ghost P: seq<RowId>, ghost offset0: nat, ghost wanted: nat)
      requires Filled(P, offset0, wanted) && RowsOk(rows, unique) && count > 0
      modifies this
      ensures Filled(P + rows, offset0, wanted)
    {
      if offset > 0 {
        offset := offset - (if !unique then |rows| else 1);
        if offset < 0 {
          TakeRows(rows, |rows| + offset, P, offset0, wanted);
        }
        return;
      }
      if unique {
        assert Drop(P + rows, offset0) == Drop(P, offset0) + [rows[0]];
        results := results + [rows[0]];
        count := count - 1;
      } else {
        assert P + rows[..0] == P;
        TakeRows(rows, 0, P, offset0, wanted);
      }
    }

    method FillLeaf(values: seq<seq<RowId>>, unique: bool, ghost es: seq<Entry>, ghost P: seq<RowId>, ghost offset0: nat, ghost wanted: nat)
      requires |values| == |es| && forall k :: 0 <= k < |es| ==> es[k].rows == values[k] && RowsOk(values[k], unique)
      requires Filled(P, offset0, wanted) && wanted > 0
      modifies this
      ensures Filled(P + AllRows(es), offset0, wanted)
    {
      hide *;
      var i := 0;
      NothingYet(es, 0, P);
      while i < |values| && count > 0
        invariant 0 <= i <= |values| && Filled(P + AllRows(es[0..i]), offset0, wanted)
      {
        StreamSplits(es, 0, i, |es|);
        Regroup(P, AllRows(es[0..i]), values[i], []);
        FillEntry(values[i], unique, P + AllRows(es[0..i]), offset0, wanted);
        i := i + 1;
      }
      if i < |values| {
        StreamSplits(es, 0, i, |es|);
        Regroup(P, AllRows(es[0..i]), AllRows(es[i..|es|]), []);
        Enough(P + AllRows(es[0..i]), AllRows(es[i..|es|]), offset0, wanted);
      }
      assert es[0..|es|] == es;
    }
  }

  // ---------- The entries below a node ----------

  ghost function EntriesBelow(s: Store, n: BTreeNode, h: nat): seq<Entry>
    decreases h, 1
  {
    if n !in s then [] else if h == 0 then LeafEntries(s[n]) else Flat(BelowLists(s, s[n].children, h - 1))
  }

  ghost function BelowLists(s: Store, ns: seq<BTreeNode>, h: nat): (r: seq<seq<Entry>>)
    ensures |r| == |ns|
    decreases h, 2, |ns|
  {
    if ns == [] then [] else [EntriesBelow(s, ns[0], h)] + BelowLists(s, ns[1..], h)
  }

  lemma {:induction false} BelowConcat(s: Store, a: seq<BTreeNode>, b: seq<BTreeNode>, h: nat)
    ensures BelowLists(s, a + b, h) == BelowLists(s, a, h) + BelowLists(s, b, h)
  {
    if a == [] {
      assert a + b == b;
    } else {
      BelowConcat(s, a[1..], b, h);
      assert (a + b)[1..] == a[1..] + b;
    }
  }

  /** Level by level, the nodes together hold all entries. */
  lemma {:induction false} LevelHoldsAll(s: Store, L: seq<seq<BTreeNode>>, h: nat)
    requires h < |L| && LevelsOk(s, L, h + 1)
    ensures Flat(BelowLists(s, L[h], h)) == Entries(s, L[0])
    decreases h
  {
    assert LevelOk(s, L, h);
    if h == 0 {
      LeavesBelow(s, L[0]);
    } else {
      LevelHoldsAll(s, L, h - 1);
      InnerBelow(s, L[h], h);
    }
  }

  lemma {:induction false} LeavesBelow(s: Store, ns: seq<BTreeNode>)
    requires Within(s, ns)
    ensures BelowLists(s, ns, 0) == EntryLists(s, ns)
  {
    if ns != [] {
      assert Within(s, ns[1..]) by { forall i | 0 <= i < |ns| - 1 ensures ns[1..][i] in s { assert ns[1..][i] == ns[i + 1]; } }
      LeavesBelow(s, ns[1..]);
      assert EntryLists(s, ns)[1..] == EntryLists(s, ns[1..]);
    }
  }

  lemma {:induction false} InnerBelow(s: Store, ns: seq<BTreeNode>, h: nat)
    requires h > 0 && Within(s, ns)
    ensures Flat(BelowLists(s, ns, h)) == Flat(BelowLists(s, Flat(ChildLists(s, ns)), h - 1))
  {
    if ns != [] {
      assert Within(s, ns[1..]) by { forall i | 0 <= i < |ns| - 1 ensures ns[1..][i] in s { assert ns[1..][i] == ns[i + 1]; } }
      InnerBelow(s, ns[1..], h);
      var cs, rest := s[ns[0]].children, Flat(ChildLists(s, ns[1..]));
      assert ChildLists(s, ns)[1..] == ChildLists(s, ns[1..]);
      assert Flat(ChildLists(s, ns)) == cs + rest;
      BelowConcat(s, cs, rest, h - 1);
      FlatConcat(BelowLists(s, cs, h - 1), BelowLists(s, rest, h - 1));
      assert BelowLists(s, ns, h)[1..] == BelowLists(s, ns[1..], h);
    }
  }

  // ---------- Inside one leaf ----------

  function MidPoint(l: nat, r: nat): nat {
    var mid := (l + r) / 2;
    if mid == l then mid + 1 else mid
  }

  /** The first key of keys[l..r] that is in the range, or -1. */
  function FindFirstKey(keys: seq<Key>, range: Range, l: nat, r: nat, favorR: Favor): (p: int)
    requires KeysSorted(keys) && l <= r < |keys| && favorR == Cover(keys[r], range)
    ensures p == -1 ==> NoTie(keys, range, l, r + 1)
    ensures p != -1 ==> l <= p <= r && Cover(keys[p], range) == Tie && NoTie(keys, range, l, p)
    decreases r - l
  {
    if l >= r then
      if favorR == Tie then r else -1
    else
      var favorL := Cover(keys[l], range);
      CoverSorted(keys, range);
      if favorL == Tie then l
      else if favorL == Lhs then -1
      else
        var mid := MidPoint(l, r);
        if mid == r then
          if favorR == Tie then r else -1
        else
          var favorM := Cover(keys[mid], range);
          if favorM == Tie then FindFirstKey(keys, range, l, mid, favorM)
          else if favorM == Rhs then FindFirstKey(keys, range, mid + 1, r, favorR)
          else FindFirstKey(keys, range, l + 1, mid, favorM)
  }

  /** The last key of keys[l..r] that is in the range, given that keys[l] is. */
  function FindLastKey(keys: seq<Key>, range: Range, l: nat, r: nat): (p: int)
    requires KeysSorted(keys) && l <= r < |keys| && Cover(keys[l], range) == Tie
    ensures l <= p <= r && Cover(keys[p], range) == Tie && NoTie(keys, range, p + 1, r + 1)
    decreases r - l
  {
    if l >= r then l
    else
      var favorR := Cover(keys[r], range);
      CoverSorted(keys, range);
      if favorR == Tie then r
      else if favorR == Rhs then l
      else
        var mid := MidPoint(l, r);
        if mid == r then l
        else
          var favorM := Cover(keys[mid], range);
          if favorM == Tie then FindLastKey(keys, range, mid, r)
          else if favorM == Lhs then FindLastKey(keys, range, l, mid - 1)
          else assert false; -1
  }

  lemma CoverSorted(keys: seq<Key>, range: Range)
    requires KeysSorted(keys)
    ensures forall i, j :: 0 <= i < j < |keys| ==>
      (Cover(keys[i], range) == Lhs ==> Cover(keys[j], range) == Lhs) && (Cover(keys[j], range) == Rhs ==> Cover(keys[i], range) == Rhs)
    ensures forall i :: 0 <= i < |keys| ==> (Contains(range, keys[i]) <==> Cover(keys[i], range) == Tie)
  {
    forall i, j | 0 <= i < j < |keys|
      ensures (Cover(keys[i], range) == Lhs ==> Cover(keys[j], range) == Lhs) && (Cover(keys[j], range) == Rhs ==> Cover(keys[i], range) == Rhs)
    {
      CoverMonotone(keys[i], keys[j], range);
    }
    forall i | 0 <= i < |keys| ensures Contains(range, keys[i]) <==> Cover(keys[i], range) == Tie {
      CoverMonotone(keys[i], keys[i], range);
    }
  }

  /** The keys in the range are those from position a up to b. */
  ghost predicate InRangeAre(keys: seq<Key>, range: Range, a: nat, b: nat) {
    a <= b <= |keys| && forall k :: 0 <= k < |keys| ==> (Contains(range, keys[k]) <==> a <= k < b)
  }

  lemma NoneInLeaf(keys: seq<Key>, range: Range)
    requires KeysSorted(keys) && keys != []
    requires Cover(keys[0], range) == Lhs || Cover(keys[|keys| - 1], range) == Rhs || NoTie(keys, range, 0, |keys|)
    ensures InRangeAre(keys, range, 0, 0)
  {
    CoverSorted(keys, range);
  }

  lemma SomeInLeaf(keys: seq<Key>, range: Range, left: nat, right: nat)
    requires KeysSorted(keys) && left <= right < |keys|
    requires Cover(keys[left], range) == Tie && Cover(keys[right], range) == Tie
    requires NoTie(keys, range, 0, left) && NoTie(keys, range, right + 1, |keys|)
    ensures InRangeAre(keys, range, left, right + 1)
  {
    CoverSorted(keys, range);
  }

  // ---------- From leaf to leaf ----------

  ghost function Leaves(s: Store, leaves: seq<BTreeNode>, i: nat): seq<Entry>
    requires i <= |leaves|
  {
    Flat(EntryLists(s, leaves)[..i])
  }

  ghost function LeavesFrom(s: Store, leaves: seq<BTreeNode>, i: nat): seq<Entry>
    requires i <= |leaves|
  {
    Flat(EntryLists(s, leaves)[i..])
  }

  lemma LeafTaken(s: Store, leaves: seq<BTreeNode>, i: nat, r: Range)
    requires i < |leaves| && leaves[i] in s
    ensures Leaves(s, leaves, i + 1) == Leaves(s, leaves, i) + LeafEntries(s[leaves[i]])
    ensures RowsIn(Leaves(s, leaves, i + 1), r) == RowsIn(Leaves(s, leaves, i), r) + RowsIn(LeafEntries(s[leaves[i]]), r)
    ensures RowsIn(LeavesFrom(s, leaves, i), r) == RowsIn(LeafEntries(s[leaves[i]]), r) + RowsIn(LeavesFrom(s, leaves, i + 1), r)
  {
    var xss := EntryLists(s, leaves);
    assert xss[..i + 1] == xss[..i] + [xss[i]];
    FlatConcat(xss[..i], [xss[i]]);
    assert Flat([xss[i]]) == xss[i] + Flat([]);
    assert xss[i..][0] == xss[i] && xss[i..][1..] == xss[i + 1..];
    RowsInConcat(Leaves(s, leaves, i), xss[i], r);
    RowsInConcat(xss[i], LeavesFrom(s, leaves, i + 1), r);
  }

  lemma LeavesSplit(s: Store, leaves: seq<BTreeNode>, i: nat, r: Range)
    requires i <= |leaves|
    ensures Entries(s, leaves) == Leaves(s, leaves, i) + LeavesFrom(s, leaves, i)
    ensures RowsIn(Entries(s, leaves), r) == RowsIn(Leaves(s, leaves, i), r) + RowsIn(LeavesFrom(s, leaves, i), r)
    ensures RowsIn(LeavesFrom(s, leaves, |leaves|), r) == []
  {
    var xss := EntryLists(s, leaves);
    assert xss == xss[..i] + xss[i..];
    FlatConcat(xss[..i], xss[i..]);
    RowsInConcat(Leaves(s, leaves, i), LeavesFrom(s, leaves, i), r);
    assert xss[|leaves|..] == [];
  }

  /** Where a scan of a range starts looking. */
  ghost predicate StartKey(s: Store, leaves: seq<BTreeNode>, r: Range, key: Key) {
    if r.from.Unbound? then |leaves| > 0 && leaves[0] in s && s[leaves[0]].keys != [] && key == s[leaves[0]].keys[0] else key == r.from.key
  }

  /** No key before the start leaf is in the range. */
  lemma NothingBefore(s: Store, L: seq<seq<BTreeNode>>, i: nat, r: Range, key: Key)
    requires |L| > 0 && LevelOk(s, L, 0) && Filled(s, L[0]) && Sorted(Entries(s, L[0])) && i < |L[0]|
    requires Fence(s, L[0][i], 0, key) && StartKey(s, L[0], r, key)
    ensures RowsIn(Leaves(s, L[0], i), r) == []
  {
    LeafFence(s, L, i, key);
    var before := EntriesBefore(s, L[0], i);
    assert before == Leaves(s, L[0], i);
    if r.from.Unbound? && i > 0 {
      BeforeFirst(s, L[0], i, key);
    }
    forall k | 0 <= k < |before| ensures !Contains(r, before[k].key) {
      assert before[k].key < key;
    }
    NoneIn(before, r);
  }

  lemma BeforeFirst(s: Store, leaves: seq<BTreeNode>, i: nat, key: Key)
    requires LeafLevel(s, leaves) && Filled(s, leaves) && 0 < i < |leaves|
    ensures |EntriesBefore(s, leaves, i)| > 0 && EntriesBefore(s, leaves, i)[0].key == s[leaves[0]].keys[0]
  {
    var xss := EntryLists(s, leaves);
    assert xss[..i][0] == xss[0];
  }

  /** A later leaf whose first key is outside the range ends it. */
  lemma NothingAfter(s: Store, L: seq<seq<BTreeNode>>, first: nat, i: nat, r: Range, key: Key)
    requires |L| > 0 && LevelOk(s, L, 0) && Filled(s, L[0]) && Sorted(Entries(s, L[0])) && first < i < |L[0]|
    requires Fence(s, L[0][first], 0, key) && StartKey(s, L[0], r, key)
    requires s[L[0][i]].keys != [] && Cover(s[L[0][i]].keys[0], r) != Tie
    ensures RowsIn(LeavesFrom(s, L[0], i), r) == []
  {
    var es := Entries(s, L[0]);
    assert LinkAt(s, L[0], first);
    if i > first + 1 { LeafKeysApart(s, L[0], first + 1, 0, i, 0); }
    assert key < s[L[0][i]].keys[0];
    assert Cover(s[L[0][i]].keys[0], r) == Lhs;
    var k := EntryAt(s, L[0], i, 0);
    LeavesSplit(s, L[0], i, r);
    assert es[k..] == LeavesFrom(s, L[0], i);
    NothingBeyond(es, k, r);
  }

  // ---------- Windows ----------

  lemma {:induction false} ReverseAt<T>(xs: seq<T>, k: nat)
    requires k < |xs|
    ensures Reverse(xs)[k] == xs[|xs| - 1 - k]
  {
    if k < |xs| - 1 { ReverseAt(xs[1..], k); }
  }

  /** Filling from the end and reversing is reversing first. */
  lemma ReverseWindow<T>(xs: seq<T>, skip: nat, wanted: nat)
    requires skip + wanted <= |xs|
    ensures Reverse(Take(Drop(xs, |xs| - wanted - skip), wanted)) == Take(Drop(Reverse(xs), skip), wanted)
  {
    var part := Take(Drop(xs, |xs| - wanted - skip), wanted);
    forall k | 0 <= k < wanted ensures Reverse(part)[k] == Take(Drop(Reverse(xs), skip), wanted)[k] {
      ReverseAt(part, k);
      ReverseAt(xs, skip + k);
    }
  }

  /** The limits that the code computes ask for no less than the caller's. */
  lemma WindowLimit<T>(xs: seq<T>, raw: Option<nat>, skip: nat, total: nat, limit: nat, wanted: nat)
    requires |xs| <= total && limit == (if raw.Some? then Min(raw.value, total) else total)
    requires wanted == Min(if total - skip > 0 then total - skip else 0, limit)
    ensures Take(Drop(xs, skip), if raw.Some? then raw.value else |xs|) == Take(Drop(xs, skip), wanted) == Take(Drop(xs, skip), limit)
  {
  }

  /** Without a bound on what is listed, the limits clip it to what the tree has. */
  lemma WindowClipped<T>(xs: seq<T>, raw: Option<nat>, skip: nat, total: nat, limit: nat, wanted: nat)
    requires limit == (if raw.Some? then Min(raw.value, total) else total)
    requires wanted == Min(if total - skip > 0 then total - skip else 0, limit)
    ensures Take(Take(Drop(xs, skip), if raw.Some? then raw.value else |xs|), if total > skip then total - skip else 0) == Take(Drop(xs, skip), wanted)
  {
  }

  /** What is listed: everything, or range by range in order. */
  ghost function Listed(es: seq<Entry>, keyRanges: Option<seq<Range>>): seq<RowId> {
    if keyRanges.None? then AllRows(es) else RowsOver(es, SortRanges(keyRanges.value))
  }

  lemma ListedFacts(es: seq<Entry>, keyRanges: Option<seq<Range>>)
    requires Sorted(es)
    ensures |AllRows(es)| == Total(es) && (es == [] ==> Listed(es, keyRanges) == [])
    ensures keyRanges.None? ==> Listed(es, keyRanges) == AllRows(es)
    ensures keyRanges.Some? ==> Listed(es, keyRanges) == RowsOver(es, SortRanges(keyRanges.value))
    ensures keyRanges.Some? && Disjoint(SortRanges(keyRanges.value)) ==>
      Listed(es, keyRanges) == RowsWhere(es, keyRanges.value) && |Listed(es, keyRanges)| <= Total(es)
  {
    AllRowsTotal(es);
    if es == [] && keyRanges.Some? { NoEntries(SortRanges(keyRanges.value)); }
    if keyRanges.Some? && Disjoint(SortRanges(keyRanges.value)) {
      SortedScan(es, keyRanges.value);
      RowsWhereBound(es, keyRanges.value);
    }
  }

  lemma {:induction false} NoEntries(rs: seq<Range>)
    ensures RowsOver([], rs) == []
  {
    if rs != [] { NoEntries(rs[1..]); }
  }

  lemma NoWindow(all: seq<RowId>, reverse: bool, skip: nat)
    ensures Window(all, reverse, 0, skip) == []
    ensures all == [] ==> forall limit: nat :: Window(all, reverse, limit, skip) == []
  {
  }

  lemma WindowIs(all: seq<RowId>, reverse: bool, limit: nat, skip: nat)
    ensures Window(all, reverse, limit, skip) == Take(Drop(if reverse then Reverse(all) else all, skip), limit)
  {
  }

  lemma NoneTaken(xs: seq<RowId>)
    ensures Take(xs, 0) == [] && forall n: nat :: Take<RowId>([], n) == []
  {
  }

  lemma LimitFacts(total: nat, skip: nat, limit: nat)
    requires limit <= total
    ensures 0 <= Min(if total - skip > 0 then total - skip else 0, limit) <= limit
    ensures Min(if total - skip > 0 then total - skip else 0, limit) > 0 ==>
      Min(if total - skip > 0 then total - skip else 0, limit) <= total - skip
  {
  }

  lemma OneForAll(es: seq<Entry>, rs: seq<Range>)
    requires |rs| == 1 && IsAll(rs[0])
    ensures RowsOver(es, SortRanges(rs)) == AllRows(es)
  {
    assert rs[1..] == [] && SortRanges(rs) == [rs[0]];
    var one := [rs[0]];
    assert one[1..] == [] && RowsOver(es, one) == RowsIn(es, rs[0]) + [];
    AllIn(es, rs[0]);
  }

  lemma SortedScan(es: seq<Entry>, rs: seq<Range>)
    requires Sorted(es) && Disjoint(SortRanges(rs))
    ensures RowsOver(es, SortRanges(rs)) == RowsWhere(es, rs)
  {
    RangesAreOneFilter(es, SortRanges(rs));
    SameFilter(es, rs, SortRanges(rs));
  }

  lemma {:induction false} SameFilter(es: seq<Entry>, rs: seq<Range>, ss: seq<Range>)
    requires multiset(rs) == multiset(ss)
    ensures RowsWhere(es, rs) == RowsWhere(es, ss)
  {
    if es != [] {
      SameKeys(rs, ss, es[0].key);
      SameFilter(es[1..], rs, ss);
    }
  }

  lemma RangeTaken(es: seq<Entry>, rs: seq<Range>, i: nat, P: seq<RowId>)
    requires i < |rs| && P + RowsOver(es, rs[i..]) == RowsOver(es, rs)
    ensures P + RowsIn(es, rs[i]) + RowsOver(es, rs[i + 1..]) == RowsOver(es, rs)
    ensures |P + RowsIn(es, rs[i])| <= |RowsOver(es, rs)|
  {
    assert rs[i..][1..] == rs[i + 1..];
    var here, rest := RowsIn(es, rs[i]), RowsOver(es, rs[i + 1..]);
    assert RowsOver(es, rs[i..]) == here + rest;
    hide RowsIn, RowsOver;
    assert P + here + rest == P + (here + rest);
  }

  lemma NothingTaken(es: seq<Entry>, rs: seq<Range>)
    ensures [] + RowsOver(es, rs[0..]) == RowsOver(es, rs)
  {
    assert rs[0..] == rs;
  }

  lemma AllTaken(es: seq<Entry>, rs: seq<Range>, P: seq<RowId>)
    requires P + RowsOver(es, rs[|rs|..]) == RowsOver(es, rs)
    ensures P == RowsOver(es, rs)
  {
    assert P + [] == P;
  }

  lemma Regroup(P: seq<RowId>, before: seq<RowId>, mine: seq<RowId>, after: seq<RowId>)
    ensures P + before + mine == P + (before + mine)
    ensures before + (mine + after) == before + mine + after
    ensures |P + before + mine| <= |P + (before + (mine + after))|
    ensures P + before + [] == P + before && before + [] == before && [] + before == before
  {
  }

  lemma NoRest(mine: seq<RowId>, after: seq<RowId>)
    requires mine + after == []
    ensures after == []
  {
    assert |after| == 0;
  }

  lemma FoundRange(rec: Rec, r: Range, a: nat, b: nat)
    requires |rec.keys| == |rec.values| && InRangeAre(rec.keys, r, a, b)
    ensures RowsIn(LeafEntries(rec), r) == AllRows(LeafEntries(rec)[a..b])
    ensures a == b ==> RowsIn(LeafEntries(rec), r) == []
  {
    LeafRowsIn(rec, r, a, b);
  }

  lemma LeftBeforeRight(keys: seq<Key>, r: Range)
    requires KeysSorted(keys) && keys != [] && Cover(keys[0], r) == Rhs && Cover(keys[|keys| - 1], r) != Rhs
    ensures |keys| > 1
  {
  }

  lemma FirstFound(keys: seq<Key>, r: Range, left: int)
    requires keys != [] && (Cover(keys[0], r) == Tie ==> left == 0)
    requires Cover(keys[0], r) != Tie && left == -1 ==> NoTie(keys, r, 1, |keys|)
    requires Cover(keys[0], r) != Tie && left != -1 ==> 1 <= left < |keys| && NoTie(keys, r, 1, left)
    ensures left == -1 ==> NoTie(keys, r, 0, |keys|)
    ensures left != -1 ==> left >= 0 && NoTie(keys, r, 0, left)
  {
  }

  // ---------- Filling child after child ----------

  lemma LeafBelow(s: Store, n: BTreeNode)
    requires n in s
    ensures EntriesBelow(s, n, 0) == LeafEntries(s[n])
  {
  }

  lemma InnerIsKids(s: Store, n: BTreeNode, h: nat)
    requires n in s && h > 0
    ensures EntriesBelow(s, n, h) == Flat(BelowLists(s, s[n].children, h - 1))
  {
  }

  lemma NoKidsYet(s: Store, cs: seq<BTreeNode>, h: nat, P: seq<RowId>)
    ensures P + AllRows(Flat(BelowLists(s, cs[..0], h))) == P
  {
    assert cs[..0] == [];
    assert P + [] == P;
  }

  lemma NextKid(s: Store, cs: seq<BTreeNode>, h: nat, k: nat, P: seq<RowId>)
    requires k < |cs|
    ensures P + AllRows(Flat(BelowLists(s, cs[..k], h))) + AllRows(EntriesBelow(s, cs[k], h)) == P + AllRows(Flat(BelowLists(s, cs[..k + 1], h)))
  {
    var mine := EntriesBelow(s, cs[k], h);
    assert cs[..k + 1] == cs[..k] + [cs[k]];
    BelowConcat(s, cs[..k], [cs[k]], h);
    OneBelow(s, cs[k], h);
    FlatConcat(BelowLists(s, cs[..k], h), [mine]);
    assert Flat([mine]) == mine by { FlatAround([mine], 0); }
    AllRowsConcat(Flat(BelowLists(s, cs[..k], h)), mine);
    Associate(P, AllRows(Flat(BelowLists(s, cs[..k], h))), AllRows(mine), []);
  }

  lemma OneBelow(s: Store, c: BTreeNode, h: nat)
    ensures BelowLists(s, [c], h) == [EntriesBelow(s, c, h)]
  {
    assert [c][1..] == [];
  }

  lemma RestOfKids(s: Store, cs: seq<BTreeNode>, h: nat, k: nat, P: seq<RowId>)
    requires k <= |cs|
    ensures P + AllRows(Flat(BelowLists(s, cs[..k], h))) + AllRows(Flat(BelowLists(s, cs[k..], h))) == P + AllRows(Flat(BelowLists(s, cs, h)))
    ensures k == |cs| ==> cs[..k] == cs
  {
    assert cs == cs[..k] + cs[k..];
    BelowConcat(s, cs[..k], cs[k..], h);
    FlatConcat(BelowLists(s, cs[..k], h), BelowLists(s, cs[k..], h));
    AllRowsConcat(Flat(BelowLists(s, cs[..k], h)), Flat(BelowLists(s, cs[k..], h)));
    Associate(P, AllRows(Flat(BelowLists(s, cs[..k], h))), AllRows(Flat(BelowLists(s, cs[k..], h))), []);
  }
}
