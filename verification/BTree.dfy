/** The B+-tree index: nodes are linked objects changed in place. */
module BTreeIndex {
  import opened Flatten
  import opened BTreeStore
  import opened BTreeRebalance
  import opened BTreeSteps
  import opened BTreeDeletion
  import opened BTreeSearch
  import opened BTreeInsertion
  import opened BTreeContents
  import opened SortedRows
  import opened BTreeUpdates
  import opened BTreeRemoval
  import opened BTreeScan
  import opened KeyRanges

  class BTree {
    const maxCount: nat
    const unique: bool
    var root: BTreeNode
    var totalRows: int
    ghost var nodes: set<BTreeNode>
    ghost var levels: seq<seq<BTreeNode>>

    // ---------- The snapshot and what it means ----------

    ghost function SnapOf(n: BTreeNode): (r: Rec)
      reads n
      ensures r.height == n.height && r.keys == n.keys && r.values == n.values && r.children == n.children
      ensures r.parent == n.parent && r.prev == n.prev && r.next == n.next
    {
      Rec(n.height, n.keys, n.values, n.children, n.parent, n.prev, n.next)
    }

    ghost function Snap(): Store
      reads this`nodes, nodes
    {
      map n | n in nodes :: SnapOf(n)
    }

    ghost function List(): seq<Entry>
      requires |levels| > 0
      reads this`nodes, this`levels, nodes
    {
      Entries(Snap(), levels[0])
    }

    /** The multimap this index stands for. */
    ghost function Contents(): map<Key, set<RowId>>
      requires |levels| > 0
      reads this`nodes, this`levels, nodes
    {
      ContentsOf(List())
    }

    ghost predicate Shaped()
      reads this`nodes, this`levels, nodes
    {
      && maxCount >= 5
      && Tree(Snap(), levels)
      && Sized(Snap(), levels, maxCount)
    }

    ghost predicate Valid()
      reads this, nodes
    {
      && Shaped()
      && root == levels[|levels| - 1][0]
      && EntriesOk(List(), unique)
      && totalRows == Total(List())
    }

    constructor (maxCount: nat, unique: bool)
      requires maxCount >= 5
      ensures Valid() && fresh(nodes)
      ensures Contents() == map[] && this.maxCount == maxCount && this.unique == unique
      ensures Roomy(Snap(), levels, maxCount, |levels| - 1)
    {
      this.maxCount := maxCount;
      this.unique := unique;
      var leaf := new BTreeNode(0, [], [], [], null);
      root := leaf;
      totalRows := 0;
      nodes := {leaf};
      levels := [[leaf]];
      new;
      LoneLeaf(Snap(), leaf, maxCount);
    }

    lemma ShapedFacts()
      requires Shaped()
      ensures Filled(Snap(), levels[0])
      ensures forall h :: 0 <= h < |levels| ==> LevelOk(Snap(), levels, h)
    {
      assert LevelOk(Snap(), levels, 0);
      if |levels| == 1 { assert |levels[0]| == 1; }
      else {
        assert NonRootSized(Snap(), levels[0], maxCount, 0);
      }
    }

    // ---------- Searching ----------

    /** The position where the key is the closest smaller or equal. */
    method SearchKey(n: BTreeNode, key: Key) returns (pos: nat)
      requires KeysSorted(n.keys)
      ensures SearchPos(n.keys, key, pos)
    {
      var left, right := 0, |n.keys|;
      while left < right
        invariant 0 <= left <= right <= |n.keys|
        invariant forall i :: 0 <= i < left ==> n.keys[i] < key
        invariant forall i :: right <= i < |n.keys| ==> key <= n.keys[i]
      {
        var middle := (left + right) / 2;
        if n.keys[middle] < key {
          left := middle + 1;
        } else {
          right := middle;
        }
      }
      pos := left;
    }

    method Get(key: Key) returns (rows: seq<RowId>)
      requires Valid()
      ensures Increasing(rows)
      ensures Elements(rows) == if key in Contents() then Contents()[key] else {}
    {
      hide *;
      RootFence(key);
      rows := GetBelow(root, key, |levels| - 1, 0);
    }

    lemma SnapKeys()
      ensures Snap().Keys == nodes
    {
    }

    lemma SnapAt(n: BTreeNode)
      requires n in nodes
      ensures n in Snap() && Snap()[n] == SnapOf(n)
    {
    }

    /** Valid, in terms of the snapshot. */
    lemma Meaning()
      requires Valid()
      ensures |levels| > 0 && Contents() == ContentsOf(Entries(Snap(), levels[0]))
      ensures totalRows == Total(Entries(Snap(), levels[0])) && EntriesOk(Entries(Snap(), levels[0]), unique)
      ensures maxCount >= 5 && Tree(Snap(), levels) && Sized(Snap(), levels, maxCount)
      ensures levels[|levels| - 1] == [root] && Filed(Entries(Snap(), levels[0]), totalRows, unique, Contents())
    {
    }

    lemma NodeFacts(h: nat, i: nat)
      requires Valid() && h < |levels| && i < |levels[h]|
      ensures var n := levels[h][i];
        n in nodes && n in Snap() && Snap()[n] == SnapOf(n) && KeysSorted(n.keys) && n.height == h
        && (h == 0 ==> |n.keys| == |n.values|)
    {
      ShapedFacts();
      assert LevelOk(Snap(), levels, h);
      NodeKeysSorted(Snap(), levels, h, i);
    }

    lemma RootFence(key: Key)
      requires Valid()
      ensures |levels| > 0 && levels[|levels| - 1] == [root] && Fence(Snap(), root, |levels| - 1, key)
    {
      assert LevelOk(Snap(), levels, |levels| - 1);
      assert LinkAt(Snap(), levels[|levels| - 1], 0);
    }

    /** At the fenced leaf the search position decides. */
    lemma AtLeaf(i: nat, key: Key, pos: nat)
      requires Valid() && i < |levels[0]|
      requires levels[0][i] in Snap() && Fence(Snap(), levels[0][i], 0, key) && SearchPos(Snap()[levels[0][i]].keys, key, pos)
      ensures var r := Snap()[levels[0][i]];
        && KeysSorted(r.keys) && |r.keys| == |r.values| && pos <= |r.keys|
        && (FoundAt(r, key, pos) <==> key in Contents())
        && (FoundAt(r, key, pos) ==> pos < |r.keys| && Contents()[key] == Elements(r.values[pos]) && RowsOk(r.values[pos], unique))
        && CutHere(Snap(), levels[0], i, key, pos, unique)
    {
      ShapedFacts();
      var s := Snap();
      var r := s[levels[0][i]];
      LeafKeysSorted(s, levels[0], i);
      LeafFence(s, levels, i, key);
      var before, after := EntriesBefore(s, levels[0], i), EntriesAfter(s, levels[0], i);
      CutInLeaf(before, r, after, key, pos, unique);
      var q := if FoundAt(r, key, pos) then pos + 1 else pos;
      var mid := if FoundAt(r, key, pos) then [Entry(key, r.values[pos])] else [];
      assert LeafEntries(r)[pos..q] == mid;
      Refile(List(), before + LeafEntries(r)[..pos], mid, LeafEntries(r)[q..] + after, key, unique, mid);
    }

    method GetBelow(n: BTreeNode, key: Key, ghost h: nat, ghost i: nat) returns (rows: seq<RowId>)
      requires Valid() && h < |levels| && i < |levels[h]| && levels[h][i] == n
      requires Fence(Snap(), n, h, key)
      ensures Increasing(rows)
      ensures Elements(rows) == if key in Contents() then Contents()[key] else {}
      decreases h
    {
      hide *;
      NodeFacts(h, i);
      var pos := SearchKey(n, key);
      if n.height == 0 {
        AtLeaf(i, key, pos);
        FoundFacts(Snap()[n], key, pos);
        rows := if pos < |n.keys| && n.keys[pos] == key then n.values[pos] else [];
      } else {
        InnerFacts(h, i);
        ghost var j := FenceDown(Snap(), levels, h, i, key, pos);
        rows := GetBelow(n.children[ChildPos(n.keys, key, pos)], key, h - 1, j);
      }
    }

    method ContainsKey(key: Key) returns (found: bool)
      requires Valid()
      ensures found <==> key in Contents()
    {
      hide *;
      RootFence(key);
      found := ContainsBelow(root, key, |levels| - 1, 0);
    }

    /** A separator equal to the key ends the search early: separators are live keys. */
    method ContainsBelow(n: BTreeNode, key: Key, ghost h: nat, ghost i: nat) returns (found: bool)
      requires Valid() && h < |levels| && i < |levels[h]| && levels[h][i] == n
      requires Fence(Snap(), n, h, key)
      ensures found <==> key in Contents()
      decreases h
    {
      hide *;
      NodeFacts(h, i);
      var pos := SearchKey(n, key);
      FoundFacts(Snap()[n], key, pos);
      if pos < |n.keys| && n.keys[pos] == key {
        found := true;
        if h == 0 { AtLeaf(i, key, pos); } else { SeparatorLive(h, i, pos); }
      } else if n.height == 0 {
        AtLeaf(i, key, pos);
        found := false;
      } else {
        InnerFacts(h, i);
        NotFoundPos(n.keys, key, pos);
        ghost var j := FenceDown(Snap(), levels, h, i, key, pos);
        found := ContainsBelow(n.children[pos], key, h - 1, j);
      }
    }

    lemma SeparatorLive(h: nat, i: nat, pos: nat)
      requires Valid()
      requires 0 < h < |levels| && i < |levels[h]| && levels[h][i] in Snap() && pos < |Snap()[levels[h][i]].keys|
      ensures Snap()[levels[h][i]].keys[pos] in Contents()
    {
      ShapedFacts();
      var s := Snap();
      assert LevelOk(s, levels, h) && LevelOk(s, levels, h - 1) && LevelOk(s, levels, 0);
      assert InnerNode(s, levels[h][i], h);
      var c := ChildBelow(s, levels, h, i, pos + 1);
      FirstInLevel(s, levels, h, i, pos + 1, c);
      var j := LeftLeaf(s, levels, h - 1, c);
      var k := EntryAt(s, levels[0], j, 0);
      ContentsListed(List());
    }

    lemma FirstInLevel(s: Store, L: seq<seq<BTreeNode>>, h: nat, i: nat, p: nat, c: nat)
      requires 0 < h < |L| && i < |L[h]| && p > 0 && c == Offset(ChildLists(s, L[h]), i) + p
      ensures c > 0
    {
    }

    // ---------- Range scans ----------

    /** The row ids in the given ranges, or all, in index order or reversed, skipped and limited.  Ranges
        that overlap are listed one after the other, and no more rows come than the tree has. */
    method GetRange(keyRanges: Option<seq<Range>>, reverse: bool, rawLimit: Option<nat>, skip: nat) returns (rows: seq<RowId>)
      requires Valid() && (keyRanges.Some? && reverse ==> Disjoint(SortRanges(keyRanges.value)))
      ensures keyRanges.None? || Disjoint(SortRanges(keyRanges.value)) ==>
        var all := if keyRanges.None? then AllRows(Entries(Snap(), levels[0])) else RowsWhere(Entries(Snap(), levels[0]), keyRanges.value);
        rows == Window(all, reverse, if rawLimit.Some? then rawLimit.value else |all|, skip)
      ensures keyRanges.Some? && !reverse ==>
        var all := RowsOver(Entries(Snap(), levels[0]), SortRanges(keyRanges.value));
        rows == Take(Window(all, false, if rawLimit.Some? then rawLimit.value else |all|, skip), if totalRows > skip then totalRows - skip else 0)
    {
      hide *;
      Meaning();
      ghost var es := Entries(Snap(), levels[0]);
      ghost var all := Listed(es, keyRanges);
      ghost var apart := keyRanges.None? || Disjoint(SortRanges(keyRanges.value));
      ListedFacts(es, keyRanges);
      RootFence(0);
      var first := LeftMostNode(root, |levels| - 1, 0);
      FirstLeaf();
      if |first.keys| == 0 || rawLimit == Some(0) {
        NoWindow(all, reverse, skip);
        NoneTaken([]);
        return [];
      }
      var limit := if rawLimit.Some? then Min(rawLimit.value, totalRows) else totalRows;
      var wanted := Min(if totalRows - skip > 0 then totalRows - skip else 0, limit);
      LimitFacts(totalRows, skip, limit);
      ghost var ordered := if reverse then Reverse(all) else all;
      if apart { WindowLimit(ordered, rawLimit, skip, totalRows, limit, wanted); }
      WindowClipped(ordered, rawLimit, skip, totalRows, limit, wanted);
      WindowIs(all, reverse, if rawLimit.Some? then rawLimit.value else |all|, skip);
      if wanted == 0 {
        NoneTaken(Drop(ordered, skip));
        return [];
      }
      if keyRanges.None? || (|keyRanges.value| == 1 && IsAll(keyRanges.value[0])) {
        rows := GetAll(wanted, reverse, skip);
        if keyRanges.Some? { OneForAll(es, keyRanges.value); }
        if reverse { ReverseWindow(all, skip, wanted); }
      } else {
        var sorted := SortRanges(keyRanges.value);
        var results := Scan(sorted, first.keys[0], reverse, if reverse then totalRows else wanted, skip);
        rows := if reverse then Slice(Reverse(results), limit, skip) else results;
      }
    }

    lemma FirstLeaf()
      requires Valid()
      ensures |levels[0]| > 0 && levels[0][0] in nodes
      ensures |levels[0][0].keys| == 0 ==> Entries(Snap(), levels[0]) == []
    {
      ShapedFacts();
      if levels[0][0].keys == [] {
        assert |levels[0]| == 1;
        var xss := EntryLists(Snap(), levels[0]);
        FlatDrop(xss, 0);
        assert xss[..0] + xss[1..] == [];
      }
    }

    method LeftMostNode(n: BTreeNode, ghost h: nat, ghost i: nat) returns (leaf: BTreeNode)
      requires Valid() && h < |levels| && i < |levels[h]| && levels[h][i] == n
      ensures i == 0 ==> |levels[0]| > 0 && leaf == levels[0][0]
      decreases h
    {
      hide *;
      NodeFacts(h, i);
      if n.height == 0 {
        leaf := n;
      } else {
        ghost var j := FirstChild(h, i);
        leaf := LeftMostNode(n.children[0], h - 1, j);
      }
    }

    lemma FirstChild(h: nat, i: nat) returns (j: nat)
      requires Valid() && 0 < h < |levels| && i < |levels[h]|
      ensures levels[h][i] in nodes && |levels[h][i].children| > 0 && j < |levels[h - 1]| && levels[h - 1][j] == levels[h][i].children[0]
      ensures i == 0 ==> j == 0
    {
      var s := Snap();
      assert LevelOk(s, levels, h);
      assert InnerNode(s, levels[h][i], h);
      j := ChildBelow(s, levels, h, i, 0);
      if i == 0 { assert ChildLists(s, levels[h])[..0] == []; }
    }

    method ContainingLeaf(n: BTreeNode, key: Key, ghost h: nat, ghost i: nat) returns (leaf: BTreeNode, ghost j: nat)
      requires Valid() && h < |levels| && i < |levels[h]| && levels[h][i] == n
      requires Fence(Snap(), n, h, key)
      ensures |levels| > 0 && j < |levels[0]| && leaf == levels[0][j] && Fence(Snap(), leaf, 0, key)
      decreases h
    {
      hide *;
      NodeFacts(h, i);
      if n.height == 0 {
        leaf, j := n, i;
      } else {
        InnerFacts(h, i);
        var pos := SearchKey(n, key);
        ghost var c := FenceDown(Snap(), levels, h, i, key, pos);
        leaf, j := ContainingLeaf(n.children[ChildPos(n.keys, key, pos)], key, h - 1, c);
      }
    }

    /** The scan proper: range after range, leaf after leaf. */
    method Scan(sorted: seq<Range>, leftMostKey: Key, reverse: bool, limit: nat, skip: nat) returns (results: seq<RowId>)
      requires Valid() && limit > 0
      requires |levels| > 0 && |levels[0]| > 0 && levels[0][0].keys != [] && leftMostKey == levels[0][0].keys[0]
      requires reverse ==> |RowsOver(Entries(Snap(), levels[0]), sorted)| <= limit
      ensures var all := RowsOver(Entries(Snap(), levels[0]), sorted);
        results == if reverse then all else Take(Drop(all, skip), limit)
    {
      hide *;
      ghost var es := Entries(Snap(), levels[0]);
      var params := new Collector(limit, reverse, skip);
      ghost var P := [];
      var i := 0;
      NothingTaken(es, sorted);
      while i < |sorted|
        invariant i <= |sorted| && P + RowsOver(es, sorted[i..]) == RowsOver(es, sorted)
        invariant params.Collected(P, skip)
      {
        RangeTaken(es, sorted, i, P);
        ScanRange(sorted[i], leftMostKey, params, P, skip);
        P := P + RowsIn(es, sorted[i]);
        i := i + 1;
      }
      AllTaken(es, sorted, P);
      results := params.results;
      params.Done(P, skip);
    }

    /** One range: from the leaf that can hold its lower end until two first keys in a row are
        outside. */
    method ScanRange(range: Range, leftMostKey: Key, params: Collector, ghost P: seq<RowId>, ghost skip0: nat)
      requires Valid() && params.Collected(P, skip0) && params.limit > 0
      requires |levels| > 0 && |levels[0]| > 0 && levels[0][0].keys != [] && leftMostKey == levels[0][0].keys[0]
      requires params.reverse ==> |P + RowsIn(Entries(Snap(), levels[0]), range)| <= params.limit
      modifies params
      ensures params.Collected(P + RowsIn(Entries(Snap(), levels[0]), range), skip0)
    {
      hide *;
      var key := if range.from.Unbound? then leftMostKey else range.from.key;
      RootFence(key);
      assert P + [] == P;
      ghost var s := Snap();
      ghost var first;
      var leaf;
      leaf, first := ContainingLeaf(root, key, |levels| - 1, 0);
      ScanFacts(range, key);
      NothingBefore(s, levels, first, range, key);
      var start: BTreeNode? := leaf;
      var strikeCount := 0;
      ghost var i := first;
      LeavesSplit(s, levels[0], i, range);
      AtLevel(levels[0], i);
      while start != null && |params.results| < params.limit
        invariant first <= i <= |levels[0]|
        invariant start != null ==> i < |levels[0]| && start == levels[0][i]
        invariant start == null ==> RowsIn(LeavesFrom(s, levels[0], i), range) == []
        invariant params.Collected(P + RowsIn(Leaves(s, levels[0], i), range), skip0)
        invariant RowsIn(Entries(s, levels[0]), range) == RowsIn(Leaves(s, levels[0], i), range) + RowsIn(LeavesFrom(s, levels[0], i), range)
        invariant 0 <= strikeCount <= 1 && (strikeCount == 1 ==> first < i)
        decreases |levels[0]| - i
      {
        NodeFacts(0, i);
        NextLeaf(i);
        LeafTaken(s, levels[0], i, range);
        LeavesSplit(s, levels[0], i + 1, range);
        ghost var before, mine, after := RowsIn(Leaves(s, levels[0], i), range), RowsIn(LeafEntries(s[start]), range), RowsIn(LeavesFrom(s, levels[0], i + 1), range);
        Regroup(P, before, mine, after);
        ScanLeaf(start, range, params, i, P + before, skip0);
        if params.skip == 0 && Cover(start.keys[0], range) != Tie {
          strikeCount := strikeCount + 1;
        } else {
          strikeCount := 0;
        }
        if strikeCount == 2 {
          NothingAfter(s, levels, first, i, range, key);
          NoRest(mine, after);
        }
        start := if strikeCount == 2 then null else start.next;
        strikeCount := if strikeCount == 2 then 0 else strikeCount;
        i := i + 1;
      }
      ghost var before, rest := RowsIn(Leaves(s, levels[0], i), range), RowsIn(LeavesFrom(s, levels[0], i), range);
      Regroup(P, before, rest, []);
      if start != null {
        params.Enough(P + before, rest, skip0);
      }
    }

    lemma ScanFacts(range: Range, key: Key)
      requires Valid() && |levels| > 0 && |levels[0]| > 0 && levels[0][0].keys != []
      requires key == if range.from.Unbound? then levels[0][0].keys[0] else range.from.key
      ensures LevelOk(Snap(), levels, 0) && Filled(Snap(), levels[0]) && Sorted(Entries(Snap(), levels[0]))
      ensures StartKey(Snap(), levels[0], range, key)
    {
      ShapedFacts();
    }

    lemma AtLevel(ns: seq<BTreeNode>, i: nat)
      requires i < |ns|
      ensures At(ns, i) == ns[i]
    {
    }

    lemma NextLeaf(i: nat)
      requires Valid() && i < |levels[0]| && levels[0][0].keys != []
      ensures levels[0][i] in nodes && levels[0][i].keys != []
      ensures if i + 1 < |levels[0]| then levels[0][i].next == levels[0][i + 1] else levels[0][i].next == null
      ensures RowsIn(LeavesFrom(Snap(), levels[0], |levels[0]|), All()) == []
    {
      ShapedFacts();
      LeavesSplit(Snap(), levels[0], 0, All());
      assert LinkAt(Snap(), levels[0], i);
    }

    /** getRange of a leaf. */
    method ScanLeaf(n: BTreeNode, range: Range, params: Collector, ghost i: nat, ghost P: seq<RowId>, ghost skip0: nat)
      requires Valid() && i < |levels[0]| && levels[0][i] == n && n in Snap() && n.keys != []
      requires params.Collected(P, skip0) && params.limit > 0
      requires params.reverse ==> |P + RowsIn(LeafEntries(Snap()[n]), range)| <= params.limit
      modifies params
      ensures params.Collected(P + RowsIn(LeafEntries(Snap()[n]), range), skip0)
    {
      hide *;
      Meaning();
      NodeFacts(0, i);
      LeafValues(i);
      ghost var es := LeafEntries(Snap()[n]);
      var left, right: int := 0, |n.keys| - 1;
      var favorLeft, favorRight := Cover(n.keys[left], range), Cover(n.keys[right], range);
      assert P + [] == P;
      if favorLeft == Lhs || (favorLeft == Rhs && favorRight == Rhs) {
        NoneInLeaf(n.keys, range);
        FoundRange(SnapOf(n), range, 0, 0);
        return;
      }
      if favorLeft != Tie {
        LeftBeforeRight(n.keys, range);
        left := FindFirstKey(n.keys, range, left + 1, right, favorRight);
      }
      FirstFound(n.keys, range, left);
      if left != -1 {
        right := FindLastKey(n.keys, range, left, right);
        if right != -1 && right >= left {
          SomeInLeaf(n.keys, range, left, right);
          FoundRange(SnapOf(n), range, left, right + 1);
          params.AppendResults(n.values, left, right + 1, unique, es, P, skip0);
        }
      } else {
        NoneInLeaf(n.keys, range);
        FoundRange(SnapOf(n), range, 0, 0);
      }
    }

    lemma LeafValues(i: nat)
      requires Valid() && i < |levels[0]| && levels[0][i] in Snap()
      ensures var n := levels[0][i];
        var es := LeafEntries(Snap()[n]);
        |es| == |n.values| && forall k :: 0 <= k < |es| ==> es[k].rows == n.values[k] && RowsOk(n.values[k], unique)
    {
      ShapedFacts();
      var n := levels[0][i];
      var es := LeafEntries(Snap()[n]);
      forall k | 0 <= k < |es| ensures es[k].rows == n.values[k] && RowsOk(n.values[k], unique) {
        var p := EntryAt(Snap(), levels[0], i, k);
      }
    }

    method GetAll(wanted: nat, reverse: bool, skip: nat) returns (rows: seq<RowId>)
      requires Valid() && wanted > 0 && wanted <= totalRows - skip
      ensures var all := AllRows(Entries(Snap(), levels[0]));
        rows == if reverse then Reverse(Take(Drop(all, totalRows - wanted - skip), wanted)) else Take(Drop(all, skip), wanted)
    {
      hide *;
      RootFence(0);
      RootHoldsAll();
      var off := if reverse then totalRows - wanted - skip else skip;
      var params := new Filler(off, wanted);
      Fill(root, params, |levels| - 1, 0, [], off, wanted);
      assert [] + AllRows(Entries(Snap(), levels[0])) == AllRows(Entries(Snap(), levels[0]));
      params.Done(AllRows(Entries(Snap(), levels[0])), off, wanted);
      rows := if reverse then Reverse(params.results) else params.results;
    }

    lemma RootHoldsAll()
      requires Valid()
      ensures EntriesBelow(Snap(), root, |levels| - 1) == Entries(Snap(), levels[0])
    {
      LevelHoldsAll(Snap(), levels, |levels| - 1);
      var xss := BelowLists(Snap(), levels[|levels| - 1], |levels| - 1);
      assert levels[|levels| - 1] == [root];
      FlatAround(xss, 0);
      assert xss[..0] == [] && xss[1..] == [];
    }

    method Fill(n: BTreeNode, params: Filler, ghost h: nat, ghost i: nat, ghost P: seq<RowId>, ghost offset0: nat, ghost wanted: nat)
      requires Valid() && h < |levels| && i < |levels[h]| && levels[h][i] == n
      requires params.Filled(P, offset0, wanted) && wanted > 0
      modifies params
      ensures params.Filled(P + AllRows(EntriesBelow(Snap(), n, h)), offset0, wanted)
      decreases h
    {
      hide *;
      NodeFacts(h, i);
      ghost var s := Snap();
      if n.height == 0 {
        LeafValues(i);
        LeafBelow(s, n);
        params.FillLeaf(n.values, unique, LeafEntries(s[n]), P, offset0, wanted);
      } else {
        KidLevels(h, i);
        var k := 0;
        NoKidsYet(s, n.children, h - 1, P);
        while k < |n.children| && params.count > 0
          invariant k <= |n.children|
          invariant params.Filled(P + AllRows(Flat(BelowLists(s, n.children[..k], h - 1))), offset0, wanted)
        {
          ghost var j :| 0 <= j < |levels[h - 1]| && levels[h - 1][j] == n.children[k];
          Fill(n.children[k], params, h - 1, j, P + AllRows(Flat(BelowLists(s, n.children[..k], h - 1))), offset0, wanted);
          NextKid(s, n.children, h - 1, k, P);
          k := k + 1;
        }
        InnerIsKids(s, n, h);
        RestOfKids(s, n.children, h - 1, k, P);
        if k < |n.children| {
          params.Enough(P + AllRows(Flat(BelowLists(s, n.children[..k], h - 1))), AllRows(Flat(BelowLists(s, n.children[k..], h - 1))), offset0, wanted);
        }
      }
    }

    lemma KidLevels(h: nat, i: nat)
      requires Valid() && 0 < h < |levels| && i < |levels[h]|
      ensures levels[h][i] in nodes && forall k :: 0 <= k < |levels[h][i].children| ==> levels[h][i].children[k] in levels[h - 1]
    {
      var n := levels[h][i];
      assert LevelOk(Snap(), levels, h);
      forall k | 0 <= k < |n.children| ensures n.children[k] in levels[h - 1] {
        var j := ChildBelow(Snap(), levels, h, i, k);
      }
    }

    // ---------- Insertion ----------

    method Add(key: Key, value: RowId) returns (status: AddStatus)
      requires Valid()
      modifies this, nodes
      ensures Valid() && fresh(nodes - old(nodes))
      ensures status == old(PutStatus(Contents(), key, value, false, unique))
      ensures status == Added ==> Contents() == old(Put(Contents(), key, value, false))
      ensures status != Added ==> Snap() == old(Snap()) && levels == old(levels) && root == old(root) && totalRows == old(totalRows)
      ensures old(Roomy(Snap(), levels, maxCount, |levels| - 1)) ==> Roomy(Snap(), levels, maxCount, |levels| - 1)
    {
      status := Insert(key, value, false);
    }

    method Set(key: Key, value: RowId)
      requires Valid()
      modifies this, nodes
      ensures Valid() && fresh(nodes - old(nodes))
      ensures Contents() == old(Put(Contents(), key, value, true))
      ensures old(Roomy(Snap(), levels, maxCount, |levels| - 1)) ==> Roomy(Snap(), levels, maxCount, |levels| - 1)
    {
      var status := Insert(key, value, true);
    }

    method Insert(key: Key, value: RowId, replace: bool) returns (status: AddStatus)
      requires Valid()
      modifies this, nodes
      ensures Valid() && fresh(nodes - old(nodes))
      ensures status == old(PutStatus(Contents(), key, value, replace, unique))
      ensures status == Added ==> Contents() == old(Put(Contents(), key, value, replace))
      ensures status != Added ==> Snap() == old(Snap()) && levels == old(levels) && root == old(root) && totalRows == old(totalRows)
      ensures old(Roomy(Snap(), levels, maxCount, |levels| - 1)) ==> Roomy(Snap(), levels, maxCount, |levels| - 1)
    {
      hide *;
      Meaning();
      RootFence(key);
      ghost var s, L, top := Snap(), levels, |levels| - 1;
      var r;
      ghost var L';
      r, status, L' := InsertBelow(root, key, value, replace, top, 0);
      if status == Added {
        ghost var m := old(Put(Contents(), key, value, replace));
        FiledSorted(Entries(Snap(), L'[0]), totalRows, unique, m);
        if r != root {
          levels := L' + [[r]];
          NewRoot(s, L, Snap(), L', r, maxCount);
          if Roomy(s, L, maxCount, top) { RoomyRoot(s, L, Snap(), L', r, maxCount); }
        } else {
          levels := L';
          SameRoot(s, L, Snap(), L', maxCount);
        }
        root := r;
        Refresh(m);
      } else {
        Refresh(old(Contents()));
      }
    }

    lemma Refresh(m: map<Key, set<RowId>>)
      requires maxCount >= 5 && Tree(Snap(), levels) && Sized(Snap(), levels, maxCount)
      requires |levels| > 0 && levels[|levels| - 1] == [root] && Filed(Entries(Snap(), levels[0]), totalRows, unique, m)
      ensures Valid() && Contents() == m
    {
    }

    method InsertBelow(n: BTreeNode, key: Key, value: RowId, replace: bool, ghost h: nat, ghost i: nat)
      returns (r: BTreeNode, status: AddStatus, ghost L': seq<seq<BTreeNode>>)
      requires Valid() && h < |levels| && i < |levels[h]| && levels[h][i] == n
      requires Fence(Snap(), n, h, key)
      modifies this`nodes, this`totalRows, nodes
      ensures old(nodes) <= nodes && fresh(nodes - old(nodes))
      ensures status == old(PutStatus(Contents(), key, value, replace, unique))
      ensures status != Added ==> nodes == old(nodes) && Snap() == old(Snap()) && totalRows == old(totalRows)
      ensures status == Added ==> |L'| == |levels| && Grew(old(Snap()), levels, Snap(), L', h, i, r) && GrownSized(Snap(), L', maxCount, h, r != n)
      ensures status == Added ==> Filed(Entries(Snap(), L'[0]), totalRows, unique, old(Put(Contents(), key, value, replace)))
      ensures status == Added && Roomy(old(Snap()), levels, maxCount, h) ==> Roomy(Snap(), L', maxCount, h)
      decreases h, 1
    {
      hide *;
      NodeFacts(h, i);
      if n.height == 0 {
        r, status, L' := InsertIntoLeaf(n, key, value, replace, i);
        RoomyLeaf(Snap(), L', maxCount);
      } else {
        r, status, L' := InsertIntoInner(n, key, value, replace, h, i);
      }
    }

    method InsertIntoLeaf(n: BTreeNode, key: Key, value: RowId, replace: bool, ghost i: nat)
      returns (r: BTreeNode, status: AddStatus, ghost L': seq<seq<BTreeNode>>)
      requires Valid() && i < |levels[0]| && levels[0][i] == n
      requires Fence(Snap(), n, 0, key)
      modifies this`nodes, this`totalRows, nodes
      ensures old(nodes) <= nodes && fresh(nodes - old(nodes))
      ensures status == old(PutStatus(Contents(), key, value, replace, unique))
      ensures status != Added ==> nodes == old(nodes) && Snap() == old(Snap()) && totalRows == old(totalRows)
      ensures status == Added ==> |L'| == |levels| && Grew(old(Snap()), levels, Snap(), L', 0, i, r) && GrownSized(Snap(), L', maxCount, 0, r != n)
      ensures status == Added ==> Filed(Entries(Snap(), L'[0]), totalRows, unique, old(Put(Contents(), key, value, replace)))
    {
      hide *;
      L' := levels;
      ghost var s := Snap();
      Meaning();
      LeafFacts(i);
      status := PutInLeaf(n, key, value, replace, i);
      r := n;
      if status == Added {
        ghost var t := Snap();
        SnapAt(n);
        LeafReady(s, t, levels, i, maxCount);
        if |n.keys| == maxCount {
          r, L' := SplitLeaf(n, i);
          GrewTrans(s, levels, t, levels, Snap(), L', 0, i, r);
          SplitSized(s, t, Snap(), levels, L', 0, i, r, maxCount);
        }
      }
    }

    /** The change to the leaf itself, before it may have to be split. */
    method PutInLeaf(n: BTreeNode, key: Key, value: RowId, replace: bool, ghost i: nat) returns (status: AddStatus)
      requires Valid() && i < |levels[0]| && levels[0][i] == n
      requires Fence(Snap(), n, 0, key)
      modifies this`totalRows, n`keys, n`values
      ensures status == old(PutStatus(Contents(), key, value, replace, unique))
      ensures status != Added ==> Snap() == old(Snap()) && totalRows == old(totalRows)
      ensures status == Added ==> Grew(old(Snap()), levels, Snap(), levels, 0, i, n) && KeysElsewhere(old(Snap()), Snap(), levels[0], i)
      ensures status == Added ==> Filed(Entries(Snap(), levels[0]), totalRows, unique, old(Put(Contents(), key, value, replace)))
      ensures status == Added ==> |old(n.keys)| <= |n.keys| <= |old(n.keys)| + 1
    {
      hide *;
      ghost var s := Snap();
      Meaning();
      LeafFacts(i);
      var pos := SearchKey(n, key);
      AtLeaf(i, key, pos);
      ghost var rows;
      status, rows := PutAt(n, key, value, replace, pos);
      PutMeaning(old(Contents()), s[n], key, pos, value, replace, unique, rows);
      if status == Added {
        LeafFiled(s, Snap(), levels, i, key, pos, unique, rows, totalRows);
      }
    }

    /** What happens to a leaf when the key belongs at position pos. */
    method PutAt(n: BTreeNode, key: Key, value: RowId, replace: bool, pos: nat) returns (status: AddStatus, ghost rows: seq<RowId>)
      requires n in nodes && |n.keys| == |n.values| && pos <= |n.keys|
      requires n in Snap() && (FoundAt(Snap()[n], key, pos) ==> RowsOk(n.values[pos], unique))
      modifies this`totalRows, n`keys, n`values
      ensures status == LeafStatus(old(Snap()[n]), key, pos, value, replace, unique)
      ensures status != Added ==> Snap() == old(Snap()) && totalRows == old(totalRows)
      ensures status == Added ==> LeafRows(old(Snap()[n]), key, pos, value, replace, unique, rows)
      ensures status == Added ==> LeafPut(old(Snap()), Snap(), n, key, pos, [Entry(key, rows)])
      ensures status == Added ==> totalRows == old(totalRows) + |rows| - FoundRows(old(Snap()[n]), key, pos)
      ensures status == Added ==> |old(n.keys)| <= |n.keys| <= |old(n.keys)| + 1
    {
      hide *;
      SnapAt(n);
      PutAtFacts(n, key, pos, value, replace);
      status := Added;
      rows := [value];
      if pos < |n.keys| && n.keys[pos] == key {
        var newRows := [value];
        if replace {
          totalRows := totalRows - (if unique then 1 else |n.values[pos]|);
        } else if unique {
          status := DuplicateKeys;
          return;
        } else {
          var inserted;
          inserted, newRows := BinaryInsert(n.values[pos], value);
          if !inserted {
            status := RowIdExisted;
            return;
          }
        }
        rows := newRows;
        ReplaceRows(n, pos, newRows);
      } else {
        SpliceKey(n, pos, key, value);
      }
      totalRows := totalRows + 1;
    }

    lemma PutAtFacts(n: BTreeNode, key: Key, pos: nat, value: RowId, replace: bool)
      requires n in nodes && |n.keys| == |n.values| && pos <= |n.keys|
      requires n in Snap() && (FoundAt(Snap()[n], key, pos) ==> RowsOk(n.values[pos], unique))
      ensures FoundAt(Snap()[n], key, pos) <==> pos < |n.keys| && n.keys[pos] == key
      ensures FoundAt(Snap()[n], key, pos) ==> Increasing(n.values[pos]) && FoundRows(Snap()[n], key, pos) == |n.values[pos]| && (unique ==> |n.values[pos]| == 1)
      ensures !FoundAt(Snap()[n], key, pos) ==> FoundRows(Snap()[n], key, pos) == 0
      ensures LeafStatus(Snap()[n], key, pos, value, replace, unique) ==
        if !FoundAt(Snap()[n], key, pos) || replace then Added else if unique then DuplicateKeys
        else if value in n.values[pos] then RowIdExisted else Added
      ensures !FoundAt(Snap()[n], key, pos) || replace ==> LeafRows(Snap()[n], key, pos, value, replace, unique, [value])
      ensures FoundAt(Snap()[n], key, pos) && !replace && !unique ==>
        forall rows :: Increasing(rows) && Elements(rows) == Elements(n.values[pos]) + {value} ==>
          LeafRows(Snap()[n], key, pos, value, replace, unique, rows)
    {
      assert Elements([value]) == {value};
      if FoundAt(Snap()[n], key, pos) {
        forall rows: seq<RowId> | Elements(rows) == Elements(n.values[pos]) + {value} ensures rows != [] {
          assert value in Elements(rows);
        }
      }
    }

    method ReplaceRows(n: BTreeNode, pos: nat, rows: seq<RowId>)
      requires n in nodes && pos < |n.keys| == |n.values|
      modifies n`values
      ensures LeafPut(old(Snap()), Snap(), n, n.keys[pos], pos, [Entry(n.keys[pos], rows)])
      ensures n in old(Snap()) && Snap() == old(Snap())[n := old(Snap()[n]).(values := n.values)]
      ensures |n.values| == |old(n.values)| && n.values[pos] == rows
    {
      LeafReplaceEntries(SnapOf(n), pos, rows);
      n.values := n.values[pos := rows];
    }

    method SpliceKey(n: BTreeNode, pos: nat, key: Key, value: RowId)
      requires n in nodes && |n.keys| == |n.values| && pos <= |n.keys| && (pos < |n.keys| ==> n.keys[pos] != key)
      modifies n`keys, n`values
      ensures LeafPut(old(Snap()), Snap(), n, key, pos, [Entry(key, [value])])
      ensures |n.keys| == |old(n.keys)| + 1
    {
      LeafInsertEntries(SnapOf(n), pos, key, [value]);
      n.keys := n.keys[..pos] + [key] + n.keys[pos..];
      n.values := n.values[..pos] + [[value]] + n.values[pos..];
    }

    lemma LeafFacts(i: nat)
      requires Valid() && i < |levels[0]|
      ensures LevelOk(Snap(), levels, 0) && LevelsOk(Snap(), levels, |levels|)
      ensures levels[0][i] in nodes && levels[0][i] in Snap() && Snap()[levels[0][i]] == SnapOf(levels[0][i])
      ensures KeysSorted(levels[0][i].keys) && |levels[0][i].keys| == |levels[0][i].values|
      ensures levels[0][i].prev != null ==> levels[0][i].keys != []
    {
      ShapedFacts();
      LeafKeysSorted(Snap(), levels[0], i);
      assert LinkAt(Snap(), levels[0], i);
    }

    method InsertIntoInner(n: BTreeNode, key: Key, value: RowId, replace: bool, ghost h: nat, ghost i: nat)
      returns (r: BTreeNode, status: AddStatus, ghost L': seq<seq<BTreeNode>>)
      requires Valid() && 0 < h < |levels| && i < |levels[h]| && levels[h][i] == n
      requires Fence(Snap(), n, h, key)
      modifies this`nodes, this`totalRows, nodes
      ensures old(nodes) <= nodes && fresh(nodes - old(nodes))
      ensures status == old(PutStatus(Contents(), key, value, replace, unique))
      ensures status != Added ==> nodes == old(nodes) && Snap() == old(Snap()) && totalRows == old(totalRows)
      ensures status == Added ==> |L'| == |levels| && Grew(old(Snap()), levels, Snap(), L', h, i, r) && GrownSized(Snap(), L', maxCount, h, r != n)
      ensures status == Added ==> Filed(Entries(Snap(), L'[0]), totalRows, unique, old(Put(Contents(), key, value, replace)))
      ensures status == Added && Roomy(old(Snap()), levels, maxCount, h) ==> Roomy(Snap(), L', maxCount, h)
      decreases h, 0
    {
      hide *;
      ghost var s := Snap();
      Meaning();
      InnerFacts(h, i);
      var pos := SearchKey(n, key);
      ghost var j := FenceDown(s, levels, h, i, key, pos);
      pos := ChildPos(n.keys, key, pos);
      var node;
      node, status, L' := InsertBelow(n.children[pos], key, value, replace, h - 1, j);
      r := n;
      if status == Added {
        ghost var t, M := Snap(), L';
        if Roomy(s, levels, maxCount, h) { LessRoomy(s, levels, maxCount, h); }
        ChildReturned(s, M, h, i, pos, j, node);
        if node.height != 0 && |node.keys| == 1 {
          AbsorbSplit(n, pos, node);
          AbsorbedIn(s, levels, t, M, Snap(), h, i, pos, j, node, maxCount);
        } else {
          PassedIn(s, levels, t, M, h, i, pos, j, node, maxCount);
        }
        r, L' := SplitIfFull(n, s, t, M, h, i);
      }
    }

    /** The node has taken in a key from below; it may have to be split in turn.  A node that had the
        maximum already has one more now and is left as it is. */
    method SplitIfFull(n: BTreeNode, ghost s: Store, ghost t: Store, ghost M: seq<seq<BTreeNode>>, ghost h: nat, ghost i: nat)
      returns (r: BTreeNode, ghost L': seq<seq<BTreeNode>>)
      requires TakenIn(s, levels, Snap(), M, h, i, maxCount) && 0 < h < |levels| == |M| && i < |levels[h]| && levels[h][i] == n && n in nodes
      requires LevelsOk(s, levels, |levels|) && Sized(s, levels, maxCount) && maxCount >= 5
      requires forall k :: 0 <= k < h ==> SameButParents(t, Snap(), M[k])
      modifies this`nodes, nodes
      ensures old(nodes) <= nodes && fresh(nodes - old(nodes))
      ensures |L'| == |levels| && Grew(s, levels, Snap(), L', h, i, r) && GrownSized(Snap(), L', maxCount, h, r != n)
      ensures Entries(Snap(), L'[0]) == old(Entries(Snap(), M[0]))
      ensures r != n <==> |old(n.keys)| == maxCount
      ensures |old(n.keys)| > maxCount ==> n.keys == old(n.keys)
      ensures Roomy(s, levels, maxCount, h) && Roomy(t, M, maxCount, h - 1) ==> Roomy(Snap(), L', maxCount, h)
    {
      hide *;
      ghost var u := Snap();
      TakenInFacts(s, levels, u, M, h, i, maxCount);
      SnapAt(n);
      r, L' := n, M;
      ghost var roomy := Roomy(s, levels, maxCount, h) && Roomy(t, M, maxCount, h - 1);
      if roomy { RoomyBelow(t, u, M, M, h, maxCount); }
      if |n.keys| == maxCount {
        r, L' := SplitInternal(n, M, h, i);
        GrewTrans(s, levels, u, M, Snap(), L', h, i, r);
        BelowSized(u, Snap(), L', h, maxCount);
        SplitSized(s, u, Snap(), levels, L', h, i, r, maxCount);
        if roomy {
          RoomyBelow(u, Snap(), M, L', h, maxCount);
          RoomySplit(s, levels, u, Snap(), L', h, i, r, maxCount);
        }
      } else {
        StaysSized(s, u, levels, M, h, i, maxCount);
        if roomy { RoomyStays(s, levels, u, M, h, i, maxCount); }
      }
    }

    lemma InnerFacts(h: nat, i: nat)
      requires Valid() && 0 < h < |levels| && i < |levels[h]|
      ensures LevelsOk(Snap(), levels, |levels|) && LevelsOk(Snap(), levels, h + 1) && LevelOk(Snap(), levels, h) && LevelOk(Snap(), levels, h - 1)
      ensures var n := levels[h][i];
        && n in nodes && n in Snap() && Snap()[n] == SnapOf(n)
        && KeysSorted(n.keys) && |n.children| == |n.keys| + 1 && forall p :: 0 <= p < |n.children| ==> n.children[p] in nodes
      ensures forall key, pos :: SearchPos(levels[h][i].keys, key, pos) ==> ChildPos(levels[h][i].keys, key, pos) < |levels[h][i].children|
    {
      ShapedFacts();
      NodeKeysSorted(Snap(), levels, h, i);
      assert InnerNode(Snap(), levels[h][i], h);
    }

    /** What the node finds when the insertion into its child has returned. */
    lemma ChildReturned(s: Store, L': seq<seq<BTreeNode>>, h: nat, i: nat, pos: nat, j: nat, node: BTreeNode)
      requires 0 < h < |levels| && LevelsOk(s, levels, |levels|) && LevelOk(s, levels, h) && LevelOk(s, levels, h - 1) && i < |levels[h]| && j < |levels[h - 1]|
      requires levels[h][i] in s && pos < |s[levels[h][i]].children| && s[levels[h][i]].children[pos] == levels[h - 1][j]
      requires Grew(s, levels, Snap(), L', h - 1, j, node) && maxCount >= 5
      requires h - 1 < |L'| && GrownSized(Snap(), L', maxCount, h - 1, node != levels[h - 1][j])
      ensures GrowContext(s, levels, Snap(), L', h, i, pos, j, node)
      ensures node in nodes && node != levels[h - 1][j] <==> node in nodes && node.height != 0 && |node.keys| == 1
      ensures var n := levels[h][i];
        && n in nodes && node in nodes && n.children == s[n].children && n.keys == s[n].keys
        && (node != levels[h - 1][j] ==>
              && n != node && |node.children| == 2 && |node.keys| == 1 && pos <= |n.keys| && pos < |n.children|
              && n.children[pos] == node.children[0]
              && node.children[0] in nodes && node.children[1] in nodes && node.children[0] != n && node.children[1] != n)
    {
      var t := Snap();
      assert SameRecords(s, t, levels[h]);
      assert node in t by {
        if node == levels[h - 1][j] { assert GrewNode(s, t, node, levels[h - 1][j], h - 1, node); }
      }
      SplitResult(s, levels, t, L', h, i, pos, j, node, maxCount);
      if node != levels[h - 1][j] {
        SplitParts(s, levels, t, L', h, i, pos, j, node);
      }
    }

    static lemma TwoForOne<T>(xs: seq<T>, p: nat, x: T, y: T)
      requires p < |xs|
      ensures xs[..p] + [x, y] + xs[p + 1..] == Inserted(xs[p := x], p + 1, y)
    {
    }

    method AbsorbSplit(n: BTreeNode, pos: nat, node: BTreeNode)
      requires n in nodes && node in nodes && n != node && |node.children| == 2 && |node.keys| == 1
      requires pos < |n.children| && pos <= |n.keys| && n.children[pos] == node.children[0]
      requires node.children[0] in nodes && node.children[1] in nodes && node.children[0] != n && node.children[1] != n
      modifies n`keys, n`children, (set c | c in node.children)`parent
      ensures Absorbed(old(Snap()), Snap(), n, pos, node)
    {
      ghost var t := Snap();
      TwoForOne(n.children, pos, node.children[0], node.children[1]);
      n.keys := n.keys[..pos] + [node.keys[0]] + n.keys[pos..];
      node.children[1].parent := n;
      node.children[0].parent := n;
      n.children := n.children[..pos] + [node.children[0], node.children[1]] + n.children[pos + 1..];
      forall m | m in t && m != n
        ensures m in Snap() && Snap()[m] == t[m].(parent := if m == t[node].children[0] || m == t[node].children[1] then n else t[m].parent)
      {
        assert Snap()[m] == SnapOf(m);
      }
    }

    method SplitLeaf(n: BTreeNode, ghost i: nat) returns (r: BTreeNode, ghost L': seq<seq<BTreeNode>>)
      requires |levels| > 0 && LevelOk(Snap(), levels, 0) && Tall(Snap(), levels, 0)
      requires i < |levels[0]| && levels[0][i] == n && |n.keys| == maxCount && maxCount >= 5
      modifies this`nodes, nodes
      ensures old(nodes) <= nodes && fresh(nodes - old(nodes))
      ensures |L'| == |levels| && Grew(old(Snap()), levels, Snap(), L', 0, i, r) && r != n
      ensures Entries(Snap(), L'[0]) == old(Entries(Snap(), levels[0]))
      ensures HalvesSized(Snap(), n, r, maxCount, 0)
      ensures KeysElsewhere(old(Snap()), Snap(), levels[0], i)
    {
      hide *;
      ghost var s := Snap();
      LeafReadyToCut(levels, i);
      var right;
      r, right := CutLeaf(n);
      L' := levels[0 := Inserted(levels[0], i + 1, right)];
      SplitLeafStep(s, Snap(), levels, i, right, r, maxCount);
    }

    lemma LeafReadyToCut(L: seq<seq<BTreeNode>>, i: nat)
      requires |L| > 0 && LevelOk(Snap(), L, 0) && i < |L[0]|
      ensures ReadyToCut(L[0][i]) && L[0][i] in Snap() && Snap()[L[0][i]] == SnapOf(L[0][i])
      ensures L[0][i].height == 0 && |L[0][i].keys| == |L[0][i].values|
    {
      NotOwnNeighbour(Snap(), L[0], 0, i);
    }

    method SplitInternal(n: BTreeNode, ghost L: seq<seq<BTreeNode>>, ghost h: nat, ghost i: nat)
      returns (r: BTreeNode, ghost L': seq<seq<BTreeNode>>)
      requires 0 < h < |L| && LevelsOk(Snap(), L, h + 1) && LevelOk(Snap(), L, h) && Tall(Snap(), L, h)
      requires i < |L[h]| && L[h][i] == n && |n.keys| == maxCount && maxCount >= 5
      modifies this`nodes, nodes
      ensures old(nodes) <= nodes && fresh(nodes - old(nodes))
      ensures |L'| == |L| && Grew(old(Snap()), L, Snap(), L', h, i, r) && r != n
      ensures Entries(Snap(), L'[0]) == old(Entries(Snap(), L[0]))
      ensures HalvesSized(Snap(), n, r, maxCount, h)
      ensures KeysElsewhere(old(Snap()), Snap(), L[h], i)
      ensures forall k :: 0 <= k < h ==> L'[k] == L[k] && SameButParents(old(Snap()), Snap(), L[k])
    {
      hide *;
      ghost var s := Snap();
      InternalReadyToCut(L, h, i);
      var right;
      r, right := CutInternal(n, h);
      L' := L[h := Inserted(L[h], i + 1, right)];
      SplitInternalStep(s, Snap(), L, h, i, right, r, maxCount);
    }

    lemma InternalReadyToCut(L: seq<seq<BTreeNode>>, h: nat, i: nat)
      requires 0 < h < |L| && LevelsOk(Snap(), L, h + 1) && LevelOk(Snap(), L, h) && i < |L[h]|
      ensures ReadyToCut(L[h][i]) && L[h][i] in Snap() && Snap()[L[h][i]] == SnapOf(L[h][i])
      ensures L[h][i].height == h && |L[h][i].children| == |L[h][i].keys| + 1 && Distinct(L[h][i].children)
      ensures forall k :: 0 <= k < |L[h][i].children| ==> L[h][i].children[k] in nodes && L[h][i].children[k].height == h - 1
    {
      ReadyToSplit(Snap(), L, h, i);
    }

    /** The pointer work of splitLeaf. */
    method CutLeaf(n: BTreeNode) returns (r: BTreeNode, right: BTreeNode)
      requires ReadyToCut(n) && |n.keys| == |n.values| == maxCount && maxCount >= 5 && n.height == 0
      modifies this`nodes, nodes
      ensures nodes == old(nodes) + {r, right} && fresh({r, right}) && r != right
      ensures LeafSplitOff(old(Snap()), Snap(), n, right, r, maxCount / 2)
    {
      var half := maxCount / 2;
      ghost var s := Snap();
      right := new BTreeNode(0, n.keys[half..], n.values[half..], [], null);
      var key := n.keys[half];
      n.keys, n.values := n.keys[..half], n.values[..half];
      ghost var cut, rec := Snap(), SnapOf(right);
      r := LinkHalves(n, right, key);
      hide Snap, SnapOf;
      SplitOffLinked(s, cut, Snap(), n, right, rec, r, key);
    }

    /** The pointer work of splitInternal. */
    method CutInternal(n: BTreeNode, ghost h: nat) returns (r: BTreeNode, right: BTreeNode)
      requires ReadyToCut(n) && |n.keys| == maxCount && maxCount >= 5 && n.height == h > 0 && |n.children| == |n.keys| + 1
      requires Distinct(n.children)
      requires forall k :: 0 <= k < |n.children| ==> n.children[k] in nodes && n.children[k].height == h - 1
      modifies this`nodes, nodes
      ensures nodes == old(nodes) + {r, right} && fresh({r, right}) && r != right
      ensures InnerSplitOff(old(Snap()), Snap(), n, right, r, h, maxCount / 2)
    {
      InSnap(n);
      hide *;
      var half := maxCount / 2;
      ghost var s := Snap();
      var key := n.keys[half];
      right := CutKids(n, half, h);
      ghost var cut, rec := Snap(), SnapOf(right);
      r := LinkHalves(n, right, key);
      InnerCutLinked(s, cut, Snap(), n, right, rec, r, half, h);
    }

    lemma InSnap(n: BTreeNode)
      requires n in nodes
      ensures n in Snap() && Snap()[n] == SnapOf(n)
    {
    }

    /** The children after the middle one go to a new node. */
    method CutKids(n: BTreeNode, half: nat, ghost h: nat) returns (right: BTreeNode)
      requires ReadyToCut(n) && 0 < half && half + 1 < |n.keys| && n.height == h > 0 && |n.children| == |n.keys| + 1
      requires forall k :: 0 <= k < |n.children| ==> n.children[k] in nodes && n.children[k].height == h - 1
      modifies nodes
      ensures fresh(right) && ReadyToCut(n)
      ensures InnerCut(old(Snap()), Snap(), n, right, SnapOf(right), half, h)
    {
      right := new BTreeNode(n.height, n.keys[half + 1..], [], n.children[half + 1..], null);
      forall c | c in right.children {
        c.parent := right;
      }
      n.keys, n.children := n.keys[..half], n.children[..half + 1];
    }

    ghost predicate ReadyToCut(n: BTreeNode)
      reads this`nodes, nodes
    {
      n in nodes && n.next != n && (n.next != null ==> n.next in nodes && n.next.height == n.height)
    }

    /** Both halves get a new parent r; right goes between n and its right neighbour. */
    method LinkHalves(n: BTreeNode, right: BTreeNode, key: Key) returns (r: BTreeNode)
      requires ReadyToCut(n) && right !in nodes
      modifies this`nodes, nodes, right
      ensures nodes == old(nodes) + {right, r} && fresh(r)
      ensures HalvesLinked(old(Snap()), Snap(), n, right, old(SnapOf(right)), r, key)
    {
      r := new BTreeNode(n.height + 1, [key], [], [n, right], n.parent);
      n.parent, right.parent := r, r;
      PlaceAfter(n, right);
      nodes := nodes + {right, r};
    }

    method PlaceAfter(n: BTreeNode, right: BTreeNode)
      requires n.next != n && n.next != right && right != n
      modifies n`next, right`prev, right`next, (if n.next != null then {n.next} else {})`prev
      ensures n.next == right && right.prev == n && right.next == old(n.next)
      ensures old(n.next) != null ==> old(n.next).prev == right
    {
      Associate(right, n.next);
      Associate(n, right);
    }

    // ---------- Removal ----------

    method Remove(key: Key, which: RowChoice)
      requires Valid()
      modifies this, nodes
      ensures Valid() && nodes == old(nodes)
      ensures Contents() == old(Removed(Contents(), key, which, unique))
      ensures maxCount % 2 == 1 && old(Roomy(Snap(), levels, maxCount, |levels| - 1)) ==> Roomy(Snap(), levels, maxCount, |levels| - 1)
      ensures old(Roomy(Snap(), levels, maxCount + 1, |levels| - 1)) ==> Roomy(Snap(), levels, maxCount + 1, |levels| - 1)
    {
      hide *;
      Meaning();
      RootFence(key);
      ghost var s, L, top := Snap(), levels, |levels| - 1;
      ghost var m := Removed(Contents(), key, which, unique);
      RootSide(s, L);
      NodeFacts(top, 0);
      var fix;
      ghost var L';
      fix, L' := Delete(root, key, -1, which, top, 0);
      ghost var u := Snap();
      SnapAt(root);
      if fix { StepLevels(s, L, u, L', top, 0, -1); } else { RootWide(); }
      if |root.children| == 1 {
        var child := root.children[0];
        FiledSorted(Entries(u, L'[0]), totalRows, unique, m);
        RootKid(s, L, L', maxCount);
        Orphan(child);
        RootCollapses(s, L, u, L', Snap(), child, maxCount);
        CollapsedRoom(s, L, u, L', Snap(), maxCount);
        root := child;
        levels := L'[..top];
        Refresh(m);
      } else if fix {
        FiledSorted(Entries(u, L'[0]), totalRows, unique, m);
        RootStays(s, L, u, L', maxCount);
        levels := L';
        Refresh(m);
      }
      OddKeepsRoom(s, L, Snap(), levels, maxCount);
    }

    lemma RootWide()
      requires Valid()
      ensures |root.children| != 1
    {
      ShapedFacts();
      var top := |levels| - 1;
      if top > 0 {
        assert LevelOk(Snap(), levels, top);
        assert InnerNode(Snap(), levels[top][0], top);
      }
    }

    lemma RootKid(s: Store, L: seq<seq<BTreeNode>>, L': seq<seq<BTreeNode>>, max: nat)
      requires Tree(s, L) && Step(s, L, Snap(), L', |L| - 1, 0, -1) && ShrunkSized(Snap(), L', max, |L| - 1)
      requires L[|L| - 1] == [root] && root in nodes && |root.children| == 1
      ensures root.children[0] in nodes && root.children == [root.children[0]]
    {
      var top := |L| - 1;
      assert LevelOk(Snap(), L', top);
      if top > 0 { assert InnerNode(Snap(), L'[top][0], top); }
    }

    method Orphan(c: BTreeNode)
      requires c in nodes
      modifies c`parent
      ensures c in old(Snap()) && Snap() == old(Snap())[c := old(Snap())[c].(parent := null)]
    {
      c.parent := null;
    }

    /** Removes the key below n; the result says whether separators above need a fix(). */
    method Delete(n: BTreeNode, key: Key, parentPos: int, which: RowChoice, ghost h: nat, ghost i: nat)
      returns (fix: bool, ghost L': seq<seq<BTreeNode>>)
      requires Valid() && h < |levels| && i < |levels[h]| && levels[h][i] == n
      requires Fence(Snap(), n, h, key) && ParentSide(Snap(), levels, h, n, parentPos)
      modifies this`totalRows, nodes
      ensures !fix ==> Valid() && Contents() == old(Removed(Contents(), key, which, unique))
      ensures !fix ==> KeepsRoom(old(Snap()), levels, Snap(), levels, maxCount, |levels| - 1)
      ensures fix ==> Step(old(Snap()), levels, Snap(), L', h, i, parentPos) && ShrunkSized(Snap(), L', maxCount, h)
      ensures fix ==> KeepsRoom(old(Snap()), levels, Snap(), L', maxCount, h)
      ensures fix ==> Filed(Entries(Snap(), L'[0]), totalRows, unique, old(Removed(Contents(), key, which, unique)))
      ensures fix ==> key !in old(Removed(Contents(), key, which, unique))
      decreases h, 1
    {
      hide *;
      Meaning();
      NodeFacts(h, i);
      ghost var s := Snap();
      if n.height == 0 {
        fix := DeleteFromLeaf(n, key, which, i, parentPos);
        L' := levels;
        RoomAtLeaves(s, levels, Snap(), levels, maxCount);
      } else {
        fix, L' := DeleteFromInner(n, key, which, h, i, parentPos);
      }
      if fix {
        ghost var t, M := Snap(), L';
        ParentSideKept(s, levels, t, M, h, i, parentPos, maxCount);
        SnapAt(n);
        ParentExists(t, M, h, n, parentPos);
        if |n.keys| < MinKeys(maxCount) && n.parent != null {
          ToBalanceable(t, M, h, i, parentPos, maxCount);
          L' := Rebalance(n, parentPos, M, h, i);
          StepTrans(s, levels, t, M, Snap(), L', h, i, parentPos);
          RoomTrans(s, levels, t, M, Snap(), L', maxCount, h);
        } else {
          EnoughKeys(t, M, maxCount, h, i);
        }
      }
    }

    lemma ParentExists(t: Store, L: seq<seq<BTreeNode>>, h: nat, n: BTreeNode, pos: int)
      requires t == Snap() && ParentSide(t, L, h, n, pos)
      ensures n in nodes && (n.parent != null <==> h + 1 < |L|)
    {
    }

    lemma ToBalanceable(t: Store, L: seq<seq<BTreeNode>>, h: nat, i: nat, pos: int, max: nat)
      requires NearlySized(t, L, max, h, i) && LevelsOk(t, L, h + 1) && LevelOk(t, L, h) && Tall(t, L, h)
      requires h + 1 < |L| && |L[h]| > 1 && |t[L[h][i]].keys| < MinKeys(max) && ParentSide(t, L, h, L[h][i], pos)
      ensures Balanceable(t, L, h, i, pos, max)
    {
    }

    /** The parent is no node that a merge touches before the parent's own turn. */
    lemma ParentFacts(s: Store, L: seq<seq<BTreeNode>>, h: nat, i: nat, parentPos: int)
      requires s == Snap() && Balanceable(s, L, h, i, parentPos, maxCount) && h < |L| && i < |L[h]| && L[h][i] in nodes
      ensures var n := L[h][i];
        && n.parent != null && n.parent in nodes && n.parent.height == h + 1 && 0 <= parentPos < |n.parent.children|
        && s[n].parent == n.parent && s[n.parent].height == h + 1
    {
    }

    lemma ToMergeContext(s: Store, L: seq<seq<BTreeNode>>, h: nat, j: nat, i: nat, parentPos: int)
      requires Balanceable(s, L, h, i, parentPos, maxCount) && (i == j || i == j + 1) && j + 1 < |L[h]|
      ensures MergeContext(s, L, h, j, i, maxCount)
    {
    }

    method DeleteFromLeaf(n: BTreeNode, key: Key, which: RowChoice, ghost i: nat, ghost parentPos: int) returns (fix: bool)
      requires Valid() && i < |levels[0]| && levels[0][i] == n
      requires Fence(Snap(), n, 0, key)
      modifies this`totalRows, n`keys, n`values
      ensures !fix ==> Valid() && Contents() == old(Removed(Contents(), key, which, unique))
      ensures !fix ==> KeepsRoom(old(Snap()), levels, Snap(), levels, maxCount, |levels| - 1)
      ensures fix ==> Step(old(Snap()), levels, Snap(), levels, 0, i, parentPos) && NearlySized(Snap(), levels, maxCount, 0, i)
      ensures fix ==> Filed(Entries(Snap(), levels[0]), totalRows, unique, old(Removed(Contents(), key, which, unique)))
      ensures fix ==> key !in old(Removed(Contents(), key, which, unique))
    {
      hide *;
      Meaning();
      ghost var s, m := Snap(), Contents();
      LeafFacts(i);
      var pos := SearchKey(n, key);
      AtLeaf(i, key, pos);
      FoundFacts(s[n], key, pos);
      if !(pos < |n.keys| && n.keys[pos] == key) {
        NothingRemoved(m, key, which, unique);
        RoomUnchanged(s, levels, maxCount);
        return false;
      }
      ghost var before := n.values[pos];
      ghost var rows;
      fix, rows := RemoveAt(n, key, pos, which);
      RemoveMeaning(m, before, key, which, unique, fix, rows);
      if fix {
        LeafDropped(s, Snap(), levels, i, key, pos, parentPos, unique, totalRows, maxCount);
      } else {
        LeafFiled(s, Snap(), levels, i, key, pos, unique, rows, totalRows);
        FiledSorted(Entries(Snap(), levels[0]), totalRows, unique, m[key := Elements(rows)]);
        ValuesOnly(s, Snap(), levels, n, n.values, maxCount);
        Refresh(m[key := Elements(rows)]);
      }
    }

    /** The key is at position pos of the leaf: drop the row id, or the key. */
    method RemoveAt(n: BTreeNode, key: Key, pos: nat, which: RowChoice) returns (fix: bool, ghost rows: seq<RowId>)
      requires n in nodes && pos < |n.keys| == |n.values| && n.keys[pos] == key && RowsOk(n.values[pos], unique)
      modifies this`totalRows, n`keys, n`values
      ensures n in old(Snap())
      ensures fix ==> which.EveryRow? || unique || Elements(old(n.values[pos])) <= {which.id}
      ensures fix ==> LeafPut(old(Snap()), Snap(), n, key, pos, []) && totalRows == old(totalRows) - FoundRows(old(Snap()[n]), key, pos)
      ensures !fix ==> which.OneRow? && !unique && RowsOk(rows, unique) && Elements(rows) == Elements(old(n.values[pos])) - {which.id}
      ensures !fix ==> LeafPut(old(Snap()), Snap(), n, key, pos, [Entry(key, rows)])
      ensures !fix ==> Snap() == old(Snap())[n := old(Snap()[n]).(values := n.values)] && |n.values| == |old(n.values)|
      ensures !fix ==> totalRows == old(totalRows) + |rows| - FoundRows(old(Snap()[n]), key, pos)
    {
      hide *;
      SnapAt(n);
      ghost var s := Snap();
      rows := n.values[pos];
      FoundHere(s[n], key, pos, unique);
      if which.OneRow? && !unique {
        var removed, left := BinaryRemove(n.values[pos], which.id);
        rows := left;
        if removed {
          totalRows := totalRows - 1;
        }
        ReplaceRows(n, pos, left);
        if |left| > 0 {
          LeftRows(left);
          return false, left;
        }
        OnlyRow(rows, old(n.values[pos]), which.id);
      }
      totalRows := totalRows - (if unique then 1 else |n.values[pos]|);
      ghost var t := Snap();
      DropKey(n, pos);
      fix := true;
      if t != s {
        PutThenDrop(s, t, Snap(), n, key, pos, rows);
      }
    }

    method DropKey(n: BTreeNode, pos: nat)
      requires n in nodes && pos < |n.keys| == |n.values|
      modifies n`keys, n`values
      ensures LeafPut(old(Snap()), Snap(), n, old(n.keys[pos]), pos, [])
    {
      LeafDropEntries(SnapOf(n), pos);
      n.keys := n.keys[..pos] + n.keys[pos + 1..];
      n.values := n.values[..pos] + n.values[pos + 1..];
    }

    method DeleteFromInner(n: BTreeNode, key: Key, which: RowChoice, ghost h: nat, ghost i: nat, ghost parentPos: int)
      returns (fix: bool, ghost L': seq<seq<BTreeNode>>)
      requires Valid() && 0 < h < |levels| && i < |levels[h]| && levels[h][i] == n
      requires Fence(Snap(), n, h, key)
      modifies this`totalRows, nodes
      ensures !fix ==> Valid() && Contents() == old(Removed(Contents(), key, which, unique))
      ensures !fix ==> KeepsRoom(old(Snap()), levels, Snap(), levels, maxCount, |levels| - 1)
      ensures fix ==> Step(old(Snap()), levels, Snap(), L', h, i, parentPos) && L'[h] == levels[h] && NearlySized(Snap(), L', maxCount, h, i)
      ensures fix ==> KeepsRoom(old(Snap()), levels, Snap(), L', maxCount, h)
      ensures fix ==> Filed(Entries(Snap(), L'[0]), totalRows, unique, old(Removed(Contents(), key, which, unique)))
      ensures fix ==> key !in old(Removed(Contents(), key, which, unique))
      decreases h, 0
    {
      hide *;
      ghost var s, m := Snap(), Removed(Contents(), key, which, unique);
      Meaning();
      InnerFacts(h, i);
      var pos := SearchKey(n, key);
      ghost var j := FenceDown(s, levels, h, i, key, pos);
      var index := ChildPos(n.keys, key, pos);
      ChildSide(s, levels, h, i, index, j);
      fix, L' := Delete(n.children[index], key, index, which, h - 1, j);
      if !fix {
        return;
      }
      ghost var t := Snap();
      ToFixContext(s, levels, t, L', h, i, index, j, maxCount);
      Fix(n, L', h);
      FixedStep(s, levels, t, L', Snap(), h, i, index, j, parentPos, maxCount, m, totalRows, unique);
      FixRoom(s, levels, t, L', Snap(), h, i, index, j, maxCount);
      SnapAt(n);
      if pos < |n.keys| && n.keys[pos] == key {
        assert false; // every separator is a key the index still has
      }
    }

    /** Recomputes the separators of n. */
    method Fix(n: BTreeNode, ghost L: seq<seq<BTreeNode>>, ghost h: nat)
      requires Fixable(Snap(), L, h, n)
      modifies n`keys
      ensures Fixed(old(Snap()), Snap(), n, h)
    {
      n.keys := LeftKeys(n, L, h);
    }

    method LeftKeys(n: BTreeNode, ghost L: seq<seq<BTreeNode>>, ghost h: nat) returns (keys: seq<Key>)
      requires Fixable(Snap(), L, h, n)
      ensures h > 0 && keys == Separators(Snap(), n.children, h)
    {
      keys := [];
      var i := 1;
      while i < |n.children|
        invariant 1 <= i && (i > 1 ==> i <= |n.children|)
        invariant |keys| == i - 1
        invariant forall k :: 0 <= k < |keys| ==> keys[k] == Left(Snap(), n.children[k + 1], h - 1)
      {
        ghost var j :| 0 <= j < |L[h - 1]| && L[h - 1][j] == n.children[i];
        var key := LeftMostKey(n.children[i], L, h - 1, j);
        keys := keys + [key];
        i := i + 1;
      }
    }

    method LeftMostKey(n: BTreeNode, ghost L: seq<seq<BTreeNode>>, ghost h: nat, ghost i: nat) returns (key: Key)
      requires h < |L| && LevelsOk(Snap(), L, h + 1) && i < |L[h]| && L[h][i] == n
      requires Within(Snap(), L[0]) && forall j :: 0 <= j < |L[0]| ==> Snap()[L[0][j]].keys != []
      ensures key == Left(Snap(), n, h)
      decreases h
    {
      assert LevelOk(Snap(), L, h);
      if n.height == 0 {
        key := n.keys[0];
      } else {
        assert InnerNode(Snap(), n, h);
        ghost var j := ChildBelow(Snap(), L, h, i, 0);
        key := LeftMostKey(n.children[0], L, h - 1, j);
      }
    }

    method Rebalance(n: BTreeNode, parentPos: int, ghost L: seq<seq<BTreeNode>>, ghost h: nat, ghost i: nat)
      returns (ghost L': seq<seq<BTreeNode>>)
      requires Balanceable(Snap(), L, h, i, parentPos, maxCount) && h < |L| && i < |L[h]| && L[h][i] == n
      modifies nodes
      ensures Step(old(Snap()), L, Snap(), L', h, i, parentPos) && ShrunkSized(Snap(), L', maxCount, h)
      ensures Entries(Snap(), L'[0]) == old(Entries(Snap(), L[0])) && KeepsRoom(old(Snap()), L, Snap(), L', maxCount, h)
    {
      hide *;
      var stolen := Steal(n, L, h, i, parentPos);
      if stolen {
        L' := L;
      } else {
        L' := Merge(n, parentPos, L, h, i);
      }
    }

    /** The neighbours, as the code finds them. */
    lemma HeapNeighbours(L: seq<seq<BTreeNode>>, h: nat, i: nat, parentPos: int)
      requires Balanceable(Snap(), L, h, i, parentPos, maxCount)
      ensures h + 1 < |L| && i < |L[h]| && LevelsOk(Snap(), L, h + 1) && LevelOk(Snap(), L, h) && Tall(Snap(), L, h)
      ensures NearlySized(Snap(), L, maxCount, h, i) && maxCount >= 5 && |L[h][i].keys| < MinKeys(maxCount) < maxCount - 1
      ensures var n := L[h][i];
        && NodeOk(n, h) && ParentSide(Snap(), L, h, n, parentPos)
        && (if i + 1 < |L[h]| then n.next == L[h][i + 1] && n.next != n && NodeOk(n.next, h) else n.next == null)
        && (if i > 0 then n.prev == L[h][i - 1] && n.prev != n && NodeOk(n.prev, h) else n.prev == null)
      ensures L[h][i].next != null || L[h][i].prev != null
      ensures h > 0 ==> NonRootSized(Snap(), L[0], maxCount, 0)
      ensures i + 1 < |L[h]| ==> Recuttable(Snap(), L, h, i)
      ensures i > 0 ==> Recuttable(Snap(), L, h, i - 1)
    {
      Neighbours(Snap(), L, h, i);
      if i + 1 < |L[h]| { ToRecuttable(Snap(), L, h, i); }
      if i > 0 { ToRecuttable(Snap(), L, h, i - 1); }
    }

    ghost predicate NodeOk(n: BTreeNode, h: nat)
      reads this`nodes, nodes
    {
      && n in nodes && n in Snap() && Snap()[n] == SnapOf(n) && n.height == h
      && (h == 0 ==> |n.keys| == |n.values|)
      && (h > 0 ==> |n.children| == |n.keys| + 1 && forall c :: c in n.children ==> c in nodes && c.height == h - 1)
    }

    /** Steals a key from the right neighbour or else from the left one. */
    method Steal(n: BTreeNode, ghost L: seq<seq<BTreeNode>>, ghost h: nat, ghost i: nat, ghost parentPos: int) returns (stolen: bool)
      requires Balanceable(Snap(), L, h, i, parentPos, maxCount) && h < |L| && i < |L[h]| && L[h][i] == n
      modifies nodes
      ensures stolen ==> Step(old(Snap()), L, Snap(), L, h, i, parentPos) && ShrunkSized(Snap(), L, maxCount, h)
      ensures stolen ==> Entries(Snap(), L[0]) == old(Entries(Snap(), L[0])) && KeepsRoom(old(Snap()), L, Snap(), L, maxCount, h)
      ensures !stolen ==> Snap() == old(Snap())
      ensures !stolen ==> (n.next != null ==> |n.next.keys| <= MinKeys(maxCount)) && (n.prev != null ==> |n.prev.keys| <= MinKeys(maxCount))
    {
      hide *;
      ghost var s := Snap();
      HeapNeighbours(L, h, i, parentPos);
      NodeOkFacts(n, h);
      if n.next != null && |n.next.keys| > MinKeys(maxCount) {
        NodeOkFacts(n.next, h);
        StealFrom(n, n.next, 0, 0, |n.keys| + 1, L, h, i, i);
        StealDone(s, Snap(), L, h, i, if h == 0 then |s[n].keys| + 1 else |s[n].children| + 1, i, parentPos, maxCount);
        stolen := true;
      } else if n.prev != null && |n.prev.keys| > MinKeys(maxCount) {
        NodeOkFacts(n.prev, h);
        var from := n.prev;
        var fromIndex := |from.keys| - 1;
        StealFrom(n, from, fromIndex, if n.height == 0 then fromIndex else fromIndex + 1, 0, L, h, i - 1, i);
        StealDone(s, Snap(), L, h, i - 1, if h == 0 then |s[from].keys| - 1 else |s[from].children| - 1, i, parentPos, maxCount);
        stolen := true;
      } else {
        stolen := false;
      }
    }

    lemma NodeOkFacts(n: BTreeNode, h: nat)
      requires NodeOk(n, h)
      ensures n in nodes && n in Snap() && Snap()[n] == SnapOf(n) && n.height == h
      ensures (h == 0 ==> |n.keys| == |n.values|) && (h > 0 ==> |n.children| == |n.keys| + 1)
      ensures h > 0 ==> forall c :: c in n.children ==> c in nodes && c.height == h - 1
    {
    }

    method StealFrom(n: BTreeNode, from: BTreeNode, fromIndex: nat, fromChildIndex: nat, toIndex: nat,
                     ghost L: seq<seq<BTreeNode>>, ghost h: nat, ghost j: nat, ghost i: nat)
      requires h + 1 < |L| && LevelsOk(Snap(), L, h + 1) && LevelOk(Snap(), L, h) && j + 1 < |L[h]| && i < |L[h]| && L[h][i] == n
      requires NodeOk(n, h) && NodeOk(from, h) && n != from && from.keys != [] && maxCount >= 5
      requires h > 0 ==> NonRootSized(Snap(), L[0], maxCount, 0)
      requires if i == j then from == L[h][j + 1] && fromIndex == fromChildIndex == 0 && toIndex == |n.keys| + 1
               else i == j + 1 && from == L[h][j] && fromIndex == |from.keys| - 1 && toIndex == 0
                    && fromChildIndex == if h == 0 then fromIndex else fromIndex + 1
      modifies nodes
      ensures var had := if h == 0 then |old(L[h][j].keys)| else |old(L[h][j].children)|;
        (i == j || had > 0) && Recut(old(Snap()), Snap(), L[h][j], L[h][j + 1], if i == j then had + 1 else had - 1, h)
    {
      hide LevelsOk, LevelOk, Snap, Recuttable, TookEntry, TookChild, MovedKids, Fixable, Fixed, RecutInner, RecutLeaves, NonRootSized, Left, Separators;
      ghost var s := Snap();
      ToRecuttable(s, L, h, j);
      if n.height == 0 {
        TakeEntry(n, from, fromIndex, toIndex);
        if i == j { TookFromNext(s, Snap(), n, from); } else { TookFromPrev(s, Snap(), n, from); }
      } else {
        TakeChild(n, from, fromIndex, fromChildIndex, toIndex);
        ghost var u := Snap();
        ghost var q := if i == j then |s[n].children| + 1 else |s[from].children| - 1;
        if i == j { TookChildFromNext(s, u, L, h, j); } else { TookChildFromPrev(s, u, L, h, j); }
        MovedFixable(s, u, L, h, j, q, maxCount);
        Fix(from, L, h);
        ghost var v := Snap();
        FixedFixable(u, v, L, h, from, n);
        Fix(n, L, h);
        MovedFixed(s, u, v, Snap(), L, h, j, q, from, n);
      }
    }

    method TakeEntry(n: BTreeNode, from: BTreeNode, at: nat, to: nat)
      requires n in nodes && from in nodes && n != from && at < |from.keys| == |from.values|
      modifies n`keys, n`values, from`keys, from`values
      ensures TookEntry(old(Snap()), Snap(), n, from, at, to)
    {
      n.keys := SpliceIn(n.keys, to, from.keys[at]);
      from.keys := Spliced(from.keys, at);
      n.values := SpliceIn(n.values, to, from.values[at]);
      from.values := Spliced(from.values, at);
    }

    method TakeChild(n: BTreeNode, from: BTreeNode, keyAt: nat, childAt: nat, to: nat)
      requires n in nodes && from in nodes && n != from && keyAt < |from.keys| && childAt < |from.children|
      requires from.children[childAt] in nodes && from.children[childAt] != n && from.children[childAt] != from
      modifies n`keys, n`children, from`keys, from`children, {from.children[childAt]}`parent
      ensures TookChild(old(Snap()), Snap(), n, from, childAt, to)
    {
      n.keys := SpliceIn(n.keys, to, from.keys[keyAt]);
      from.keys := Spliced(from.keys, keyAt);
      from.children[childAt].parent := n;
      n.children := SpliceIn(n.children, to, from.children[childAt]);
      from.children := Spliced(from.children, childAt);
    }

    /** Merges into the right neighbour or else into the left one. */
    method Merge(n: BTreeNode, parentPos: int, ghost L: seq<seq<BTreeNode>>, ghost h: nat, ghost i: nat)
      returns (ghost L': seq<seq<BTreeNode>>)
      requires Balanceable(Snap(), L, h, i, parentPos, maxCount) && h < |L| && i < |L[h]| && L[h][i] == n
      requires (n.next != null ==> |n.next.keys| <= MinKeys(maxCount)) && (n.prev != null ==> |n.prev.keys| <= MinKeys(maxCount))
      modifies nodes
      ensures Step(old(Snap()), L, Snap(), L', h, i, parentPos) && ShrunkSized(Snap(), L', maxCount, h)
      ensures Entries(Snap(), L'[0]) == old(Entries(Snap(), L[0])) && KeepsRoom(old(Snap()), L, Snap(), L', maxCount, h)
    {
      hide *;
      ghost var s := Snap();
      SnapKeys();
      HeapNeighbours(L, h, i, parentPos);
      NodeOkFacts(n, h);
      var mergeTo, keyOffset, childOffset := n, 0, 0;
      ghost var j := i;
      if n.next != null && |n.next.keys| < maxCount - 1 {
        mergeTo := n.next;
      } else if n.prev != null {
        mergeTo := n.prev;
        keyOffset := |mergeTo.keys|;
        childOffset := if mergeTo.height == 0 then |mergeTo.values| else |mergeTo.children|;
        j := i - 1;
      } else {
        assert false;
      }
      NodeOkFacts(mergeTo, h);
      ParentFacts(s, L, h, i, parentPos);
      ToMergeContext(s, L, h, j, i, parentPos);
      MoveAll(n, mergeTo, keyOffset, childOffset, h, i == j);
      ghost var a := Snap();
      if mergeTo.height != 0 {
        HandedBelow(s, a, L, h, j, i, maxCount);
        Fix(mergeTo, L, h);
      }
      ghost var b := Snap();
      if parentPos != -1 {
        Lose(n.parent, parentPos, n);
      }
      L' := L[h := Without(L[h], i)];
      SnapKeys();
      MergeDone(s, a, b, Snap(), L, h, j, i, n.parent, parentPos, maxCount);
    }

    method MoveAll(n: BTreeNode, mergeTo: BTreeNode, keyOffset: nat, childOffset: nat, ghost h: nat, ghost before: bool)
      requires NodeOk(n, h) && NodeOk(mergeTo, h) && n != mergeTo
      requires if before then keyOffset == childOffset == 0
               else keyOffset == |mergeTo.keys| && childOffset == if h == 0 then |mergeTo.values| else |mergeTo.children|
      requires n.next != null ==> NodeOk(n.next, h) && n.next != n
      requires n.prev != null ==> NodeOk(n.prev, h) && n.prev != n
      modifies mergeTo`keys, mergeTo`values, mergeTo`children, (set c | c in n.children && h > 0)`parent
      modifies (if n.next != null then {n.next} else {})`prev, (if n.prev != null then {n.prev} else {})`next
      ensures HandedOver(old(Snap()), Snap(), n, mergeTo, before, h)
    {
      hide Snap, ContentMoved, Bypassed, HandedOver;
      ghost var s := Snap();
      if n.height == 0 {
        MoveEntries(n, mergeTo, keyOffset, childOffset, before);
      } else {
        MoveKids(n, mergeTo, keyOffset, childOffset, h, before);
      }
      ghost var t := Snap();
      Bypass(n, h);
      MovedAndBypassed(s, t, Snap(), n, mergeTo, before, h);
    }

    static lemma AtEnds<T>(xs: seq<T>, ys: seq<T>, k: nat)
      requires k == 0 || k == |xs|
      ensures xs[..k] + ys + xs[k..] == if k == 0 then ys + xs else xs + ys
    {
    }

    method MoveEntries(n: BTreeNode, mergeTo: BTreeNode, keyOffset: nat, childOffset: nat, ghost before: bool)
      requires NodeOk(n, 0) && NodeOk(mergeTo, 0) && n != mergeTo
      requires if before then keyOffset == childOffset == 0 else keyOffset == childOffset == |mergeTo.keys|
      modifies mergeTo`keys, mergeTo`values
      ensures ContentMoved(old(Snap()), Snap(), n, mergeTo, before, 0)
    {
      AtEnds(mergeTo.keys, n.keys, keyOffset);
      AtEnds(mergeTo.values, n.values, childOffset);
      mergeTo.keys := mergeTo.keys[..keyOffset] + n.keys + mergeTo.keys[keyOffset..];
      mergeTo.values := mergeTo.values[..childOffset] + n.values + mergeTo.values[childOffset..];
    }

    method MoveKids(n: BTreeNode, mergeTo: BTreeNode, keyOffset: nat, childOffset: nat, ghost h: nat, ghost before: bool)
      requires h > 0 && NodeOk(n, h) && NodeOk(mergeTo, h) && n != mergeTo && keyOffset <= |mergeTo.keys|
      requires childOffset == if before then 0 else |mergeTo.children|
      modifies mergeTo`keys, mergeTo`children, (set c | c in n.children)`parent
      ensures ContentMoved(old(Snap()), Snap(), n, mergeTo, before, h)
    {
      mergeTo.keys := mergeTo.keys[..keyOffset] + n.keys + mergeTo.keys[keyOffset..];
      forall c | c in n.children {
        c.parent := mergeTo;
      }
      AtEnds(mergeTo.children, n.children, childOffset);
      mergeTo.children := mergeTo.children[..childOffset] + n.children + mergeTo.children[childOffset..];
    }

    method Bypass(n: BTreeNode, ghost h: nat)
      requires n in nodes && (n.next != null ==> n.next in nodes && n.next != n) && (n.prev != null ==> n.prev in nodes && n.prev != n)
      modifies (if n.next != null then {n.next} else {})`prev, (if n.prev != null then {n.prev} else {})`next
      ensures Bypassed(old(Snap()), Snap(), n)
    {
      Associate(n.prev, n.next);
    }

    method Lose(p: BTreeNode, pos: nat, ghost x: BTreeNode)
      requires p in nodes && p != x && pos < |p.children|
      modifies p`keys, p`children
      ensures ParentLost(old(Snap()), Snap(), x, p, pos)
    {
      p.keys := Spliced(p.keys, pos);
      p.children := Spliced(p.children, pos);
    }

    static method Associate(left: BTreeNode?, right: BTreeNode?)
      modifies (if right != null then {right} else {})`prev, (if left != null then {left} else {})`next
      ensures right != null ==> right.prev == left
      ensures left != null ==> left.next == right
    {
      if right != null {
        right.prev := left;
      }
      if left != null {
        left.next := right;
      }
    }
  }
}
