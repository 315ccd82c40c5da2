/** Finding the one leaf where a key can be. */
module BTreeSearch {
  import opened Flatten
  import opened BTreeStore
  import opened BTreeRebalance
  import opened BTreeSteps

  /** Where the binary search of searchKey ends: the first position whose key is not smaller. */
  ghost predicate SearchPos(keys: seq<Key>, key: Key, pos: nat) {
    && pos <= |keys|
    && (forall i :: 0 <= i < pos ==> keys[i] < key)
    && (forall i :: pos <= i < |keys| ==> key <= keys[i])
  }

  ghost predicate KeysSorted(keys: seq<Key>) {
    forall i, j :: 0 <= i < j < |keys| ==> keys[i] < keys[j]
  }

  /** The child to descend into. */
  function ChildPos(keys: seq<Key>, key: Key, pos: nat): nat {
    if pos < |keys| && keys[pos] == key then pos + 1 else pos
  }

  /** The key can only be at or below n: everything to the left is smaller, everything to the
      right greater. */
  ghost predicate Fence(s: Store, n: BTreeNode, h: nat, key: Key) {
    && n in s
    && (s[n].prev != null ==> Left(s, n, h) <= key)
    && (s[n].next != null ==> key < Left(s, s[n].next, h))
  }

  // ---------- Leaves have keys; leftmost keys increase along every level ----------

  /** No empty leaf, except for a lone root. */
  ghost predicate Filled(s: Store, leaves: seq<BTreeNode>) {
    Within(s, leaves) && (|leaves| > 1 ==> forall i :: 0 <= i < |leaves| ==> |s[leaves[i]].keys| > 0)
  }

  /** Entry p of leaf i in the whole list. */
  lemma EntryAt(s: Store, leaves: seq<BTreeNode>, i: nat, p: nat) returns (k: nat)
    requires LeafLevel(s, leaves) && i < |leaves| && p < |s[leaves[i]].keys|
    ensures k == Offset(EntryLists(s, leaves), i) + p
    ensures k < |Entries(s, leaves)| && Entries(s, leaves)[k] == Entry(s[leaves[i]].keys[p], s[leaves[i]].values[p])
  {
    k := Offset(EntryLists(s, leaves), i) + p;
    FlatIndex(EntryLists(s, leaves), i, p);
  }

  lemma LeafKeysSorted(s: Store, leaves: seq<BTreeNode>, i: nat)
    requires LeafLevel(s, leaves) && Sorted(Entries(s, leaves)) && i < |leaves|
    ensures KeysSorted(s[leaves[i]].keys)
  {
    var keys := s[leaves[i]].keys;
    forall p, q | 0 <= p < q < |keys| ensures keys[p] < keys[q] {
      var a := EntryAt(s, leaves, i, p);
      var b := EntryAt(s, leaves, i, q);
    }
  }

  lemma LeafKeysApart(s: Store, leaves: seq<BTreeNode>, i: nat, p: nat, j: nat, q: nat)
    requires LeafLevel(s, leaves) && Sorted(Entries(s, leaves))
    requires i < j < |leaves| && p < |s[leaves[i]].keys| && q < |s[leaves[j]].keys|
    ensures s[leaves[i]].keys[p] < s[leaves[j]].keys[q]
  {
    var a := EntryAt(s, leaves, i, p);
    var b := EntryAt(s, leaves, j, q);
    var xss := EntryLists(s, leaves);
    OffsetStep(xss, i);
    OffsetMonotone(xss, i + 1, j);
  }

  /** The leftmost leaf below node i of level h. */
  lemma {:induction false} LeftLeaf(s: Store, L: seq<seq<BTreeNode>>, h: nat, i: nat) returns (j: nat)
    requires h < |L| && LevelsOk(s, L, h + 1) && i < |L[h]|
    ensures j < |L[0]| && Left(s, L[h][i], h) == Left(s, L[0][j], 0)
    ensures i == 0 ==> j == 0
    ensures i > 0 ==> j > 0
    decreases h
  {
    assert LevelOk(s, L, h);
    if h == 0 {
      j := i;
    } else {
      assert InnerNode(s, L[h][i], h);
      var c := ChildBelow(s, L, h, i, 0);
      var xss := ChildLists(s, L[h]);
      if i > 0 {
        assert InnerNode(s, L[h][0], h);
        OffsetStep(xss, 0);
        OffsetMonotone(xss, 1, i);
      }
      j := LeftLeaf(s, L, h - 1, c);
    }
  }

  lemma {:induction false} LeftLeavesApart(s: Store, L: seq<seq<BTreeNode>>, h: nat, i: nat, i': nat)
    requires h < |L| && LevelsOk(s, L, h + 1) && i < i' < |L[h]|
    requires LevelOk(s, L, 0) && Filled(s, L[0]) && Sorted(Entries(s, L[0]))
    ensures Left(s, L[h][i], h) < Left(s, L[h][i'], h)
    decreases h
  {
    assert LevelOk(s, L, h);
    if h == 0 {
      LeafKeysApart(s, L[0], i, 0, i', 0);
    } else {
      assert InnerNode(s, L[h][i], h) && InnerNode(s, L[h][i'], h);
      var c := ChildBelow(s, L, h, i, 0);
      var c' := ChildBelow(s, L, h, i', 0);
      var xss := ChildLists(s, L[h]);
      OffsetStep(xss, i);
      OffsetMonotone(xss, i + 1, i');
      LeftLeavesApart(s, L, h - 1, c, c');
    }
  }

  /** The separators of an internal node are sorted. */
  lemma SeparatorsSorted(s: Store, L: seq<seq<BTreeNode>>, h: nat, i: nat)
    requires 0 < h < |L| && LevelsOk(s, L, h + 1) && LevelOk(s, L, h) && i < |L[h]|
    requires LevelOk(s, L, 0) && Filled(s, L[0]) && Sorted(Entries(s, L[0]))
    ensures KeysSorted(s[L[h][i]].keys)
  {
    var n := L[h][i];
    assert InnerNode(s, n, h);
    forall p, q | 0 <= p < q < |s[n].keys| ensures s[n].keys[p] < s[n].keys[q] {
      var c := ChildBelow(s, L, h, i, p + 1);
      var c' := ChildBelow(s, L, h, i, q + 1);
      LeftLeavesApart(s, L, h - 1, c, c');
    }
  }

  lemma NodeKeysSorted(s: Store, L: seq<seq<BTreeNode>>, h: nat, i: nat)
    requires h < |L| && LevelsOk(s, L, |L|) && i < |L[h]|
    requires LevelOk(s, L, 0) && Filled(s, L[0]) && Sorted(Entries(s, L[0]))
    requires LevelOk(s, L, h)
    ensures KeysSorted(s[L[h][i]].keys)
  {
    if h == 0 { LeafKeysSorted(s, L[0], i); } else { SeparatorsSorted(s, L, h, i); }
  }

  // ---------- Descending ----------

  /** The child chosen by the search is fenced as its parent was. */
  lemma FenceDown(s: Store, L: seq<seq<BTreeNode>>, h: nat, i: nat, key: Key, pos: nat) returns (j: nat)
    requires 0 < h < |L| && LevelsOk(s, L, h + 1) && LevelOk(s, L, h) && LevelOk(s, L, h - 1) && i < |L[h]|
    requires Fence(s, L[h][i], h, key) && SearchPos(s[L[h][i]].keys, key, pos) && KeysSorted(s[L[h][i]].keys)
    ensures var c := ChildPos(s[L[h][i]].keys, key, pos);
      && c < |s[L[h][i]].children| && j < |L[h - 1]| && s[L[h][i]].children[c] == L[h - 1][j]
      && Fence(s, L[h - 1][j], h - 1, key)
    ensures pos > 0 || ChildPos(s[L[h][i]].keys, key, pos) > 0 ==> j > 0
  {
    var n := L[h][i];
    assert InnerNode(s, n, h);
    var c := ChildPos(s[n].keys, key, pos);
    j := ChildBelow(s, L, h, i, c);
    assert LinkAt(s, L[h - 1], j) && LinkAt(s, L[h], i);
    if c > 0 {
      assert s[n].keys[c - 1] == Left(s, s[n].children[c], h - 1);
    } else {
      FenceDownLeft(s, L, h, i, j);
    }
    FenceDownRight(s, L, h, i, c, j, key);
  }

  lemma FenceDownLeft(s: Store, L: seq<seq<BTreeNode>>, h: nat, i: nat, j: nat)
    requires 0 < h < |L| && LevelOk(s, L, h) && LevelOk(s, L, h - 1) && i < |L[h]|
    requires |s[L[h][i]].children| > 0 && j == Offset(ChildLists(s, L[h]), i) && j < |L[h - 1]| && L[h - 1][j] == s[L[h][i]].children[0]
    ensures Left(s, L[h - 1][j], h - 1) == Left(s, L[h][i], h)
    ensures j > 0 ==> i > 0
  {
    if i == 0 {
      assert ChildLists(s, L[h])[..0] == [];
    }
  }

  lemma FenceDownRight(s: Store, L: seq<seq<BTreeNode>>, h: nat, i: nat, c: nat, j: nat, key: Key)
    requires 0 < h < |L| && LevelOk(s, L, h) && LevelOk(s, L, h - 1) && i < |L[h]|
    requires c < |s[L[h][i]].children| && j == Offset(ChildLists(s, L[h]), i) + c && j < |L[h - 1]|
    requires s[L[h][i]].next != null ==> key < Left(s, s[L[h][i]].next, h)
    requires c < |s[L[h][i]].keys| ==> key < s[L[h][i]].keys[c]
    ensures j + 1 < |L[h - 1]| ==> key < Left(s, L[h - 1][j + 1], h - 1)
  {
    if j + 1 < |L[h - 1]| {
      var i', p' := ParentAbove(s, L, h, j + 1);
      forall k | 0 <= k < |L[h]| ensures |s[L[h][k]].children| > 0 { assert InnerNode(s, L[h][k], h); }
      NextChild(s, L, h, i, c, i', p');
      assert LinkAt(s, L[h], i);
      assert InnerNode(s, L[h][i], h);
      if i' == i {
        assert s[L[h][i]].keys[c] == Left(s, s[L[h][i]].children[c + 1], h - 1);
      }
    }
  }

  // ---------- At the leaf ----------

  ghost predicate AllBelow(es: seq<Entry>, key: Key) {
    forall k :: 0 <= k < |es| ==> es[k].key < key
  }

  ghost predicate AllAbove(es: seq<Entry>, key: Key) {
    forall k :: 0 <= k < |es| ==> key < es[k].key
  }

  ghost function EntriesBefore(s: Store, leaves: seq<BTreeNode>, i: nat): seq<Entry>
    requires i < |leaves|
  {
    Flat(EntryLists(s, leaves)[..i])
  }

  ghost function EntriesAfter(s: Store, leaves: seq<BTreeNode>, i: nat): seq<Entry>
    requires i < |leaves|
  {
    Flat(EntryLists(s, leaves)[i + 1..])
  }

  /** Outside the fenced leaf no entry has the key: smaller before, greater after. */
  lemma LeafFence(s: Store, L: seq<seq<BTreeNode>>, i: nat, key: Key)
    requires |L| > 0 && LevelOk(s, L, 0) && Filled(s, L[0]) && Sorted(Entries(s, L[0])) && i < |L[0]|
    requires Fence(s, L[0][i], 0, key)
    ensures Entries(s, L[0]) == EntriesBefore(s, L[0], i) + LeafEntries(s[L[0][i]]) + EntriesAfter(s, L[0], i)
    ensures AllBelow(EntriesBefore(s, L[0], i), key) && AllAbove(EntriesAfter(s, L[0], i), key)
  {
    var xss := EntryLists(s, L[0]);
    FlatAround(xss, i);
    assert LinkAt(s, L[0], i);
    LeafFenceBefore(s, L, i, key);
    LeafFenceAfter(s, L, i, key);
  }

  lemma LeafFenceBefore(s: Store, L: seq<seq<BTreeNode>>, i: nat, key: Key)
    requires |L| > 0 && LevelOk(s, L, 0) && Filled(s, L[0]) && Sorted(Entries(s, L[0])) && i < |L[0]|
    requires i > 0 ==> Left(s, L[0][i], 0) <= key
    ensures AllBelow(EntriesBefore(s, L[0], i), key)
  {
    var xss := EntryLists(s, L[0]);
    var es, before := Entries(s, L[0]), EntriesBefore(s, L[0], i);
    FlatAround(xss, i);
    if i > 0 {
      var a := EntryAt(s, L[0], i, 0);
      forall k | 0 <= k < |before| ensures before[k].key < key {
        assert before[k] == es[k] && es[k].key < es[a].key;
      }
    } else {
      assert xss[..0] == [];
    }
  }

  lemma LeafFenceAfter(s: Store, L: seq<seq<BTreeNode>>, i: nat, key: Key)
    requires |L| > 0 && LevelOk(s, L, 0) && Filled(s, L[0]) && Sorted(Entries(s, L[0])) && i < |L[0]|
    requires i + 1 < |L[0]| ==> key < Left(s, L[0][i + 1], 0)
    ensures AllAbove(EntriesAfter(s, L[0], i), key)
  {
    var xss := EntryLists(s, L[0]);
    var es, after := Entries(s, L[0]), EntriesAfter(s, L[0], i);
    FlatAround(xss, i);
    if i + 1 < |L[0]| {
      var b := EntryAt(s, L[0], i + 1, 0);
      OffsetStep(xss, i);
      forall k | 0 <= k < |after| ensures key < after[k].key {
        assert after[k] == es[b + k];
      }
    } else {
      assert xss[i + 1..] == [];
    }
  }
}
