/** The nodes of the B+-tree, and what is true of a snapshot of all of them.
 *
 * A snapshot (Store) maps every node object to the values of its fields.  The shape of the tree
 * is described level by level: levels[0] lists the leaves from left to right and
 * levels[|levels| - 1] holds only the root.
 */
module BTreeStore {
  import opened Flatten

  type Key = int
  type RowId = int

  class BTreeNode {
    var height: nat
    var keys: seq<Key>
    var values: seq<seq<RowId>>
    var children: seq<BTreeNode>
    var parent: BTreeNode?
    var prev: BTreeNode?
    var next: BTreeNode?

    constructor (height: nat, keys: seq<Key>, values: seq<seq<RowId>>, children: seq<BTreeNode>, parent: BTreeNode?)
      ensures this.height == height && this.keys == keys && this.values == values && this.children == children
      ensures this.parent == parent && prev == null && next == null
    {
      this.height, this.keys, this.values, this.children, this.parent := height, keys, values, children, parent;
      prev, next := null, null;
    }
  }

  datatype Rec = Rec(height: nat, keys: seq<Key>, values: seq<seq<RowId>>, children: seq<BTreeNode>,
                     parent: BTreeNode?, prev: BTreeNode?, next: BTreeNode?)

  type Store = map<BTreeNode, Rec>

  /** One key with the row ids filed under it; a unique index files exactly one. */
  datatype Entry = Entry(key: Key, rows: seq<RowId>)

  // ---------- What a level lists ----------

  ghost predicate Within(s: Store, ns: seq<BTreeNode>) {
    forall i :: 0 <= i < |ns| ==> ns[i] in s
  }

  ghost function ChildLists(s: Store, ns: seq<BTreeNode>): (r: seq<seq<BTreeNode>>)
    ensures |r| == |ns| && forall i :: 0 <= i < |ns| && ns[i] in s ==> r[i] == s[ns[i]].children
  {
    seq(|ns|, i requires 0 <= i < |ns| => if ns[i] in s then s[ns[i]].children else [])
  }

  ghost function LeafEntries(r: Rec): (es: seq<Entry>)
    ensures |es| == |r.keys|
    ensures forall i :: 0 <= i < |es| && i < |r.values| ==> es[i] == Entry(r.keys[i], r.values[i])
  {
    seq(|r.keys|, i requires 0 <= i < |r.keys| => Entry(r.keys[i], if i < |r.values| then r.values[i] else []))
  }

  ghost predicate LeafLevel(s: Store, ns: seq<BTreeNode>) {
    Within(s, ns) && forall i :: 0 <= i < |ns| ==> |s[ns[i]].keys| == |s[ns[i]].values| && s[ns[i]].children == []
  }

  ghost function EntryLists(s: Store, ns: seq<BTreeNode>): (r: seq<seq<Entry>>)
    ensures |r| == |ns| && forall i :: 0 <= i < |ns| && ns[i] in s ==> r[i] == LeafEntries(s[ns[i]])
  {
    seq(|ns|, i requires 0 <= i < |ns| => if ns[i] in s then LeafEntries(s[ns[i]]) else [])
  }

  /** All entries of the index, in leaf-chain order. */
  ghost function Entries(s: Store, leaves: seq<BTreeNode>): seq<Entry> {
    Flat(EntryLists(s, leaves))
  }

  ghost predicate Sorted(es: seq<Entry>) {
    forall i, j :: 0 <= i < j < |es| ==> es[i].key < es[j].key
  }

  // ---------- The structural invariant ----------

  ghost function At(ns: seq<BTreeNode>, i: int): BTreeNode? {
    if 0 <= i < |ns| then ns[i] else null
  }

  /** The leftmost key below n, which has height h. */
  ghost function Left(s: Store, n: BTreeNode, h: nat): Key
    decreases h
  {
    if n !in s then 0
    else if h == 0 then (if s[n].keys == [] then 0 else s[n].keys[0])
    else if s[n].children == [] then 0
    else Left(s, s[n].children[0], h - 1)
  }

  /** What fix() computes: the leftmost key of every child but the first. */
  ghost function Separators(s: Store, cs: seq<BTreeNode>, h: nat): (r: seq<Key>)
    requires h > 0
    ensures |r| == (if |cs| == 0 then 0 else |cs| - 1)
    ensures forall i :: 0 <= i < |r| ==> r[i] == Left(s, cs[i + 1], h - 1)
  {
    seq(if |cs| == 0 then 0 else |cs| - 1, i requires 0 <= i < |cs| - 1 => Left(s, cs[i + 1], h - 1))
  }

  ghost predicate LinkAt(s: Store, ns: seq<BTreeNode>, i: int) {
    0 <= i < |ns| && ns[i] in s && s[ns[i]].prev == At(ns, i - 1) && s[ns[i]].next == At(ns, i + 1)
  }

  ghost predicate Differ<T>(xs: seq<T>, i: int, j: int)
    requires 0 <= i < |xs| && 0 <= j < |xs|
  {
    xs[i] != xs[j]
  }

  ghost predicate Distinct<T>(xs: seq<T>) {
    forall i, j :: 0 <= i < j < |xs| ==> Differ(xs, i, j)
  }

  /** One level is a doubly linked chain of distinct nodes of the same height. */
  ghost predicate Chain(s: Store, ns: seq<BTreeNode>, h: nat) {
    && |ns| > 0
    && (forall i :: 0 <= i < |ns| ==> ns[i] in s && s[ns[i]].height == h)
    && (forall i :: 0 <= i < |ns| ==> LinkAt(s, ns, i))
    && Distinct(ns)
  }

  ghost predicate OwnsChildren(s: Store, n: BTreeNode)
    requires n in s
  {
    && |s[n].children| > 0
    && forall p :: 0 <= p < |s[n].children| ==> s[n].children[p] in s && s[s[n].children[p]].parent == n
  }

  ghost predicate InnerNode(s: Store, n: BTreeNode, h: nat)
    requires n in s && h > 0
  {
    OwnsChildren(s, n) && s[n].keys == Separators(s, s[n].children, h)
  }

  /** The children of an internal level, read from left to right, are the level below. */
  ghost predicate Covers(s: Store, ns: seq<BTreeNode>, below: seq<BTreeNode>) {
    Flat(ChildLists(s, ns)) == below
  }

  ghost predicate LevelOk(s: Store, L: seq<seq<BTreeNode>>, h: nat)
    requires h < |L|
  {
    && Chain(s, L[h], h)
    && (h == 0 ==> LeafLevel(s, L[0]))
    && (h > 0 ==> Covers(s, L[h], L[h - 1]) && forall i :: 0 <= i < |L[h]| ==> InnerNode(s, L[h][i], h))
  }

  ghost predicate LevelsOk(s: Store, L: seq<seq<BTreeNode>>, h: nat)
    requires h <= |L|
  {
    forall k :: 0 <= k < h ==> LevelOk(s, L, k)
  }

  ghost predicate Tree(s: Store, L: seq<seq<BTreeNode>>) {
    && |L| > 0
    && LevelsOk(s, L, |L|)
    && LevelOk(s, L, 0)
    && LevelOk(s, L, |L| - 1)
    && |L[|L| - 1]| == 1
    && s[L[|L| - 1][0]].parent == null
    && Sorted(Entries(s, L[0]))
  }

  // ---------- Node sizes: MIN_KEY_LEN is half of MAX_COUNT ----------

  function MinKeys(max: nat): nat { max / 2 }

  /** splitInternal leaves max - MIN_KEY_LEN - 1 keys in the right half. */
  function LowKeys(max: nat): int { max - max / 2 - 1 }

  /** Every node of a level below the root. */
  ghost predicate NonRootSized(s: Store, ns: seq<BTreeNode>, max: nat, k: nat) {
    forall i :: 0 <= i < |ns| ==> ns[i] in s && NonRootNode(s, ns[i], max, k)
  }

  ghost predicate NonRootNode(s: Store, n: BTreeNode, max: nat, k: nat)
    requires n in s
  {
    if k == 0 then MinKeys(max) <= |s[n].keys| < max else LowKeys(max) <= |s[n].keys|
  }

  ghost predicate RootSized(s: Store, n: BTreeNode, max: nat, k: nat) {
    n in s && if k == 0 then |s[n].keys| < max else 1 <= |s[n].keys|
  }

  ghost predicate Sized(s: Store, L: seq<seq<BTreeNode>>, max: nat) {
    && |L| > 0 && |L[|L| - 1]| == 1
    && (forall k :: 0 <= k < |L| - 1 ==> NonRootSized(s, L[k], max, k))
    && RootSized(s, L[|L| - 1][0], max, |L| - 1)
  }

  // ---------- Positions ----------

  lemma ChildBelow(s: Store, L: seq<seq<BTreeNode>>, h: nat, i: nat, p: nat) returns (j: nat)
    requires 0 < h < |L| && Within(s, L[h]) && Covers(s, L[h], L[h - 1])
    requires i < |L[h]| && p < |s[L[h][i]].children|
    ensures j == Offset(ChildLists(s, L[h]), i) + p
    ensures j < |L[h - 1]| && L[h - 1][j] == s[L[h][i]].children[p]
  {
    FlatIndex(ChildLists(s, L[h]), i, p);
    j := Offset(ChildLists(s, L[h]), i) + p;
  }

  lemma ParentAbove(s: Store, L: seq<seq<BTreeNode>>, h: nat, j: nat) returns (i: nat, p: nat)
    requires 0 < h < |L| && Within(s, L[h]) && Covers(s, L[h], L[h - 1])
    requires j < |L[h - 1]|
    ensures i < |L[h]| && p < |s[L[h][i]].children| && s[L[h][i]].children[p] == L[h - 1][j]
    ensures j == Offset(ChildLists(s, L[h]), i) + p
  {
    i, p := FlatFind(ChildLists(s, L[h]), j);
  }

  /** A node of an internal level and its neighbours: the right neighbour of a child is the next
      child, or the first child of the next node. */
  lemma NextChild(s: Store, L: seq<seq<BTreeNode>>, h: nat, i: nat, p: nat, i': nat, p': nat)
    requires 0 < h < |L| && Within(s, L[h]) && Covers(s, L[h], L[h - 1])
    requires forall k :: 0 <= k < |L[h]| ==> |s[L[h][k]].children| > 0
    requires i < |L[h]| && p < |s[L[h][i]].children| && i' < |L[h]| && p' < |s[L[h][i']].children|
    requires Offset(ChildLists(s, L[h]), i) + p + 1 == Offset(ChildLists(s, L[h]), i') + p'
    ensures (i' == i && p' == p + 1) || (i' == i + 1 && p' == 0 && p + 1 == |s[L[h][i]].children|)
  {
    var xss := ChildLists(s, L[h]);
    OffsetStep(xss, i);
    OffsetStep(xss, i');
    if i < i' {
      OffsetMonotone(xss, i + 1, i');
    } else if i' < i {
      OffsetMonotone(xss, i' + 1, i);
    }
  }

  lemma ChainIndex(s: Store, ns: seq<BTreeNode>, h: nat, i: nat, j: nat)
    requires Chain(s, ns, h) && i < |ns| && j < |ns| && ns[i] == ns[j]
    ensures i == j
  {
    assert i < j ==> Differ(ns, i, j);
    assert j < i ==> Differ(ns, j, i);
  }

  /** A child sits below exactly one node, at exactly one position. */
  lemma UniqueParent(s: Store, L: seq<seq<BTreeNode>>, h: nat, i: nat, p: nat, i': nat, p': nat)
    requires 0 < h < |L| && LevelOk(s, L, h) && LevelOk(s, L, h - 1)
    requires i < |L[h]| && p < |s[L[h][i]].children| && i' < |L[h]| && p' < |s[L[h][i']].children|
    requires s[L[h][i]].children[p] == s[L[h][i']].children[p']
    ensures i == i' && p == p'
  {
    var j := ChildBelow(s, L, h, i, p);
    var j' := ChildBelow(s, L, h, i', p');
    ChainIndex(s, L[h - 1], h - 1, j, j');
    assert InnerNode(s, L[h][i], h) && InnerNode(s, L[h][i'], h);
    ChainIndex(s, L[h], h, i, i');
  }

  // ---------- Leftmost keys under change ----------

  ghost predicate SameNode(s: Store, s': Store, n: BTreeNode) {
    n in s && n in s' && s'[n].children == s[n].children && s'[n].keys == s[n].keys
  }

  ghost predicate SameLevel(s: Store, s': Store, ns: seq<BTreeNode>) {
    forall j :: 0 <= j < |ns| ==> SameNode(s, s', ns[j])
  }

  /** Nodes keep their leftmost key when no keys or children at or below them change. */
  lemma {:induction false} LeftSame(s: Store, s': Store, L: seq<seq<BTreeNode>>, h: nat, i: nat)
    requires h < |L| && LevelsOk(s, L, h + 1) && i < |L[h]|
    requires forall k :: 0 <= k < h ==> SameLevel(s, s', L[k])
    requires SameNode(s, s', L[h][i])
    ensures Left(s', L[h][i], h) == Left(s, L[h][i], h)
    decreases h
  {
    assert LevelOk(s, L, h);
    if h > 0 {
      assert InnerNode(s, L[h][i], h);
      var j := ChildBelow(s, L, h, i, 0);
      assert SameLevel(s, s', L[h - 1]);
      assert SameNode(s, s', L[h - 1][j]);
      LeftSame(s, s', L, h - 1, j);
    }
  }
}
