/** What one removal means on snapshots: dropping a key from a leaf, stealing, merging, and the root. */
module BTreeRemoval {
  import opened Flatten
  import opened BTreeStore
  import opened BTreeRebalance
  import opened BTreeSteps
  import opened BTreeDeletion
  import opened BTreeSearch
  import opened BTreeInsertion
  import opened BTreeContents
  import opened BTreeUpdates
  import opened SortedRows

  // ---------- Sizes while a removal is under way ----------

  /** The levels up to h have their sizes again. */
  ghost predicate ShrunkSized(s: Store, L: seq<seq<BTreeNode>>, max: nat, h: nat) {
    && h < |L|
    && (forall k :: 0 <= k <= h && k + 1 < |L| ==> NonRootSized(s, L[k], max, k))
    && (h + 1 == |L| ==> |L[h]| == 1 && L[h][0] in s && (h == 0 ==> |s[L[0][0]].keys| < max))
  }

  ghost predicate NearlyNode(s: Store, n: BTreeNode, max: nat, k: nat)
    requires n in s
  {
    if k == 0 then MinKeys(max) - 1 <= |s[n].keys| < max else LowKeys(max) - 1 <= |s[n].keys|
  }

  /** Only node i of level h may be one key short. */
  ghost predicate NearlySized(s: Store, L: seq<seq<BTreeNode>>, max: nat, h: nat, i: nat) {
    && h < |L| && i < |L[h]| && L[h][i] in s && max >= 5
    && (forall k :: 0 <= k < h ==> NonRootSized(s, L[k], max, k))
    && (h + 1 < |L| ==> NearlyNode(s, L[h][i], max, h))
    && (h + 1 < |L| ==> forall k :: 0 <= k < |L[h]| && k != i ==> L[h][k] in s && NonRootNode(s, L[h][k], max, h))
    && (h + 1 == |L| ==> |L[h]| == 1 && (h == 0 ==> |s[L[0][0]].keys| < max))
  }

  lemma EnoughKeys(s: Store, L: seq<seq<BTreeNode>>, max: nat, h: nat, i: nat)
    requires NearlySized(s, L, max, h, i)
    requires h + 1 < |L| ==> |s[L[h][i]].keys| >= MinKeys(max)
    ensures ShrunkSized(s, L, max, h)
  {
    if h + 1 < |L| {
      forall k | 0 <= k < |L[h]| ensures L[h][k] in s && NonRootNode(s, L[h][k], max, h) {
      }
    }
  }

  /** Every level below the root has at least two nodes. */
  lemma {:induction false} WideLevel(s: Store, L: seq<seq<BTreeNode>>, max: nat, h: nat)
    requires Tree(s, L) && Sized(s, L, max) && h + 1 < |L|
    ensures |L[h]| > 1
    decreases |L| - h
  {
    assert LevelOk(s, L, h + 1);
    var xss := ChildLists(s, L[h + 1]);
    assert InnerNode(s, L[h + 1][0], h + 1);
    OffsetStep(xss, 0);
    if h + 2 < |L| {
      WideLevel(s, L, max, h + 1);
      forall k | 0 <= k < |L[h + 1]| ensures |xss[k]| > 0 { assert InnerNode(s, L[h + 1][k], h + 1); }
      OffsetMonotone(xss, 0, |xss|);
    } else {
      OffsetMonotone(xss, 1, |xss|);
    }
    assert xss[..|xss|] == xss;
  }

  // ---------- The leaf ----------

  /** Shortening or extending a list of row ids leaves the shape alone. */
  lemma ValuesOnly(s: Store, s': Store, L: seq<seq<BTreeNode>>, x: BTreeNode, values: seq<seq<RowId>>, max: nat)
    requires Tree(s, L) && Sized(s, L, max) && x in s && s' == s[x := s[x].(values := values)] && |values| == |s[x].values|
    requires Sorted(Entries(s', L[0]))
    ensures Tree(s', L) && Sized(s', L, max) && KeepsRoom(s, L, s', L, max, |L| - 1)
  {
    forall k | 0 <= k <= |L| - 1 ensures SameKeysLevel(s, s', L[k]) { assert LevelOk(s, L, k); }
    SameKeysRoom(s, s', L, max);
    forall k | 0 <= k < |L| ensures LevelOk(s', L, k) {
      ValuesOnlyLevel(s, s', L, x, values, k);
    }
    forall k | 0 <= k < |L| - 1 ensures NonRootSized(s', L[k], max, k) {
      assert NonRootSized(s, L[k], max, k);
      forall i | 0 <= i < |L[k]| ensures L[k][i] in s' && NonRootNode(s', L[k][i], max, k) {
        assert NonRootNode(s, L[k][i], max, k);
      }
    }
  }

  ghost predicate SameKeysLevel(s: Store, u: Store, ns: seq<BTreeNode>) {
    forall i :: 0 <= i < |ns| ==> ns[i] in s && ns[i] in u && u[ns[i]].keys == s[ns[i]].keys
  }

  lemma SameKeysRoom(s: Store, u: Store, L: seq<seq<BTreeNode>>, max: nat)
    requires |L| > 0 && forall k :: 0 <= k <= |L| - 1 ==> SameKeysLevel(s, u, L[k])
    ensures KeepsRoom(s, L, u, L, max, |L| - 1)
  {
    var top := |L| - 1;
    forall bound: nat | Roomy(s, L, bound, top) ensures Roomy(u, L, bound, top) {
      forall k | 0 < k <= top ensures RoomyLevel(u, L[k], bound) {
        assert RoomyLevel(s, L[k], bound) && SameKeysLevel(s, u, L[k]);
      }
    }
  }

  lemma ValuesOnlyLevel(s: Store, s': Store, L: seq<seq<BTreeNode>>, x: BTreeNode, values: seq<seq<RowId>>, k: nat)
    requires k < |L| && LevelsOk(s, L, |L|) && x in s && s' == s[x := s[x].(values := values)] && |values| == |s[x].values|
    ensures LevelOk(s', L, k)
  {
    assert LevelOk(s, L, k);
    ChainFrame(s, s', L[k], k);
    if k > 0 {
      assert LevelOk(s, L, k - 1);
      assert ChildLists(s', L[k]) == ChildLists(s, L[k]);
      forall i | 0 <= i < |L[k]| ensures InnerNode(s', L[k][i], k) {
        assert InnerNode(s, L[k][i], k);
        forall p | 0 <= p < |s[L[k][i]].children|
          ensures Left(s', s[L[k][i]].children[p], k - 1) == Left(s, s[L[k][i]].children[p], k - 1)
        {
          var j := ChildBelow(s, L, k, i, p);
          forall m | 0 <= m < k ensures SameLevel(s, s', L[m]) { assert LevelOk(s, L, m); }
          assert SameNode(s, s', L[k - 1][j]);
          LeftSame(s, s', L, k - 1, j);
        }
        assert Separators(s', s[L[k][i]].children, k) == Separators(s, s[L[k][i]].children, k);
      }
    }
  }

  /** A leaf reached by the search has dropped the key. */
  lemma LeafDropped(s: Store, s': Store, L: seq<seq<BTreeNode>>, i: nat, key: Key, pos: nat, pos': int, unique: bool, total: int, max: nat)
    requires Tree(s, L) && Sized(s, L, max) && LevelOk(s, L, 0) && i < |L[0]| && max >= 5
    requires LeafPut(s, s', L[0][i], key, pos, []) && FoundAt(s[L[0][i]], key, pos) && CutHere(s, L[0], i, key, pos, unique)
    requires total == Total(Entries(s, L[0])) - FoundRows(s[L[0][i]], key, pos)
    ensures Step(s, L, s', L, 0, i, pos') && NearlySized(s', L, max, 0, i)
    ensures Filed(Entries(s', L[0]), total, unique, ContentsOf(Entries(s, L[0])) - {key})
    ensures |s'[L[0][i]].keys| == |s[L[0][i]].keys| - 1
  {
    var x := L[0][i];
    LeafDropSize(s, s', x, key, pos);
    LeafDropStep(s, s', L, i, key, pos, pos');
    hide Step, Tree, Sized, CutHere, Filed, NearlySized;
    assert EntryLists(s', L[0]) == EntryLists(s, L[0])[i := LeafEntries(s'[x])];
    FlatUpdate(EntryLists(s, L[0]), i, LeafEntries(s'[x]));
    LeafRefiled(s, s', L[0], i, key, pos, unique, []);
    LeafDropNearly(s, s', L, i, max);
  }

  lemma LeafDropStep(s: Store, s': Store, L: seq<seq<BTreeNode>>, i: nat, key: Key, pos: nat, pos': int)
    requires Tree(s, L) && LevelOk(s, L, 0) && i < |L[0]|
    requires LeafPut(s, s', L[0][i], key, pos, []) && FoundAt(s[L[0][i]], key, pos)
    ensures Step(s, L, s', L, 0, i, pos')
    ensures forall k :: 0 <= k < |L[0]| && k != i ==> L[0][k] != L[0][i] && L[0][k] in s && L[0][k] in s' && s'[L[0][k]] == s[L[0][k]]
    ensures Chain(s, L[0], 0) && L[0][i] in s'
  {
    var x := L[0][i];
    forall k | 0 <= k < |L[0]| && k != i ensures L[0][k] != x {
      if L[0][k] == x { ChainIndex(s, L[0], 0, k, i); }
    }
    ChainFrame(s, s', L[0], 0);
    assert LevelOk(s', L, 0);
    forall k, j | 0 < k < |L| && 0 <= j < |L[k]| ensures AboveNode(s, s', L[k][j], s[x].parent, pos', false) {
      assert LevelOk(s, L, k);
      assert s[L[k][j]].height == k;
    }
  }

  lemma LeafDropSize(s: Store, s': Store, x: BTreeNode, key: Key, pos: nat)
    requires LeafPut(s, s', x, key, pos, []) && FoundAt(s[x], key, pos)
    ensures |s'[x].keys| == |s[x].keys| - 1
  {
    assert |LeafEntries(s'[x])| == |LeafEntries(s[x])| - 1;
  }

  lemma LeafDropNearly(s: Store, s': Store, L: seq<seq<BTreeNode>>, i: nat, max: nat)
    requires Sized(s, L, max) && i < |L[0]| && max >= 5 && L[0][i] in s && L[0][i] in s'
    requires |s'[L[0][i]].keys| == |s[L[0][i]].keys| - 1
    requires forall k :: 0 <= k < |L[0]| && k != i ==> L[0][k] in s && L[0][k] in s' && s'[L[0][k]] == s[L[0][k]]
    ensures NearlySized(s', L, max, 0, i)
  {
    if |L| > 1 {
      assert NonRootSized(s, L[0], max, 0);
      forall k | 0 <= k < |L[0]| && k != i ensures L[0][k] in s' && NonRootNode(s', L[0][k], max, 0) {
        assert NonRootNode(s, L[0][k], max, 0);
      }
      assert NonRootNode(s, L[0][i], max, 0);
    }
  }

  // ---------- An internal node after its child returned ----------

  ghost predicate KidsIn(s: Store, ns: seq<BTreeNode>, n: BTreeNode) {
    n in s && forall p :: 0 <= p < |s[n].children| ==> s[n].children[p] in ns
  }

  /** fix() finds leftmost keys below the node. */
  ghost predicate Fixable(s: Store, L: seq<seq<BTreeNode>>, h: nat, n: BTreeNode) {
    && 0 < h <= |L| && n in s && s[n].height == h && LevelsOk(s, L, h) && KidsIn(s, L[h - 1], n)
    && Within(s, L[0]) && forall i :: 0 <= i < |L[0]| ==> s[L[0][i]].keys != []
  }

  lemma LeavesFilled(s: Store, L: seq<seq<BTreeNode>>, max: nat)
    requires |L| > 0 && max >= 5 && NonRootSized(s, L[0], max, 0)
    ensures Within(s, L[0]) && forall i :: 0 <= i < |L[0]| ==> s[L[0][i]].keys != []
  {
    forall i | 0 <= i < |L[0]| ensures s[L[0][i]].keys != [] { assert NonRootNode(s, L[0][i], max, 0); }
  }

  lemma FixReady(s: Store, L: seq<seq<BTreeNode>>, t: Store, L': seq<seq<BTreeNode>>, h: nat, i: nat, pos: nat, ic: nat, max: nat)
    requires FixContext(s, L, t, L', h, i, pos, ic) && ShrunkSized(t, L', max, h - 1) && max >= 5
    ensures Fixable(t, L', h, L[h][i])
  {
    var n := L[h][i];
    FixAbove(s, L, t, L', h, i, pos, ic);
    assert AboveNode(s, t, n, n, pos, L'[h - 1] != L[h - 1]);
    assert LevelOk(s, L, h);
    assert NonRootSized(t, L'[0], max, 0);
    LeavesFilled(t, L', max);
    forall p | 0 <= p < |t[n].children| ensures t[n].children[p] in L'[h - 1] {
      var j := FixChildKept(s, L, t, L', h, i, pos, ic, i, p);
    }
  }

  /** After fix() the node is the only one that may be short. */
  lemma FixNearly(s: Store, L: seq<seq<BTreeNode>>, t: Store, L': seq<seq<BTreeNode>>, t': Store, h: nat, i: nat, pos: nat, ic: nat, max: nat)
    requires FixContext(s, L, t, L', h, i, pos, ic) && Fixed(t, t', L[h][i], h)
    requires Sized(s, L, max) && ShrunkSized(t, L', max, h - 1) && max >= 5
    requires Step(s, L, t', L', h, i, -1) || |L'| == |L|
    requires L'[h] == L[h] && LevelsOk(t', L', h + 1) && forall k :: 0 <= k < h ==> SameRecords(t, t', L'[k])
    requires t'[L[h][i]].children == (if L'[h - 1] != L[h - 1] then Without(s[L[h][i]].children, pos) else s[L[h][i]].children)
    requires forall k :: 0 <= k < |L[h]| && k != i ==> L[h][k] in t' && t'[L[h][k]] == s[L[h][k]]
    ensures NearlySized(t', L', max, h, i) && |t'[L[h][i]].keys| >= 0 && |t'[L[h][i]].children| == |t'[L[h][i]].keys| + 1
  {
    var n := L[h][i];
    assert LevelOk(t', L', h) && InnerNode(t', n, h) && InnerNode(s, n, h);
    forall k | 0 <= k < h ensures NonRootSized(t', L'[k], max, k) {
      assert SameRecords(t, t', L'[k]) && NonRootSized(t, L'[k], max, k);
      forall m | 0 <= m < |L'[k]| ensures L'[k][m] in t' && NonRootNode(t', L'[k][m], max, k) {
        assert NonRootNode(t, L'[k][m], max, k);
      }
    }
    if h + 1 < |L| {
      assert NonRootSized(s, L[h], max, h) && NonRootNode(s, n, max, h);
      forall k | 0 <= k < |L[h]| && k != i ensures NonRootNode(t', L[h][k], max, h) {
        assert NonRootNode(s, L[h][k], max, h);
      }
    }
  }

  /** No separator of level h is a key the index no longer has. */
  lemma SeparatorsLive(s: Store, L: seq<seq<BTreeNode>>, h: nat, i: nat, pos: nat)
    requires 0 < h < |L| && LevelsOk(s, L, h + 1) && i < |L[h]| && L[h][i] in s && pos < |s[L[h][i]].keys|
    requires forall j :: 0 <= j < |L[0]| ==> L[0][j] in s && s[L[0][j]].keys != []
    requires Sorted(Entries(s, L[0]))
    ensures s[L[h][i]].keys[pos] in ContentsOf(Entries(s, L[0]))
  {
    assert LevelOk(s, L, h) && LevelOk(s, L, h - 1) && LevelOk(s, L, 0);
    assert InnerNode(s, L[h][i], h);
    var c := ChildBelow(s, L, h, i, pos + 1);
    var j := LeftLeaf(s, L, h - 1, c);
    var k := EntryAt(s, L[0], j, 0);
    ContentsListed(Entries(s, L[0]));
  }

  // ---------- Steal ----------

  function SpliceIn<T>(xs: seq<T>, i: nat, x: T): seq<T> {
    if i <= |xs| then xs[..i] + [x] + xs[i..] else xs + [x]
  }

  function Spliced<T>(xs: seq<T>, i: nat): seq<T> {
    if i < |xs| then xs[..i] + xs[i + 1..] else xs
  }

  /** Leaf n has taken one entry of its neighbour. */
  ghost predicate TookEntry(s: Store, u: Store, n: BTreeNode, from: BTreeNode, at: nat, to: nat) {
    && n in s && from in s && n != from && at < |s[from].keys| && at < |s[from].values|
    && u == s[n := s[n].(keys := SpliceIn(s[n].keys, to, s[from].keys[at]), values := SpliceIn(s[n].values, to, s[from].values[at]))]
             [from := s[from].(keys := Spliced(s[from].keys, at), values := Spliced(s[from].values, at))]
  }

  /** Internal node n has taken one child of its neighbour; keys are left to fix(). */
  ghost predicate TookChild(s: Store, u: Store, n: BTreeNode, from: BTreeNode, at: nat, to: nat) {
    && n in s && from in s && n != from && at < |s[from].children|
    && var c := s[from].children[at];
    && c in s && c != n && c != from && n in u && from in u
    && u == s[n := s[n].(keys := u[n].keys, children := SpliceIn(s[n].children, to, c))]
             [from := s[from].(keys := u[from].keys, children := Spliced(s[from].children, at))]
             [c := s[c].(parent := n)]
  }

  lemma TookFromNext(s: Store, u: Store, n: BTreeNode, from: BTreeNode)
    requires n in s && |s[n].keys| == |s[n].values| && TookEntry(s, u, n, from, 0, |s[n].keys| + 1)
    ensures RecutLeaves(s, u, n, from, |s[n].keys| + 1)
  {
    TakeFirst(s[n].keys, s[from].keys);
    TakeFirst(s[n].values, s[from].values);
  }

  lemma TookFromPrev(s: Store, u: Store, n: BTreeNode, from: BTreeNode)
    requires from in s && |s[from].keys| == |s[from].values| > 0 && TookEntry(s, u, n, from, |s[from].keys| - 1, 0)
    ensures RecutLeaves(s, u, from, n, |s[from].keys| - 1)
  {
    TakeLast(s[from].keys, s[n].keys);
    TakeLast(s[from].values, s[n].values);
  }

  lemma TakeFirst<T>(a: seq<T>, b: seq<T>)
    requires |b| > 0
    ensures (a + b)[..|a| + 1] == SpliceIn(a, |a| + 1, b[0]) && (a + b)[|a| + 1..] == Spliced(b, 0)
    ensures (a + b)[..|a| + 1] == SpliceIn(a, |a|, b[0])
  {
  }

  lemma TakeLast<T>(a: seq<T>, b: seq<T>)
    requires |a| > 0
    ensures (a + b)[..|a| - 1] == Spliced(a, |a| - 1) && (a + b)[|a| - 1..] == SpliceIn(b, 0, a[|a| - 1])
  {
  }

  /** The children have been cut anew, the keys not yet. */
  ghost predicate MovedKids(s: Store, u: Store, l: BTreeNode, r: BTreeNode, q: nat) {
    && l in s && r in s && l in u && r in u
    && var cs := PairKids(s, l, r);
    && q <= |cs|
    && u[l] == s[l].(keys := u[l].keys, children := cs[..q])
    && u[r] == s[r].(keys := u[r].keys, children := cs[q..])
    && (forall t :: 0 <= t < |cs| ==> cs[t] in s && cs[t] in u && u[cs[t]] == s[cs[t]].(parent := if t < q then l else r))
    && (forall n :: n in s && n != l && n != r && n !in cs ==> n in u && u[n] == s[n])
  }

  lemma TookChildFromNext(s: Store, u: Store, L: seq<seq<BTreeNode>>, h: nat, j: nat)
    requires 0 < h < |L| && Recuttable(s, L, h, j) && InnerNode(s, L[h][j], h) && InnerNode(s, L[h][j + 1], h)
    requires TookChild(s, u, L[h][j], L[h][j + 1], 0, |s[L[h][j]].keys| + 1)
    ensures MovedKids(s, u, L[h][j], L[h][j + 1], |s[L[h][j]].children| + 1)
  {
    var n, from := L[h][j], L[h][j + 1];
    var cs := PairKids(s, n, from);
    TakeFirst(s[n].children, s[from].children);
    DistinctKids(s, L, h, j);
    assert cs[|s[n].children|] == s[from].children[0];
    forall t | 0 <= t < |cs| ensures s[cs[t]].parent == if t < |s[n].children| then n else from {
      if t < |s[n].children| { assert cs[t] == s[n].children[t]; } else { assert cs[t] == s[from].children[t - |s[n].children|]; }
    }
  }

  lemma TookChildFromPrev(s: Store, u: Store, L: seq<seq<BTreeNode>>, h: nat, j: nat)
    requires 0 < h < |L| && Recuttable(s, L, h, j) && InnerNode(s, L[h][j], h) && InnerNode(s, L[h][j + 1], h)
    requires TookChild(s, u, L[h][j + 1], L[h][j], |s[L[h][j]].keys|, 0)
    ensures MovedKids(s, u, L[h][j], L[h][j + 1], |s[L[h][j]].children| - 1)
  {
    var from, n := L[h][j], L[h][j + 1];
    var cs := PairKids(s, from, n);
    TakeLast(s[from].children, s[n].children);
    DistinctKids(s, L, h, j);
    assert cs[|s[from].children| - 1] == s[from].children[|s[from].children| - 1];
    forall t | 0 <= t < |cs| ensures s[cs[t]].parent == if t < |s[from].children| then from else n {
      if t < |s[from].children| { assert cs[t] == s[from].children[t]; } else { assert cs[t] == s[n].children[t - |s[from].children|]; }
    }
  }

  ghost function WithSeparators(s: Store, u: Store, l: BTreeNode, r: BTreeNode, q: nat, h: nat): Store
    requires h > 0 && MovedKids(s, u, l, r, q)
  {
    u[l := u[l].(keys := Separators(s, u[l].children, h))][r := u[r].(keys := Separators(s, u[r].children, h))]
  }

  /** Below the pair nothing but parents has changed. */
  lemma MovedBelow(s: Store, u: Store, L: seq<seq<BTreeNode>>, h: nat, j: nat, q: nat)
    requires 0 < h < |L| && Recuttable(s, L, h, j) && MovedKids(s, u, L[h][j], L[h][j + 1], q)
    ensures LevelsOk(u, L, h)
    ensures forall k, i :: 0 <= k < h && 0 <= i < |L[k]| ==> Left(u, L[k][i], k) == Left(s, L[k][i], k)
    ensures forall k :: 0 <= k < h ==> SameButParents(s, u, L[k])
    ensures RecutInner(s, WithSeparators(s, u, L[h][j], L[h][j + 1], q, h), L[h][j], L[h][j + 1], q, h)
  {
    var l, r := L[h][j], L[h][j + 1];
    var v := WithSeparators(s, u, l, r, q, h);
    DistinctKids(s, L, h, j);
    MovedRecut(s, u, L, h, j, q);
    RecutInnerBelow(s, v, L, h, j, q);
    forall k | 0 <= k < h ensures SameRecords(v, u, L[k]) && SameButParents(s, u, L[k]) {
      assert LevelOk(v, L, k) && SameButParents(s, v, L[k]);
      forall i | 0 <= i < |L[k]| ensures L[k][i] in u && v[L[k][i]] == u[L[k][i]] && SameButParent(s, u, L[k][i]) {
        assert SameButParent(s, v, L[k][i]) && v[L[k][i]].height == k;
      }
    }
    LevelsFrame(v, u, L, h);
  }

  lemma MovedRecut(s: Store, u: Store, L: seq<seq<BTreeNode>>, h: nat, j: nat, q: nat)
    requires 0 < h < |L| && Recuttable(s, L, h, j) && MovedKids(s, u, L[h][j], L[h][j + 1], q)
    ensures RecutInner(s, WithSeparators(s, u, L[h][j], L[h][j + 1], q, h), L[h][j], L[h][j + 1], q, h)
  {
    var l, r := L[h][j], L[h][j + 1];
    DistinctKids(s, L, h, j);
    assert l != r by { assert Differ(L[h], j, j + 1); }
    var cs := PairKids(s, l, r);
    forall t | 0 <= t < |cs| ensures cs[t] != l && cs[t] != r {
      assert s[cs[t]].height == h - 1;
    }
  }

  /** Two fix() calls complete the move. */
  lemma MovedFixed(s: Store, u: Store, v: Store, w: Store, L: seq<seq<BTreeNode>>, h: nat, j: nat, q: nat, first: BTreeNode, second: BTreeNode)
    requires 0 < h < |L| && Recuttable(s, L, h, j) && MovedKids(s, u, L[h][j], L[h][j + 1], q)
    requires {first, second} == {L[h][j], L[h][j + 1]}
    requires Fixed(u, v, first, h) && Fixed(v, w, second, h)
    ensures RecutInner(s, w, L[h][j], L[h][j + 1], q, h)
  {
    var l, r := L[h][j], L[h][j + 1];
    var cs := PairKids(s, l, r);
    MovedBelow(s, u, L, h, j, q);
    assert l != r by { assert Differ(L[h], j, j + 1); }
    DistinctKids(s, L, h, j);
    forall t | 0 <= t < |cs| ensures Left(v, cs[t], h - 1) == Left(s, cs[t], h - 1) && Left(u, cs[t], h - 1) == Left(s, cs[t], h - 1) {
      var k := PairKid(s, L, h, j, t);
      FixedLeft(u, v, L, h, k, first);
    }
    assert Separators(u, cs[..q], h) == Separators(s, cs[..q], h) == Separators(v, cs[..q], h);
    assert Separators(u, cs[q..], h) == Separators(s, cs[q..], h) == Separators(v, cs[q..], h);
    assert w == WithSeparators(s, u, l, r, q, h);
  }

  lemma FixedLeft(u: Store, v: Store, L: seq<seq<BTreeNode>>, h: nat, k: nat, n: BTreeNode)
    requires 0 < h < |L| && LevelsOk(u, L, h) && k < |L[h - 1]| && Fixed(u, v, n, h) && u[n].height == h
    ensures Left(v, L[h - 1][k], h - 1) == Left(u, L[h - 1][k], h - 1)
    ensures LevelsOk(v, L, h)
    ensures forall m :: 0 <= m < h ==> SameRecords(u, v, L[m])
  {
    forall m | 0 <= m < h ensures SameRecords(u, v, L[m]) {
      assert LevelOk(u, L, m);
      forall i | 0 <= i < |L[m]| ensures L[m][i] != n { assert u[L[m][i]].height == m; }
    }
    LevelsFrame(u, v, L, h);
  }

  /** The neighbour had a key to spare: stealing it is one step of the removal. */
  lemma StealDone(s: Store, u: Store, L: seq<seq<BTreeNode>>, h: nat, j: nat, q: nat, i: nat, pos: int, max: nat)
    requires NearlySized(s, L, max, h, i) && h + 1 < |L| && LevelsOk(s, L, h + 1) && LevelOk(s, L, h) && Tall(s, L, h)
    requires (i == j || i == j + 1) && j + 1 < |L[h]| && Recut(s, u, L[h][j], L[h][j + 1], q, h)
    requires |s[L[h][i]].keys| < MinKeys(max) < |s[L[h][if i == j then j + 1 else j]].keys|
    requires var had := if h == 0 then |s[L[h][j]].keys| else |s[L[h][j]].children|;
      q == if i == j then had + 1 else had - 1
    ensures Step(s, L, u, L, h, i, pos) && Entries(u, L[0]) == Entries(s, L[0]) && ShrunkSized(u, L, max, h)
    ensures KeepsRoom(s, L, u, L, max, h)
  {
    if h > 0 { assert InnerNode(s, L[h][j], h) && InnerNode(s, L[h][j + 1], h); }
    hide LevelsOk, LevelOk, Tall, Step, Recut, Left, Separators, Entries, InnerNode, MinKeys, KeepsRoom;
    StealRoom(s, u, L, h, j, q, i, pos, max);
    StealSizes(s, u, L, h, j, q, i, max);
    StealStep(s, u, L, h, j, q, i, pos);
    if h > 0 { SameEntries(s, u, L[0]); }
    forall k | 0 <= k < h ensures NonRootSized(u, L[k], max, k) {
      SizedFrame(s, u, L[k], max, k);
    }
    StealLevelSized(s, u, L, h, j, i, max);
  }

  lemma StealLevelSized(s: Store, u: Store, L: seq<seq<BTreeNode>>, h: nat, j: nat, i: nat, max: nat)
    requires NearlySized(s, L, max, h, i) && h + 1 < |L| && (i == j || i == j + 1) && j + 1 < |L[h]|
    requires forall k :: 0 <= k < |L[h]| && k != j && k != j + 1 ==> L[h][k] in u && u[L[h][k]] == s[L[h][k]]
    requires L[h][j] in u && L[h][j + 1] in u && NonRootNode(u, L[h][j], max, h) && NonRootNode(u, L[h][j + 1], max, h)
    ensures NonRootSized(u, L[h], max, h)
  {
    forall k | 0 <= k < |L[h]| ensures L[h][k] in u && NonRootNode(u, L[h][k], max, h) {
      if k != j && k != j + 1 { assert u[L[h][k]] == s[L[h][k]] && NonRootNode(s, L[h][k], max, h); }
    }
  }

  lemma StealSizes(s: Store, u: Store, L: seq<seq<BTreeNode>>, h: nat, j: nat, q: nat, i: nat, max: nat)
    requires NearlySized(s, L, max, h, i) && h + 1 < |L| && (i == j || i == j + 1) && j + 1 < |L[h]|
    requires Recut(s, u, L[h][j], L[h][j + 1], q, h) && LevelOk(s, L, h)
    requires h > 0 ==> InnerNode(s, L[h][j], h) && InnerNode(s, L[h][j + 1], h)
    requires |s[L[h][i]].keys| < MinKeys(max) < |s[L[h][if i == j then j + 1 else j]].keys|
    requires var had := if h == 0 then |s[L[h][j]].keys| else |s[L[h][j]].children|;
      q == if i == j then had + 1 else had - 1
    ensures NonRootNode(u, L[h][j], max, h) && NonRootNode(u, L[h][j + 1], max, h)
    ensures s[L[h][j]].keys != [] && u[L[h][j]].keys != [] && u[L[h][j + 1]].keys != []
  {
    assert NonRootNode(s, L[h][if i == j then j + 1 else j], max, h);
  }

  // ---------- Merge ----------

  /** x has handed everything over to y and is out of the chain; x itself is left as it was. */
  ghost predicate HandedOver(s: Store, a: Store, x: BTreeNode, y: BTreeNode, before: bool, h: nat) {
    && x in s && y in s && x != y && y in a
    && (if h == 0 then
          && a[y].keys == (if before then s[x].keys + s[y].keys else s[y].keys + s[x].keys)
          && a[y].values == (if before then s[x].values + s[y].values else s[y].values + s[x].values)
          && a[y].children == s[y].children
        else
          && a[y].children == (if before then s[x].children + s[y].children else s[y].children + s[x].children)
          && a[y].values == s[y].values)
    && a.Keys == s.Keys
    && (forall n :: n in s ==>
         a[n] == s[n].(keys := a[n].keys, values := a[n].values, children := a[n].children,
                       parent := if h > 0 && n in s[x].children then y else s[n].parent,
                       next := if s[x].prev == n then s[x].next else s[n].next,
                       prev := if s[x].next == n then s[x].prev else s[n].prev))
    && (forall n :: n in s && n != y ==> a[n].keys == s[n].keys && a[n].values == s[n].values && a[n].children == s[n].children)
  }

  /** The first half of that: the contents, but not yet the links. */
  ghost predicate ContentMoved(s: Store, a: Store, x: BTreeNode, y: BTreeNode, before: bool, h: nat) {
    && x in s && y in s && x != y && y in a
    && (if h == 0 then
          && a[y].keys == (if before then s[x].keys + s[y].keys else s[y].keys + s[x].keys)
          && a[y].values == (if before then s[x].values + s[y].values else s[y].values + s[x].values)
          && a[y].children == s[y].children
        else
          && a[y].children == (if before then s[x].children + s[y].children else s[y].children + s[x].children)
          && a[y].values == s[y].values)
    && a.Keys == s.Keys
    && (forall n :: n in s ==>
         a[n] == s[n].(keys := a[n].keys, values := a[n].values, children := a[n].children,
                       parent := if h > 0 && n in s[x].children then y else s[n].parent))
    && (forall n :: n in s && n != y ==> a[n].keys == s[n].keys && a[n].values == s[n].values && a[n].children == s[n].children)
  }

  /** The second half: the neighbours of x are each other's neighbours. */
  ghost predicate Bypassed(s: Store, a: Store, x: BTreeNode) {
    && x in s && a.Keys == s.Keys
    && forall n :: n in s ==> a[n] == s[n].(next := if s[x].prev == n then s[x].next else s[n].next,
                                            prev := if s[x].next == n then s[x].prev else s[n].prev)
  }

  lemma MovedAndBypassed(s: Store, t: Store, a: Store, x: BTreeNode, y: BTreeNode, before: bool, h: nat)
    requires ContentMoved(s, t, x, y, before, h) && Bypassed(t, a, x)
    ensures HandedOver(s, a, x, y, before, h)
  {
  }

  ghost predicate MergeContext(s: Store, L: seq<seq<BTreeNode>>, h: nat, j: nat, i: nat, max: nat) {
    && NearlySized(s, L, max, h, i) && h + 1 < |L| && LevelsOk(s, L, h + 1) && LevelOk(s, L, h) && Tall(s, L, h)
    && (i == j || i == j + 1) && j + 1 < |L[h]|
  }

  /** The recutting behind a merge: everything goes to the neighbour. */
  ghost function EmptiedStore(s: Store, L: seq<seq<BTreeNode>>, h: nat, j: nat, i: nat, max: nat): (t: Store)
    requires MergeContext(s, L, h, j, i, max)
    ensures HandsOver(s, t, L, h, j, i) && t.Keys == s.Keys
    ensures Recuttable(s, L, h, j)
  {
    assert Recuttable(s, L, h, j) by { assert Differ(L[h], j, j + 1); }
    assert L[h][j] != L[h][j + 1] by { assert Differ(L[h], j, j + 1); }
    if h == 0 then
      CutLeafStoreAny(s, L[h][j], L[h][j + 1], if i == j then 0 else |s[L[h][j]].keys| + |s[L[h][j + 1]].keys|)
    else
      (DistinctKids(s, L, h, j); PairApart(s, L, h, j);
       CutInnerStore(s, L[h][j], L[h][j + 1], if i == j then 0 else |PairKids(s, L[h][j], L[h][j + 1])|, h))
  }

  ghost function CutLeafStoreAny(s: Store, l: BTreeNode, r: BTreeNode, q: nat): (t: Store)
    requires l in s && r in s && l != r && q <= |s[l].keys| + |s[r].keys| && q <= |s[l].values| + |s[r].values|
    ensures RecutLeaves(s, t, l, r, q) && t.Keys == s.Keys
  {
    s[l := s[l].(keys := (s[l].keys + s[r].keys)[..q], values := (s[l].values + s[r].values)[..q])]
     [r := s[r].(keys := (s[l].keys + s[r].keys)[q..], values := (s[l].values + s[r].values)[q..])]
  }

  lemma PairApart(s: Store, L: seq<seq<BTreeNode>>, h: nat, j: nat)
    requires 0 < h < |L| && Recuttable(s, L, h, j)
    ensures Distinct(PairKids(s, L[h][j], L[h][j + 1]))
  {
    DistinctKids(s, L, h, j);
    var cs := PairKids(s, L[h][j], L[h][j + 1]);
    forall a, b | 0 <= a < b < |cs| ensures Differ(cs, a, b) {
    }
  }

  /** Below the merged pair only parents have changed, so that fix() finds what it needs. */
  lemma HandedBelow(s: Store, a: Store, L: seq<seq<BTreeNode>>, h: nat, j: nat, i: nat, max: nat)
    requires MergeContext(s, L, h, j, i, max) && h > 0
    requires HandedOver(s, a, L[h][i], L[h][if i == j then j + 1 else j], i == j, h)
    ensures Fixable(a, L, h, L[h][if i == j then j + 1 else j])
    ensures var cs := PairKids(s, L[h][j], L[h][j + 1]);
      a[L[h][if i == j then j + 1 else j]].children == cs && Separators(a, cs, h) == Separators(s, cs, h)
  {
    var t := EmptiedStore(s, L, h, j, i, max);
    var x, y := L[h][i], L[h][if i == j then j + 1 else j];
    var cs := PairKids(s, L[h][j], L[h][j + 1]);
    var q := if i == j then 0 else |cs|;
    DistinctKids(s, L, h, j);
    RecutInnerBelow(s, t, L, h, j, q);
    forall k | 0 <= k < h ensures SameRecords(t, a, L[k]) {
      HandedSame(s, t, a, L, h, j, i, max, k);
    }
    LevelsFrame(t, a, L, h);
    forall p | 0 <= p < |cs| ensures cs[p] in L[h - 1] && Left(a, cs[p], h - 1) == Left(s, cs[p], h - 1) {
      var k := PairKid(s, L, h, j, p);
    }
    assert NonRootSized(s, L[0], max, 0);
    LeavesFilled(s, L, max);
    assert SameButParents(s, t, L[0]) && SameRecords(t, a, L[0]);
    forall k | 0 <= k < |L[0]| ensures a[L[0][k]].keys != [] { assert SameButParent(s, t, L[0][k]); }
  }

  lemma HandedSame(s: Store, t: Store, a: Store, L: seq<seq<BTreeNode>>, h: nat, j: nat, i: nat, max: nat, k: nat)
    requires MergeContext(s, L, h, j, i, max) && k < h && t == EmptiedStore(s, L, h, j, i, max)
    requires HandedOver(s, a, L[h][i], L[h][if i == j then j + 1 else j], i == j, h)
    ensures SameRecords(t, a, L[k])
  {
    NotOwnNeighbour(s, L[h], h, i);
    assert LevelOk(s, L, k);
    hide LevelsOk, LevelOk, Left, HandsOver, NearlySized, Tall;
    forall m | 0 <= m < |L[k]| ensures L[k][m] in t && L[k][m] in a && a[L[k][m]] == t[L[k][m]] {
      assert s[L[k][m]].height == k;
      MergeOther(s, t, a, L, h, j, i, max, L[k][m]);
    }
  }

  /** After the fix() of the neighbour and the parent's loss, the merge is one step of the removal. */
  lemma MergeDone(s: Store, a: Store, b: Store, u: Store, L: seq<seq<BTreeNode>>, h: nat, j: nat, i: nat, p: BTreeNode, pos: nat, max: nat)
    requires MergeContext(s, L, h, j, i, max)
    requires HandedOver(s, a, L[h][i], L[h][if i == j then j + 1 else j], i == j, h)
    requires if h == 0 then b == a else Fixed(a, b, L[h][if i == j then j + 1 else j], h)
    requires p in s && s[p].height == h + 1 && s[L[h][i]].parent == p && ParentLost(b, u, L[h][i], p, pos) && u.Keys == s.Keys
    requires |s[L[h][i]].keys| < MinKeys(max) && |s[L[h][if i == j then j + 1 else j]].keys| <= MinKeys(max)
    ensures var L' := L[h := Without(L[h], i)];
      Step(s, L, u, L', h, i, pos) && Entries(u, L'[0]) == Entries(s, L[0]) && ShrunkSized(u, L', max, h) && KeepsRoom(s, L, u, L', max, h)
  {
    hide *;
    MergeFilled(s, L, h, j, i, max);
    var x := L[h][i];
    var t := EmptiedStore(s, L, h, j, i, max);
    var t' := b[x := t[x]];
    MergeUnlinked(s, t, a, b, L, h, j, i, max);
    LostAgain(b, u, x, p, pos, t[x]);
    MergeStep(s, t, t', u, L, h, j, i, p, pos);
    if h > 0 { SameEntries(s, u, L[0]); }
    MergeSizes(s, t, u, L, h, j, i, max);
    MergeRoom(s, t, u, L, h, j, i, max);
  }

  lemma LostAgain(b: Store, u: Store, x: BTreeNode, p: BTreeNode, pos: nat, r: Rec)
    requires ParentLost(b, u, x, p, pos)
    ensures ParentLost(b[x := r], u, x, p, pos)
  {
  }

  lemma MergeFilled(s: Store, L: seq<seq<BTreeNode>>, h: nat, j: nat, i: nat, max: nat)
    requires MergeContext(s, L, h, j, i, max)
    ensures h + 1 < |L| && i < |L[h]| && j + 1 < |L[h]| && L[h][i] in s && L[h][j] in s
    ensures s[L[h][j]].keys != [] && Tall(s, L, h)
  {
    if i == j { assert NearlyNode(s, L[h][i], max, h); } else { assert NonRootNode(s, L[h][j], max, h); }
  }

  lemma MergeUnlinked(s: Store, t: Store, a: Store, b: Store, L: seq<seq<BTreeNode>>, h: nat, j: nat, i: nat, max: nat)
    requires MergeContext(s, L, h, j, i, max) && t == EmptiedStore(s, L, h, j, i, max)
    requires HandedOver(s, a, L[h][i], L[h][if i == j then j + 1 else j], i == j, h)
    requires if h == 0 then b == a else Fixed(a, b, L[h][if i == j then j + 1 else j], h)
    ensures Unlinked(t, b[L[h][i] := t[L[h][i]]], L[h][i]) && t[L[h][i]].height == h
  {
    if h == 0 {
      MergeUnlinkedLeaf(s, t, a, L, j, i, max);
    } else {
      MergeUnlinkedInner(s, t, a, b, L, h, j, i, max);
    }
  }

  lemma MergeUnlinkedLeaf(s: Store, t: Store, a: Store, L: seq<seq<BTreeNode>>, j: nat, i: nat, max: nat)
    requires MergeContext(s, L, 0, j, i, max) && t == EmptiedStore(s, L, 0, j, i, max)
    requires HandedOver(s, a, L[0][i], L[0][if i == j then j + 1 else j], i == j, 0)
    ensures Unlinked(t, a[L[0][i] := t[L[0][i]]], L[0][i]) && t[L[0][i]].height == 0
  {
    hide LevelsOk, LevelOk, NearlySized, Tall, Left, HandsOver, InnerNode, Separators, Entries, LeafEntries;
    assert L[0][i] != L[0][if i == j then j + 1 else j] by { assert Differ(L[0], j, j + 1); }
  }

  lemma MergeUnlinkedInner(s: Store, t: Store, a: Store, b: Store, L: seq<seq<BTreeNode>>, h: nat, j: nat, i: nat, max: nat)
    requires h > 0 && MergeContext(s, L, h, j, i, max) && t == EmptiedStore(s, L, h, j, i, max)
    requires HandedOver(s, a, L[h][i], L[h][if i == j then j + 1 else j], i == j, h)
    requires Fixed(a, b, L[h][if i == j then j + 1 else j], h)
    ensures Unlinked(t, b[L[h][i] := t[L[h][i]]], L[h][i]) && t[L[h][i]].height == h
  {
    hide *;
    MergedPair(s, t, L, h, j, i, max);
    HandedBelow(s, a, L, h, j, i, max);
    var x, y := L[h][i], L[h][if i == j then j + 1 else j];
    forall n | n in t && n != x
      ensures n in b && b[n] == t[n].(next := if t[x].prev == n then t[x].next else t[n].next, prev := if t[x].next == n then t[x].prev else t[n].prev)
    {
      if n == y {
        MergeUnlinkedKeeper(s, t, a, b, x, y, i == j, h, PairKids(s, L[h][j], L[h][j + 1]));
      } else {
        MergeOther(s, t, a, L, h, j, i, max, n);
        MergeUnlinkedOther(s, t, a, b, x, y, i == j, h, n);
      }
    }
    UnlinkedAround(t, b, x);
  }

  lemma UnlinkedAround(t: Store, b: Store, x: BTreeNode)
    requires x in t
    requires forall n :: n in t && n != x ==>
      n in b && b[n] == t[n].(next := if t[x].prev == n then t[x].next else t[n].next, prev := if t[x].next == n then t[x].prev else t[n].prev)
    ensures Unlinked(t, b[x := t[x]], x)
  {
  }

  /** What the recutting makes of the two nodes. */
  lemma MergedPair(s: Store, t: Store, L: seq<seq<BTreeNode>>, h: nat, j: nat, i: nat, max: nat)
    requires h > 0 && MergeContext(s, L, h, j, i, max) && t == EmptiedStore(s, L, h, j, i, max)
    ensures var x, y := L[h][i], L[h][if i == j then j + 1 else j];
      var cs := PairKids(s, L[h][j], L[h][j + 1]);
      && h < |L| && j + 1 < |L[h]| && i < |L[h]| && (i == j || i == j + 1)
      && L[h][j] in s && L[h][j + 1] in s && x != y && x in t && y in t && t.Keys == s.Keys && t[x].height == h
      && t[x].prev == s[x].prev && t[x].next == s[x].next
      && t[y] == s[y].(children := cs, keys := Separators(s, cs, h))
      && y !in s[x].children
  {
    assert L[h][j] != L[h][j + 1] by { assert Differ(L[h], j, j + 1); }
    MergeOwners(s, L, h, j, i, max);
    var cs := PairKids(s, L[h][j], L[h][j + 1]);
    assert cs[..|cs|] == cs && cs[0..] == cs;
  }

  lemma MergeUnlinkedKeeper(s: Store, t: Store, a: Store, b: Store, x: BTreeNode, y: BTreeNode, before: bool, h: nat, cs: seq<BTreeNode>)
    requires HandedOver(s, a, x, y, before, h) && Fixed(a, b, y, h) && y in t && x in t
    requires t[x].prev == s[x].prev && t[x].next == s[x].next && t[y] == s[y].(children := cs, keys := Separators(s, cs, h)) && y !in s[x].children
    requires a[y].children == cs && Separators(a, cs, h) == Separators(s, cs, h)
    ensures y in b && b[y] == t[y].(next := if t[x].prev == y then t[x].next else t[y].next, prev := if t[x].next == y then t[x].prev else t[y].prev)
  {
    hide Separators;
  }

  lemma MergeUnlinkedOther(s: Store, t: Store, a: Store, b: Store, x: BTreeNode, y: BTreeNode, before: bool, h: nat, n: BTreeNode)
    requires HandedOver(s, a, x, y, before, h) && Fixed(a, b, y, h) && n in s && n in t && n != y && x in t
    requires t[x].prev == s[x].prev && t[x].next == s[x].next && a[n].parent == t[n].parent && t[n] == s[n].(parent := t[n].parent)
    ensures n in b && b[n] == t[n].(next := if t[x].prev == n then t[x].next else t[n].next, prev := if t[x].next == n then t[x].prev else t[n].prev)
  {
    hide Separators;
  }

  lemma MergeOwners(s: Store, L: seq<seq<BTreeNode>>, h: nat, j: nat, i: nat, max: nat)
    requires MergeContext(s, L, h, j, i, max) && h > 0
    ensures forall c :: c in PairKids(s, L[h][j], L[h][j + 1]) ==> c in s && s[c].height == h - 1
    ensures s[L[h][i]].height == h && s[L[h][j]].height == h && s[L[h][j + 1]].height == h
    ensures forall c :: c in s[L[h][i]].children ==> c in PairKids(s, L[h][j], L[h][j + 1])
  {
    assert Recuttable(s, L, h, j) by { assert Differ(L[h], j, j + 1); }
    DistinctKids(s, L, h, j);
  }

  lemma MergeOther(s: Store, t: Store, a: Store, L: seq<seq<BTreeNode>>, h: nat, j: nat, i: nat, max: nat, n: BTreeNode)
    requires MergeContext(s, L, h, j, i, max) && h > 0 && t == EmptiedStore(s, L, h, j, i, max)
    requires HandedOver(s, a, L[h][i], L[h][if i == j then j + 1 else j], i == j, h)
    requires n in s && n != L[h][j] && n != L[h][j + 1]
    ensures a[n].parent == t[n].parent && t[n] == s[n].(parent := t[n].parent)
  {
    var x, y := L[h][i], L[h][if i == j then j + 1 else j];
    var cs := PairKids(s, L[h][j], L[h][j + 1]);
    assert InnerNode(s, x, h) && InnerNode(s, y, h);
    assert forall c :: c in s[x].children ==> c in cs;
    if n in cs {
      var p :| 0 <= p < |cs| && cs[p] == n;
      assert t[n] == s[n].(parent := y);
      assert n in s[x].children || n in s[y].children;
    } else {
      assert n !in s[x].children;
    }
  }

  lemma MergeSizes(s: Store, t: Store, u: Store, L: seq<seq<BTreeNode>>, h: nat, j: nat, i: nat, max: nat)
    requires MergeContext(s, L, h, j, i, max) && t == EmptiedStore(s, L, h, j, i, max)
    requires |s[L[h][i]].keys| < MinKeys(max) && |s[L[h][if i == j then j + 1 else j]].keys| <= MinKeys(max)
    requires forall k :: 0 <= k < h ==> SameButParents(s, u, L[k])
    requires forall k :: 0 <= k < |L[h]| && k != i ==> L[h][k] in t && L[h][k] in u && u[L[h][k]].keys == t[L[h][k]].keys
    ensures ShrunkSized(u, L[h := Without(L[h], i)], max, h)
  {
    hide LevelsOk, LevelOk, Tall, HandsOver, Recut, MinKeys, NonRootNode, NearlyNode;
    var L' := L[h := Without(L[h], i)];
    forall k | 0 <= k < h ensures NonRootSized(u, L'[k], max, k) {
      SizedFrame(s, u, L[k], max, k);
    }
    forall k | 0 <= k < |L[h]| && k != i ensures L[h][k] in u && NonRootNode(u, L[h][k], max, h) {
      MergeSize(s, t, L, h, j, i, max, k);
      SameKeysSized(t, u, L[h][k], max, h);
    }
    WithoutSized(u, L[h], i, max, h);
  }

  lemma SameKeysSized(t: Store, u: Store, n: BTreeNode, max: nat, h: nat)
    requires n in t && n in u && u[n].keys == t[n].keys && NonRootNode(t, n, max, h)
    ensures NonRootNode(u, n, max, h)
  {
  }

  lemma WithoutSized(u: Store, ns: seq<BTreeNode>, i: nat, max: nat, h: nat)
    requires i < |ns| && forall k :: 0 <= k < |ns| && k != i ==> ns[k] in u && NonRootNode(u, ns[k], max, h)
    ensures NonRootSized(u, Without(ns, i), max, h)
  {
    hide NonRootNode;
    forall m | 0 <= m < |ns| - 1 ensures Without(ns, i)[m] in u && NonRootNode(u, Without(ns, i)[m], max, h) {
      assert Without(ns, i)[m] == ns[if m < i then m else m + 1];
    }
  }

  lemma MergeSize(s: Store, t: Store, L: seq<seq<BTreeNode>>, h: nat, j: nat, i: nat, max: nat, k: nat)
    requires MergeContext(s, L, h, j, i, max) && t == EmptiedStore(s, L, h, j, i, max) && k < |L[h]| && k != i
    requires |s[L[h][i]].keys| < MinKeys(max) && |s[L[h][if i == j then j + 1 else j]].keys| <= MinKeys(max)
    ensures L[h][k] in t && NonRootNode(t, L[h][k], max, h)
  {
    assert NearlyNode(s, L[h][i], max, h) && NonRootNode(s, L[h][k], max, h);
    if k != j && k != j + 1 {
      OtherNode(s, L[h], h, k, j);
      if h > 0 { RecutKeeps(s, t, L, h, j, if i == j then 0 else |PairKids(s, L[h][j], L[h][j + 1])|); }
    } else if h > 0 {
      assert InnerNode(s, L[h][j], h) && InnerNode(s, L[h][j + 1], h);
    }
  }

  // ---------- Room ----------

  /** After fix() a node has at most the keys it had. */
  lemma FixRoom(s: Store, L: seq<seq<BTreeNode>>, t: Store, L': seq<seq<BTreeNode>>, t': Store, h: nat, i: nat, pos: nat, ic: nat, max: nat)
    requires FixContext(s, L, t, L', h, i, pos, ic) && Fixed(t, t', L[h][i], h) && KeepsRoom(s, L, t, L', max, h - 1)
    ensures KeepsRoom(s, L, t', L', max, h)
  {
    hide Fixed, FixContext, KeepsRoom, NoBigger, Step, Left, Separators;
    assert 0 < h < |L| == |L'| by { FixLevels(s, L, t, L', h, i, pos, ic); }
    FixStep(s, L, t, L', t', h, i, pos, ic, -1);
    forall k | 0 <= k < h ensures SameButParents(t, t', L'[k]) { assert SameRecords(t, t', L'[k]); }
    RoomSame(t, L', t', L', max, h - 1);
    RoomTrans(s, L, t, L', t', L', max, h - 1);
    forall m | 0 <= m < |L[h]| ensures NoBigger(s, L[h], t', L[h][m], max) {
      FixNodeRoom(s, L, t, L', t', h, i, pos, ic, max, m);
    }
    RoomUp(s, L, t', L', max, h);
  }

  lemma FixLevels(s: Store, L: seq<seq<BTreeNode>>, t: Store, L': seq<seq<BTreeNode>>, h: nat, i: nat, pos: nat, ic: nat)
    requires FixContext(s, L, t, L', h, i, pos, ic)
    ensures 0 < h < |L| == |L'| && i < |L[h]|
  {
  }

  lemma FixNodeRoom(s: Store, L: seq<seq<BTreeNode>>, t: Store, L': seq<seq<BTreeNode>>, t': Store, h: nat, i: nat, pos: nat, ic: nat, max: nat, m: nat)
    requires FixContext(s, L, t, L', h, i, pos, ic) && Fixed(t, t', L[h][i], h) && m < |L[h]|
    ensures NoBigger(s, L[h], t', L[h][m], max)
  {
    hide Left, Separators;
    FixStep(s, L, t, L', t', h, i, pos, ic, -1);
    assert LevelOk(s, L, h) && LevelOk(t', L', h);
    assert InnerNode(s, L[h][m], h) && InnerNode(t', L[h][m], h);
    assert |t'[L[h][m]].keys| <= |s[L[h][m]].keys|;
  }

  lemma StealRoom(s: Store, u: Store, L: seq<seq<BTreeNode>>, h: nat, j: nat, q: nat, i: nat, pos: int, max: nat)
    requires NearlySized(s, L, max, h, i) && h + 1 < |L| && LevelsOk(s, L, h + 1) && LevelOk(s, L, h) && Tall(s, L, h)
    requires (i == j || i == j + 1) && j + 1 < |L[h]| && Recut(s, u, L[h][j], L[h][j + 1], q, h)
    requires |s[L[h][i]].keys| < MinKeys(max) < |s[L[h][if i == j then j + 1 else j]].keys|
    requires var had := if h == 0 then |s[L[h][j]].keys| else |s[L[h][j]].children|;
      q == if i == j then had + 1 else had - 1
    ensures KeepsRoom(s, L, u, L, max, h)
  {
    if h == 0 {
      RoomAtLeaves(s, L, u, L, max);
    } else {
      assert InnerNode(s, L[h][j], h) && InnerNode(s, L[h][j + 1], h);
      hide LevelsOk, LevelOk, Tall, Step, Recut, Left, Separators, Entries, InnerNode, MinKeys, NoBigger, KeepsRoom;
      StealSizes(s, u, L, h, j, q, i, max);
      StealStep(s, u, L, h, j, q, i, pos);
      RoomSame(s, L, u, L, max, h - 1);
      forall m | 0 <= m < |L[h]| ensures NoBigger(s, L[h], u, L[h][m], max) {
        if m != j && m != j + 1 { SameIsNoBigger(s, L[h], u, m, max); } else { StealNodeRoom(s, u, L, h, j, q, i, max, m); }
      }
      RoomUp(s, L, u, L, max, h);
    }
  }

  lemma SameIsNoBigger(s: Store, ns: seq<BTreeNode>, u: Store, m: nat, max: nat)
    requires m < |ns| && ns[m] in s && ns[m] in u && |u[ns[m]].keys| == |s[ns[m]].keys|
    ensures NoBigger(s, ns, u, ns[m], max)
  {
  }

  lemma StealNodeRoom(s: Store, u: Store, L: seq<seq<BTreeNode>>, h: nat, j: nat, q: nat, i: nat, max: nat, m: nat)
    requires h > 0 && NearlySized(s, L, max, h, i) && h + 1 < |L| && (i == j || i == j + 1) && j + 1 < |L[h]|
    requires Recut(s, u, L[h][j], L[h][j + 1], q, h) && (m == j || m == j + 1)
    requires InnerNode(s, L[h][j], h) && InnerNode(s, L[h][j + 1], h)
    requires |s[L[h][i]].keys| < MinKeys(max) < |s[L[h][if i == j then j + 1 else j]].keys|
    requires q == if i == j then |s[L[h][j]].children| + 1 else |s[L[h][j]].children| - 1
    ensures NoBigger(s, L[h], u, L[h][m], max)
  {
    assert m != i ==> |u[L[h][m]].keys| <= |s[L[h][m]].keys|;
    assert m == i ==> |u[L[h][m]].keys| <= MinKeys(max);
  }

  /** A merged internal node has the keys of both and one separator more. */
  lemma MergedKeys(s: Store, t: Store, L: seq<seq<BTreeNode>>, h: nat, j: nat, i: nat, max: nat)
    requires h > 0 && MergeContext(s, L, h, j, i, max) && t == EmptiedStore(s, L, h, j, i, max)
    ensures var x, y := L[h][i], L[h][if i == j then j + 1 else j];
      x in s && y in s && y in t && |t[y].keys| == |s[x].keys| + |s[y].keys| + 1
  {
    hide Left, Separators;
    SeparatorsLength(s, PairKids(s, L[h][j], L[h][j + 1]), h);
    assert InnerNode(s, L[h][j], h) && InnerNode(s, L[h][j + 1], h);
    assert PairKids(s, L[h][j], L[h][j + 1])[0..] == PairKids(s, L[h][j], L[h][j + 1]);
  }

  lemma SeparatorsLength(s: Store, cs: seq<BTreeNode>, h: nat)
    requires h > 0
    ensures |Separators(s, cs, h)| == if cs == [] then 0 else |cs| - 1
  {
  }

  /** Merging fills a node up to the maximum exactly if the maximum is even, the node that is merged
      is one short of the minimum, and its neighbour is just at the minimum. */
  lemma MergeFillsIff(s: Store, t: Store, L: seq<seq<BTreeNode>>, h: nat, j: nat, i: nat, max: nat)
    requires h > 0 && MergeContext(s, L, h, j, i, max) && t == EmptiedStore(s, L, h, j, i, max)
    requires |s[L[h][i]].keys| < MinKeys(max) && |s[L[h][if i == j then j + 1 else j]].keys| <= MinKeys(max)
    ensures var x, y := L[h][i], L[h][if i == j then j + 1 else j];
      && x in s && y in s && y in t && |t[y].keys| <= 2 * MinKeys(max) <= max
      && (|t[y].keys| == max <==> max % 2 == 0 && |s[x].keys| == MinKeys(max) - 1 && |s[y].keys| == MinKeys(max))
  {
    MergedKeys(s, t, L, h, j, i, max);
  }

  lemma MergeRoom(s: Store, t: Store, u: Store, L: seq<seq<BTreeNode>>, h: nat, j: nat, i: nat, max: nat)
    requires MergeContext(s, L, h, j, i, max) && t == EmptiedStore(s, L, h, j, i, max)
    requires |s[L[h][i]].keys| < MinKeys(max) && |s[L[h][if i == j then j + 1 else j]].keys| <= MinKeys(max)
    requires forall k :: 0 <= k < h ==> SameButParents(s, u, L[k])
    requires forall k :: 0 <= k < |L[h]| && k != i ==> L[h][k] in t && L[h][k] in u && u[L[h][k]].keys == t[L[h][k]].keys
    ensures KeepsRoom(s, L, u, L[h := Without(L[h], i)], max, h)
  {
    hide *;
    MergeBounds(s, L, h, j, i, max);
    var L' := L[h := Without(L[h], i)];
    WithoutAt(L[h], i);
    if h == 0 {
      RoomAtLeaves(s, L, u, L', max);
    } else {
      RoomSame(s, L, u, L', max, h - 1);
      forall m | 0 <= m < |L'[h]| ensures NoBigger(s, L[h], u, L'[h][m], max) {
        MergeNodeRoom(s, t, u, L, h, j, i, max, if m < i then m else m + 1);
      }
      RoomUp(s, L, u, L', max, h);
    }
  }

  lemma WithoutAt<T>(xs: seq<T>, i: nat)
    requires i < |xs|
    ensures |Without(xs, i)| == |xs| - 1
    ensures forall m :: 0 <= m < |xs| - 1 ==> Without(xs, i)[m] == xs[if m < i then m else m + 1]
  {
  }

  lemma MergeBounds(s: Store, L: seq<seq<BTreeNode>>, h: nat, j: nat, i: nat, max: nat)
    requires MergeContext(s, L, h, j, i, max)
    ensures h + 1 < |L| && i < |L[h]| && j + 1 < |L[h]|
  {
  }

  lemma MergeNodeRoom(s: Store, t: Store, u: Store, L: seq<seq<BTreeNode>>, h: nat, j: nat, i: nat, max: nat, k: nat)
    requires h > 0 && MergeContext(s, L, h, j, i, max) && t == EmptiedStore(s, L, h, j, i, max) && k < |L[h]| && k != i
    requires |s[L[h][i]].keys| < MinKeys(max) && |s[L[h][if i == j then j + 1 else j]].keys| <= MinKeys(max)
    requires L[h][k] in t && L[h][k] in u && u[L[h][k]].keys == t[L[h][k]].keys
    ensures NoBigger(s, L[h], u, L[h][k], max)
  {
    MergeFillsIff(s, t, L, h, j, i, max);
    if k != j && k != j + 1 {
      assert NonRootNode(s, L[h][k], max, h);
      OtherNode(s, L[h], h, k, j);
      RecutKeeps(s, t, L, h, j, if i == j then 0 else |PairKids(s, L[h][j], L[h][j + 1])|);
      SameIsNoBigger(s, L[h], u, k, max);
    }
  }

  /** The root's only child becomes the root: no internal node changes its keys. */
  lemma CollapsedRoom(s: Store, L: seq<seq<BTreeNode>>, u: Store, L': seq<seq<BTreeNode>>, w: Store, max: nat)
    requires |L| == |L'| > 1 && KeepsRoom(s, L, u, L', max, |L| - 1)
    requires forall k :: 0 <= k < |L| - 1 ==> SameButParents(u, w, L'[k])
    ensures KeepsRoom(s, L, w, L'[..|L| - 1], max, |L| - 1)
  {
    var M, top := L'[..|L| - 1], |L| - 1;
    forall bound: nat | 2 * MinKeys(max) < bound && Roomy(s, L, bound, top) ensures Roomy(w, M, bound, top) {
      assert Roomy(u, L', bound, top);
      forall k | 0 < k < |M| ensures RoomyLevel(w, M[k], bound) {
        assert RoomyLevel(u, L'[k], bound) && SameButParents(u, w, L'[k]);
        forall i | 0 <= i < |M[k]| ensures M[k][i] in w && |w[M[k][i]].keys| < bound { assert SameButParent(u, w, M[k][i]); }
      }
    }
  }

  /** Room is kept below the maximum itself if the maximum is odd. */
  lemma OddKeepsRoom(s: Store, L: seq<seq<BTreeNode>>, u: Store, M: seq<seq<BTreeNode>>, max: nat)
    requires 0 < |M| <= |L| && KeepsRoom(s, L, u, M, max, |L| - 1)
    ensures max % 2 == 1 && Roomy(s, L, max, |L| - 1) ==> Roomy(u, M, max, |M| - 1)
    ensures Roomy(s, L, max + 1, |L| - 1) ==> Roomy(u, M, max + 1, |M| - 1)
  {
  }

  // ---------- The root ----------

  lemma StepLevels(s: Store, L: seq<seq<BTreeNode>>, u: Store, L': seq<seq<BTreeNode>>, h: nat, i: nat, pos: int)
    requires Step(s, L, u, L', h, i, pos)
    ensures |L'| == |L| > 0
  {
  }

  lemma RootStays(s: Store, L: seq<seq<BTreeNode>>, u: Store, L': seq<seq<BTreeNode>>, max: nat)
    requires Tree(s, L) && Step(s, L, u, L', |L| - 1, 0, -1) && Sorted(Entries(u, L'[0])) && ShrunkSized(u, L', max, |L| - 1)
    requires L[|L| - 1][0] in u && |u[L[|L| - 1][0]].children| != 1
    ensures |L'| == |L| && Tree(u, L') && Sized(u, L', max) && L'[|L| - 1] == L[|L| - 1]
  {
    var top := |L| - 1;
    assert LevelOk(u, L', top) && LevelOk(u, L', 0);
    assert StepNode(s, u, L[top][0], L'[top][0], top);
    if top > 0 { assert InnerNode(u, L'[top][0], top); }
  }

  lemma OneBelowRoot(s: Store, L: seq<seq<BTreeNode>>, u: Store, L': seq<seq<BTreeNode>>, c: BTreeNode)
    requires Tree(s, L) && Step(s, L, u, L', |L| - 1, 0, -1)
    requires L[|L| - 1][0] in u && u[L[|L| - 1][0]].children == [c]
    ensures |L'| == |L| > 1 && L'[|L| - 2] == [c] && LevelsOk(u, L', |L|)
  {
    var top := |L| - 1;
    assert LevelOk(u, L', top) && LevelOk(u, L', 0);
    assert top > 0 && LevelOk(u, L', top - 1);
    assert L'[top] == [L'[top][0]];
    assert ChildLists(u, L'[top]) == [[c]];
    assert Flat([[c]]) == [c] by { FlatAround([[c]], 0); }
  }

  lemma CollapsedTree(w: Store, L': seq<seq<BTreeNode>>, top: nat, c: BTreeNode)
    requires 0 < top < |L'| && L'[top - 1] == [c] && c in w && w[c].parent == null && LevelsOk(w, L', top) && Sorted(Entries(w, L'[0]))
    ensures Tree(w, L'[..top])
  {
    hide Entries, Chain, LeafLevel, Covers;
    var M := L'[..top];
    forall k | 0 <= k < top ensures LevelOk(w, M, k) { assert LevelOk(w, L', k); }
  }

  /** The root's only child becomes the root. */
  lemma RootCollapses(s: Store, L: seq<seq<BTreeNode>>, u: Store, L': seq<seq<BTreeNode>>, w: Store, c: BTreeNode, max: nat)
    requires Tree(s, L) && Step(s, L, u, L', |L| - 1, 0, -1) && Sorted(Entries(u, L'[0])) && ShrunkSized(u, L', max, |L| - 1)
    requires L[|L| - 1][0] in u && u[L[|L| - 1][0]].children == [c] && max >= 5
    requires c in u && w == u[c := u[c].(parent := null)]
    ensures |L'| == |L| > 1 && Tree(w, L'[..|L| - 1]) && Sized(w, L'[..|L| - 1], max) && L'[|L| - 2] == [c]
    ensures Entries(w, L'[0]) == Entries(u, L'[0])
    ensures forall k :: 0 <= k < |L| - 1 ==> SameButParents(u, w, L'[k])
  {
    var top := |L| - 1;
    OneBelowRoot(s, L, u, L', c);
    var M := L'[..top];
    CollapseFrame(u, w, L', top, c);
    hide Step, Tree, Entries, Chain, LeafLevel, Covers;
    CollapsedTree(w, L', top, c);
    forall k | 0 <= k < top ensures NonRootSized(w, M[k], max, k) {
      assert NonRootSized(u, L'[k], max, k);
      SizedFrame(u, w, L'[k], max, k);
    }
    assert NonRootNode(w, M[top - 1][0], max, top - 1);
  }

  lemma CollapseFrame(u: Store, w: Store, L: seq<seq<BTreeNode>>, h: nat, c: BTreeNode)
    requires 0 < h < |L| && LevelsOk(u, L, h + 1) && L[h - 1] == [c] && c in u && w == u[c := u[c].(parent := null)]
    ensures LevelsOk(w, L, h) && Entries(w, L[0]) == Entries(u, L[0])
    ensures forall k :: 0 <= k < h ==> SameButParents(u, w, L[k])
  {
    assert LevelOk(u, L, h - 1);
    forall k | 0 <= k < h ensures SameButParents(u, w, L[k]) && (k < h - 1 ==> SameRecords(u, w, L[k])) {
      assert LevelOk(u, L, k);
      forall i | 0 <= i < |L[k]| ensures SameButParent(u, w, L[k][i]) && (k < h - 1 ==> w[L[k][i]] == u[L[k][i]]) {
        assert u[L[k][i]].height == k;
      }
    }
    forall k | 0 <= k < h ensures LevelOk(w, L, k) {
      LevelFrame(u, w, L, k);
    }
    SameEntries(u, w, L[0]);
  }

  // ---------- Where the pieces of a removal stand ----------

  /** The parent of node n of level h, unless that is the root. */
  ghost predicate ParentSide(s: Store, L: seq<seq<BTreeNode>>, h: nat, n: BTreeNode, pos: int) {
    && h < |L| && n in s
    && if h + 1 < |L| then
         s[n].parent != null && s[n].parent in L[h + 1] && s[n].parent in s && s[s[n].parent].height == h + 1
         && 0 <= pos < |s[s[n].parent].children|
       else
         s[n].parent == null && pos == -1
  }

  lemma ParentSideKept(s: Store, L: seq<seq<BTreeNode>>, t: Store, L': seq<seq<BTreeNode>>, h: nat, i: nat, pos: int, max: nat)
    requires Tree(s, L) && Sized(s, L, max) && Step(s, L, t, L', h, i, pos) && L'[h] == L[h] && ParentSide(s, L, h, L[h][i], pos)
    ensures ParentSide(t, L', h, L[h][i], pos) && Tall(t, L', h) && LevelsOk(t, L', h + 1) && LevelOk(t, L', h) && Chain(s, L[h], h)
    ensures L[h][i] in t && t[L[h][i]].parent == s[L[h][i]].parent && |L'| == |L|
    ensures h + 1 < |L| ==> |L'[h]| > 1
  {
    var n := L[h][i];
    assert LevelOk(t, L', h) && LevelOk(s, L, h);
    assert StepNode(s, t, n, L'[h][i], h);
    forall k, j | h < k < |L| && 0 <= j < |L[k]| ensures L[k][j] in t && t[L[k][j]].height == k && t[L[k][j]].children == s[L[k][j]].children {
      assert LevelOk(s, L, k);
      assert AboveNode(s, t, L[k][j], s[n].parent, pos, false);
    }
    if h + 1 < |L| {
      WideLevel(s, L, max, h);
      var j :| 0 <= j < |L[h + 1]| && L[h + 1][j] == s[n].parent;
    }
  }

  lemma ChildSide(s: Store, L: seq<seq<BTreeNode>>, h: nat, i: nat, p: nat, j: nat)
    requires 0 < h < |L| && LevelOk(s, L, h) && i < |L[h]| && L[h][i] in s && p < |s[L[h][i]].children| && j < |L[h - 1]|
    requires s[L[h][i]].children[p] == L[h - 1][j]
    ensures ParentSide(s, L, h - 1, L[h - 1][j], p)
  {
    assert InnerNode(s, L[h][i], h);
  }

  lemma RootSide(s: Store, L: seq<seq<BTreeNode>>)
    requires Tree(s, L)
    ensures ParentSide(s, L, |L| - 1, L[|L| - 1][0], -1)
  {
  }

  lemma ToFixContext(s: Store, L: seq<seq<BTreeNode>>, t: Store, L': seq<seq<BTreeNode>>, h: nat, i: nat, pos: nat, ic: nat, max: nat)
    requires Tree(s, L) && Sized(s, L, max) && 0 < h < |L| && i < |L[h]| && L[h][i] in s && ic < |L[h - 1]| && max >= 5
    requires pos < |s[L[h][i]].children| && s[L[h][i]].children[pos] == L[h - 1][ic]
    requires Step(s, L, t, L', h - 1, ic, pos) && ShrunkSized(t, L', max, h - 1)
    ensures FixContext(s, L, t, L', h, i, pos, ic) && Fixable(t, L', h, L[h][i])
  {
    hide Step, ShrunkSized, Separators, Left;
    assert LevelOk(s, L, h) && LevelOk(s, L, h - 1);
    assert InnerNode(s, L[h][i], h);
    assert |s[L[h][i]].keys| >= 1 by {
      if h + 1 < |L| { assert NonRootSized(s, L[h], max, h); assert NonRootNode(s, L[h][i], max, h); }
    }
    FixReady(s, L, t, L', h, i, pos, ic, max);
  }

  /** All that fix() and what precedes it have achieved at level h. */
  lemma FixedStep(s: Store, L: seq<seq<BTreeNode>>, t: Store, L': seq<seq<BTreeNode>>, t': Store, h: nat, i: nat, pos: nat, ic: nat, pos': int, max: nat, m: map<Key, set<RowId>>, total: int, unique: bool)
    requires FixContext(s, L, t, L', h, i, pos, ic) && Fixed(t, t', L[h][i], h)
    requires Sized(s, L, max) && ShrunkSized(t, L', max, h - 1) && max >= 5
    requires Filed(Entries(t, L'[0]), total, unique, m)
    ensures Step(s, L, t', L', h, i, pos') && L'[h] == L[h] && NearlySized(t', L', max, h, i)
    ensures Filed(Entries(t', L'[0]), total, unique, m)
    ensures L[h][i] in t' && forall p :: 0 <= p < |t'[L[h][i]].keys| ==> t'[L[h][i]].keys[p] in m
  {
    FixStep(s, L, t, L', t', h, i, pos, ic, pos');
    FixNearly(s, L, t, L', t', h, i, pos, ic, max);
    assert SameRecords(t, t', L'[0]);
    assert EntryLists(t', L'[0]) == EntryLists(t, L'[0]);
    assert NonRootSized(t', L'[0], max, 0);
    LeavesFilled(t', L', max);
    forall p | 0 <= p < |t'[L[h][i]].keys| ensures t'[L[h][i]].keys[p] in m {
      SeparatorsLive(t', L', h, i, p);
    }
  }

  // ---------- What stealing and merging find in the heap ----------

  ghost predicate Balanceable(s: Store, L: seq<seq<BTreeNode>>, h: nat, i: nat, pos: int, max: nat) {
    && NearlySized(s, L, max, h, i) && h + 1 < |L| && LevelsOk(s, L, h + 1) && LevelOk(s, L, h) && Tall(s, L, h)
    && 1 < |L[h]| && |s[L[h][i]].keys| < MinKeys(max) && ParentSide(s, L, h, L[h][i], pos)
  }

  /** A node of the level, as the code that moves things relies on it. */
  ghost predicate WellFormed(s: Store, n: BTreeNode, h: nat) {
    && n in s && s[n].height == h
    && (h == 0 ==> |s[n].keys| == |s[n].values|)
    && (h > 0 ==> |s[n].children| == |s[n].keys| + 1 && forall c :: c in s[n].children ==> c in s && s[c].height == h - 1)
  }

  lemma Neighbours(s: Store, L: seq<seq<BTreeNode>>, h: nat, i: nat)
    requires h < |L| && LevelsOk(s, L, h + 1) && LevelOk(s, L, h) && i < |L[h]|
    ensures var n := L[h][i];
      && WellFormed(s, n, h)
      && (if i + 1 < |L[h]| then s[n].next == L[h][i + 1] && s[n].next != n && WellFormed(s, L[h][i + 1], h) else s[n].next == null)
      && (if i > 0 then s[n].prev == L[h][i - 1] && s[n].prev != n && WellFormed(s, L[h][i - 1], h) else s[n].prev == null)
  {
    NotOwnNeighbour(s, L[h], h, i);
    assert LinkAt(s, L[h], i);
    NodeWellFormed(s, L, h, i);
    if i + 1 < |L[h]| { NodeWellFormed(s, L, h, i + 1); }
    if i > 0 { NodeWellFormed(s, L, h, i - 1); }
  }

  lemma NodeWellFormed(s: Store, L: seq<seq<BTreeNode>>, h: nat, i: nat)
    requires h < |L| && LevelsOk(s, L, h + 1) && LevelOk(s, L, h) && i < |L[h]|
    ensures WellFormed(s, L[h][i], h)
  {
    if h > 0 {
      assert InnerNode(s, L[h][i], h);
      KidsApart(s, L, h, i);
    }
  }

  lemma ToRecuttable(s: Store, L: seq<seq<BTreeNode>>, h: nat, j: nat)
    requires h < |L| && LevelsOk(s, L, h + 1) && LevelOk(s, L, h) && j + 1 < |L[h]|
    ensures Recuttable(s, L, h, j) && L[h][j] != L[h][j + 1]
    ensures h > 0 ==> InnerNode(s, L[h][j], h) && InnerNode(s, L[h][j + 1], h)
  {
    assert Differ(L[h], j, j + 1);
  }

  lemma MovedFixable(s: Store, u: Store, L: seq<seq<BTreeNode>>, h: nat, j: nat, q: nat, max: nat)
    requires 0 < h < |L| && Recuttable(s, L, h, j) && MovedKids(s, u, L[h][j], L[h][j + 1], q)
    requires NonRootSized(s, L[0], max, 0) && max >= 5
    ensures Fixable(u, L, h, L[h][j]) && Fixable(u, L, h, L[h][j + 1])
  {
    MovedBelow(s, u, L, h, j, q);
    LeavesFilled(s, L, max);
    assert SameButParents(s, u, L[0]);
    forall k | 0 <= k < |L[0]| ensures L[0][k] in u && u[L[0][k]].keys != [] { assert SameButParent(s, u, L[0][k]); }
    var cs := PairKids(s, L[h][j], L[h][j + 1]);
    forall t | 0 <= t < |cs| ensures cs[t] in L[h - 1] { var k := PairKid(s, L, h, j, t); }
  }

  lemma FixedFixable(u: Store, v: Store, L: seq<seq<BTreeNode>>, h: nat, n: BTreeNode, n': BTreeNode)
    requires 0 < h < |L| && Fixed(u, v, n, h) && Fixable(u, L, h, n) && Fixable(u, L, h, n')
    ensures Fixable(v, L, h, n')
  {
    forall m | 0 <= m < h ensures SameRecords(u, v, L[m]) {
      assert LevelOk(u, L, m);
      forall i | 0 <= i < |L[m]| ensures L[m][i] != n { assert u[L[m][i]].height == m; }
    }
    LevelsFrame(u, v, L, h);
    assert SameRecords(u, v, L[0]);
  }
}
