/** What deletion does to the levels: fix(), then steal or merge, one level at a time. */
module BTreeDeletion {
  import opened Flatten
  import opened BTreeStore
  import opened BTreeRebalance
  import opened BTreeSteps

  // ---------- fix() ----------

  lemma FixNode(s: Store, L: seq<seq<BTreeNode>>, t: Store, L': seq<seq<BTreeNode>>, t': Store, h: nat, i: nat, pos: nat, ic: nat, k: nat)
    requires FixContext(s, L, t, L', h, i, pos, ic) && Fixed(t, t', L[h][i], h) && k < |L[h]|
    ensures L[h][k] in t' && InnerNode(t', L[h][k], h)
    ensures k != i && k != i + 1 ==> Left(t', L[h][k], h) == Left(s, L[h][k], h)
  {
    FixAbove(s, L, t, L', h, i, pos, ic);
    FixBelow(s, L, t, L', t', h, i, pos, ic);
    var n := L[h][k];
    assert InnerNode(s, n, h);
    if k != i && n == L[h][i] { ChainIndex(s, L[h], h, k, i); }
    var cs := t[n].children;
    assert t'[n].children == cs && |cs| > 0;
    forall p | 0 <= p < |cs|
      ensures cs[p] in t' && t'[cs[p]].parent == n
      ensures Left(t', cs[p], h - 1) == Left(t, cs[p], h - 1)
      ensures k != i && (p > 0 || k != i + 1) ==> Left(t', cs[p], h - 1) == Left(s, cs[p], h - 1)
    {
      FixChild(s, L, t, L', h, i, pos, ic, k, p);
      var j := FixChildKept(s, L, t, L', h, i, pos, ic, k, p);
    }
    assert t'[n].keys == Separators(t', cs, h);
  }

  lemma FixBelow(s: Store, L: seq<seq<BTreeNode>>, t: Store, L': seq<seq<BTreeNode>>, t': Store, h: nat, i: nat, pos: nat, ic: nat)
    requires FixContext(s, L, t, L', h, i, pos, ic) && Fixed(t, t', L[h][i], h)
    ensures LevelsOk(t', L', h)
    ensures forall k :: 0 <= k < h ==> SameRecords(t, t', L'[k])
    ensures SameLefts(t, t', L'[h - 1], h - 1)
  {
    FixAbove(s, L, t, L', h, i, pos, ic);
    forall k | 0 <= k < h ensures SameRecords(t, t', L'[k]) {
      assert LevelOk(t, L', k);
      forall j | 0 <= j < |L'[k]| ensures L'[k][j] != L[h][i] {
        assert t[L'[k][j]].height == k && t[L[h][i]].height == h;
      }
    }
    LevelsFrame(t, t', L', h);
  }

  /** fix() completes the step from level h - 1 to level h. */
  lemma FixStep(s: Store, L: seq<seq<BTreeNode>>, t: Store, L': seq<seq<BTreeNode>>, t': Store, h: nat, i: nat, pos: nat, ic: nat, pos': int)
    requires FixContext(s, L, t, L', h, i, pos, ic) && Fixed(t, t', L[h][i], h)
    ensures Step(s, L, t', L', h, i, pos') && L'[h] == L[h]
    ensures LevelsOk(t', L', h) && forall k :: 0 <= k < h ==> SameRecords(t, t', L'[k])
    ensures var cs := s[L[h][i]].children;
      t'[L[h][i]].children == if L'[h - 1] != L[h - 1] then Without(cs, pos) else cs
    ensures forall k :: 0 <= k < |L[h]| && k != i ==> t'[L[h][k]] == s[L[h][k]]
  {
    FixAbove(s, L, t, L', h, i, pos, ic);
    FixCovers(s, L, t, L', h, i, pos, ic);
    FixBelow(s, L, t, L', t', h, i, pos, ic);
    forall k | 0 <= k < |L[h]|
      ensures InnerNode(t', L[h][k], h) && StepNode(s, t', L[h][i], L[h][k], h) && FixRecord(s, t, t', L[h][k])
      ensures k != i ==> t'[L[h][k]] == s[L[h][k]]
    {
      FixStepNode(s, L, t, L', t', h, i, pos, ic, k);
    }
    ChainFrame(s, t', L[h], h);
    assert ChildLists(t', L[h]) == ChildLists(t, L[h]);
    assert LevelOk(t', L', h);
    FixAboveKept(s, L, t, L', t', h, i, pos, ic, pos');
  }

  ghost predicate FixRecord(s: Store, t: Store, t': Store, n: BTreeNode) {
    && n in s && n in t && n in t'
    && t'[n] == t[n].(keys := t'[n].keys)
    && t[n] == s[n].(keys := t[n].keys, children := t[n].children)
  }

  lemma FixStepNode(s: Store, L: seq<seq<BTreeNode>>, t: Store, L': seq<seq<BTreeNode>>, t': Store, h: nat, i: nat, pos: nat, ic: nat, k: nat)
    requires FixContext(s, L, t, L', h, i, pos, ic) && Fixed(t, t', L[h][i], h) && k < |L[h]|
    ensures L[h][k] in t' && InnerNode(t', L[h][k], h) && StepNode(s, t', L[h][i], L[h][k], h)
    ensures FixRecord(s, t, t', L[h][k])
    ensures k != i ==> t'[L[h][k]] == s[L[h][k]]
  {
    var u := L[h][i];
    FixAbove(s, L, t, L', h, i, pos, ic);
    FixNode(s, L, t, L', t', h, i, pos, ic, k);
    assert LinkAt(s, L[h], i);
    if k != i && L[h][k] == u { ChainIndex(s, L[h], h, k, i); }
    assert AboveNode(s, t, u, u, pos, L'[h - 1] != L[h - 1]);
  }

  lemma FixAboveKept(s: Store, L: seq<seq<BTreeNode>>, t: Store, L': seq<seq<BTreeNode>>, t': Store, h: nat, i: nat, pos: nat, ic: nat, pos': int)
    requires FixContext(s, L, t, L', h, i, pos, ic) && Fixed(t, t', L[h][i], h)
    ensures AboveKept(s, t', L, h, s[L[h][i]].parent, pos', false)
  {
    FixAbove(s, L, t, L', h, i, pos, ic);
    forall k, j | h < k < |L| && 0 <= j < |L[k]|
      ensures AboveNode(s, t', L[k][j], s[L[h][i]].parent, pos', false)
    {
      assert LevelOk(s, L, k);
      assert s[L[k][j]].height == k && s[L[h][i]].height == h;
      assert AboveNode(s, t, L[k][j], L[h][i], pos, L'[h - 1] != L[h - 1]);
    }
  }

  // ---------- Composition ----------

  lemma StepTrans(s: Store, L: seq<seq<BTreeNode>>, t: Store, L': seq<seq<BTreeNode>>, u: Store, L'': seq<seq<BTreeNode>>, h: nat, i: nat, pos: int)
    requires Step(s, L, t, L', h, i, pos) && L'[h] == L[h] && Step(t, L', u, L'', h, i, pos)
    requires Chain(s, L[h], h)
    ensures Step(s, L, u, L'', h, i, pos)
  {
    var x := L[h][i];
    assert LevelOk(t, L', h);
    assert LinkAt(s, L[h], i) && LinkAt(t, L[h], i);
    forall k, j | h < k < |L| && 0 <= j < |L[k]|
      ensures AboveNode(s, u, L[k][j], s[x].parent, pos, L''[h] != L[h])
    {
      assert AboveNode(s, t, L[k][j], s[x].parent, pos, false);
      assert L'[k][j] == L[k][j];
      assert AboveNode(t, u, L'[k][j], t[x].parent, pos, L''[h] != L'[h]);
    }
    forall j | 0 <= j < |L''[h]|
      ensures StepNode(s, u, x, L''[h][j], h)
    {
      var j' := if L''[h] == L[h] || j < i then j else j + 1;
      assert StepNode(s, t, x, L'[h][j'], h) && StepNode(t, u, x, L''[h][j], h);
    }
  }

  // ---------- Steal ----------

  lemma RecutAbove(s: Store, s': Store, L: seq<seq<BTreeNode>>, h: nat, j: nat, q: nat, p: BTreeNode?, pos: int)
    requires h < |L| && Recuttable(s, L, h, j) && Recut(s, s', L[h][j], L[h][j + 1], q, h) && Tall(s, L, h)
    ensures AboveKept(s, s', L, h, p, pos, false)
    ensures Tall(s', L, h)
  {
    if h > 0 { DistinctKids(s, L, h, j); }
    forall k, i | h < k < |L| && 0 <= i < |L[k]|
      ensures L[k][i] in s' && s'[L[k][i]] == s[L[k][i]] && AboveNode(s, s', L[k][i], p, pos, false)
    {
      assert s[L[k][i]].height == k;
    }
  }

  /** Recutting a pair so that both nodes keep something, seen as a step of either node. */
  lemma StealStep(s: Store, s': Store, L: seq<seq<BTreeNode>>, h: nat, j: nat, q: nat, i: nat, pos: int)
    requires h < |L| && LevelsOk(s, L, h + 1) && LevelOk(s, L, h) && j + 1 < |L[h]| && (i == j || i == j + 1) && Tall(s, L, h)
    requires Recut(s, s', L[h][j], L[h][j + 1], q, h)
    requires s'[L[h][j]].keys != [] && s'[L[h][j + 1]].keys != [] && s[L[h][j]].keys != []
    ensures Step(s, L, s', L, h, i, pos)
    ensures h == 0 ==> Entries(s', L[0]) == Entries(s, L[0])
    ensures h > 0 ==> forall k :: 0 <= k < h ==> SameButParents(s, s', L[k])
    ensures forall k :: 0 <= k < |L[h]| && k != j && k != j + 1 ==> s'[L[h][k]] == s[L[h][k]]
  {
    var x := L[h][i];
    StealLevels(s, s', L, h, j, q);
    RecutAbove(s, s', L, h, j, q, s[x].parent, pos);
    forall k | 0 <= k < |L[h]| ensures StepNode(s, s', x, L[h][k], h) {
      assert LinkAt(s, L[h], j);
    }
  }

  lemma StealLevels(s: Store, s': Store, L: seq<seq<BTreeNode>>, h: nat, j: nat, q: nat)
    requires h < |L| && LevelsOk(s, L, h + 1) && LevelOk(s, L, h) && j + 1 < |L[h]|
    requires Recut(s, s', L[h][j], L[h][j + 1], q, h)
    requires s'[L[h][j]].keys != [] && s'[L[h][j + 1]].keys != [] && s[L[h][j]].keys != []
    ensures Recuttable(s, L, h, j)
    ensures LevelsOk(s', L, h + 1)
    ensures h == 0 ==> LeafLevel(s', L[0]) && Entries(s', L[0]) == Entries(s, L[0])
    ensures h > 0 ==> forall k :: 0 <= k < h ==> SameButParents(s, s', L[k])
    ensures forall k :: 0 <= k < |L[h]| ==> L[h][k] in s' && s'[L[h][k]].parent == s[L[h][k]].parent
    ensures forall k :: 0 <= k < |L[h]| && k != j && k != j + 1 ==> s'[L[h][k]] == s[L[h][k]]
    ensures forall k :: 0 <= k < |L[h]| && k != j + 1 ==> Left(s', L[h][k], h) == Left(s, L[h][k], h)
  {
    assert Differ(L[h], j, j + 1);
    assert Recuttable(s, L, h, j);
    if h == 0 {
      RecutLeavesOk(s, s', L, j, q);
      forall k | 0 <= k < |L[h]| && k != j && k != j + 1
        ensures L[h][k] != L[h][j] && L[h][k] != L[h][j + 1]
      {
        OtherNode(s, L[h], h, k, j);
      }
    } else {
      DistinctKids(s, L, h, j);
      RecutInnerOk(s, s', L, h, j, q);
      RecutInnerBelow(s, s', L, h, j, q);
      forall k | 0 <= k < |L[h]| ensures InnerNode(s', L[h][k], h) {
        assert s'[L[h][k]].children != [];
      }
      assert LevelOk(s', L, h);
      StealLeft(s, s', L, h, j, q);
    }
  }

  lemma StealLeft(s: Store, s': Store, L: seq<seq<BTreeNode>>, h: nat, j: nat, q: nat)
    requires 0 < h < |L| && LevelsOk(s, L, h + 1) && LevelOk(s, L, h) && Recuttable(s, L, h, j)
    requires RecutInner(s, s', L[h][j], L[h][j + 1], q, h) && q > 0
    ensures Left(s', L[h][j], h) == Left(s, L[h][j], h)
  {
    assert InnerNode(s, L[h][j], h);
    RecutChild(s, s', L, h, j, q, j, 0);
    assert s'[L[h][j]].children[0] == s[L[h][j]].children[0];
  }

  // ---------- Merge ----------

  /** The parent p drops the child at position pos; nothing else changes, x is forgotten. */
  ghost predicate ParentLost(s: Store, s': Store, x: BTreeNode, p: BTreeNode, pos: nat) {
    && p in s && p in s' && p != x && pos < |s[p].children|
    && s'[p] == s[p].(keys := s'[p].keys, children := Without(s[p].children, pos))
    && forall n :: n in s && n != x && n != p ==> n in s' && s'[n] == s[n]
  }

  /** Node i hands everything it has to its neighbour in the pair at j, j + 1. */
  ghost predicate HandsOver(s: Store, t: Store, L: seq<seq<BTreeNode>>, h: nat, j: nat, i: nat)
    requires h < |L|
  {
    && LevelsOk(s, L, h + 1) && LevelOk(s, L, h) && j + 1 < |L[h]| && (i == j || i == j + 1)
    && var q := if i == j then 0
                else if h == 0 then |s[L[h][j]].keys| + |s[L[h][j + 1]].keys|
                else |PairKids(s, L[h][j], L[h][j + 1])|;
    Recut(s, t, L[h][j], L[h][j + 1], q, h)
  }

  lemma HandOverLeaves(s: Store, t: Store, L: seq<seq<BTreeNode>>, j: nat, i: nat)
    requires 0 < |L| && HandsOver(s, t, L, 0, j, i) && s[L[0][j]].keys != []
    ensures Unlinkable(t, L, 0, i) && Entries(t, L[0]) == Entries(s, L[0])
    ensures forall k :: 0 <= k < |L[0]| ==> L[0][k] in t && t[L[0][k]].parent == s[L[0][k]].parent
    ensures forall k :: 0 <= k < |L[0]| && k != i && k != j + 1 ==> Left(t, L[0][k], 0) == Left(s, L[0][k], 0)
  {
    assert Differ(L[0], j, j + 1);
    assert Recuttable(s, L, 0, j);
    var q := if i == j then 0 else |s[L[0][j]].keys| + |s[L[0][j + 1]].keys|;
    RecutLeavesOk(s, t, L, j, q);
    forall k | 0 <= k < |L[0]| && k != j && k != j + 1
      ensures L[0][k] in t && t[L[0][k]] == s[L[0][k]]
    {
      OtherNode(s, L[0], 0, k, j);
    }
    if i == j + 1 {
      assert t[L[0][j]].keys[0] == s[L[0][j]].keys[0];
    }
  }

  lemma HandOverInner(s: Store, t: Store, L: seq<seq<BTreeNode>>, h: nat, j: nat, i: nat)
    requires 0 < h < |L| && HandsOver(s, t, L, h, j, i)
    ensures Unlinkable(t, L, h, i)
    ensures forall k :: 0 <= k < |L[h]| ==> L[h][k] in t && t[L[h][k]].parent == s[L[h][k]].parent
    ensures forall k :: 0 <= k < |L[h]| && k != i && k != j + 1 ==> Left(t, L[h][k], h) == Left(s, L[h][k], h)
    ensures forall k :: 0 <= k < h ==> SameButParents(s, t, L[k])
  {
    assert Differ(L[h], j, j + 1);
    assert Recuttable(s, L, h, j);
    var q := if i == j then 0 else |PairKids(s, L[h][j], L[h][j + 1])|;
    DistinctKids(s, L, h, j);
    RecutInnerOk(s, t, L, h, j, q);
    RecutInnerBelow(s, t, L, h, j, q);
    assert InnerNode(s, L[h][j], h) && InnerNode(s, L[h][j + 1], h);
    forall k | 0 <= k < |L[h]| && k != i ensures InnerNode(t, L[h][k], h) {
      assert t[L[h][k]].children != [];
    }
    if i == j + 1 {
      StealLeft(s, t, L, h, j, q);
    }
  }

  lemma HandOver(s: Store, t: Store, L: seq<seq<BTreeNode>>, h: nat, j: nat, i: nat)
    requires h < |L| && HandsOver(s, t, L, h, j, i) && (h == 0 ==> s[L[0][j]].keys != [])
    ensures Unlinkable(t, L, h, i)
    ensures h == 0 ==> Entries(t, L[0]) == Entries(s, L[0])
    ensures forall k :: 0 <= k < |L[h]| ==> L[h][k] in t && t[L[h][k]].parent == s[L[h][k]].parent
    ensures forall k :: 0 <= k < |L[h]| && k != i && k != j + 1 ==> Left(t, L[h][k], h) == Left(s, L[h][k], h)
    ensures forall k :: 0 <= k < h ==> SameButParents(s, t, L[k])
  {
    if h == 0 { HandOverLeaves(s, t, L, j, i); } else { HandOverInner(s, t, L, h, j, i); }
  }

  /** Nodes above level h are out of reach of recutting and unlinking. */
  lemma MergeTall(s: Store, t: Store, t': Store, L: seq<seq<BTreeNode>>, h: nat, j: nat, i: nat, n: BTreeNode)
    requires h < |L| && HandsOver(s, t, L, h, j, i) && Unlinked(t, t', L[h][i])
    requires n in s && s[n].height > h
    ensures n != L[h][i] && n in t && n in t' && t'[n] == s[n]
  {
    var x := L[h][i];
    assert Differ(L[h], j, j + 1);
    assert Recuttable(s, L, h, j);
    assert LinkAt(s, L[h], i);
    if h > 0 { DistinctKids(s, L, h, j); }
    assert t[x].prev == s[x].prev && t[x].next == s[x].next;
    assert s[x].prev != null ==> s[s[x].prev].height == h;
    assert s[x].next != null ==> s[s[x].next].height == h;
  }

  /** The parent's change does not touch level h or below. */
  lemma LostFrame(t: Store, u: Store, L: seq<seq<BTreeNode>>, h: nat, x: BTreeNode, p: BTreeNode, pos: nat)
    requires h < |L| && LevelsOk(t, L, h + 1) && ParentLost(t, u, x, p, pos) && t[p].height > h
    requires x in t && t[x].height == h && x !in L[h]
    ensures LevelsOk(u, L, h + 1) && Entries(u, L[0]) == Entries(t, L[0])
    ensures forall k :: 0 <= k <= h ==> SameRecords(t, u, L[k])
    ensures SameLefts(t, u, L[h], h)
  {
    forall k | 0 <= k <= h ensures SameRecords(t, u, L[k]) {
      assert LevelOk(t, L, k);
      forall m | 0 <= m < |L[k]| ensures L[k][m] in u && u[L[k][m]] == t[L[k][m]] {
        assert t[L[k][m]].height == k;
      }
    }
    LevelsFrame(t, u, L, h + 1);
    assert SameRecords(t, u, L[0]);
    assert EntryLists(u, L[0]) == EntryLists(t, L[0]);
  }

  lemma NotInWithout(s: Store, ns: seq<BTreeNode>, h: nat, i: nat)
    requires Chain(s, ns, h) && i < |ns|
    ensures ns[i] !in Without(ns, i)
  {
    var ms := Without(ns, i);
    forall k | 0 <= k < |ms| ensures ms[k] != ns[i] {
      var k' := if k < i then k else k + 1;
      if ns[k'] == ns[i] { ChainIndex(s, ns, h, k', i); }
    }
  }

  /** Node i is emptied into a neighbour, unlinked from its level and dropped by its parent p. */
  lemma MergeStep(s: Store, t: Store, t': Store, u: Store, L: seq<seq<BTreeNode>>, h: nat, j: nat, i: nat, p: BTreeNode, pos: nat)
    requires h + 1 < |L| && HandsOver(s, t, L, h, j, i) && Tall(s, L, h)
    requires h == 0 ==> s[L[0][j]].keys != []
    requires Unlinked(t, t', L[h][i]) && L[h][i] in t'
    requires t'[L[h][i]].height == h
    requires p in s && s[p].height == h + 1 && s[L[h][i]].parent == p && ParentLost(t', u, L[h][i], p, pos)
    ensures Step(s, L, u, L[h := Without(L[h], i)], h, i, pos)
    ensures h == 0 ==> Entries(u, Without(L[0], i)) == Entries(s, L[0])
    ensures forall k :: 0 <= k < h ==> SameButParents(s, u, L[k])
    ensures forall k :: 0 <= k < |L[h]| && k != i ==> L[h][k] in t && L[h][k] in u && u[L[h][k]].keys == t[L[h][k]].keys
  {
    var x, L' := L[h][i], L[h := Without(L[h], i)];
    HandOver(s, t, L, h, j, i);
    UnlinkOk(t, t', L, h, i);
    NotInWithout(s, L[h], h, i);
    MergeTall(s, t, t', L, h, j, i, p);
    LostFrame(t', u, L', h, x, p, pos);
    MergeNodes(s, t, t', u, L, h, j, i);
    MergeAbove(s, t, t', u, L, h, j, i, p, pos);
    forall k | 0 <= k < h ensures SameButParents(s, u, L[k]) {
      assert SameRecords(t', u, L'[k]);
      MergeBelow(s, t, t', u, L[k]);
    }
  }

  lemma MergeBelow(s: Store, t: Store, t': Store, u: Store, ns: seq<BTreeNode>)
    requires SameButParents(s, t, ns) && SameRecords(t, t', ns) && SameRecords(t', u, ns)
    ensures SameButParents(s, u, ns)
  {
    forall m | 0 <= m < |ns| ensures SameButParent(s, u, ns[m]) {
      assert SameButParent(s, t, ns[m]);
    }
  }

  lemma MergeNodes(s: Store, t: Store, t': Store, u: Store, L: seq<seq<BTreeNode>>, h: nat, j: nat, i: nat)
    requires h < |L| && j + 1 < |L[h]| && (i == j || i == j + 1) && Chain(s, L[h], h)
    requires forall k :: 0 <= k < |L[h]| ==> L[h][k] in t && t[L[h][k]].parent == s[L[h][k]].parent
    requires forall k :: 0 <= k < |L[h]| && k != i && k != j + 1 ==> Left(t, L[h][k], h) == Left(s, L[h][k], h)
    requires forall k :: 0 <= k < |L[h]| && k != i ==> SameButLinks(t, t', L[h][k]) && Left(t', L[h][k], h) == Left(t, L[h][k], h)
    requires SameRecords(t', u, Without(L[h], i)) && SameLefts(t', u, Without(L[h], i), h)
    ensures forall k :: 0 <= k < |L[h]| - 1 ==> StepNode(s, u, L[h][i], Without(L[h], i)[k], h)
    ensures forall k :: 0 <= k < |L[h]| && k != i ==> L[h][k] in u && u[L[h][k]].keys == t[L[h][k]].keys
  {
    forall k | 0 <= k < |L[h]| && k != i
      ensures StepNode(s, u, L[h][i], L[h][k], h) && u[L[h][k]].keys == t[L[h][k]].keys
    {
      MergeNode(s, t, t', u, L, h, j, i, k);
    }
    forall k | 0 <= k < |L[h]| - 1 ensures StepNode(s, u, L[h][i], Without(L[h], i)[k], h) {
      assert Without(L[h], i)[k] == L[h][if k < i then k else k + 1];
    }
  }

  lemma MergeNode(s: Store, t: Store, t': Store, u: Store, L: seq<seq<BTreeNode>>, h: nat, j: nat, i: nat, k: nat)
    requires h < |L| && j + 1 < |L[h]| && (i == j || i == j + 1) && k < |L[h]| && k != i && Chain(s, L[h], h)
    requires forall m :: 0 <= m < |L[h]| ==> L[h][m] in t
    requires L[h][k] in s && L[h][i] in s
    requires t[L[h][k]].parent == s[L[h][k]].parent && (k != j + 1 ==> Left(t, L[h][k], h) == Left(s, L[h][k], h))
    requires SameButLinks(t, t', L[h][k]) && Left(t', L[h][k], h) == Left(t, L[h][k], h)
    requires SameRecords(t', u, Without(L[h], i)) && SameLefts(t', u, Without(L[h], i), h)
    ensures StepNode(s, u, L[h][i], L[h][k], h) && u[L[h][k]].keys == t[L[h][k]].keys
  {
    assert L[h][k] == Without(L[h], i)[if k < i then k else k - 1];
    assert LinkAt(s, L[h], i);
  }

  lemma MergeAbove(s: Store, t: Store, t': Store, u: Store, L: seq<seq<BTreeNode>>, h: nat, j: nat, i: nat, p: BTreeNode, pos: nat)
    requires h < |L| && HandsOver(s, t, L, h, j, i) && Tall(s, L, h)
    requires Unlinked(t, t', L[h][i]) && p in s && s[p].height == h + 1 && ParentLost(t', u, L[h][i], p, pos)
    ensures AboveKept(s, u, L, h, p, pos, true)
  {
    MergeTall(s, t, t', L, h, j, i, p);
    forall k, m | h < k < |L| && 0 <= m < |L[k]|
      ensures AboveNode(s, u, L[k][m], p, pos, true)
    {
      MergeTall(s, t, t', L, h, j, i, L[k][m]);
    }
  }
}
