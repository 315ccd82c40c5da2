/** Moving children or entries between neighbours of one level: steal, merge and split. */
module BTreeRebalance {
  import opened Flatten
  import opened BTreeStore

  // ---------- Frames ----------

  ghost predicate SameButParent(s: Store, s': Store, n: BTreeNode) {
    n in s && n in s' && s'[n] == s[n].(parent := s'[n].parent)
  }

  ghost predicate SameRecords(s: Store, s': Store, ns: seq<BTreeNode>) {
    forall j :: 0 <= j < |ns| ==> ns[j] in s && ns[j] in s' && s'[ns[j]] == s[ns[j]]
  }

  ghost predicate SameButParents(s: Store, s': Store, ns: seq<BTreeNode>) {
    forall j :: 0 <= j < |ns| ==> SameButParent(s, s', ns[j])
  }

  lemma LevelFrame(s: Store, s': Store, L: seq<seq<BTreeNode>>, k: nat)
    requires k < |L| && LevelsOk(s, L, k + 1)
    requires forall m :: 0 <= m < k ==> SameRecords(s, s', L[m])
    requires SameButParents(s, s', L[k])
    ensures LevelOk(s', L, k)
    ensures forall i :: 0 <= i < |L[k]| ==> Left(s', L[k][i], k) == Left(s, L[k][i], k)
  {
    assert LevelOk(s, L, k);
    forall i | 0 <= i < |L[k]|
      ensures Left(s', L[k][i], k) == Left(s, L[k][i], k)
    {
      LeftFrame(s, s', L, k, i);
    }
    forall i | 0 <= i < |L[k]|
      ensures L[k][i] in s' && s'[L[k][i]] == s[L[k][i]].(parent := s'[L[k][i]].parent)
    {
      assert SameButParent(s, s', L[k][i]);
    }
    ChainFrame(s, s', L[k], k);
    if k > 0 {
      InnerFrame(s, s', L, k);
    }
  }

  lemma LeftFrame(s: Store, s': Store, L: seq<seq<BTreeNode>>, k: nat, i: nat)
    requires k < |L| && LevelsOk(s, L, k + 1) && i < |L[k]|
    requires forall m :: 0 <= m < k ==> SameButParents(s, s', L[m])
    requires SameButParents(s, s', L[k])
    ensures Left(s', L[k][i], k) == Left(s, L[k][i], k)
  {
    forall m | 0 <= m <= k
      ensures SameLevel(s, s', L[m])
    {
      assert SameButParents(s, s', L[m]);
      assert forall j :: 0 <= j < |L[m]| ==> SameButParent(s, s', L[m][j]);
    }
    assert SameLevel(s, s', L[k]);
    assert SameNode(s, s', L[k][i]);
    LeftSame(s, s', L, k, i);
  }

  lemma InnerFrame(s: Store, s': Store, L: seq<seq<BTreeNode>>, k: nat)
    requires 0 < k < |L| && LevelsOk(s, L, k + 1)
    requires forall m :: 0 <= m < k ==> SameRecords(s, s', L[m])
    requires SameButParents(s, s', L[k])
    ensures Within(s', L[k]) && Covers(s', L[k], L[k - 1])
    ensures forall i :: 0 <= i < |L[k]| ==> InnerNode(s', L[k][i], k)
  {
    assert LevelOk(s, L, k) && LevelOk(s, L, k - 1);
    forall i | 0 <= i < |L[k]|
      ensures L[k][i] in s' && s'[L[k][i]].children == s[L[k][i]].children && InnerNode(s', L[k][i], k)
    {
      assert SameButParent(s, s', L[k][i]);
      assert InnerNode(s, L[k][i], k);
      var n := L[k][i];
      var cs := s[n].children;
      forall p | 0 <= p < |cs|
        ensures cs[p] in s' && s'[cs[p]].parent == n && Left(s', cs[p], k - 1) == Left(s, cs[p], k - 1)
      {
        var j := ChildBelow(s, L, k, i, p);
        assert SameRecords(s, s', L[k - 1]);
        forall m | 0 <= m <= k - 1 ensures SameButParents(s, s', L[m]) {
          assert SameRecords(s, s', L[m]);
        }
        LeftFrame(s, s', L, k - 1, j);
      }
      assert Separators(s', cs, k) == Separators(s, cs, k);
    }
    assert ChildLists(s', L[k]) == ChildLists(s, L[k]);
  }

  lemma SameEntries(s: Store, s': Store, ns: seq<BTreeNode>)
    requires SameButParents(s, s', ns)
    ensures Entries(s', ns) == Entries(s, ns)
  {
    forall m | 0 <= m < |ns| ensures ns[m] in s && ns[m] in s' && LeafEntries(s'[ns[m]]) == LeafEntries(s[ns[m]]) {
      assert SameButParent(s, s', ns[m]);
    }
    assert EntryLists(s', ns) == EntryLists(s, ns);
  }

  lemma LevelsFrame(s: Store, s': Store, L: seq<seq<BTreeNode>>, h: nat)
    requires h <= |L| && LevelsOk(s, L, h)
    requires forall m :: 0 <= m < h ==> SameRecords(s, s', L[m])
    ensures LevelsOk(s', L, h)
    ensures forall k, i :: 0 <= k < h && 0 <= i < |L[k]| ==> Left(s', L[k][i], k) == Left(s, L[k][i], k)
  {
    forall k | 0 <= k < h
      ensures LevelOk(s', L, k)
      ensures forall i :: 0 <= i < |L[k]| ==> Left(s', L[k][i], k) == Left(s, L[k][i], k)
    {
      assert SameRecords(s, s', L[k]);
      LevelFrame(s, s', L, k);
    }
  }

  // ---------- Moving the boundary between two neighbours ----------

  /** s' is s with the entries of the leaves l and r cut anew after the first q. */
  ghost predicate RecutLeaves(s: Store, s': Store, l: BTreeNode, r: BTreeNode, q: nat) {
    && l in s && r in s && l in s' && r in s'
    && q <= |s[l].keys| + |s[r].keys| && q <= |s[l].values| + |s[r].values|
    && s'[l] == s[l].(keys := (s[l].keys + s[r].keys)[..q], values := (s[l].values + s[r].values)[..q])
    && s'[r] == s[r].(keys := (s[l].keys + s[r].keys)[q..], values := (s[l].values + s[r].values)[q..])
    && forall n :: n in s && n != l && n != r ==> n in s' && s'[n] == s[n]
  }

  ghost function PairKids(s: Store, l: BTreeNode, r: BTreeNode): seq<BTreeNode>
    requires l in s && r in s
  {
    s[l].children + s[r].children
  }

  /** s' is s with the children of the internal nodes l and r cut anew after the first q. */
  ghost predicate RecutInner(s: Store, s': Store, l: BTreeNode, r: BTreeNode, q: nat, h: nat) {
    && h > 0 && l in s && r in s && l in s' && r in s'
    && var cs := PairKids(s, l, r);
    && q <= |cs|
    && s'[l] == s[l].(children := cs[..q], keys := Separators(s, cs[..q], h))
    && s'[r] == s[r].(children := cs[q..], keys := Separators(s, cs[q..], h))
    && (forall t :: 0 <= t < |cs| ==> cs[t] in s && cs[t] in s' && s'[cs[t]] == s[cs[t]].(parent := if t < q then l else r))
    && (forall n :: n in s && n != l && n != r && n !in cs ==> n in s' && s'[n] == s[n])
  }

  ghost predicate Recut(s: Store, s': Store, l: BTreeNode, r: BTreeNode, q: nat, h: nat) {
    if h == 0 then RecutLeaves(s, s', l, r, q) else RecutInner(s, s', l, r, q, h)
  }

  /** Enough of LevelOk to recut a pair: the two nodes themselves need no separators yet. */
  ghost predicate Recuttable(s: Store, L: seq<seq<BTreeNode>>, h: nat, j: nat)
    requires h < |L|
  {
    && LevelsOk(s, L, h)
    && j + 1 < |L[h]|
    && Chain(s, L[h], h)
    && Differ(L[h], j, j + 1)
    && (h == 0 ==> LeafLevel(s, L[0]))
    && (h > 0 ==> Covers(s, L[h], L[h - 1]))
    && (h > 0 ==> forall i :: 0 <= i < |L[h]| && i != j && i != j + 1 ==> InnerNode(s, L[h][i], h))
  }

  lemma OtherNode(s: Store, ns: seq<BTreeNode>, h: nat, i: nat, j: nat)
    requires Chain(s, ns, h) && i < |ns| && j + 1 < |ns| && i != j && i != j + 1
    ensures ns[i] != ns[j] && ns[i] != ns[j + 1]
  {
    if ns[i] == ns[j] { ChainIndex(s, ns, h, i, j); }
    if ns[i] == ns[j + 1] { ChainIndex(s, ns, h, i, j + 1); }
  }

  /** Same links and heights: still the same chain. */
  lemma ChainFrame(s: Store, s': Store, ns: seq<BTreeNode>, h: nat)
    requires Chain(s, ns, h)
    requires forall i :: 0 <= i < |ns| ==>
      ns[i] in s' && s'[ns[i]].height == h && s'[ns[i]].prev == s[ns[i]].prev && s'[ns[i]].next == s[ns[i]].next
    ensures Chain(s', ns, h)
  {
    forall i | 0 <= i < |ns| ensures LinkAt(s', ns, i) {
      assert LinkAt(s, ns, i);
    }
  }

  lemma RecutLeavesOk(s: Store, s': Store, L: seq<seq<BTreeNode>>, j: nat, q: nat)
    requires |L| > 0 && Recuttable(s, L, 0, j) && RecutLeaves(s, s', L[0][j], L[0][j + 1], q)
    ensures LevelOk(s', L, 0) && Entries(s', L[0]) == Entries(s, L[0])
  {
    forall i | 0 <= i < |L[0]| && i != j && i != j + 1
      ensures L[0][i] in s' && s'[L[0][i]] == s[L[0][i]]
    {
      OtherNode(s, L[0], 0, i, j);
    }
    ChainFrame(s, s', L[0], 0);
    assert LeafLevel(s', L[0]);
    RecutEntries(s[L[0][j]], s[L[0][j + 1]], s'[L[0][j]], s'[L[0][j + 1]], q);
    FlatPair(EntryLists(s, L[0]), EntryLists(s', L[0]), j);
  }

  lemma RecutEntries(l: Rec, r: Rec, l': Rec, r': Rec, q: nat)
    requires |l.keys| == |l.values| && |r.keys| == |r.values| && q <= |l.keys| + |r.keys|
    requires l'.keys == (l.keys + r.keys)[..q] && r'.keys == (l.keys + r.keys)[q..]
    requires l'.values == (l.values + r.values)[..q] && r'.values == (l.values + r.values)[q..]
    ensures LeafEntries(l) + LeafEntries(r) == LeafEntries(l') + LeafEntries(r')
  {
  }

  /** The children of the pair lie side by side in the level below. */
  lemma PairKid(s: Store, L: seq<seq<BTreeNode>>, h: nat, j: nat, t: nat) returns (k: nat)
    requires 0 < h < |L| && Recuttable(s, L, h, j) && t < |PairKids(s, L[h][j], L[h][j + 1])|
    ensures k == Offset(ChildLists(s, L[h]), j) + t && k < |L[h - 1]|
    ensures var c := PairKids(s, L[h][j], L[h][j + 1])[t];
      L[h - 1][k] == c && c in s && s[c].height == h - 1
  {
    if t < |s[L[h][j]].children| {
      k := ChildBelow(s, L, h, j, t);
    } else {
      k := ChildBelow(s, L, h, j + 1, t - |s[L[h][j]].children|);
      OffsetStep(ChildLists(s, L[h]), j);
    }
    assert LevelOk(s, L, h - 1);
  }

  lemma DistinctKids(s: Store, L: seq<seq<BTreeNode>>, h: nat, j: nat)
    requires 0 < h < |L| && Recuttable(s, L, h, j)
    ensures var cs := PairKids(s, L[h][j], L[h][j + 1]);
      && (forall t :: 0 <= t < |cs| ==> cs[t] in s && s[cs[t]].height == h - 1)
      && (forall t, u :: 0 <= t < u < |cs| ==> cs[t] != cs[u])
  {
    var cs := PairKids(s, L[h][j], L[h][j + 1]);
    forall t | 0 <= t < |cs| ensures cs[t] in s && s[cs[t]].height == h - 1 {
      var k := PairKid(s, L, h, j, t);
    }
    forall t, u | 0 <= t < u < |cs| ensures cs[t] != cs[u] {
      var k := PairKid(s, L, h, j, t);
      var k' := PairKid(s, L, h, j, u);
      assert LevelOk(s, L, h - 1);
      if L[h - 1][k] == L[h - 1][k'] { ChainIndex(s, L[h - 1], h - 1, k, k'); }
    }
  }

  /** A child of another node of the level is no child of the pair. */
  lemma OtherKid(s: Store, L: seq<seq<BTreeNode>>, h: nat, j: nat, i: nat, p: nat)
    requires 0 < h < |L| && Recuttable(s, L, h, j)
    requires i < |L[h]| && p < |s[L[h][i]].children| && i != j && i != j + 1
    ensures s[L[h][i]].children[p] !in PairKids(s, L[h][j], L[h][j + 1])
  {
    var c := s[L[h][i]].children[p];
    var cs := PairKids(s, L[h][j], L[h][j + 1]);
    var k := ChildBelow(s, L, h, i, p);
    forall t | 0 <= t < |cs| ensures cs[t] != c {
      var k' := PairKid(s, L, h, j, t);
      OtherPlace(ChildLists(s, L[h]), i, p, j, t);
      assert LevelOk(s, L, h - 1);
      if cs[t] == c { ChainIndex(s, L[h - 1], h - 1, k, k'); }
    }
  }

  lemma OtherPlace<T>(xss: seq<seq<T>>, i: nat, p: nat, j: nat, t: nat)
    requires i < |xss| && p < |xss[i]| && j + 1 < |xss| && t < |xss[j]| + |xss[j + 1]|
    requires i != j && i != j + 1
    ensures Offset(xss, i) + p != Offset(xss, j) + t
  {
    if Offset(xss, i) + p == Offset(xss, j) + t {
      OffsetStep(xss, j);
      if t < |xss[j]| { SamePlace(xss, i, p, j, t); } else { SamePlace(xss, i, p, j + 1, t - |xss[j]|); }
    }
  }

  lemma RecutInnerBelow(s: Store, s': Store, L: seq<seq<BTreeNode>>, h: nat, j: nat, q: nat)
    requires 0 < h < |L| && Recuttable(s, L, h, j) && RecutInner(s, s', L[h][j], L[h][j + 1], q, h)
    ensures LevelsOk(s', L, h)
    ensures forall k, i :: 0 <= k < h && 0 <= i < |L[k]| ==> Left(s', L[k][i], k) == Left(s, L[k][i], k)
    ensures forall k :: 0 <= k < h ==> SameButParents(s, s', L[k])
    ensures forall k :: 0 <= k < h - 1 ==> SameRecords(s, s', L[k])
  {
    DistinctKids(s, L, h, j);
    forall k, i | 0 <= k < h && 0 <= i < |L[k]|
      ensures SameButParent(s, s', L[k][i]) && (k < h - 1 ==> s'[L[k][i]] == s[L[k][i]])
    {
      assert LevelOk(s, L, k);
      assert s[L[k][i]].height == k;
    }
    forall k | 0 <= k < h
      ensures LevelOk(s', L, k)
      ensures forall i :: 0 <= i < |L[k]| ==> Left(s', L[k][i], k) == Left(s, L[k][i], k)
    {
      LevelFrame(s, s', L, k);
    }
  }

  lemma RecutKeeps(s: Store, s': Store, L: seq<seq<BTreeNode>>, h: nat, j: nat, q: nat)
    requires 0 < h < |L| && Recuttable(s, L, h, j) && RecutInner(s, s', L[h][j], L[h][j + 1], q, h)
    ensures forall i :: 0 <= i < |L[h]| && i != j && i != j + 1 ==> L[h][i] in s' && s'[L[h][i]] == s[L[h][i]]
  {
    DistinctKids(s, L, h, j);
    forall i | 0 <= i < |L[h]| && i != j && i != j + 1
      ensures L[h][i] in s' && s'[L[h][i]] == s[L[h][i]]
    {
      OtherNode(s, L[h], h, i, j);
      assert s[L[h][i]].height == h;
    }
  }

  /** Recutting an internal pair keeps the level; only l and r may get other leftmost keys, and l
      only when it is left with no child. */
  lemma RecutInnerOk(s: Store, s': Store, L: seq<seq<BTreeNode>>, h: nat, j: nat, q: nat)
    requires 0 < h < |L| && Recuttable(s, L, h, j) && RecutInner(s, s', L[h][j], L[h][j + 1], q, h)
    ensures Chain(s', L[h], h) && Covers(s', L[h], L[h - 1])
    ensures forall i :: 0 <= i < |L[h]| && s'[L[h][i]].children != [] ==> InnerNode(s', L[h][i], h)
    ensures forall i :: 0 <= i < |L[h]| && i != j && i != j + 1 ==>
              s'[L[h][i]] == s[L[h][i]] && s'[L[h][i]].children != [] && Left(s', L[h][i], h) == Left(s, L[h][i], h)
  {
    RecutKeeps(s, s', L, h, j, q);
    ChainFrame(s, s', L[h], h);
    var xss: seq<seq<BTreeNode>>, yss: seq<seq<BTreeNode>> := ChildLists(s, L[h]), ChildLists(s', L[h]);
    assert xss[j] + xss[j + 1] == yss[j] + yss[j + 1];
    FlatPair(xss, yss, j);
    RecutInnerBelow(s, s', L, h, j, q);
    forall i | 0 <= i < |L[h]| && s'[L[h][i]].children != []
      ensures InnerNode(s', L[h][i], h)
      ensures i != j && i != j + 1 ==> Left(s', L[h][i], h) == Left(s, L[h][i], h)
    {
      RecutNode(s, s', L, h, j, q, i);
    }
    forall i | 0 <= i < |L[h]| && i != j && i != j + 1
      ensures s'[L[h][i]].children != []
    {
      assert InnerNode(s, L[h][i], h);
    }
  }

  lemma RecutNode(s: Store, s': Store, L: seq<seq<BTreeNode>>, h: nat, j: nat, q: nat, i: nat)
    requires 0 < h < |L| && Recuttable(s, L, h, j) && RecutInner(s, s', L[h][j], L[h][j + 1], q, h)
    requires i < |L[h]| && L[h][i] in s' && s'[L[h][i]].children != []
    requires i != j && i != j + 1 ==> s'[L[h][i]] == s[L[h][i]]
    ensures InnerNode(s', L[h][i], h)
    ensures i != j && i != j + 1 ==> Left(s', L[h][i], h) == Left(s, L[h][i], h)
  {
    var n := L[h][i];
    var mine := s'[n].children;
    forall p | 0 <= p < |mine|
      ensures mine[p] in s' && Left(s', mine[p], h - 1) == Left(s, mine[p], h - 1) && s'[mine[p]].parent == n
    {
      RecutChild(s, s', L, h, j, q, i, p);
    }
    assert s'[n].keys == Separators(s, mine, h) by {
      if i != j && i != j + 1 { assert InnerNode(s, n, h); }
    }
    assert Separators(s', mine, h) == Separators(s, mine, h);
  }

  lemma RecutChild(s: Store, s': Store, L: seq<seq<BTreeNode>>, h: nat, j: nat, q: nat, i: nat, p: nat)
    requires 0 < h < |L| && Recuttable(s, L, h, j) && RecutInner(s, s', L[h][j], L[h][j + 1], q, h)
    requires i < |L[h]| && L[h][i] in s' && p < |s'[L[h][i]].children|
    requires i != j && i != j + 1 ==> s'[L[h][i]] == s[L[h][i]]
    ensures var c := s'[L[h][i]].children[p];
      c in s' && Left(s', c, h - 1) == Left(s, c, h - 1) && s'[c].parent == L[h][i]
  {
    var c := s'[L[h][i]].children[p];
    var k: nat;
    RecutInnerBelow(s, s', L, h, j, q);
    if i != j && i != j + 1 {
      k := ChildBelow(s, L, h, i, p);
      OtherKid(s, L, h, j, i, p);
      assert InnerNode(s, L[h][i], h);
      assert LevelOk(s, L, h - 1);
      assert s[c].height == h - 1;
    } else {
      var t := if i == j then p else q + p;
      k := PairKid(s, L, h, j, t);
      assert c == PairKids(s, L[h][j], L[h][j + 1])[t];
    }
    assert L[h - 1][k] == c;
  }
}
