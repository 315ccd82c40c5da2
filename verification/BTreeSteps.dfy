/** Linking and unlinking nodes of a level, and repairing separators one level above a change. */
module BTreeSteps {
  import opened Flatten
  import opened BTreeStore
  import opened BTreeRebalance

  ghost function Without<T>(xs: seq<T>, i: nat): seq<T>
    requires i < |xs|
  {
    xs[..i] + xs[i + 1..]
  }

  ghost function Inserted<T>(xs: seq<T>, i: nat, x: T): seq<T>
    requires i <= |xs|
  {
    xs[..i] + [x] + xs[i..]
  }

  /** The levels above h hold nodes of other heights. */
  ghost predicate Tall(s: Store, L: seq<seq<BTreeNode>>, h: nat) {
    forall k, j :: h < k < |L| && 0 <= j < |L[k]| ==> L[k][j] in s && s[L[k][j]].height == k
  }

  // ---------- Unlinking an emptied node ----------

  ghost predicate Unlinked(s: Store, s': Store, x: BTreeNode) {
    && x in s
    && (forall n :: n in s && n != x ==> n in s')
    && (forall n :: n in s && n != x ==>
          s'[n] == s[n].(next := if s[x].prev == n then s[x].next else s[n].next,
                         prev := if s[x].next == n then s[x].prev else s[n].prev))
  }

  ghost predicate Unlinkable(s: Store, L: seq<seq<BTreeNode>>, h: nat, i: nat)
    requires h < |L|
  {
    && LevelsOk(s, L, h)
    && 1 < |L[h]| && i < |L[h]|
    && Chain(s, L[h], h)
    && (h == 0 ==> LeafLevel(s, L[0]) && s[L[0][i]].keys == [])
    && (h > 0 ==> Covers(s, L[h], L[h - 1]) && s[L[h][i]].children == [])
    && (h > 0 ==> forall k :: 0 <= k < |L[h]| && k != i ==> InnerNode(s, L[h][k], h))
  }

  ghost predicate SameButLinks(s: Store, s': Store, n: BTreeNode) {
    n in s && n in s' && s'[n] == s[n].(next := s'[n].next, prev := s'[n].prev)
  }

  lemma UnlinkChain(s: Store, s': Store, ns: seq<BTreeNode>, h: nat, i: nat)
    requires Chain(s, ns, h) && 1 < |ns| && i < |ns| && Unlinked(s, s', ns[i])
    ensures Chain(s', Without(ns, i), h)
    ensures forall k :: 0 <= k < |ns| && k != i ==> SameButLinks(s, s', ns[k])
  {
    var ms := Without(ns, i);
    forall k | 0 <= k < |ns| && k != i
      ensures SameButLinks(s, s', ns[k])
    {
      UnlinkNode(s, s', ns, h, i, k);
    }
    forall k | 0 <= k < |ms|
      ensures ms[k] in s' && s'[ms[k]].height == h && LinkAt(s', ms, k)
    {
      UnlinkNode(s, s', ns, h, i, if k < i then k else k + 1);
    }
    WithoutDistinct(ns, i);
  }

  lemma UnlinkNode(s: Store, s': Store, ns: seq<BTreeNode>, h: nat, i: nat, k: nat)
    requires Chain(s, ns, h) && 1 < |ns| && i < |ns| && Unlinked(s, s', ns[i]) && k < |ns| && k != i
    ensures SameButLinks(s, s', ns[k])
    ensures s'[ns[k]].prev == At(ns, if k == i + 1 then k - 2 else k - 1)
    ensures s'[ns[k]].next == At(ns, if k == i - 1 then k + 2 else k + 1)
  {
    var x := ns[i];
    assert LinkAt(s, ns, i) && LinkAt(s, ns, k);
    if ns[k] == x { ChainIndex(s, ns, h, k, i); }
    if s[x].prev == ns[k] { ChainIndex(s, ns, h, k, i - 1); }
    if s[x].next == ns[k] { ChainIndex(s, ns, h, k, i + 1); }
  }

  lemma WithoutDistinct<T>(xs: seq<T>, i: nat)
    requires Distinct(xs) && i < |xs|
    ensures Distinct(Without(xs, i))
  {
    forall j, k | 0 <= j < k < |xs| - 1 ensures Differ(Without(xs, i), j, k) {
      assert Differ(xs, if j < i then j else j + 1, if k < i then k else k + 1);
    }
  }

  ghost predicate SameLefts(s: Store, s': Store, ns: seq<BTreeNode>, h: nat) {
    forall j :: 0 <= j < |ns| ==> Left(s', ns[j], h) == Left(s, ns[j], h)
  }

  lemma UnlinkBelow(s: Store, s': Store, L: seq<seq<BTreeNode>>, h: nat, i: nat)
    requires h < |L| && Unlinkable(s, L, h, i) && Unlinked(s, s', L[h][i])
    ensures forall k :: 0 <= k < h ==> SameRecords(s, s', L[k])
    ensures LevelsOk(s', L, h)
    ensures forall k, j :: 0 <= k < h && 0 <= j < |L[k]| ==> Left(s', L[k][j], k) == Left(s, L[k][j], k)
  {
    var x := L[h][i];
    assert LinkAt(s, L[h], i);
    forall k | 0 <= k < h ensures SameRecords(s, s', L[k]) {
      assert LevelOk(s, L, k);
      forall j | 0 <= j < |L[k]| ensures L[k][j] in s' && s'[L[k][j]] == s[L[k][j]] {
        assert s[L[k][j]].height == k;
      }
    }
    LevelsFrame(s, s', L, h);
  }

  lemma UnlinkOk(s: Store, s': Store, L: seq<seq<BTreeNode>>, h: nat, i: nat)
    requires h < |L| && Unlinkable(s, L, h, i) && Unlinked(s, s', L[h][i])
    ensures LevelsOk(s', L[h := Without(L[h], i)], h + 1)
    ensures h == 0 ==> LeafLevel(s', Without(L[0], i)) && Entries(s', Without(L[0], i)) == Entries(s, L[0])
    ensures forall k :: 0 <= k < h ==> SameRecords(s, s', L[k])
    ensures forall k :: 0 <= k < |L[h]| && k != i ==> SameButLinks(s, s', L[h][k]) && Left(s', L[h][k], h) == Left(s, L[h][k], h)
  {
    var ns := Without(L[h], i);
    var L' := L[h := ns];
    UnlinkChain(s, s', L[h], h, i);
    UnlinkBelow(s, s', L, h, i);
    forall k | 0 <= k < h ensures LevelOk(s', L', k) {
      assert LevelOk(s', L, k);
    }
    forall k | 0 <= k < |ns| ensures SameButLinks(s, s', ns[k]) {
      assert ns[k] == L[h][if k < i then k else k + 1];
    }
    if h == 0 {
      assert EntryLists(s', ns) == Without(EntryLists(s, L[0]), i);
      FlatDrop(EntryLists(s, L[0]), i);
    } else {
      UnlinkInner(s, s', L, h, i);
    }
  }

  lemma UnlinkInner(s: Store, s': Store, L: seq<seq<BTreeNode>>, h: nat, i: nat)
    requires 0 < h < |L| && Unlinkable(s, L, h, i) && Unlinked(s, s', L[h][i])
    requires Within(s', Without(L[h], i))
    ensures Covers(s', Without(L[h], i), L[h - 1])
    ensures forall k :: 0 <= k < |L[h]| && k != i ==>
              L[h][k] in s' && InnerNode(s', L[h][k], h) && Left(s', L[h][k], h) == Left(s, L[h][k], h)
  {
    var ns := Without(L[h], i);
    UnlinkChain(s, s', L[h], h, i);
    UnlinkBelow(s, s', L, h, i);
    forall k | 0 <= k < |ns| ensures s'[ns[k]].children == s[ns[k]].children {
      var k' := if k < i then k else k + 1;
      assert ns[k] == L[h][k'];
      assert SameButLinks(s, s', L[h][k']);
    }
    assert ChildLists(s', ns) == Without(ChildLists(s, L[h]), i);
    FlatDrop(ChildLists(s, L[h]), i);
    forall k | 0 <= k < |L[h]| && k != i
      ensures L[h][k] in s' && InnerNode(s', L[h][k], h) && Left(s', L[h][k], h) == Left(s, L[h][k], h)
    {
      SameInner(s, s', L, h, k);
    }
  }

  /** An internal node keeps its shape when nothing below it changes. */
  lemma SameInner(s: Store, s': Store, L: seq<seq<BTreeNode>>, h: nat, k: nat)
    requires 0 < h < |L| && Within(s, L[h]) && Covers(s, L[h], L[h - 1]) && k < |L[h]|
    requires SameButLinks(s, s', L[h][k]) && InnerNode(s, L[h][k], h)
    requires SameRecords(s, s', L[h - 1])
    requires SameLefts(s, s', L[h - 1], h - 1)
    ensures InnerNode(s', L[h][k], h) && Left(s', L[h][k], h) == Left(s, L[h][k], h)
  {
    var cs := s[L[h][k]].children;
    forall p | 0 <= p < |cs|
      ensures cs[p] in s' && s'[cs[p]].parent == L[h][k] && Left(s', cs[p], h - 1) == Left(s, cs[p], h - 1)
    {
      var j := ChildBelow(s, L, h, k, p);
    }
    assert Separators(s', cs, h) == Separators(s, cs, h);
  }

  // ---------- What a deletion leaves behind, seen from one level ----------

  /** Only the parent p may differ above level h: it may have lost the child at position pos. */
  ghost predicate AboveKept(s: Store, s': Store, L: seq<seq<BTreeNode>>, h: nat, p: BTreeNode?, pos: int, lost: bool) {
    forall k, j :: h < k < |L| && 0 <= j < |L[k]| ==> AboveNode(s, s', L[k][j], p, pos, lost)
  }

  ghost predicate AboveNode(s: Store, s': Store, n: BTreeNode, p: BTreeNode?, pos: int, lost: bool) {
    n in s && n in s' &&
    if n == p then
      (lost ==> 0 <= pos < |s[n].children|) &&
      s'[n] == s[n].(keys := s'[n].keys, children := if lost then Without(s[n].children, pos) else s[n].children)
    else
      s'[n] == s[n]
  }

  /** The deletion has reached node i of level h.  That node, filed at position pos of its parent,
      may be gone; of the other nodes only its right neighbour may have another leftmost key. */
  ghost predicate Step(s: Store, L: seq<seq<BTreeNode>>, s': Store, L': seq<seq<BTreeNode>>, h: nat, i: nat, pos: int) {
    && h < |L| == |L'| && i < |L[h]| && L[h][i] in s
    && (forall k :: h < k < |L| ==> L'[k] == L[k])
    && LevelsOk(s', L', h + 1)
    && (L'[h] == L[h] || L'[h] == Without(L[h], i))
    && AboveKept(s, s', L, h, s[L[h][i]].parent, pos, L'[h] != L[h])
    && forall j :: 0 <= j < |L'[h]| ==> StepNode(s, s', L[h][i], L'[h][j], h)
  }

  ghost predicate StepNode(s: Store, s': Store, x: BTreeNode, n: BTreeNode, h: nat)
    requires x in s
  {
    && n in s && n in s'
    && s'[n].parent == s[n].parent
    && (n != x && n != s[x].next ==> Left(s', n, h) == Left(s, n, h))
  }

  /** fix(): the node's keys are recomputed from its children. */
  ghost predicate Fixed(s: Store, s': Store, u: BTreeNode, h: nat) {
    h > 0 && u in s && s' == s[u := s[u].(keys := Separators(s, s[u].children, h))]
  }

  /** After the child at position pos of node i has been dealt with, fix() restores level h. */
  ghost predicate FixContext(s: Store, L: seq<seq<BTreeNode>>, t: Store, L': seq<seq<BTreeNode>>, h: nat, i: nat, pos: nat, ic: nat) {
    && 0 < h < |L| && LevelsOk(s, L, |L|) && i < |L[h]| && ic < |L[h - 1]|
    && LevelOk(s, L, h) && LevelOk(s, L, h - 1)
    && 1 < |s[L[h][i]].children| && pos < |s[L[h][i]].children| && s[L[h][i]].children[pos] == L[h - 1][ic]
    && Step(s, L, t, L', h - 1, ic, pos)
  }

  lemma FixAbove(s: Store, L: seq<seq<BTreeNode>>, t: Store, L': seq<seq<BTreeNode>>, h: nat, i: nat, pos: nat, ic: nat)
    requires FixContext(s, L, t, L', h, i, pos, ic)
    ensures s[L[h - 1][ic]].parent == L[h][i]
    ensures forall k :: 0 <= k < |L[h]| ==> L[h][k] in t && (k != i ==> t[L[h][k]] == s[L[h][k]])
    ensures var cs := s[L[h][i]].children;
      t[L[h][i]].children == if L'[h - 1] != L[h - 1] then Without(cs, pos) else cs
  {
    var u := L[h][i];
    assert InnerNode(s, u, h);
    forall k | 0 <= k < |L[h]| ensures L[h][k] in t && (k != i ==> t[L[h][k]] == s[L[h][k]]) {
      if L[h][k] == u { ChainIndex(s, L[h], h, k, i); }
      assert AboveNode(s, t, L[h][k], u, pos, L'[h - 1] != L[h - 1]);
    }
    assert AboveNode(s, t, u, u, pos, L'[h - 1] != L[h - 1]);
  }

  lemma FixCovers(s: Store, L: seq<seq<BTreeNode>>, t: Store, L': seq<seq<BTreeNode>>, h: nat, i: nat, pos: nat, ic: nat)
    requires FixContext(s, L, t, L', h, i, pos, ic)
    ensures Within(t, L[h]) && Covers(t, L[h], L'[h - 1])
    ensures forall k :: 0 <= k < |L[h]| && k != i ==> t[L[h][k]] == s[L[h][k]]
  {
    FixAbove(s, L, t, L', h, i, pos, ic);
    var xss := ChildLists(s, L[h]);
    var yss: seq<seq<BTreeNode>> := ChildLists(t, L[h]);
    if L'[h - 1] == L[h - 1] {
      assert yss == xss;
    } else {
      assert yss == xss[i := Without(xss[i], pos)];
      var j := ChildBelow(s, L, h, i, pos);
      ChainIndex(s, L[h - 1], h - 1, j, ic);
      FlatWithout(xss, i, pos);
    }
  }

  lemma FlatWithout<T>(xss: seq<seq<T>>, i: nat, p: nat)
    requires i < |xss| && p < |xss[i]|
    ensures Offset(xss, i) + p < |Flat(xss)|
    ensures Flat(xss[i := Without(xss[i], p)]) == Without(Flat(xss), Offset(xss, i) + p)
  {
    FlatIndex(xss, i, p);
    FlatAround(xss, i);
    FlatUpdate(xss, i, Without(xss[i], p));
    WithoutMiddle(Flat(xss[..i]), xss[i], Flat(xss[i + 1..]), p);
  }

  lemma WithoutMiddle<T>(a: seq<T>, b: seq<T>, c: seq<T>, p: nat)
    requires p < |b|
    ensures Without(a + b + c, |a| + p) == a + Without(b, p) + c
  {
  }

  lemma FixChildKept(s: Store, L: seq<seq<BTreeNode>>, t: Store, L': seq<seq<BTreeNode>>, h: nat, i: nat, pos: nat, ic: nat, k: nat, p: nat) returns (j: nat)
    requires FixContext(s, L, t, L', h, i, pos, ic)
    requires k < |L[h]| && L[h][k] in t && p < |t[L[h][k]].children|
    ensures var c := t[L[h][k]].children[p];
      j < |L'[h - 1]| && c == L'[h - 1][j] && c in s && c in t && t[c].parent == L[h][k]
  {
    hide LevelsOk, Left, Separators, AboveKept;
    FixAbove(s, L, t, L', h, i, pos, ic);
    FixCovers(s, L, t, L', h, i, pos, ic);
    j := ChildBelow(t, L'[h := L[h]], h, k, p);
    var c := t[L[h][k]].children[p];
    assert StepNode(s, t, L[h - 1][ic], L'[h - 1][j], h - 1);
    assert InnerNode(s, L[h][k], h);
    if k == i {
      var p' := if L'[h - 1] != L[h - 1] && p >= pos then p + 1 else p;
      assert c == s[L[h][k]].children[p'];
    }
  }

  /** The child dealt with and its right neighbour are found only below node i, or as the first
      child of the next node. */
  lemma FixChildElsewhere(s: Store, L: seq<seq<BTreeNode>>, h: nat, i: nat, pos: nat, ic: nat, k: nat, p: nat)
    requires 0 < h < |L| && LevelsOk(s, L, |L|) && LevelOk(s, L, h) && LevelOk(s, L, h - 1)
    requires i < |L[h]| && ic < |L[h - 1]| && pos < |s[L[h][i]].children| && s[L[h][i]].children[pos] == L[h - 1][ic]
    requires k < |L[h]| && p < |s[L[h][k]].children| && k != i && (p > 0 || k != i + 1)
    ensures s[L[h][k]].children[p] != L[h - 1][ic]
    ensures s[L[h - 1][ic]].next != s[L[h][k]].children[p]
  {
    var c := s[L[h][k]].children[p];
    var jc := ChildBelow(s, L, h, i, pos);
    var jn := ChildBelow(s, L, h, k, p);
    ChainIndex(s, L[h - 1], h - 1, jc, ic);
    if c == L[h - 1][ic] {
      UniqueParent(s, L, h, i, pos, k, p);
    }
    if s[L[h - 1][ic]].next == c {
      assert LinkAt(s, L[h - 1], ic);
      ChainIndex(s, L[h - 1], h - 1, jn, ic + 1);
      forall m | 0 <= m < |L[h]| ensures |s[L[h][m]].children| > 0 { assert InnerNode(s, L[h][m], h); }
      NextChild(s, L, h, i, pos, k, p);
    }
  }

  /** A child other than the one dealt with and its right neighbour kept its leftmost key. */
  lemma FixChild(s: Store, L: seq<seq<BTreeNode>>, t: Store, L': seq<seq<BTreeNode>>, h: nat, i: nat, pos: nat, ic: nat, k: nat, p: nat)
    requires FixContext(s, L, t, L', h, i, pos, ic)
    requires k < |L[h]| && L[h][k] in t && p < |t[L[h][k]].children|
    requires k != i ==> t[L[h][k]] == s[L[h][k]]
    ensures var c := t[L[h][k]].children[p];
      c in t && t[c].parent == L[h][k] &&
      (k != i && (p > 0 || k != i + 1) ==> Left(t, c, h - 1) == Left(s, c, h - 1))
  {
    var j := FixChildKept(s, L, t, L', h, i, pos, ic, k, p);
    if k != i && (p > 0 || k != i + 1) {
      FixChildElsewhere(s, L, h, i, pos, ic, k, p);
      assert StepNode(s, t, L[h - 1][ic], L'[h - 1][j], h - 1);
    }
  }
}
