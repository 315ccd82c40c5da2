/** What insertion does to the levels: leaf insertion, splits, and absorbing a split below. */
module BTreeInsertion {
  import opened Flatten
  import opened BTreeStore
  import opened BTreeRebalance
  import opened BTreeSteps

  // ---------- Linking a new, empty right neighbour ----------

  ghost predicate LinkedAfter(s: Store, t: Store, x: BTreeNode, y: BTreeNode, h: nat) {
    && x in s && y !in s && y in t
    && t[y].height == h && t[y].keys == [] && t[y].values == [] && t[y].children == []
    && t[y].prev == x && t[y].next == s[x].next
    && (forall n :: n in s ==> n in t)
    && (forall n :: n in s ==> t[n] == s[n].(next := if n == x then y else s[n].next,
                                             prev := if s[x].next == n then y else s[n].prev))
  }

  lemma LinkNode(s: Store, t: Store, ns: seq<BTreeNode>, h: nat, i: nat, y: BTreeNode, k: nat)
    requires Chain(s, ns, h) && i < |ns| && LinkedAfter(s, t, ns[i], y, h) && k < |ns|
    ensures ns[k] != y && SameButLinks(s, t, ns[k])
    ensures t[ns[k]].prev == (if k == i + 1 then y else At(ns, k - 1))
    ensures t[ns[k]].next == (if k == i then y else At(ns, k + 1))
  {
    var x := ns[i];
    assert LinkAt(s, ns, i) && LinkAt(s, ns, k);
    if ns[k] == x { ChainIndex(s, ns, h, k, i); }
    if s[x].next == ns[k] { ChainIndex(s, ns, h, k, i + 1); }
  }

  lemma LinkedAt(s: Store, t: Store, ns: seq<BTreeNode>, h: nat, i: nat, y: BTreeNode, k: nat)
    requires Chain(s, ns, h) && i < |ns| && LinkedAfter(s, t, ns[i], y, h) && k <= |ns|
    ensures var ms := Inserted(ns, i + 1, y); ms[k] in t && t[ms[k]].height == h && LinkAt(t, ms, k)
  {
    if k == i + 1 {
      assert LinkAt(s, ns, i);
    } else {
      LinkNode(s, t, ns, h, i, y, if k <= i then k else k - 1);
    }
  }

  lemma LinkChain(s: Store, t: Store, ns: seq<BTreeNode>, h: nat, i: nat, y: BTreeNode)
    requires Chain(s, ns, h) && i < |ns| && LinkedAfter(s, t, ns[i], y, h)
    ensures Chain(t, Inserted(ns, i + 1, y), h)
    ensures forall k :: 0 <= k < |ns| ==> ns[k] != y && SameButLinks(s, t, ns[k])
  {
    var ms := Inserted(ns, i + 1, y);
    forall k | 0 <= k < |ns| ensures ns[k] != y && SameButLinks(s, t, ns[k]) {
      LinkNode(s, t, ns, h, i, y, k);
    }
    forall k | 0 <= k < |ms| ensures ms[k] in t && t[ms[k]].height == h && LinkAt(t, ms, k) {
      LinkedAt(s, t, ns, h, i, y, k);
    }
    hide LinkedAfter, SameButLinks, LinkAt, Inserted;
    InsertedDistinct(ns, i + 1, y);
  }

  lemma InsertedDistinct<T>(xs: seq<T>, i: nat, x: T)
    requires Distinct(xs) && i <= |xs| && forall k :: 0 <= k < |xs| ==> xs[k] != x
    ensures Distinct(Inserted(xs, i, x))
  {
    var ys := Inserted(xs, i, x);
    forall j, k | 0 <= j < k < |ys| ensures Differ(ys, j, k) {
      if j != i && k != i {
        assert Differ(xs, if j < i then j else j - 1, if k < i then k else k - 1);
      }
    }
  }

  lemma FlatInsertEmpty<T>(xss: seq<seq<T>>, i: nat)
    requires i <= |xss|
    ensures Flat(Inserted(xss, i, [])) == Flat(xss)
  {
    hide Flat;
    var a, b := xss[..i], xss[i..];
    assert a + b == xss;
    FlatAcross(a, [], b);
    assert Flat(a) + [] == Flat(a);
  }

  lemma FlatAcross<T>(a: seq<seq<T>>, x: seq<T>, b: seq<seq<T>>)
    ensures Flat(a + [x] + b) == Flat(a) + x + Flat(b)
    ensures Flat(a + b) == Flat(a) + Flat(b)
  {
    FlatConcat(a + [x], b);
    FlatConcat(a, [x]);
    FlatConcat(a, b);
    FlatOne(x);
  }

  lemma FlatOne<T>(x: seq<T>)
    ensures Flat([x]) == x
  {
    var one := [x];
    assert one[1..] == [];
  }

  lemma LinkBelow(s: Store, t: Store, L: seq<seq<BTreeNode>>, h: nat, i: nat, y: BTreeNode)
    requires h < |L| && LevelsOk(s, L, h) && Chain(s, L[h], h) && i < |L[h]| && LinkedAfter(s, t, L[h][i], y, h)
    ensures forall k :: 0 <= k < h ==> SameRecords(s, t, L[k])
    ensures LevelsOk(t, L, h)
    ensures forall k :: 0 <= k < h ==> SameLefts(s, t, L[k], k)
  {
    var x := L[h][i];
    assert LinkAt(s, L[h], i);
    forall k | 0 <= k < h ensures SameRecords(s, t, L[k]) {
      assert LevelOk(s, L, k);
      forall j | 0 <= j < |L[k]| ensures L[k][j] in t && t[L[k][j]] == s[L[k][j]] {
        assert s[L[k][j]].height == k;
      }
    }
    LevelsFrame(s, t, L, h);
  }

  lemma LinkOk(s: Store, t: Store, L: seq<seq<BTreeNode>>, h: nat, i: nat, y: BTreeNode)
    requires h < |L| && LevelsOk(s, L, h + 1) && LevelOk(s, L, h) && i < |L[h]| && LinkedAfter(s, t, L[h][i], y, h)
    ensures Recuttable(t, L[h := Inserted(L[h], i + 1, y)], h, i)
    ensures h == 0 ==> Entries(t, Inserted(L[0], i + 1, y)) == Entries(s, L[0])
    ensures forall k :: 0 <= k < |L[h]| ==> L[h][k] != y && SameButLinks(s, t, L[h][k]) && Left(t, L[h][k], h) == Left(s, L[h][k], h)
    ensures forall k :: 0 <= k < h ==> SameRecords(s, t, L[k])
  {
    var ns := Inserted(L[h], i + 1, y);
    var L' := L[h := ns];
    LinkChain(s, t, L[h], h, i, y);
    LinkBelow(s, t, L, h, i, y);
    forall k | 0 <= k < h ensures LevelOk(t, L', k) { assert LevelOk(t, L, k); }
    assert Differ(ns, i, i + 1);
    if h == 0 {
      LinkLeaves(s, t, L, i, y);
    } else {
      LinkInnerLevel(s, t, L, h, i, y);
    }
  }

  lemma LinkLeaves(s: Store, t: Store, L: seq<seq<BTreeNode>>, i: nat, y: BTreeNode)
    requires 0 < |L| && LevelOk(s, L, 0) && i < |L[0]| && LinkedAfter(s, t, L[0][i], y, 0)
    ensures var ns := Inserted(L[0], i + 1, y);
      LeafLevel(t, ns) && Entries(t, ns) == Entries(s, L[0])
    ensures forall k :: 0 <= k < |L[0]| ==> L[0][k] in t && Left(t, L[0][k], 0) == Left(s, L[0][k], 0)
  {
    var ns := Inserted(L[0], i + 1, y);
    LinkChain(s, t, L[0], 0, i, y);
    forall k | 0 <= k < |L[0]| ensures t[L[0][k]].keys == s[L[0][k]].keys && t[L[0][k]].values == s[L[0][k]].values {
      assert SameButLinks(s, t, L[0][k]);
    }
    forall k | 0 <= k < |ns| ensures ns[k] in t && |t[ns[k]].keys| == |t[ns[k]].values| {
      assert ns[k] == y || ns[k] == L[0][if k <= i then k else k - 1];
    }
    assert EntryLists(t, ns) == Inserted(EntryLists(s, L[0]), i + 1, []);
    FlatInsertEmpty(EntryLists(s, L[0]), i + 1);
  }

  lemma LinkInnerLevel(s: Store, t: Store, L: seq<seq<BTreeNode>>, h: nat, i: nat, y: BTreeNode)
    requires 0 < h < |L| && LevelsOk(s, L, h + 1) && LevelOk(s, L, h) && i < |L[h]| && LinkedAfter(s, t, L[h][i], y, h)
    ensures Covers(t, Inserted(L[h], i + 1, y), L[h - 1])
    ensures forall k :: 0 <= k < |L[h]| ==> L[h][k] in t && InnerNode(t, L[h][k], h) && Left(t, L[h][k], h) == Left(s, L[h][k], h)
  {
    LinkChain(s, t, L[h], h, i, y);
    LinkBelow(s, t, L, h, i, y);
    hide Left, Entries, Flat, Inserted, SameLefts, ChildLists;
    forall k | 0 <= k < |L[h]|
      ensures t[L[h][k]].children == s[L[h][k]].children
      ensures InnerNode(t, L[h][k], h) && Left(t, L[h][k], h) == Left(s, L[h][k], h)
    {
      assert SameButLinks(s, t, L[h][k]);
      assert SameLefts(s, t, L[h - 1], h - 1);
      SameInner(s, t, L, h, k);
    }
    EmptyHasNoChildren(s, t, L[h], i + 1, y);
  }

  lemma EmptyHasNoChildren(s: Store, t: Store, ns: seq<BTreeNode>, i: nat, y: BTreeNode)
    requires i <= |ns| && y in t && t[y].children == []
    requires forall k :: 0 <= k < |ns| ==> ns[k] in s && ns[k] in t && t[ns[k]].children == s[ns[k]].children
    ensures Flat(ChildLists(t, Inserted(ns, i, y))) == Flat(ChildLists(s, ns))
  {
    hide Flat;
    assert ChildLists(t, Inserted(ns, i, y)) == Inserted(ChildLists(s, ns), i, []);
    FlatInsertEmpty(ChildLists(s, ns), i);
  }

  // ---------- What an insertion leaves behind, seen from one level ----------

  /** The insertion has reached node i of level h and returned r: that node itself, or a new node
      of height h + 1 over that node and its new right neighbour. */
  ghost predicate Grew(s: Store, L: seq<seq<BTreeNode>>, s': Store, L': seq<seq<BTreeNode>>, h: nat, i: nat, r: BTreeNode) {
    && h < |L| == |L'| && i < |L[h]| && L[h][i] in s
    && (forall k :: h < k < |L| ==> L'[k] == L[k] && SameRecords(s, s', L[k]))
    && (forall n :: n in s ==> n in s')
    && LevelsOk(s', L', h + 1)
    && (forall j :: 0 <= j < |L[h]| ==> GrewNode(s, s', L[h][i], L[h][j], h, r))
    && (if r == L[h][i] then L'[h] == L[h] else GrewSplit(s, L, s', L', h, i, r))
  }

  ghost predicate GrewNode(s: Store, s': Store, x: BTreeNode, n: BTreeNode, h: nat, r: BTreeNode)
    requires x in s
  {
    && n in s && n in s'
    && s'[n].parent == (if n == x && r != x then r else s[n].parent)
    && (n != x || s[x].prev != null ==> Left(s', n, h) == Left(s, n, h))
  }

  ghost predicate GrewSplit(s: Store, L: seq<seq<BTreeNode>>, s': Store, L': seq<seq<BTreeNode>>, h: nat, i: nat, r: BTreeNode)
    requires h < |L| == |L'| && i < |L[h]| && L[h][i] in s
  {
    && r !in s && r in s' && |s'[r].children| == 2
    && var y := s'[r].children[1];
    && y !in s && y in s' && y != r
    && s'[r] == Rec(h + 1, [Left(s', y, h)], [], [L[h][i], y], s[L[h][i]].parent, null, null)
    && s'[y].parent == r
    && L'[h] == Inserted(L[h], i + 1, y)
  }

  lemma GrewTrans(s: Store, L: seq<seq<BTreeNode>>, t: Store, L': seq<seq<BTreeNode>>, u: Store, L'': seq<seq<BTreeNode>>, h: nat, i: nat, r: BTreeNode)
    requires h < |L| && i < |L[h]| && Grew(s, L, t, L', h, i, L[h][i]) && Grew(t, L', u, L'', h, i, r)
    requires Chain(s, L[h], h)
    ensures Grew(s, L, u, L'', h, i, r)
  {
    var x := L[h][i];
    assert LevelOk(t, L', h);
    assert LinkAt(s, L[h], i) && LinkAt(t, L'[h], i);
    forall j | 0 <= j < |L[h]| ensures GrewNode(s, u, x, L[h][j], h, r) {
      assert GrewNode(s, t, x, L[h][j], h, x) && GrewNode(t, u, x, L'[h][j], h, r);
    }
    forall k | h < k < |L| ensures SameRecords(s, u, L[k]) {
      assert SameRecords(s, t, L[k]) && SameRecords(t, u, L'[k]);
    }
  }

  // ---------- Splitting ----------

  /** The new node r sits over x and y, which have become its children. */
  ghost predicate Crowned(t: Store, u: Store, x: BTreeNode, y: BTreeNode, r: BTreeNode, h: nat, key: Key) {
    && x in t && y in t && r !in t && x != y && r in u
    && u[r] == Rec(h + 1, [key], [], [x, y], t[x].parent, null, null)
    && (forall n :: n in t ==> n in u)
    && (forall n :: n in t ==> u[n] == t[n].(parent := if n == x || n == y then r else t[n].parent))
  }

  /** Node i hands over everything from position q on to its new right neighbour y. */
  ghost predicate Halved(s: Store, t: Store, t': Store, L: seq<seq<BTreeNode>>, h: nat, i: nat, y: BTreeNode, q: nat)
    requires h < |L|
  {
    && LevelsOk(s, L, h + 1) && LevelOk(s, L, h) && i < |L[h]|
    && LinkedAfter(s, t, L[h][i], y, h) && Recut(t, t', L[h][i], y, q, h)
    && t'[L[h][i]].keys != [] && t'[y].keys != []
  }

  lemma HalvedLeaves(s: Store, t: Store, t': Store, L: seq<seq<BTreeNode>>, i: nat, y: BTreeNode, q: nat)
    requires 0 < |L| && Halved(s, t, t', L, 0, i, y, q)
    ensures LevelsOk(t', L[0 := Inserted(L[0], i + 1, y)], 1)
    ensures Entries(t', Inserted(L[0], i + 1, y)) == Entries(s, L[0])
    ensures forall k :: 0 <= k < |L[0]| ==> L[0][k] in t' && t'[L[0][k]].parent == s[L[0][k]].parent && Left(t', L[0][k], 0) == Left(s, L[0][k], 0)
    ensures forall k :: 0 <= k < |L[0]| && k != i ==> t'[L[0][k]].keys == s[L[0][k]].keys
  {
    LinkOk(s, t, L, 0, i, y);
    RecutLeavesOk(t, t', L[0 := Inserted(L[0], i + 1, y)], i, q);
    forall k | 0 <= k < |L[0]|
      ensures SameButLinks(s, t, L[0][k]) && L[0][k] in t' && (k != i ==> t'[L[0][k]] == t[L[0][k]])
    {
      if k != i && L[0][k] == L[0][i] { ChainIndex(s, L[0], 0, k, i); }
    }
    assert t[y].keys == [] && t'[L[0][i]].keys[0] == t[L[0][i]].keys[0];
  }

  lemma HalvedInner(s: Store, t: Store, t': Store, L: seq<seq<BTreeNode>>, h: nat, i: nat, y: BTreeNode, q: nat)
    requires 0 < h < |L| && Halved(s, t, t', L, h, i, y, q)
    ensures LevelsOk(t', L[h := Inserted(L[h], i + 1, y)], h + 1)
    ensures forall k :: 0 <= k < |L[h]| ==> L[h][k] in t' && t'[L[h][k]].parent == s[L[h][k]].parent && Left(t', L[h][k], h) == Left(s, L[h][k], h)
    ensures forall k :: 0 <= k < |L[h]| && k != i ==> t'[L[h][k]].keys == s[L[h][k]].keys
    ensures forall k :: 0 <= k < h ==> SameButParents(s, t', L[k])
  {
    var ns := Inserted(L[h], i + 1, y);
    var L' := L[h := ns];
    LinkOk(s, t, L, h, i, y);
    LinkInnerLevel(s, t, L, h, i, y);
    RecutInnerOk(t, t', L', h, i, q);
    RecutInnerBelow(t, t', L', h, i, q);
    HalvedWhole(s, t, t', L, h, i, y, q);
    assert LevelOk(t', L', h);
    HalvedLeft(s, t, t', L, h, i, y, q);
    forall k | 0 <= k < |L[h]|
      ensures L[h][k] in t' && t'[L[h][k]].parent == s[L[h][k]].parent && Left(t', L[h][k], h) == Left(s, L[h][k], h)
      ensures k != i ==> t'[L[h][k]].keys == s[L[h][k]].keys
    {
      assert ns[if k <= i then k else k + 1] == L[h][k];
      assert SameButLinks(s, t, L[h][k]);
    }
    forall k | 0 <= k < h ensures SameButParents(s, t', L[k]) {
      assert SameRecords(s, t, L[k]) && SameButParents(t, t', L'[k]);
      forall m | 0 <= m < |L[k]| ensures SameButParent(s, t', L[k][m]) { assert SameButParent(t, t', L[k][m]); }
    }
  }

  lemma HalvedWhole(s: Store, t: Store, t': Store, L: seq<seq<BTreeNode>>, h: nat, i: nat, y: BTreeNode, q: nat)
    requires 0 < h < |L| && Halved(s, t, t', L, h, i, y, q)
    requires var ns := Inserted(L[h], i + 1, y);
      && (forall k :: 0 <= k < |ns| ==> ns[k] in t')
      && (forall k :: 0 <= k < |ns| && t'[ns[k]].children != [] ==> InnerNode(t', ns[k], h))
      && (forall k :: 0 <= k < |ns| && k != i && k != i + 1 ==> t'[ns[k]].children != [])
    ensures var ns := Inserted(L[h], i + 1, y);
      forall k :: 0 <= k < |ns| ==> InnerNode(t', ns[k], h)
  {
    var ns := Inserted(L[h], i + 1, y);
    assert ns[i] == L[h][i] && ns[i + 1] == y;
    forall k | 0 <= k < |ns| ensures InnerNode(t', ns[k], h) {
      assert t'[ns[k]].children != [];
    }
  }

  lemma HalvedLeft(s: Store, t: Store, t': Store, L: seq<seq<BTreeNode>>, h: nat, i: nat, y: BTreeNode, q: nat)
    requires 0 < h < |L| && Halved(s, t, t', L, h, i, y, q)
    requires Recuttable(t, L[h := Inserted(L[h], i + 1, y)], h, i)
    requires L[h][i] in t && InnerNode(t, L[h][i], h)
    ensures Left(t', L[h][i], h) == Left(t, L[h][i], h)
  {
    var L' := L[h := Inserted(L[h], i + 1, y)];
    assert L'[h][i] == L[h][i] && L'[h][i + 1] == y;
    RecutChild(t, t', L', h, i, q, i, 0);
    assert t'[L[h][i]].children[0] == t[L[h][i]].children[0];
  }

  /** splitLeaf and splitInternal, as one insertion step. */
  lemma SplitStep(s: Store, t: Store, t': Store, u: Store, L: seq<seq<BTreeNode>>, h: nat, i: nat, y: BTreeNode, r: BTreeNode, q: nat)
    requires h < |L| && Halved(s, t, t', L, h, i, y, q) && Tall(s, L, h)
    requires r !in s && Crowned(t', u, L[h][i], y, r, h, Left(t', y, h))
    ensures Grew(s, L, u, L[h := Inserted(L[h], i + 1, y)], h, i, r)
    ensures h == 0 ==> Entries(u, Inserted(L[0], i + 1, y)) == Entries(s, L[0])
    ensures forall k :: 0 <= k < h ==> SameButParents(s, u, L[k])
    ensures forall k :: 0 <= k < |L[h]| && k != i ==> u[L[h][k]].keys == s[L[h][k]].keys
  {
    hide Left, Recut, Tall, EntryLists, Chain, Covers, LeafLevel, LinkedAfter;
    assert Chain(s, L[h], h) by { ChainOf(s, L, h); }
    var x := L[h][i];
    var L' := L[h := Inserted(L[h], i + 1, y)];
    if h == 0 { HalvedLeaves(s, t, t', L, i, y, q); } else { HalvedInner(s, t, t', L, h, i, y, q); }
    CrownFrame(t', u, L', h, i, y, r);
    SplitAbove(s, t, t', u, L, h, i, y, r, q);
    assert L'[h][i + 1] == y;
    SplitNodes(s, t', u, L, h, i, y, r);
    assert Left(u, y, h) == Left(t', y, h);
    assert GrewSplit(s, L, u, L', h, i, r);
    forall k | 0 <= k < h ensures SameButParents(s, u, L[k]) {
      assert SameButParents(s, t', L[k]) && SameRecords(t', u, L'[k]);
      forall m | 0 <= m < |L[k]| ensures SameButParent(s, u, L[k][m]) { assert SameButParent(s, t', L[k][m]); }
    }
  }

  lemma ChainOf(s: Store, L: seq<seq<BTreeNode>>, h: nat)
    requires h < |L| && LevelOk(s, L, h)
    ensures Chain(s, L[h], h)
  {
  }

  lemma SplitNodes(s: Store, t: Store, u: Store, L: seq<seq<BTreeNode>>, h: nat, i: nat, y: BTreeNode, r: BTreeNode)
    requires h < |L| && i < |L[h]| && Chain(s, L[h], h) && y !in s && r !in s && y in t
    requires Crowned(t, u, L[h][i], y, r, h, Left(t, y, h))
    requires SameButParents(t, u, Inserted(L[h], i + 1, y)) && SameLefts(t, u, Inserted(L[h], i + 1, y), h)
    requires forall k :: 0 <= k < |L[h]| ==> L[h][k] in t && t[L[h][k]].parent == s[L[h][k]].parent && Left(t, L[h][k], h) == Left(s, L[h][k], h)
    ensures forall k :: 0 <= k < |L[h]| ==> GrewNode(s, u, L[h][i], L[h][k], h, r) && u[L[h][k]].keys == t[L[h][k]].keys
  {
    forall k | 0 <= k < |L[h]| ensures GrewNode(s, u, L[h][i], L[h][k], h, r) && u[L[h][k]].keys == t[L[h][k]].keys {
      assert Inserted(L[h], i + 1, y)[if k <= i then k else k + 1] == L[h][k];
      if k != i && L[h][k] == L[h][i] { ChainIndex(s, L[h], h, k, i); }
    }
  }

  /** Giving x and y of level h a new parent leaves levels up to h intact. */
  lemma CrownFrame(t: Store, u: Store, L: seq<seq<BTreeNode>>, h: nat, i: nat, y: BTreeNode, r: BTreeNode)
    requires h < |L| && LevelsOk(t, L, h + 1) && LevelOk(t, L, h) && i + 1 < |L[h]| && L[h][i + 1] == y
    requires Crowned(t, u, L[h][i], y, r, h, Left(t, y, h))
    ensures LevelsOk(u, L, h + 1) && Entries(u, L[0]) == Entries(t, L[0])
    ensures forall k :: 0 <= k < h ==> SameRecords(t, u, L[k])
    ensures SameButParents(t, u, L[h]) && SameLefts(t, u, L[h], h)
  {
    assert t[L[h][i]].height == h && t[y].height == h;
    forall k | 0 <= k < h ensures SameRecords(t, u, L[k]) {
      assert LevelOk(t, L, k);
      forall m | 0 <= m < |L[k]| ensures L[k][m] in u && u[L[k][m]] == t[L[k][m]] {
        assert t[L[k][m]].height == k;
      }
    }
    forall m | 0 <= m < |L[h]| ensures SameButParent(t, u, L[h][m]) {
    }
    LevelFrame(t, u, L, h);
    LevelsFrame(t, u, L, h);
    assert LevelOk(t, L, 0);
    assert h > 0 ==> SameRecords(t, u, L[0]);
    SameEntries(t, u, L[0]);
  }

  lemma SplitAbove(s: Store, t: Store, t': Store, u: Store, L: seq<seq<BTreeNode>>, h: nat, i: nat, y: BTreeNode, r: BTreeNode, q: nat)
    requires h < |L| && Halved(s, t, t', L, h, i, y, q) && Tall(s, L, h)
    requires r !in s && Crowned(t', u, L[h][i], y, r, h, Left(t', y, h))
    ensures forall k :: h < k < |L| ==> SameRecords(s, u, L[k])
    ensures forall n :: n in s ==> n in u
    ensures y !in s && y in u && y != r
  {
    LinkOk(s, t, L, h, i, y);
    var L' := L[h := Inserted(L[h], i + 1, y)];
    if h > 0 { DistinctKids(t, L', h, i); }
    assert LinkAt(s, L[h], i);
    forall k | h < k < |L| ensures SameRecords(s, u, L[k]) {
      forall m | 0 <= m < |L[k]| ensures L[k][m] in u && u[L[k][m]] == s[L[k][m]] {
        assert s[L[k][m]].height == k;
        assert t[L[k][m]] == s[L[k][m]];
      }
    }
  }

  // ---------- Inserting into a leaf ----------

  ghost predicate LeafChanged(s: Store, s': Store, x: BTreeNode, keys: seq<Key>, values: seq<seq<RowId>>) {
    x in s && s' == s[x := s[x].(keys := keys, values := values)]
  }

  /** A leaf gets other entries, keeping its first key unless it is the first leaf. */
  lemma LeafStep(s: Store, s': Store, L: seq<seq<BTreeNode>>, i: nat, keys: seq<Key>, values: seq<seq<RowId>>)
    requires 0 < |L| && LevelsOk(s, L, |L|) && LevelOk(s, L, 0) && i < |L[0]|
    requires LeafChanged(s, s', L[0][i], keys, values) && |keys| == |values|
    requires s[L[0][i]].prev != null ==> keys != [] && s[L[0][i]].keys != [] && keys[0] == s[L[0][i]].keys[0]
    ensures Grew(s, L, s', L, 0, i, L[0][i])
    ensures Entries(s', L[0]) == Flat(EntryLists(s, L[0])[..i]) + LeafEntries(s'[L[0][i]]) + Flat(EntryLists(s, L[0])[i + 1..])
    ensures forall k :: 0 <= k < |L[0]| && k != i ==> s'[L[0][k]] == s[L[0][k]]
  {
    var x := L[0][i];
    forall k | 0 <= k < |L[0]| && k != i ensures L[0][k] != x {
      if L[0][k] == x { ChainIndex(s, L[0], 0, k, i); }
    }
    ChainFrame(s, s', L[0], 0);
    assert LevelOk(s', L, 0);
    forall k | 0 < k < |L| ensures SameRecords(s, s', L[k]) {
      assert LevelOk(s, L, k);
      forall m | 0 <= m < |L[k]| ensures L[k][m] != x { assert s[L[k][m]].height == k; }
    }
    forall k | 0 <= k < |L[0]| ensures GrewNode(s, s', x, L[0][k], 0, x) {
    }
    assert EntryLists(s', L[0]) == EntryLists(s, L[0])[i := LeafEntries(s'[x])];
    FlatUpdate(EntryLists(s, L[0]), i, LeafEntries(s'[x]));
  }

  // ---------- The parent, after its child returned ----------

  ghost predicate GrowContext(s: Store, L: seq<seq<BTreeNode>>, t: Store, L': seq<seq<BTreeNode>>, h: nat, i: nat, pos: nat, ic: nat, r: BTreeNode) {
    && 0 < h < |L| && LevelsOk(s, L, |L|) && i < |L[h]| && ic < |L[h - 1]|
    && LevelOk(s, L, h) && LevelOk(s, L, h - 1)
    && pos < |s[L[h][i]].children| && s[L[h][i]].children[pos] == L[h - 1][ic]
    && Grew(s, L, t, L', h - 1, ic, r)
  }

  /** Every child except one that is first in its level keeps its leftmost key. */
  lemma GrowChild(s: Store, L: seq<seq<BTreeNode>>, t: Store, L': seq<seq<BTreeNode>>, h: nat, i: nat, pos: nat, ic: nat, r: BTreeNode, k: nat, p: nat)
    requires GrowContext(s, L, t, L', h, i, pos, ic, r)
    requires k < |L[h]| && p < |s[L[h][k]].children|
    ensures var c := s[L[h][k]].children[p];
      && c in t && (k > 0 || p > 0 || k != i ==> Left(t, c, h - 1) == Left(s, c, h - 1))
      && t[c].parent == (if r != L[h - 1][ic] && k == i && p == pos then r else L[h][k])
  {
    var c := s[L[h][k]].children[p];
    var x := L[h - 1][ic];
    var j := ChildBelow(s, L, h, k, p);
    assert GrewNode(s, t, x, L[h - 1][j], h - 1, r);
    assert InnerNode(s, L[h][k], h);
    if c == x { UniqueParent(s, L, h, i, pos, k, p); }
    if c == x && (k > 0 || p > 0) {
      var xss := ChildLists(s, L[h]);
      if k > 0 {
        assert InnerNode(s, L[h][0], h);
        OffsetStep(xss, 0);
        OffsetMonotone(xss, 1, k);
      }
      assert LinkAt(s, L[h - 1], j);
    }
  }

  /** The child did not split: level h stands as it was. */
  lemma PassStep(s: Store, L: seq<seq<BTreeNode>>, t: Store, L': seq<seq<BTreeNode>>, h: nat, i: nat, pos: nat, ic: nat)
    requires 0 < h <= |L| && ic < |L[h - 1]| && GrowContext(s, L, t, L', h, i, pos, ic, L[h - 1][ic])
    ensures Grew(s, L, t, L', h, i, L[h][i])
  {
    var x := L[h - 1][ic];
    assert SameRecords(s, t, L[h]);
    forall k | 0 <= k < |L[h]|
      ensures InnerNode(t, L[h][k], h) && GrewNode(s, t, L[h][i], L[h][k], h, L[h][i])
    {
      PassNode(s, L, t, L', h, i, pos, ic, k);
    }
    ChainFrame(s, t, L[h], h);
    assert ChildLists(t, L[h]) == ChildLists(s, L[h]);
    assert LevelOk(t, L', h);
  }

  lemma PassNode(s: Store, L: seq<seq<BTreeNode>>, t: Store, L': seq<seq<BTreeNode>>, h: nat, i: nat, pos: nat, ic: nat, k: nat)
    requires 0 < h <= |L| && ic < |L[h - 1]| && GrowContext(s, L, t, L', h, i, pos, ic, L[h - 1][ic]) && k < |L[h]|
    ensures L[h][k] in t && InnerNode(t, L[h][k], h) && GrewNode(s, t, L[h][i], L[h][k], h, L[h][i])
  {
    var n := L[h][k];
    assert SameRecords(s, t, L[h]);
    assert InnerNode(s, n, h);
    var cs := s[n].children;
    forall p | 0 <= p < |cs|
      ensures cs[p] in t && t[cs[p]].parent == n && (k > 0 || p > 0 || k != i ==> Left(t, cs[p], h - 1) == Left(s, cs[p], h - 1))
    {
      GrowChild(s, L, t, L', h, i, pos, ic, L[h - 1][ic], k, p);
    }
    assert Separators(t, cs, h) == Separators(s, cs, h);
    assert LinkAt(s, L[h], k);
  }

  /** The parent takes the two halves of a split child in place of the child. */
  ghost predicate Absorbed(t: Store, u: Store, p: BTreeNode, pos: nat, r: BTreeNode) {
    && p in t && r in t && |t[r].children| == 2 && |t[r].keys| == 1
    && pos < |t[p].children| && pos <= |t[p].keys|
    && t[r].children[0] in t && t[r].children[1] in t && t[r].children[0] != p && t[r].children[1] != p && r != p
    && p in u && u[p] == t[p].(keys := Inserted(t[p].keys, pos, t[r].keys[0]),
                               children := Inserted(t[p].children[pos := t[r].children[0]], pos + 1, t[r].children[1]))
    && (forall n :: n in t ==> n in u)
    && (forall n :: n in t && n != p ==>
          u[n] == t[n].(parent := if n == t[r].children[0] || n == t[r].children[1] then p else t[n].parent))
  }

  lemma AbsorbStep(s: Store, L: seq<seq<BTreeNode>>, t: Store, L': seq<seq<BTreeNode>>, u: Store, h: nat, i: nat, pos: nat, ic: nat, r: BTreeNode)
    requires GrowContext(s, L, t, L', h, i, pos, ic, r) && r != L[h - 1][ic]
    requires Absorbed(t, u, L[h][i], pos, r)
    ensures Grew(s, L, u, L', h, i, L[h][i])
    ensures Entries(u, L'[0]) == Entries(t, L'[0])
    ensures forall k :: 0 <= k < h ==> SameButParents(t, u, L'[k])
    ensures forall k :: 0 <= k < |L[h]| && k != i ==> u[L[h][k]] == s[L[h][k]]
  {
    AbsorbBelow(s, L, t, L', u, h, i, pos, ic, r);
    AbsorbKeeps(s, L, t, L', u, h, i, pos, ic, r);
    AbsorbAbove(s, L, t, L', u, h, i, pos, ic, r);
    forall k | 0 <= k < |L[h]|
      ensures InnerNode(u, L[h][k], h) && GrewNode(s, u, L[h][i], L[h][k], h, L[h][i])
    {
      AbsorbNode(s, L, t, L', u, h, i, pos, ic, r, k);
    }
    AbsorbCovers(s, L, t, L', u, h, i, pos, ic, r);
    assert LevelOk(u, L', h);
  }

  lemma AbsorbAbove(s: Store, L: seq<seq<BTreeNode>>, t: Store, L': seq<seq<BTreeNode>>, u: Store, h: nat, i: nat, pos: nat, ic: nat, r: BTreeNode)
    requires GrowContext(s, L, t, L', h, i, pos, ic, r) && r != L[h - 1][ic]
    requires Absorbed(t, u, L[h][i], pos, r)
    ensures Chain(u, L[h], h)
    ensures forall k :: 0 <= k < |L[h]| && k != i ==> u[L[h][k]] == s[L[h][k]]
    ensures forall k :: h < k < |L| ==> SameRecords(s, u, L[k])
  {
    var p, x, y := L[h][i], t[r].children[0], t[r].children[1];
    assert LevelOk(t, L', h - 1);
    assert L'[h - 1][ic + 1] == y && L'[h - 1][ic] == x;
    assert t[x].height == h - 1 && t[y].height == h - 1;
    forall k | h <= k < |L|
      ensures forall m :: 0 <= m < |L[k]| && L[k][m] != p ==> L[k][m] in u && u[L[k][m]] == s[L[k][m]]
    {
      assert LevelOk(s, L, k);
      assert SameRecords(s, t, L[k]);
      forall m | 0 <= m < |L[k]| && L[k][m] != p ensures L[k][m] in u && u[L[k][m]] == s[L[k][m]] {
        assert s[L[k][m]].height == k;
      }
    }
    forall k | 0 <= k < |L[h]| && k != i ensures L[h][k] != p {
      if L[h][k] == p { ChainIndex(s, L[h], h, k, i); }
    }
    assert SameRecords(s, t, L[h]);
    ChainFrame(s, u, L[h], h);
    forall k | h < k < |L| ensures SameRecords(s, u, L[k]) {
      assert LevelOk(s, L, k);
      forall m | 0 <= m < |L[k]| ensures L[k][m] != p { assert s[L[k][m]].height == k && s[p].height == h; }
    }
  }

  lemma AbsorbBelow(s: Store, L: seq<seq<BTreeNode>>, t: Store, L': seq<seq<BTreeNode>>, u: Store, h: nat, i: nat, pos: nat, ic: nat, r: BTreeNode)
    requires GrowContext(s, L, t, L', h, i, pos, ic, r) && r != L[h - 1][ic]
    requires Absorbed(t, u, L[h][i], pos, r)
    ensures LevelsOk(u, L', h) && Entries(u, L'[0]) == Entries(t, L'[0])
    ensures forall k :: 0 <= k < h ==> SameButParents(t, u, L'[k]) && SameLefts(t, u, L'[k], k)
  {
    AbsorbKeeps(s, L, t, L', u, h, i, pos, ic, r);
    forall k | 0 <= k < h ensures LevelOk(u, L', k) && SameLefts(t, u, L'[k], k) {
      LevelFrame(t, u, L', k);
    }
    SameEntries(t, u, L'[0]);
  }

  lemma AbsorbKeeps(s: Store, L: seq<seq<BTreeNode>>, t: Store, L': seq<seq<BTreeNode>>, u: Store, h: nat, i: nat, pos: nat, ic: nat, r: BTreeNode)
    requires GrowContext(s, L, t, L', h, i, pos, ic, r) && r != L[h - 1][ic]
    requires Absorbed(t, u, L[h][i], pos, r)
    ensures forall k :: 0 <= k < h ==> SameButParents(t, u, L'[k]) && (k < h - 1 ==> SameRecords(t, u, L'[k]))
  {
    var p := L[h][i];
    assert SameRecords(s, t, L[h]);
    assert LevelOk(t, L', h - 1);
    assert L'[h - 1][ic + 1] == t[r].children[1] && L'[h - 1][ic] == t[r].children[0];
    forall k | 0 <= k < h ensures SameButParents(t, u, L'[k]) && (k < h - 1 ==> SameRecords(t, u, L'[k])) {
      assert LevelOk(t, L', k);
      forall m | 0 <= m < |L'[k]| ensures SameButParent(t, u, L'[k][m]) && (k < h - 1 ==> u[L'[k][m]] == t[L'[k][m]]) {
        assert t[L'[k][m]].height == k && t[p].height == h;
      }
    }
  }

  lemma AbsorbCovers(s: Store, L: seq<seq<BTreeNode>>, t: Store, L': seq<seq<BTreeNode>>, u: Store, h: nat, i: nat, pos: nat, ic: nat, r: BTreeNode)
    requires GrowContext(s, L, t, L', h, i, pos, ic, r) && r != L[h - 1][ic]
    requires Absorbed(t, u, L[h][i], pos, r)
    requires Within(u, L[h]) && forall k :: 0 <= k < |L[h]| && k != i ==> u[L[h][k]] == s[L[h][k]]
    ensures Covers(u, L[h], L'[h - 1])
  {
    var y := t[r].children[1];
    AbsorbLists(s, L, t, L', u, h, i, pos, ic, r);
    hide Flat, Offset, Inserted, ChildLists, Absorbed;
    var xss := ChildLists(s, L[h]);
    var j := ChildBelow(s, L, h, i, pos);
    ChainIndex(s, L[h - 1], h - 1, j, ic);
    FlatInsertAt(xss, i, pos + 1, y);
  }

  lemma AbsorbLists(s: Store, L: seq<seq<BTreeNode>>, t: Store, L': seq<seq<BTreeNode>>, u: Store, h: nat, i: nat, pos: nat, ic: nat, r: BTreeNode)
    requires GrowContext(s, L, t, L', h, i, pos, ic, r) && r != L[h - 1][ic]
    requires Absorbed(t, u, L[h][i], pos, r)
    requires Within(u, L[h]) && forall k :: 0 <= k < |L[h]| && k != i ==> u[L[h][k]] == s[L[h][k]]
    ensures var xss := ChildLists(s, L[h]);
      |xss| == |L[h]| && pos < |xss[i]| && ChildLists(u, L[h]) == xss[i := Inserted(xss[i], pos + 1, t[r].children[1])]
    ensures h - 1 < |L'| && L'[h - 1] == Inserted(L[h - 1], ic + 1, t[r].children[1])
  {
    assert SameRecords(s, t, L[h]);
    var xss := ChildLists(s, L[h]);
    var v := Inserted(xss[i], pos + 1, t[r].children[1]);
    assert u[L[h][i]].children == v;
    assert ChildLists(u, L[h]) == xss[i := v];
  }

  lemma FlatInsertAt<T>(xss: seq<seq<T>>, i: nat, p: nat, y: T)
    requires i < |xss| && p <= |xss[i]|
    ensures Offset(xss, i) + p <= |Flat(xss)|
    ensures Flat(xss[i := Inserted(xss[i], p, y)]) == Inserted(Flat(xss), Offset(xss, i) + p, y)
  {
    FlatAround(xss, i);
    FlatUpdate(xss, i, Inserted(xss[i], p, y));
    InsertedMiddle(Flat(xss[..i]), xss[i], Flat(xss[i + 1..]), p, y);
  }

  lemma InsertedMiddle<T>(a: seq<T>, b: seq<T>, c: seq<T>, p: nat, x: T)
    requires p <= |b|
    ensures Inserted(a + b + c, |a| + p, x) == a + Inserted(b, p, x) + c
  {
  }

  lemma AbsorbNode(s: Store, L: seq<seq<BTreeNode>>, t: Store, L': seq<seq<BTreeNode>>, u: Store, h: nat, i: nat, pos: nat, ic: nat, r: BTreeNode, k: nat)
    requires GrowContext(s, L, t, L', h, i, pos, ic, r) && r != L[h - 1][ic]
    requires Absorbed(t, u, L[h][i], pos, r)
    requires k < |L[h]| && L[h][k] in u && (k != i ==> u[L[h][k]] == s[L[h][k]])
    ensures InnerNode(u, L[h][k], h) && GrewNode(s, u, L[h][i], L[h][k], h, L[h][i])
  {
    var n := L[h][k];
    assert SameRecords(s, t, L[h]);
    assert InnerNode(s, n, h);
    var cs := s[n].children;
    forall q | 0 <= q < |cs|
      ensures cs[q] in u && u[cs[q]].parent == n && (k > 0 || q > 0 || k != i ==> Left(u, cs[q], h - 1) == Left(s, cs[q], h - 1))
    {
      AbsorbChild(s, L, t, L', u, h, i, pos, ic, r, k, q);
    }
    assert LinkAt(s, L[h], k);
    if k != i {
      assert Separators(u, cs, h) == Separators(s, cs, h);
    } else {
      AbsorbBelow(s, L, t, L', u, h, i, pos, ic, r);
      var y := t[r].children[1];
      assert L'[h - 1][ic + 1] == y;
      assert u[y].parent == n && Left(u, y, h - 1) == t[r].keys[0];
      AbsorbOwner(s, u, n, h, pos, y);
    }
  }

  lemma AbsorbOwner(s: Store, u: Store, n: BTreeNode, h: nat, pos: nat, y: BTreeNode)
    requires n in s && n in u && h > 0 && InnerNode(s, n, h) && pos < |s[n].children| && y in u && u[y].parent == n
    requires forall q :: 0 <= q < |s[n].children| ==>
      s[n].children[q] in u && u[s[n].children[q]].parent == n && (q > 0 ==> Left(u, s[n].children[q], h - 1) == Left(s, s[n].children[q], h - 1))
    requires u[n].children == Inserted(s[n].children, pos + 1, y) && u[n].keys == Inserted(s[n].keys, pos, Left(u, y, h - 1))
    ensures InnerNode(u, n, h)
  {
    var cs, ds := s[n].children, u[n].children;
    InsertedItems(cs, pos + 1, y);
    InsertedItems(s[n].keys, pos, Left(u, y, h - 1));
    hide Left, Inserted;
    forall q | 0 <= q < |ds| ensures ds[q] in u && u[ds[q]].parent == n {
    }
    forall q | 0 <= q < |ds| - 1 ensures u[n].keys[q] == Left(u, ds[q + 1], h - 1) {
      if q != pos {
        var q' := if q < pos then q else q - 1;
        assert ds[q + 1] == cs[q' + 1] && u[n].keys[q] == s[n].keys[q'];
      }
    }
  }

  lemma InsertedItems<T>(xs: seq<T>, p: nat, x: T)
    requires p <= |xs|
    ensures |Inserted(xs, p, x)| == |xs| + 1 && Inserted(xs, p, x)[p] == x
    ensures forall q :: 0 <= q < p ==> Inserted(xs, p, x)[q] == xs[q]
    ensures forall q :: p < q <= |xs| ==> Inserted(xs, p, x)[q] == xs[q - 1]
  {
  }

  lemma AbsorbChild(s: Store, L: seq<seq<BTreeNode>>, t: Store, L': seq<seq<BTreeNode>>, u: Store, h: nat, i: nat, pos: nat, ic: nat, r: BTreeNode, k: nat, q: nat)
    requires GrowContext(s, L, t, L', h, i, pos, ic, r) && r != L[h - 1][ic]
    requires Absorbed(t, u, L[h][i], pos, r)
    requires k < |L[h]| && q < |s[L[h][k]].children|
    ensures var c := s[L[h][k]].children[q];
      c in u && u[c].parent == L[h][k] && (k > 0 || q > 0 || k != i ==> Left(u, c, h - 1) == Left(s, c, h - 1))
  {
    GrowChild(s, L, t, L', h, i, pos, ic, r, k, q);
    AbsorbChildParent(s, L, t, L', u, h, i, pos, ic, r, k, q);
    AbsorbChildLeft(s, L, t, L', u, h, i, pos, ic, r, k, q);
  }

  lemma AbsorbChildLeft(s: Store, L: seq<seq<BTreeNode>>, t: Store, L': seq<seq<BTreeNode>>, u: Store, h: nat, i: nat, pos: nat, ic: nat, r: BTreeNode, k: nat, q: nat)
    requires GrowContext(s, L, t, L', h, i, pos, ic, r) && r != L[h - 1][ic]
    requires Absorbed(t, u, L[h][i], pos, r)
    requires k < |L[h]| && q < |s[L[h][k]].children|
    ensures var c := s[L[h][k]].children[q];
      c in t && c in u && Left(u, c, h - 1) == Left(t, c, h - 1)
  {
    hide Left, Grew, Absorbed, Entries, Separators, InnerNode;
    var c := s[L[h][k]].children[q];
    AbsorbBelow(s, L, t, L', u, h, i, pos, ic, r);
    var j := ChildBelow(s, L, h, k, q);
    GrewPlace(s, L, t, L', h, i, pos, ic, r, j);
    GrowChild(s, L, t, L', h, i, pos, ic, r, k, q);
    AbsorbChildParent(s, L, t, L', u, h, i, pos, ic, r, k, q);
    assert SameLefts(t, u, L'[h - 1], h - 1);
  }

  lemma GrewPlace(s: Store, L: seq<seq<BTreeNode>>, t: Store, L': seq<seq<BTreeNode>>, h: nat, i: nat, pos: nat, ic: nat, r: BTreeNode, j: nat)
    requires GrowContext(s, L, t, L', h, i, pos, ic, r) && r != L[h - 1][ic] && j < |L[h - 1]|
    ensures var place := if j <= ic then j else j + 1;
      h - 1 < |L'| && place < |L'[h - 1]| && L'[h - 1][place] == L[h - 1][j]
  {
  }

  lemma AbsorbChildParent(s: Store, L: seq<seq<BTreeNode>>, t: Store, L': seq<seq<BTreeNode>>, u: Store, h: nat, i: nat, pos: nat, ic: nat, r: BTreeNode, k: nat, q: nat)
    requires GrowContext(s, L, t, L', h, i, pos, ic, r) && r != L[h - 1][ic]
    requires Absorbed(t, u, L[h][i], pos, r)
    requires k < |L[h]| && q < |s[L[h][k]].children|
    ensures var c := s[L[h][k]].children[q];
      c in u && u[c].parent == L[h][k]
  {
    hide Separators, Entries, LeafEntries, Left;
    var c, x, y := s[L[h][k]].children[q], L[h - 1][ic], t[r].children[1];
    GrowChild(s, L, t, L', h, i, pos, ic, r, k, q);
    var j := ChildBelow(s, L, h, k, q);
    assert L'[h - 1][if j <= ic then j else j + 1] == c;
    assert LevelOk(t, L', h - 1);
    assert SameRecords(s, t, L[h]);
    assert t[c].height == h - 1 && t[L[h][i]].height == h;
    if c == x { UniqueParent(s, L, h, i, pos, k, q); }
    assert c in s && y !in s;
  }
}
