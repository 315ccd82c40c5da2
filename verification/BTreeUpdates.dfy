/** What one insertion means, first on the multimap, then on snapshots of the nodes. */
module BTreeUpdates {
  import opened Flatten
  import opened BTreeStore
  import opened BTreeRebalance
  import opened BTreeSteps
  import opened BTreeDeletion
  import opened BTreeSearch
  import opened BTreeInsertion
  import opened BTreeContents
  import opened SortedRows

  datatype AddStatus = Added | DuplicateKeys | RowIdExisted

  datatype RowChoice = EveryRow | OneRow(id: RowId)

  /** add() and set() on the multimap. */
  function Put(m: map<Key, set<RowId>>, key: Key, value: RowId, replace: bool): map<Key, set<RowId>> {
    m[key := if key in m && !replace then m[key] + {value} else {value}]
  }

  function PutStatus(m: map<Key, set<RowId>>, key: Key, value: RowId, replace: bool, unique: bool): AddStatus {
    if key !in m || replace then Added
    else if unique then DuplicateKeys
    else if value in m[key] then RowIdExisted
    else Added
  }

  /** remove() on the multimap: a unique index ignores which row id is meant. */
  function Removed(m: map<Key, set<RowId>>, key: Key, which: RowChoice, unique: bool): map<Key, set<RowId>> {
    if key !in m then m
    else if which.EveryRow? || unique || m[key] <= {which.id} then m - {key}
    else m[key := m[key] - {which.id}]
  }

  // ---------- Snapshots between the steps of a split ----------

  ghost function LinkStore(s: Store, x: BTreeNode, y: BTreeNode, h: nat): (t: Store)
    requires x in s && y !in s
    ensures LinkedAfter(s, t, x, y, h)
    ensures t.Keys == s.Keys + {y} && t[y].parent == null
  {
    map n | n in s.Keys + {y} ::
      if n == y then Rec(h, [], [], [], null, x, s[x].next)
      else s[n].(next := if n == x then y else s[n].next, prev := if s[x].next == n then y else s[n].prev)
  }

  ghost function CutLeafStore(s: Store, l: BTreeNode, r: BTreeNode, q: nat): (t: Store)
    requires l in s && r in s && l != r && q <= |s[l].keys| && q <= |s[l].values|
    ensures RecutLeaves(s, t, l, r, q) && t.Keys == s.Keys
  {
    s[l := s[l].(keys := (s[l].keys + s[r].keys)[..q], values := (s[l].values + s[r].values)[..q])]
     [r := s[r].(keys := (s[l].keys + s[r].keys)[q..], values := (s[l].values + s[r].values)[q..])]
  }

  ghost function CutInnerStore(s: Store, l: BTreeNode, r: BTreeNode, q: nat, h: nat): (t: Store)
    requires h > 0 && l in s && r in s && l != r && q <= |PairKids(s, l, r)|
    requires forall k :: 0 <= k < |PairKids(s, l, r)| ==> PairKids(s, l, r)[k] in s && s[PairKids(s, l, r)[k]].height != h
    requires Distinct(PairKids(s, l, r)) && s[l].height == h && s[r].height == h
    ensures RecutInner(s, t, l, r, q, h) && t.Keys == s.Keys
  {
    var cs := PairKids(s, l, r);
    assert forall k :: 0 <= k < |cs| ==> (k < q <==> cs[k] in cs[..q]) by {
      forall k | 0 <= k < |cs| ensures k < q <==> cs[k] in cs[..q] {
        if k < q { assert cs[..q][k] == cs[k]; }
        if k >= q {
          forall j | 0 <= j < q ensures cs[j] != cs[k] { assert Differ(cs, j, k); }
        }
      }
    }
    map n | n in s ::
      if n == l then s[l].(children := cs[..q], keys := Separators(s, cs[..q], h))
      else if n == r then s[r].(children := cs[q..], keys := Separators(s, cs[q..], h))
      else if n in cs then s[n].(parent := if n in cs[..q] then l else r)
      else s[n]
  }

  /** Part of n has moved to its new right neighbour y; r, with the given key, sits on top. */
  ghost predicate SplitOff(s: Store, u: Store, n: BTreeNode, y: BTreeNode, r: BTreeNode, h: nat, key: Key) {
    && n in s && y !in s && r !in s && n in u && y in u && r in u && r != y
    && u[r] == Rec(h + 1, [key], [], [n, y], s[n].parent, null, null)
    && u[y] == Rec(h, u[y].keys, u[y].values, u[y].children, r, n, s[n].next)
    && u[n] == s[n].(keys := u[n].keys, values := u[n].values, children := u[n].children, parent := r, next := y)
    && (forall m :: m in s && m != n ==> m in u)
    && (forall m :: m in s && m != n ==>
         u[m] == s[m].(prev := if s[n].next == m then y else s[m].prev, parent := if m in u[y].children then y else s[m].parent))
  }

  ghost predicate LeafSplitOff(s: Store, u: Store, n: BTreeNode, y: BTreeNode, r: BTreeNode, half: nat) {
    && n in s && n in u && y in u && 0 < half < |s[n].keys| == |s[n].values| && SplitOff(s, u, n, y, r, 0, s[n].keys[half])
    && u[n].keys == s[n].keys[..half] && u[n].values == s[n].values[..half] && u[n].children == s[n].children
    && u[y].keys == s[n].keys[half..] && u[y].values == s[n].values[half..] && u[y].children == []
  }

  ghost predicate InnerSplitOff(s: Store, u: Store, n: BTreeNode, y: BTreeNode, r: BTreeNode, h: nat, half: nat) {
    && n in s && n in u && y in u && 0 < half && half + 1 < |s[n].keys| == |s[n].children| - 1
    && SplitOff(s, u, n, y, r, h, s[n].keys[half])
    && u[n].keys == s[n].keys[..half] && u[n].children == s[n].children[..half + 1] && u[n].values == s[n].values
    && u[y].keys == s[n].keys[half + 1..] && u[y].children == s[n].children[half + 1..] && u[y].values == []
  }

  /** y, so far apart with the record given, now stands right of n, and r above both. */
  ghost predicate HalvesLinked(s: Store, u: Store, n: BTreeNode, y: BTreeNode, rec: Rec, r: BTreeNode, key: Key) {
    && n in s && y !in s && r !in s && n in u && y in u && r in u && r != y
    && u[r] == Rec(s[n].height + 1, [key], [], [n, y], s[n].parent, null, null)
    && u[y] == rec.(parent := r, prev := n, next := s[n].next)
    && u[n] == s[n].(parent := r, next := y)
    && (forall m :: m in s && m != n ==> m in u && u[m] == s[m].(prev := if s[n].next == m then y else s[m].prev))
  }

  /** First cut, then linked. */
  lemma SplitOffLinked(s: Store, cut: Store, u: Store, n: BTreeNode, y: BTreeNode, rec: Rec, r: BTreeNode, key: Key)
    requires n in s && cut.Keys == s.Keys && HalvesLinked(cut, u, n, y, rec, r, key) && rec.height == s[n].height
    requires cut[n] == s[n].(keys := cut[n].keys, values := cut[n].values, children := cut[n].children)
    requires forall m :: m in s && m != n ==> cut[m] == s[m].(parent := if m in rec.children then y else s[m].parent)
    ensures SplitOff(s, u, n, y, r, s[n].height, key)
  {
  }

  /** Everything after the middle child of n has gone to y, which does not belong to the tree yet. */
  ghost predicate InnerCut(s: Store, cut: Store, n: BTreeNode, y: BTreeNode, rec: Rec, half: nat, h: nat) {
    && n in s && cut.Keys == s.Keys && s[n].height == h && 0 < half && half + 1 < |s[n].keys| == |s[n].children| - 1
    && rec == Rec(h, s[n].keys[half + 1..], [], s[n].children[half + 1..], null, null, null)
    && cut[n] == s[n].(keys := s[n].keys[..half], children := s[n].children[..half + 1])
    && forall m :: m in s && m != n ==> cut[m] == s[m].(parent := if m in rec.children then y else s[m].parent)
  }

  lemma InnerCutLinked(s: Store, cut: Store, u: Store, n: BTreeNode, y: BTreeNode, rec: Rec, r: BTreeNode, half: nat, h: nat)
    requires InnerCut(s, cut, n, y, rec, half, h) && HalvesLinked(cut, u, n, y, rec, r, s[n].keys[half])
    ensures InnerSplitOff(s, u, n, y, r, h, half)
  {
    SplitOffLinked(s, cut, u, n, y, rec, r, s[n].keys[half]);
  }

  /** The sizes of the two halves below r. */
  ghost predicate HalvesSized(u: Store, n: BTreeNode, r: BTreeNode, max: nat, k: nat) {
    && n in u && r in u && |u[r].children| == 2 && u[r].children[1] in u
    && NonRootNode(u, n, max, k) && NonRootNode(u, u[r].children[1], max, k)
    && |u[n].keys| < max && |u[u[r].children[1]].keys| < max
  }

  lemma SplitLeafStep(s: Store, u: Store, L: seq<seq<BTreeNode>>, i: nat, y: BTreeNode, r: BTreeNode, max: nat)
    requires |L| > 0 && LevelOk(s, L, 0) && Tall(s, L, 0) && i < |L[0]| && max >= 5
    requires |s[L[0][i]].keys| == max && LeafSplitOff(s, u, L[0][i], y, r, max / 2)
    ensures var L' := L[0 := Inserted(L[0], i + 1, y)];
      && Grew(s, L, u, L', 0, i, r) && r != L[0][i] && Entries(u, L'[0]) == Entries(s, L[0])
      && KeysElsewhere(s, u, L[0], i) && HalvesSized(u, L[0][i], r, max, 0)
  {
    hide *;
    var t, t' := SplitLeafPlan(s, u, L, i, y, r, max);
    SplitStep(s, t, t', u, L, 0, i, y, r, max / 2);
    SplitLeafDone(s, u, L, i, y, r, max);
  }

  lemma SplitLeafPlan(s: Store, u: Store, L: seq<seq<BTreeNode>>, i: nat, y: BTreeNode, r: BTreeNode, max: nat) returns (t: Store, t': Store)
    requires |L| > 0 && LevelOk(s, L, 0) && i < |L[0]| && max >= 5
    requires |s[L[0][i]].keys| == max && LeafSplitOff(s, u, L[0][i], y, r, max / 2)
    ensures Halved(s, t, t', L, 0, i, y, max / 2) && Crowned(t', u, L[0][i], y, r, 0, Left(t', y, 0)) && r !in s
  {
    hide Entries, LeafEntries, Flat;
    var n, half := L[0][i], max / 2;
    NotOwnNeighbour(s, L[0], 0, i);
    t := LinkStore(s, n, y, 0);
    t' := CutLeafStore(t, n, y, half);
    assert t[n].keys + t[y].keys == s[n].keys && t[n].values + t[y].values == s[n].values;
    CrownLeaf(s, t, t', u, n, y, r, half);
  }

  lemma SplitLeafDone(s: Store, u: Store, L: seq<seq<BTreeNode>>, i: nat, y: BTreeNode, r: BTreeNode, max: nat)
    requires |L| > 0 && LevelOk(s, L, 0) && i < |L[0]| && max >= 5
    requires |s[L[0][i]].keys| == max && LeafSplitOff(s, u, L[0][i], y, r, max / 2)
    requires forall k :: 0 <= k < |L[0]| && k != i ==> u[L[0][k]].keys == s[L[0][k]].keys
    ensures r != L[0][i] && KeysElsewhere(s, u, L[0], i) && HalvesSized(u, L[0][i], r, max, 0)
  {
    hide Entries, LeafEntries, Flat;
  }

  lemma CrownLeaf(s: Store, t: Store, t': Store, u: Store, n: BTreeNode, y: BTreeNode, r: BTreeNode, half: nat)
    requires n in s && y !in s && 0 < half < |s[n].keys| == |s[n].values| && s[n].height == 0 && s[n].next != n
    requires SplitOff(s, u, n, y, r, 0, s[n].keys[half])
    requires u[n].keys == s[n].keys[..half] && u[n].values == s[n].values[..half] && u[n].children == s[n].children
    requires u[y].keys == s[n].keys[half..] && u[y].values == s[n].values[half..] && u[y].children == []
    requires LinkedAfter(s, t, n, y, 0) && t.Keys == s.Keys + {y} && t'.Keys == t.Keys && RecutLeaves(t, t', n, y, half)
    requires t[n].keys + t[y].keys == s[n].keys && t[n].values + t[y].values == s[n].values
    ensures Crowned(t', u, n, y, r, 0, Left(t', y, 0))
  {
    forall m | m in t' ensures m in u && u[m] == t'[m].(parent := if m == n || m == y then r else t'[m].parent) {
      if m != n && m != y {
        assert m in s && t'[m] == t[m];
      }
    }
  }

  lemma SplitInternalStep(s: Store, u: Store, L: seq<seq<BTreeNode>>, h: nat, i: nat, y: BTreeNode, r: BTreeNode, max: nat)
    requires 0 < h < |L| && LevelsOk(s, L, h + 1) && LevelOk(s, L, h) && Tall(s, L, h) && i < |L[h]| && max >= 5
    requires L[h][i] in s && |s[L[h][i]].keys| == max && InnerSplitOff(s, u, L[h][i], y, r, h, max / 2)
    ensures var L' := L[h := Inserted(L[h], i + 1, y)];
      && Grew(s, L, u, L', h, i, r) && r != L[h][i] && Entries(u, L'[0]) == Entries(s, L[0])
      && KeysElsewhere(s, u, L[h], i) && HalvesSized(u, L[h][i], r, max, h)
      && forall k :: 0 <= k < h ==> L'[k] == L[k] && SameButParents(s, u, L'[k])
  {
    hide *;
    var n, half := L[h][i], max / 2;
    SplitOffFacts(s, u, n, y, r, h, half);
    var t, t' := SplitPlan(s, L, h, i, y, half);
    CrownInternal(s, t, t', u, n, y, r, h, half);
    SplitStep(s, t, t', u, L, h, i, y, r, half + 1);
    SplitDone(s, u, L, h, i, y, r, max);
  }

  lemma SplitOffFacts(s: Store, u: Store, n: BTreeNode, y: BTreeNode, r: BTreeNode, h: nat, half: nat)
    requires InnerSplitOff(s, u, n, y, r, h, half)
    ensures y !in s && half + 1 < |s[n].keys|
  {
  }

  lemma SplitDone(s: Store, u: Store, L: seq<seq<BTreeNode>>, h: nat, i: nat, y: BTreeNode, r: BTreeNode, max: nat)
    requires 0 < h < |L| && LevelOk(s, L, 0) && i < |L[h]| && max >= 5 && L[h][i] in s && |s[L[h][i]].keys| == max
    requires InnerSplitOff(s, u, L[h][i], y, r, h, max / 2)
    requires Grew(s, L, u, L[h := Inserted(L[h], i + 1, y)], h, i, r)
    requires forall k :: 0 <= k < |L[h]| && k != i ==> u[L[h][k]].keys == s[L[h][k]].keys
    requires forall k :: 0 <= k < h ==> SameButParents(s, u, L[k])
    ensures r != L[h][i] && Entries(u, L[0]) == Entries(s, L[0]) && KeysElsewhere(s, u, L[h], i) && HalvesSized(u, L[h][i], r, max, h)
  {
    SameEntries(s, u, L[0]);
    forall k | 0 <= k < |L[h]| ensures L[h][k] in s && L[h][k] in u {
      assert GrewNode(s, u, L[h][i], L[h][k], h, r);
    }
  }

  /** The stages t and t' of an internal split, planned on snapshots: linked, then recut. */
  ghost predicate InnerPlan(s: Store, t: Store, t': Store, n: BTreeNode, y: BTreeNode, h: nat, half: nat) {
    && h > 0 && n in s && n in t && y !in s && y in t && y in t' && half + 1 < |s[n].keys| == |s[n].children| - 1
    && s[n].height == h && s[n].next != n && OwnsChildren(s, n)
    && LinkedAfter(s, t, n, y, h) && t.Keys == s.Keys + {y} && t'.Keys == t.Keys && RecutInner(t, t', n, y, half + 1, h)
    && PairKids(t, n, y) == s[n].children && Distinct(s[n].children)
    && (forall k :: 0 <= k < |s[n].children| ==> s[s[n].children[k]].height == h - 1)
    && (s[n].next != null && s[n].next in s ==> s[s[n].next].height == h)
    && s[n].keys[..half] == Separators(t, s[n].children[..half + 1], h)
    && s[n].keys[half + 1..] == Separators(t, s[n].children[half + 1..], h)
    && s[n].keys[half] == Left(t', y, h)
  }

  lemma CrownInternal(s: Store, t: Store, t': Store, u: Store, n: BTreeNode, y: BTreeNode, r: BTreeNode, h: nat, half: nat)
    requires InnerPlan(s, t, t', n, y, h, half) && InnerSplitOff(s, u, n, y, r, h, half)
    ensures Crowned(t', u, n, y, r, h, Left(t', y, h)) && r !in s
  {
    hide Left, Separators, Distinct, OwnsChildren;
    forall m | m in t' ensures m in u && u[m] == t'[m].(parent := if m == n || m == y then r else t'[m].parent) {
      if m != n && m != y { CrownOther(s, t, t', u, n, y, r, h, half, m); }
    }
  }

  /** The children change parents as they did in the recutting; nothing else moves. */
  lemma CrownOther(s: Store, t: Store, t': Store, u: Store, n: BTreeNode, y: BTreeNode, r: BTreeNode, h: nat, half: nat, m: BTreeNode)
    requires InnerPlan(s, t, t', n, y, h, half) && InnerSplitOff(s, u, n, y, r, h, half) && m in t' && m != n && m != y
    ensures m in u && u[m] == t'[m]
  {
    hide Left, Separators;
    var cs := s[n].children;
    assert u[y].children == cs[half + 1..] && m in s;
    if m in cs {
      var k :| 0 <= k < |cs| && cs[k] == m;
      assert t'[m] == t[m].(parent := if k < half + 1 then n else y);
      assert m in cs[half + 1..] <==> k >= half + 1 by {
        if k >= half + 1 { assert cs[half + 1..][k - half - 1] == m; }
        else { forall j | half + 1 <= j < |cs| ensures cs[j] != m { assert Differ(cs, k, j); } }
      }
    } else {
      assert t'[m] == t[m];
    }
  }

  lemma NotOwnNeighbour(s: Store, ns: seq<BTreeNode>, h: nat, i: nat)
    requires Chain(s, ns, h) && i < |ns|
    ensures s[ns[i]].next != ns[i] && s[ns[i]].prev != ns[i]
    ensures s[ns[i]].next != null ==> s[ns[i]].next in s && s[s[ns[i]].next].height == h
    ensures s[ns[i]].prev != null ==> s[ns[i]].prev in s && s[s[ns[i]].prev].height == h
  {
    assert LinkAt(s, ns, i);
    if s[ns[i]].next == ns[i] { ChainIndex(s, ns, h, i, i + 1); }
    if s[ns[i]].prev == ns[i] { ChainIndex(s, ns, h, i, i - 1); }
  }

  lemma KidsApart(s: Store, L: seq<seq<BTreeNode>>, h: nat, i: nat)
    requires 0 < h < |L| && LevelsOk(s, L, h + 1) && LevelOk(s, L, h) && i < |L[h]|
    ensures var cs := s[L[h][i]].children;
      Distinct(cs) && forall k :: 0 <= k < |cs| ==> cs[k] in s && s[cs[k]].height == h - 1
  {
    var cs := s[L[h][i]].children;
    assert LevelOk(s, L, h - 1);
    forall k | 0 <= k < |cs| ensures cs[k] in s && s[cs[k]].height == h - 1 {
      var c := ChildBelow(s, L, h, i, k);
    }
    forall a, b | 0 <= a < b < |cs| ensures Differ(cs, a, b) {
      var c := ChildBelow(s, L, h, i, a);
      var d := ChildBelow(s, L, h, i, b);
      if cs[a] == cs[b] { ChainIndex(s, L[h - 1], h - 1, c, d); }
    }
  }

  lemma ReadyToSplit(s: Store, L: seq<seq<BTreeNode>>, h: nat, i: nat)
    requires 0 < h < |L| && LevelsOk(s, L, h + 1) && LevelOk(s, L, h) && i < |L[h]|
    ensures var n := L[h][i];
      && n in s && s[n].height == h && s[n].next != n && (s[n].next != null ==> s[n].next in s && s[s[n].next].height == h)
      && |s[n].children| == |s[n].keys| + 1 && Distinct(s[n].children)
      && forall k :: 0 <= k < |s[n].children| ==>
           s[n].children[k] in s && s[s[n].children[k]].height == h - 1 && s[s[n].children[k]].parent == n
  {
    NotOwnNeighbour(s, L[h], h, i);
    KidsApart(s, L, h, i);
    assert InnerNode(s, L[h][i], h);
  }

  lemma SplitPlan(s: Store, L: seq<seq<BTreeNode>>, h: nat, i: nat, y: BTreeNode, half: nat) returns (t: Store, t': Store)
    requires 0 < h < |L| && LevelsOk(s, L, h + 1) && LevelOk(s, L, h) && i < |L[h]| && L[h][i] in s
    requires y !in s && 0 < half && half + 1 < |s[L[h][i]].keys|
    ensures InnerPlan(s, t, t', L[h][i], y, h, half) && Halved(s, t, t', L, h, i, y, half + 1)
    ensures LevelOk(s, L, 0)
  {
    hide LevelsOk, LevelOk, Recuttable, LinkedAfter, LinkStore, CutInnerStore, Left, Distinct;
    t := LinkStore(s, L[h][i], y, h);
    SplitLinked(s, t, L, h, i, y, half);
    t' := CutInnerStore(t, L[h][i], y, half + 1, h);
    SplitSeparator(t, t', L, h, i, y, half);
    ReadyToSplit(s, L, h, i);
  }

  lemma SplitLinked(s: Store, t: Store, L: seq<seq<BTreeNode>>, h: nat, i: nat, y: BTreeNode, half: nat)
    requires 0 < h < |L| && LevelsOk(s, L, h + 1) && LevelOk(s, L, h) && i < |L[h]| && L[h][i] in s
    requires LinkedAfter(s, t, L[h][i], y, h) && half + 1 < |s[L[h][i]].keys|
    ensures Recuttable(t, L[h := Inserted(L[h], i + 1, y)], h, i) && LevelOk(s, L, 0)
    ensures OwnsChildren(s, L[h][i]) && L[h][i] in t && y in t && t[L[h][i]].height == h && t[y].height == h
    ensures var cs := s[L[h][i]].children;
      && PairKids(t, L[h][i], y) == cs && |cs| == |s[L[h][i]].keys| + 1 && Distinct(cs)
      && (forall k :: 0 <= k < |cs| ==> cs[k] in t && t[cs[k]].height == h - 1)
      && s[L[h][i]].keys[..half] == Separators(t, cs[..half + 1], h)
      && s[L[h][i]].keys[half + 1..] == Separators(t, cs[half + 1..], h)
      && s[L[h][i]].keys[half] == Left(t, cs[half + 1], h - 1)
  {
    var x := L[h][i];
    LinkOk(s, t, L, h, i, y);
    LinkInnerLevel(s, t, L, h, i, y);
    assert SameButLinks(s, t, x);
    assert InnerNode(s, x, h) && InnerNode(t, x, h) && LevelOk(s, L, 0);
    ReadyToSplit(s, L, h, i);
    SplitPlanKids(s, t, L, h, i);
  }

  /** The key that goes up is the leftmost key of the right half. */
  lemma SplitSeparator(t: Store, t': Store, L: seq<seq<BTreeNode>>, h: nat, i: nat, y: BTreeNode, half: nat)
    requires 0 < h < |L| && i < |L[h]| && L[h][i] in t && y in t && half + 1 < |PairKids(t, L[h][i], y)|
    requires Recuttable(t, L[h := Inserted(L[h], i + 1, y)], h, i) && RecutInner(t, t', L[h][i], y, half + 1, h)
    ensures Left(t', y, h) == Left(t, PairKids(t, L[h][i], y)[half + 1], h - 1)
  {
    var L' := L[h := Inserted(L[h], i + 1, y)];
    assert L'[h][i] == L[h][i] && L'[h][i + 1] == y;
    RecutInnerBelow(t, t', L', h, i, half + 1);
    var k := PairKid(t, L', h, i, half + 1);
  }

  // ---------- Entries of a changed leaf ----------

  lemma LeafReplaceEntries(r: Rec, pos: nat, rows: seq<RowId>)
    requires |r.keys| == |r.values| && pos < |r.keys|
    ensures var es := LeafEntries(r);
      LeafEntries(r.(values := r.values[pos := rows])) == es[..pos] + [Entry(r.keys[pos], rows)] + es[pos + 1..]
  {
  }

  lemma LeafDropEntries(r: Rec, pos: nat)
    requires |r.keys| == |r.values| && pos < |r.keys|
    ensures var es := LeafEntries(r);
      LeafEntries(r.(keys := r.keys[..pos] + r.keys[pos + 1..], values := r.values[..pos] + r.values[pos + 1..]))
        == es[..pos] + [] + es[pos + 1..]
  {
  }

  lemma NothingRemoved(m: map<Key, set<RowId>>, key: Key, which: RowChoice, unique: bool)
    requires key !in m
    ensures Removed(m, key, which, unique) == m
  {
  }

  lemma OnlyRow(left: seq<RowId>, before: seq<RowId>, id: RowId)
    requires left == [] && Elements(left) == Elements(before) - {id}
    ensures Elements(before) <= {id}
  {
    assert Elements(left) == {};
    forall x | x in Elements(before) ensures x == id {
      assert x == id || x in Elements(before) - {id};
    }
  }

  lemma FoundHere(r: Rec, key: Key, pos: nat, unique: bool)
    requires pos < |r.keys| == |r.values| && r.keys[pos] == key && RowsOk(r.values[pos], unique)
    ensures FoundRows(r, key, pos) == |r.values[pos]| && Increasing(r.values[pos]) && (unique ==> |r.values[pos]| == 1)
  {
  }

  lemma LeftRows(rows: seq<RowId>)
    requires Increasing(rows) && rows != []
    ensures RowsOk(rows, false)
  {
  }

  /** Emptying the list of row ids first makes no difference to dropping the key. */
  lemma PutThenDrop(s: Store, t: Store, u: Store, x: BTreeNode, key: Key, pos: nat, rows: seq<RowId>)
    requires LeafPut(s, t, x, key, pos, [Entry(key, rows)]) && t == s[x := s[x].(values := t[x].values)]
    requires FoundAt(s[x], key, pos) && LeafPut(t, u, x, key, pos, [])
    ensures LeafPut(s, u, x, key, pos, [])
  {
    assert LeafEntries(t[x])[..pos] == LeafEntries(s[x])[..pos];
    assert LeafEntries(t[x])[pos + 1..] == LeafEntries(s[x])[pos + 1..];
  }

  lemma LeafInsertEntries(r: Rec, pos: nat, key: Key, rows: seq<RowId>)
    requires |r.keys| == |r.values| && pos <= |r.keys|
    ensures var es := LeafEntries(r);
      LeafEntries(r.(keys := r.keys[..pos] + [key] + r.keys[pos..], values := r.values[..pos] + [rows] + r.values[pos..]))
        == es[..pos] + [Entry(key, rows)] + es[pos..]
  {
  }

  lemma SplitPlanKids(s: Store, t: Store, L: seq<seq<BTreeNode>>, h: nat, i: nat)
    requires 0 < h < |L| && Within(s, L[h]) && Covers(s, L[h], L[h - 1]) && i < |L[h]| && SameRecords(s, t, L[h - 1])
    ensures forall k :: 0 <= k < |s[L[h][i]].children| ==>
      var c := s[L[h][i]].children[k]; c in s && c in t && t[c] == s[c]
  {
    forall k | 0 <= k < |s[L[h][i]].children|
      ensures var c := s[L[h][i]].children[k]; c in s && c in t && t[c] == s[c]
    {
      var j := ChildBelow(s, L, h, i, k);
    }
  }

  ghost predicate FoundAt(r: Rec, key: Key, pos: nat) {
    pos < |r.keys| && r.keys[pos] == key
  }

  lemma FoundFacts(r: Rec, key: Key, pos: nat)
    ensures FoundAt(r, key, pos) <==> pos < |r.keys| && r.keys[pos] == key
    ensures forall rows: seq<RowId>, unique :: RowsOk(rows, unique) ==> Increasing(rows)
    ensures Increasing([]) && Elements([]) == {}
  {
  }

  lemma NotFoundPos(keys: seq<Key>, key: Key, pos: nat)
    requires !(pos < |keys| && keys[pos] == key)
    ensures ChildPos(keys, key, pos) == pos
  {
  }

  /** The entries, cut around position pos of leaf i. */
  ghost predicate CutHere(s: Store, leaves: seq<BTreeNode>, i: nat, key: Key, pos: nat, unique: bool) {
    && i < |leaves| && leaves[i] in s && pos <= |s[leaves[i]].keys|
    && var mine, q := LeafEntries(s[leaves[i]]), if FoundAt(s[leaves[i]], key, pos) then pos + 1 else pos;
    CutAt(Entries(s, leaves), EntriesBefore(s, leaves, i) + mine[..pos], mine[pos..q],
          mine[q..] + EntriesAfter(s, leaves, i), key, unique)
  }

  /** The leaf x now files mid under the key where it filed something or nothing before. */
  ghost predicate LeafPut(s: Store, s': Store, x: BTreeNode, key: Key, pos: nat, mid: seq<Entry>) {
    && x in s && x in s' && |s[x].keys| == |s[x].values| && |s'[x].keys| == |s'[x].values| && pos <= |s[x].keys|
    && LeafChanged(s, s', x, s'[x].keys, s'[x].values)
    && LeafEntries(s'[x]) == LeafEntries(s[x])[..pos] + mid + LeafEntries(s[x])[if FoundAt(s[x], key, pos) then pos + 1 else pos..]
  }

  ghost predicate Filed(es: seq<Entry>, total: int, unique: bool, m: map<Key, set<RowId>>) {
    EntriesOk(es, unique) && total == Total(es) && ContentsOf(es) == m
  }

  lemma FiledSorted(es: seq<Entry>, total: int, unique: bool, m: map<Key, set<RowId>>)
    requires Filed(es, total, unique, m)
    ensures Sorted(es)
  {
  }

  ghost function LeafStatus(r: Rec, key: Key, pos: nat, value: RowId, replace: bool, unique: bool): AddStatus {
    if !FoundAt(r, key, pos) || replace then Added
    else if unique then DuplicateKeys
    else if pos < |r.values| && value in r.values[pos] then RowIdExisted
    else Added
  }

  ghost predicate LeafRows(r: Rec, key: Key, pos: nat, value: RowId, replace: bool, unique: bool, rows: seq<RowId>) {
    && RowsOk(rows, unique)
    && Elements(rows) == if FoundAt(r, key, pos) && pos < |r.values| && !replace then Elements(r.values[pos]) + {value} else {value}
  }

  ghost function FoundRows(r: Rec, key: Key, pos: nat): nat {
    if FoundAt(r, key, pos) && pos < |r.values| then |r.values[pos]| else 0
  }

  /** What the leaf decides is what the multimap decides. */
  lemma PutMeaning(m: map<Key, set<RowId>>, r: Rec, key: Key, pos: nat, value: RowId, replace: bool, unique: bool, rows: seq<RowId>)
    requires FoundAt(r, key, pos) <==> key in m
    requires FoundAt(r, key, pos) ==> pos < |r.values| && m[key] == Elements(r.values[pos])
    ensures PutStatus(m, key, value, replace, unique) == LeafStatus(r, key, pos, value, replace, unique)
    ensures LeafRows(r, key, pos, value, replace, unique, rows) ==> RowsOk(rows, unique) && Put(m, key, value, replace) == m[key := Elements(rows)]
  {
  }

  lemma RemoveMeaning(m: map<Key, set<RowId>>, before: seq<RowId>, key: Key, which: RowChoice, unique: bool, fix: bool, rows: seq<RowId>)
    requires key in m && m[key] == Elements(before) && RowsOk(before, unique)
    requires fix ==> which.EveryRow? || unique || Elements(before) <= {which.id}
    requires !fix ==> which.OneRow? && !unique && RowsOk(rows, unique) && Elements(rows) == Elements(before) - {which.id}
    ensures fix ==> Removed(m, key, which, unique) == m - {key}
    ensures !fix ==> Removed(m, key, which, unique) == m[key := Elements(rows)]
  {
    if !fix {
      assert rows[0] in Elements(rows);
    }
  }

  /** The entries after a leaf has filed mid under the key. */
  lemma LeafRefiled(s: Store, s': Store, leaves: seq<BTreeNode>, i: nat, key: Key, pos: nat, unique: bool, mid: seq<Entry>)
    requires i < |leaves| && LeafPut(s, s', leaves[i], key, pos, mid) && CutHere(s, leaves, i, key, pos, unique)
    requires |mid| <= 1 && (mid != [] ==> mid[0].key == key && RowsOk(mid[0].rows, unique))
    requires Entries(s', leaves) == EntriesBefore(s, leaves, i) + LeafEntries(s'[leaves[i]]) + EntriesAfter(s, leaves, i)
    ensures var es, es' := Entries(s, leaves), Entries(s', leaves);
      && EntriesOk(es', unique)
      && ContentsOf(es') == (if mid == [] then ContentsOf(es) - {key} else ContentsOf(es)[key := Elements(mid[0].rows)])
      && Total(es') == Total(es) - FoundRows(s[leaves[i]], key, pos) + (if mid == [] then 0 else |mid[0].rows|)
  {
    hide EntriesOk, ContentsOf, Total, RowsOk, Elements;
    var x := leaves[i];
    var mine := LeafEntries(s[x]);
    var q := if FoundAt(s[x], key, pos) then pos + 1 else pos;
    var before, after := EntriesBefore(s, leaves, i), EntriesAfter(s, leaves, i);
    CutParts(before, LeafEntries(s'[x]), after, pos, pos + |mid|);
    assert LeafEntries(s'[x])[..pos] == mine[..pos];
    assert LeafEntries(s'[x])[pos..pos + |mid|] == mid;
    assert LeafEntries(s'[x])[pos + |mid|..] == mine[q..];
    Refile(Entries(s, leaves), before + mine[..pos], mine[pos..q], mine[q..] + after, key, unique, mid);
  }

  /** A leaf reached by the search has filed the rows under the key. */
  lemma LeafFiled(s: Store, s': Store, L: seq<seq<BTreeNode>>, i: nat, key: Key, pos: nat, unique: bool, rows: seq<RowId>, total: int)
    requires 0 < |L| && LevelsOk(s, L, |L|) && LevelOk(s, L, 0) && i < |L[0]|
    requires LeafPut(s, s', L[0][i], key, pos, [Entry(key, rows)]) && CutHere(s, L[0], i, key, pos, unique) && RowsOk(rows, unique)
    requires Fence(s, L[0][i], 0, key) && SearchPos(s[L[0][i]].keys, key, pos)
    requires s[L[0][i]].prev != null ==> s[L[0][i]].keys != []
    requires total == Total(Entries(s, L[0])) + |rows| - FoundRows(s[L[0][i]], key, pos)
    ensures Grew(s, L, s', L, 0, i, L[0][i]) && KeysElsewhere(s, s', L[0], i)
    ensures Filed(Entries(s', L[0]), total, unique, ContentsOf(Entries(s, L[0]))[key := Elements(rows)])
  {
    var x := L[0][i];
    if s[x].prev != null {
      FirstKeyKept(s, s', x, key, pos, rows);
    }
    LeafStep(s, s', L, i, s'[x].keys, s'[x].values);
    LeafRefiled(s, s', L[0], i, key, pos, unique, [Entry(key, rows)]);
  }

  lemma FirstKeyKept(s: Store, s': Store, x: BTreeNode, key: Key, pos: nat, rows: seq<RowId>)
    requires x in s && LeafPut(s, s', x, key, pos, [Entry(key, rows)]) && SearchPos(s[x].keys, key, pos)
    requires s[x].keys != [] && s[x].keys[0] <= key
    ensures s'[x].keys != [] && s'[x].keys[0] == s[x].keys[0]
  {
    var es, es' := LeafEntries(s[x]), LeafEntries(s'[x]);
    assert es'[0].key == s[x].keys[0];
    assert es'[0].key == s'[x].keys[0];
  }

  lemma GrewTall(s: Store, L: seq<seq<BTreeNode>>, t: Store, L': seq<seq<BTreeNode>>, h: nat, i: nat, r: BTreeNode)
    requires Grew(s, L, t, L', h, i, r) && LevelsOk(s, L, |L|)
    ensures Tall(t, L', h)
  {
    forall k, j | h < k < |L| && 0 <= j < |L[k]| ensures L[k][j] in t && t[L[k][j]].height == k {
      assert SameRecords(s, t, L[k]) && LevelOk(s, L, k);
    }
  }

  // ---------- Sizes ----------

  /** After the insertion below node i of level h returned: the sizes. */
  ghost predicate GrownSized(s: Store, L: seq<seq<BTreeNode>>, max: nat, h: nat, split: bool)
    requires h < |L|
  {
    && (forall k :: 0 <= k < h ==> NonRootSized(s, L[k], max, k))
    && (if h + 1 < |L| || split then NonRootSized(s, L[h], max, h) else |L[h]| == 1 && RootSized(s, L[h][0], max, h))
  }

  lemma SizedFrame(s: Store, t: Store, ns: seq<BTreeNode>, max: nat, k: nat)
    requires SameButParents(s, t, ns) && NonRootSized(s, ns, max, k)
    ensures NonRootSized(t, ns, max, k)
  {
    forall i | 0 <= i < |ns| ensures ns[i] in t && NonRootNode(t, ns[i], max, k) {
      assert SameButParent(s, t, ns[i]) && NonRootNode(s, ns[i], max, k);
    }
  }

  ghost predicate KeysElsewhere(s: Store, t: Store, ns: seq<BTreeNode>, i: nat) {
    forall k :: 0 <= k < |ns| && k != i ==> ns[k] in s && ns[k] in t && t[ns[k]].keys == s[ns[k]].keys
  }

  /** Node i of level h has taken in what its child returned: nothing, or the two halves of a split. */
  ghost predicate TakenIn(s: Store, L: seq<seq<BTreeNode>>, u: Store, L': seq<seq<BTreeNode>>, h: nat, i: nat, max: nat) {
    && h < |L| == |L'| && i < |L[h]| && L[h][i] in s && L[h][i] in u
    && Grew(s, L, u, L', h, i, L[h][i]) && KeysElsewhere(s, u, L[h], i)
    && |s[L[h][i]].keys| <= |u[L[h][i]].keys| <= |s[L[h][i]].keys| + 1
    && forall k :: 0 <= k < h ==> NonRootSized(u, L'[k], max, k)
  }

  lemma AbsorbedIn(s: Store, L: seq<seq<BTreeNode>>, t: Store, L': seq<seq<BTreeNode>>, u: Store, h: nat, i: nat, pos: nat, j: nat, node: BTreeNode, max: nat)
    requires GrowContext(s, L, t, L', h, i, pos, j, node) && node != L[h - 1][j] && Absorbed(t, u, L[h][i], pos, node)
    requires Sized(s, L, max) && GrownSized(t, L', max, h - 1, true)
    ensures TakenIn(s, L, u, L', h, i, max) && Entries(u, L'[0]) == Entries(t, L'[0])
    ensures forall k :: 0 <= k < h ==> SameButParents(t, u, L'[k])
  {
    AbsorbStep(s, L, t, L', u, h, i, pos, j, node);
    BelowSized(t, u, L', h, max);
    assert SameRecords(s, t, L[h]);
  }

  lemma PassedIn(s: Store, L: seq<seq<BTreeNode>>, t: Store, L': seq<seq<BTreeNode>>, h: nat, i: nat, pos: nat, j: nat, node: BTreeNode, max: nat)
    requires GrowContext(s, L, t, L', h, i, pos, j, node) && node == L[h - 1][j]
    requires Sized(s, L, max) && GrownSized(t, L', max, h - 1, false)
    ensures TakenIn(s, L, t, L', h, i, max)
    ensures forall k :: 0 <= k < h ==> SameButParents(t, t, L'[k])
  {
    PassStep(s, L, t, L', h, i, pos, j);
    assert SameRecords(s, t, L[h]);
    forall k | 0 <= k < h ensures SameButParents(t, t, L'[k]) {
      assert LevelOk(t, L', k);
      forall m | 0 <= m < |L'[k]| ensures SameButParent(t, t, L'[k][m]) {
      }
    }
  }

  lemma TakenInFacts(s: Store, L: seq<seq<BTreeNode>>, u: Store, L': seq<seq<BTreeNode>>, h: nat, i: nat, max: nat)
    requires TakenIn(s, L, u, L', h, i, max) && LevelsOk(s, L, |L|)
    ensures Grew(s, L, u, L', h, i, L[h][i]) && KeysElsewhere(s, u, L[h], i) && |L'| == |L| && L'[h] == L[h] && L[h][i] in u
    ensures |s[L[h][i]].keys| <= |u[L[h][i]].keys| <= |s[L[h][i]].keys| + 1
    ensures forall k :: 0 <= k < h ==> NonRootSized(u, L'[k], max, k)
    ensures Tall(u, L', h) && LevelsOk(u, L', h + 1) && LevelOk(u, L', h) && Chain(s, L[h], h)
  {
    GrewTall(s, L, u, L', h, i, L[h][i]);
    assert LevelOk(u, L', h) && LevelOk(s, L, h);
  }

  /** Node i of level h has its new keys, and the level did not grow. */
  lemma StaysSized(s: Store, t: Store, L: seq<seq<BTreeNode>>, L': seq<seq<BTreeNode>>, h: nat, i: nat, max: nat)
    requires Sized(s, L, max) && h < |L| == |L'| && i < |L[h]| && L[h][i] in s && L[h][i] in t && L'[h] == L[h]
    requires KeysElsewhere(s, t, L[h], i) && |s[L[h][i]].keys| <= |t[L[h][i]].keys| && (h == 0 ==> |t[L[h][i]].keys| < max)
    requires forall k :: 0 <= k < h ==> NonRootSized(t, L'[k], max, k)
    ensures GrownSized(t, L', max, h, false)
  {
    if h + 1 < |L| {
      assert NonRootSized(s, L[h], max, h);
      forall k | 0 <= k < |L[h]| ensures L[h][k] in t && NonRootNode(t, L[h][k], max, h) {
        assert NonRootNode(s, L[h][k], max, h);
      }
    }
  }

  /** Node i of level h was split in two big enough halves. */
  lemma SplitSized(s: Store, t: Store, u: Store, L: seq<seq<BTreeNode>>, L': seq<seq<BTreeNode>>, h: nat, i: nat, r: BTreeNode, max: nat)
    requires Sized(s, L, max) && h < |L| == |L'| && i < |L[h]| && L[h][i] in s
    requires Grew(s, L, u, L', h, i, r) && r != L[h][i] && HalvesSized(u, L[h][i], r, max, h)
    requires KeysElsewhere(s, t, L[h], i) && KeysElsewhere(t, u, L[h], i)
    requires forall k :: 0 <= k < h ==> NonRootSized(u, L'[k], max, k)
    ensures GrownSized(u, L', max, h, true)
  {
    var y := u[r].children[1];
    assert L'[h] == Inserted(L[h], i + 1, y);
    forall k | 0 <= k < |L'[h]| ensures L'[h][k] in u && NonRootNode(u, L'[h][k], max, h) {
      if k != i && k != i + 1 {
        var k' := if k < i then k else k - 1;
        assert L'[h][k] == L[h][k'];
        assert h + 1 < |L|;
        assert NonRootSized(s, L[h], max, h) && NonRootNode(s, L[h][k'], max, h);
      }
    }
  }

  lemma BelowSized(s: Store, t: Store, L: seq<seq<BTreeNode>>, h: nat, max: nat)
    requires h < |L| && forall k :: 0 <= k < h ==> SameButParents(s, t, L[k]) && NonRootSized(s, L[k], max, k)
    ensures forall k :: 0 <= k < h ==> NonRootSized(t, L[k], max, k)
  {
    forall k | 0 <= k < h ensures NonRootSized(t, L[k], max, k) {
      SizedFrame(s, t, L[k], max, k);
    }
  }

  /** The source tells a split result from an ordinary child by its single key. */
  lemma SplitResult(s: Store, L: seq<seq<BTreeNode>>, t: Store, L': seq<seq<BTreeNode>>, h: nat, i: nat, pos: nat, ic: nat, r: BTreeNode, max: nat)
    requires GrowContext(s, L, t, L', h, i, pos, ic, r) && max >= 5 && r in t
    requires GrownSized(t, L', max, h - 1, r != L[h - 1][ic])
    ensures r != L[h - 1][ic] <==> t[r].height != 0 && |t[r].keys| == 1
  {
    if r == L[h - 1][ic] {
      assert LevelOk(t, L', h - 1);
      assert NonRootSized(t, L'[h - 1], max, h - 1);
      assert L'[h - 1][ic] == r && NonRootNode(t, L'[h - 1][ic], max, h - 1);
    }
  }

  /** Where the halves of a split are. */
  lemma SplitParts(s: Store, L: seq<seq<BTreeNode>>, t: Store, L': seq<seq<BTreeNode>>, h: nat, i: nat, pos: nat, ic: nat, r: BTreeNode)
    requires GrowContext(s, L, t, L', h, i, pos, ic, r) && r != L[h - 1][ic]
    ensures var p := L[h][i];
      && p in s && p in t && r in t && r != p && t[p] == s[p] && |t[r].children| == 2 && |t[r].keys| == 1
      && t[r].children[0] in t && t[r].children[1] in t && t[r].children[0] != p && t[r].children[1] != p
      && pos < |t[p].children| && pos <= |t[p].keys| && t[p].children[pos] == t[r].children[0]
  {
    var p := L[h][i];
    assert SameRecords(s, t, L[h]);
    assert InnerNode(s, p, h);
    assert LevelOk(t, L', h - 1);
    assert L'[h - 1][ic + 1] == t[r].children[1] && L'[h - 1][ic] == t[r].children[0];
    assert t[p].height == h;
  }

  lemma LeafReady(s: Store, t: Store, L: seq<seq<BTreeNode>>, i: nat, max: nat)
    requires |L| > 0 && LevelsOk(s, L, |L|) && i < |L[0]| && L[0][i] in s && L[0][i] in t && Grew(s, L, t, L, 0, i, L[0][i]) && KeysElsewhere(s, t, L[0], i)
    requires Sized(s, L, max) && |s[L[0][i]].keys| <= |t[L[0][i]].keys| <= |s[L[0][i]].keys| + 1
    ensures LevelOk(t, L, 0) && Tall(t, L, 0) && Chain(s, L[0], 0)
    ensures |t[L[0][i]].keys| <= max
    ensures |t[L[0][i]].keys| < max ==> GrownSized(t, L, max, 0, false)
  {
    GrewTall(s, L, t, L, 0, i, L[0][i]);
    assert LevelOk(s, L, 0) && LevelOk(t, L, 0);
    assert |s[L[0][i]].keys| < max by {
      if |L| > 1 { assert NonRootSized(s, L[0], max, 0); assert NonRootNode(s, L[0][i], max, 0); }
    }
    if |t[L[0][i]].keys| < max { StaysSized(s, t, L, L, 0, i, max); }
  }

  // ---------- Capacity: a tree that has only been added to never has a full node ----------

  ghost predicate RoomyLevel(s: Store, ns: seq<BTreeNode>, max: nat) {
    forall i :: 0 <= i < |ns| ==> ns[i] in s && |s[ns[i]].keys| < max
  }

  /** The internal nodes up to level h have fewer than max keys, as leaves always do. */
  ghost predicate Roomy(s: Store, L: seq<seq<BTreeNode>>, max: nat, h: nat) {
    forall k :: 0 < k <= h && k < |L| ==> RoomyLevel(s, L[k], max)
  }

  lemma RoomyLeaf(s: Store, L: seq<seq<BTreeNode>>, max: nat)
    ensures Roomy(s, L, max, 0)
  {
  }

  lemma LessRoomy(s: Store, L: seq<seq<BTreeNode>>, max: nat, h: nat)
    requires h > 0 && Roomy(s, L, max, h)
    ensures Roomy(s, L, max, h - 1)
  {
  }

  lemma RoomyBelow(s: Store, t: Store, L: seq<seq<BTreeNode>>, L': seq<seq<BTreeNode>>, h: nat, max: nat)
    requires h > 0 && Roomy(s, L, max, h - 1) && h < |L| == |L'|
    requires forall k :: 0 <= k < h ==> L'[k] == L[k] && SameButParents(s, t, L[k])
    ensures Roomy(t, L', max, h - 1)
  {
    forall k | 0 < k <= h - 1 ensures RoomyLevel(t, L'[k], max) {
      assert RoomyLevel(s, L[k], max) && SameButParents(s, t, L[k]);
      forall i | 0 <= i < |L[k]| ensures L[k][i] in t && |t[L[k][i]].keys| < max { assert SameButParent(s, t, L[k][i]); }
    }
  }

  /** Node i of level h took in a key and still has room. */
  lemma RoomyStays(s: Store, L: seq<seq<BTreeNode>>, u: Store, M: seq<seq<BTreeNode>>, h: nat, i: nat, max: nat)
    requires 0 < h < |L| == |M| && Roomy(s, L, max, h) && Roomy(u, M, max, h - 1) && i < |L[h]| && M[h] == L[h]
    requires KeysElsewhere(s, u, L[h], i) && L[h][i] in u && L[h][i] in s
    requires |u[L[h][i]].keys| <= |s[L[h][i]].keys| + 1 && |u[L[h][i]].keys| != max
    ensures Roomy(u, M, max, h)
  {
    assert RoomyLevel(s, L[h], max);
    forall k | 0 <= k < |L[h]| ensures L[h][k] in u && |u[L[h][k]].keys| < max {
    }
    assert RoomyLevel(u, M[h], max);
    forall k | 0 < k <= h ensures RoomyLevel(u, M[k], max) {
    }
  }

  /** Node i of level h was full and has been split. */
  lemma RoomySplit(s: Store, L: seq<seq<BTreeNode>>, u: Store, w: Store, L': seq<seq<BTreeNode>>, h: nat, i: nat, r: BTreeNode, max: nat)
    requires 0 < h < |L| == |L'| && Roomy(s, L, max, h) && Roomy(w, L', max, h - 1) && i < |L[h]| && L[h][i] in s
    requires KeysElsewhere(s, u, L[h], i) && KeysElsewhere(u, w, L[h], i)
    requires Grew(s, L, w, L', h, i, r) && r != L[h][i] && HalvesSized(w, L[h][i], r, max, h)
    ensures Roomy(w, L', max, h)
  {
    var y := w[r].children[1];
    assert L'[h] == Inserted(L[h], i + 1, y);
    assert RoomyLevel(s, L[h], max);
    forall k | 0 <= k < |L'[h]| ensures L'[h][k] in w && |w[L'[h][k]].keys| < max {
      if k != i && k != i + 1 { assert L'[h][k] == L[h][if k < i then k else k - 1]; }
    }
    assert RoomyLevel(w, L'[h], max);
    forall k | 0 < k <= h ensures RoomyLevel(w, L'[k], max) {
    }
  }

  lemma RoomyRoot(s: Store, L: seq<seq<BTreeNode>>, t: Store, L': seq<seq<BTreeNode>>, r: BTreeNode, max: nat)
    requires |L'| == |L| > 0 && Grew(s, L, t, L', |L| - 1, 0, r) && r != L[|L| - 1][0] && max >= 5
    requires Roomy(t, L', max, |L| - 1)
    ensures Roomy(t, L' + [[r]], max, |L|)
  {
    var M := L' + [[r]];
    forall k | 0 < k <= |L| ensures RoomyLevel(t, M[k], max) {
      if k < |L| { assert RoomyLevel(t, L'[k], max); }
    }
  }

  // ---------- Room after a removal ----------

  /** Internal nodes up to level h stay below every bound above twice the minimum. */
  ghost predicate KeepsRoom(s: Store, L: seq<seq<BTreeNode>>, u: Store, L': seq<seq<BTreeNode>>, max: nat, h: nat) {
    forall bound: nat :: 2 * MinKeys(max) < bound && Roomy(s, L, bound, h) ==> Roomy(u, L', bound, h)
  }

  /** The node has at most twice the minimum, or no more keys than some node of the level had. */
  ghost predicate NoBigger(s: Store, ns: seq<BTreeNode>, u: Store, n: BTreeNode, max: nat) {
    n in u && (|u[n].keys| <= 2 * MinKeys(max) || exists k :: 0 <= k < |ns| && ns[k] in s && |u[n].keys| <= |s[ns[k]].keys|)
  }

  lemma RoomAtLeaves(s: Store, L: seq<seq<BTreeNode>>, u: Store, L': seq<seq<BTreeNode>>, max: nat)
    ensures KeepsRoom(s, L, u, L', max, 0)
  {
  }

  lemma RoomUnchanged(s: Store, L: seq<seq<BTreeNode>>, max: nat)
    requires |L| > 0
    ensures KeepsRoom(s, L, s, L, max, |L| - 1)
  {
  }

  lemma RoomTrans(s: Store, L: seq<seq<BTreeNode>>, t: Store, M: seq<seq<BTreeNode>>, u: Store, L': seq<seq<BTreeNode>>, max: nat, h: nat)
    requires KeepsRoom(s, L, t, M, max, h) && KeepsRoom(t, M, u, L', max, h)
    ensures KeepsRoom(s, L, u, L', max, h)
  {
  }

  lemma RoomSame(s: Store, L: seq<seq<BTreeNode>>, u: Store, L': seq<seq<BTreeNode>>, max: nat, h: nat)
    requires h < |L| && h < |L'| && forall k :: 0 <= k <= h ==> L'[k] == L[k] && SameButParents(s, u, L[k])
    ensures KeepsRoom(s, L, u, L', max, h)
  {
    forall bound: nat | Roomy(s, L, bound, h) ensures Roomy(u, L', bound, h) {
      forall k | 0 < k <= h ensures RoomyLevel(u, L'[k], bound) {
        assert RoomyLevel(s, L[k], bound) && SameButParents(s, u, L[k]);
        forall i | 0 <= i < |L[k]| ensures L[k][i] in u && |u[L[k][i]].keys| < bound { assert SameButParent(s, u, L[k][i]); }
      }
    }
  }

  lemma RoomUp(s: Store, L: seq<seq<BTreeNode>>, u: Store, L': seq<seq<BTreeNode>>, max: nat, h: nat)
    requires 0 < h < |L| == |L'| && KeepsRoom(s, L, u, L', max, h - 1)
    requires forall m :: 0 <= m < |L'[h]| ==> NoBigger(s, L[h], u, L'[h][m], max)
    ensures KeepsRoom(s, L, u, L', max, h)
  {
    forall bound: nat | 2 * MinKeys(max) < bound && Roomy(s, L, bound, h) ensures Roomy(u, L', bound, h) {
      LessRoomy(s, L, bound, h);
      assert RoomyLevel(s, L[h], bound) && Roomy(u, L', bound, h - 1);
      forall m | 0 <= m < |L'[h]| ensures L'[h][m] in u && |u[L'[h][m]].keys| < bound {
        assert NoBigger(s, L[h], u, L'[h][m], max);
      }
      assert RoomyLevel(u, L'[h], bound);
      forall k | 0 < k <= h ensures RoomyLevel(u, L'[k], bound) {
      }
    }
  }

  // ---------- The root ----------

  /** An empty tree is one empty leaf. */
  lemma LoneLeaf(s: Store, leaf: BTreeNode, max: nat)
    requires leaf in s && s[leaf] == Rec(0, [], [], [], null, null, null) && max >= 5
    ensures Tree(s, [[leaf]]) && Sized(s, [[leaf]], max) && Entries(s, [leaf]) == []
  {
    var L := [[leaf]];
    assert LinkAt(s, L[0], 0);
    var xss := EntryLists(s, L[0]);
    FlatDrop(xss, 0);
    assert xss[..0] + xss[1..] == [];
    assert LevelOk(s, L, 0);
  }

  lemma SameRoot(s: Store, L: seq<seq<BTreeNode>>, t: Store, L': seq<seq<BTreeNode>>, max: nat)
    requires Tree(s, L) && Grew(s, L, t, L', |L| - 1, 0, L[|L| - 1][0]) && Sorted(Entries(t, L'[0]))
    requires GrownSized(t, L', max, |L| - 1, false)
    ensures Tree(t, L') && Sized(t, L', max) && |L'| == |L| && L'[|L| - 1] == L[|L| - 1]
  {
    assert LevelOk(t, L', |L| - 1) && LevelOk(t, L', 0);
    assert GrewNode(s, t, L[|L| - 1][0], L[|L| - 1][0], |L| - 1, L[|L| - 1][0]);
  }

  lemma NewRoot(s: Store, L: seq<seq<BTreeNode>>, t: Store, L': seq<seq<BTreeNode>>, r: BTreeNode, max: nat)
    requires Tree(s, L) && Grew(s, L, t, L', |L| - 1, 0, r) && r != L[|L| - 1][0] && Sorted(Entries(t, L'[0]))
    requires GrownSized(t, L', max, |L| - 1, true)
    ensures Tree(t, L' + [[r]]) && Sized(t, L' + [[r]], max)
  {
    var top := |L| - 1;
    var x, y := L[top][0], t[r].children[1];
    var M := L' + [[r]];
    assert GrewNode(s, t, x, L[top][0], top, r);
    assert LinkAt(t, [r], 0);
    assert ChildLists(t, [r]) == [[x, y]];
    assert Flat([[x, y]]) == [x, y] by { FlatAround([[x, y]], 0); }
    assert Separators(t, [x, y], top + 1) == [Left(t, y, top)];
    assert L'[top] == [x, y];
    assert InnerNode(t, r, top + 1);
    assert LevelOk(t, M, top + 1);
    forall k | 0 <= k < |L| ensures LevelOk(t, M, k) {
      assert LevelOk(t, L', k);
    }
  }
}
