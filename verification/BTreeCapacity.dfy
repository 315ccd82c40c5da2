/** A tree with an even maximum in which one removal fills an internal node up to the maximum. */
module BTreeCapacity {
  import opened Flatten
  import opened BTreeStore
  import opened BTreeRebalance
  import opened BTreeSteps
  import opened BTreeDeletion
  import opened BTreeContents
  import opened BTreeUpdates
  import opened BTreeRemoval

  const MAX := 6

  /** Seven leaves below two internal nodes below the root. */
  ghost predicate TenNodes(ns: seq<BTreeNode>) { |ns| == 10 && Distinct(ns) }

  /** The first leaf has a key to spare, until it has lost it. */
  function LeafKeys(k: nat, lost: bool): seq<Key> {
    if k > 0 then [10 * k, 10 * k + 1, 10 * k + 2] else if lost then [2, 3, 4] else [1, 2, 3, 4]
  }

  /** Every key has one row, with the same number. */
  function LeafValues(k: nat, lost: bool): seq<seq<RowId>> {
    if k > 0 then [[10 * k], [10 * k + 1], [10 * k + 2]] else if lost then [[2], [3], [4]] else [[1], [2], [3], [4]]
  }

  ghost function RecOf(ns: seq<BTreeNode>, k: nat, lost: bool): Rec
    requires |ns| == 10
  {
    if k < 7 then Rec(0, LeafKeys(k, lost), LeafValues(k, lost), [], if k < 3 then ns[7] else ns[8], At(ns[..7], k - 1), At(ns[..7], k + 1))
    else if k == 7 then Rec(1, [10, 20], [], ns[..3], ns[9], null, ns[8])
    else if k == 8 then Rec(1, [40, 50, 60], [], ns[3..7], ns[9], ns[7], null)
    else Rec(2, [30], [], [ns[7], ns[8]], null, null, null)
  }

  ghost function PlaceOf(ns: seq<BTreeNode>, n: BTreeNode): (k: nat)
    requires n in ns
    ensures k < |ns| && ns[k] == n
  {
    var k: nat :| k < |ns| && ns[k] == n; k
  }

  ghost function Shape(ns: seq<BTreeNode>, lost: bool): Store
    requires |ns| == 10
  {
    map n | n in ns :: RecOf(ns, PlaceOf(ns, n), lost)
  }

  ghost function Levels(ns: seq<BTreeNode>): seq<seq<BTreeNode>>
    requires |ns| == 10
  {
    [ns[..7], ns[7..9], ns[9..]]
  }

  lemma NodeIs(ns: seq<BTreeNode>, k: nat, lost: bool)
    requires TenNodes(ns) && k < 10
    ensures ns[k] in Shape(ns, lost) && Shape(ns, lost)[ns[k]] == RecOf(ns, k, lost)
  {
    var j := PlaceOf(ns, ns[k]);
    assert j < k ==> Differ(ns, j, k);
    assert k < j ==> Differ(ns, k, j);
  }

  lemma PartDistinct(ns: seq<BTreeNode>, a: nat, b: nat)
    requires Distinct(ns) && a <= b <= |ns|
    ensures Distinct(ns[a..b])
  {
    forall i, j | 0 <= i < j < |ns[a..b]| ensures Differ(ns[a..b], i, j) { assert Differ(ns, a + i, a + j); }
  }

  lemma LeavesOk(ns: seq<BTreeNode>, lost: bool)
    requires TenNodes(ns)
    ensures LevelOk(Shape(ns, lost), Levels(ns), 0)
  {
    var s, leaves := Shape(ns, lost), ns[..7];
    PartDistinct(ns, 0, 7);
    forall k | 0 <= k < 7 ensures leaves[k] in s && s[leaves[k]] == RecOf(ns, k, lost) && LinkAt(s, leaves, k) { NodeIs(ns, k, lost); }
    assert LeafLevel(s, leaves);
  }

  lemma LeafLeft(ns: seq<BTreeNode>, k: nat, lost: bool)
    requires TenNodes(ns) && k < 7
    ensures var s := Shape(ns, lost);
      ns[k] in s && s[ns[k]].parent == (if k < 3 then ns[7] else ns[8]) && (k > 0 ==> Left(s, ns[k], 0) == 10 * k)
  {
    NodeIs(ns, k, lost);
  }

  lemma IsInner(s: Store, n: BTreeNode, cs: seq<BTreeNode>)
    requires n in s && s[n].children == cs && cs != [] && |s[n].keys| == |cs| - 1
    requires forall p :: 0 <= p < |cs| ==> cs[p] in s && s[cs[p]].parent == n && (p > 0 ==> Left(s, cs[p], 0) == s[n].keys[p - 1])
    ensures InnerNode(s, n, 1) && Left(s, n, 1) == Left(s, cs[0], 0)
  {
    hide Left;
    assert s[n].keys == Separators(s, cs, 1);
    assert Left(s, n, 1) == Left(s, cs[0], 0) by { LeftOfInner(s, n); }
  }

  lemma LeftOfInner(s: Store, n: BTreeNode)
    requires n in s && s[n].children != []
    ensures Left(s, n, 1) == Left(s, s[n].children[0], 0)
  {
  }

  lemma LeftInner(ns: seq<BTreeNode>, lost: bool)
    requires TenNodes(ns)
    ensures ns[7] in Shape(ns, lost) && InnerNode(Shape(ns, lost), ns[7], 1)
  {
    hide Left, Shape, Distinct, InnerNode;
    NodeIs(ns, 7, lost);
    forall p: nat | p < 3 { LeafLeft(ns, p, lost); }
    IsInner(Shape(ns, lost), ns[7], ns[..3]);
  }

  lemma RightInner(ns: seq<BTreeNode>, lost: bool)
    requires TenNodes(ns)
    ensures ns[8] in Shape(ns, lost) && InnerNode(Shape(ns, lost), ns[8], 1) && Left(Shape(ns, lost), ns[8], 1) == 30
  {
    hide Left, Shape, Distinct, InnerNode;
    NodeIs(ns, 8, lost);
    forall p: nat | 3 <= p < 7 { LeafLeft(ns, p, lost); }
    IsInner(Shape(ns, lost), ns[8], ns[3..7]);
  }

  lemma InnersOk(ns: seq<BTreeNode>, lost: bool)
    requires TenNodes(ns)
    ensures LevelOk(Shape(ns, lost), Levels(ns), 1)
  {
    hide InnerNode, Left, Flat;
    var s, inner := Shape(ns, lost), [ns[7], ns[8]];
    assert ns[7..9] == inner;
    PartDistinct(ns, 7, 9);
    NodeIs(ns, 7, lost);
    NodeIs(ns, 8, lost);
    LeftInner(ns, lost);
    RightInner(ns, lost);
    assert LinkAt(s, inner, 0) && LinkAt(s, inner, 1);
    FlatTwo(ns[..3], ns[3..7]);
    assert ChildLists(s, inner) == [ns[..3], ns[3..7]] && ns[..3] + ns[3..7] == ns[..7];
  }

  lemma RootOk(ns: seq<BTreeNode>, lost: bool)
    requires TenNodes(ns)
    ensures LevelOk(Shape(ns, lost), Levels(ns), 2) && Shape(ns, lost)[ns[9]].parent == null
  {
    hide Left, Flat, Shape, InnerNode;
    var s, cs := Shape(ns, lost), [ns[7], ns[8]];
    LevelsAre(ns);
    NodeIs(ns, 9, lost);
    RootInner(ns, lost);
    assert LinkAt(s, [ns[9]], 0);
    FlatOne(cs);
    assert ChildLists(s, [ns[9]]) == [cs];
  }

  lemma RootInner(ns: seq<BTreeNode>, lost: bool)
    requires TenNodes(ns)
    ensures ns[9] in Shape(ns, lost) && InnerNode(Shape(ns, lost), ns[9], 2)
  {
    hide Left, Shape, Distinct;
    NodeIs(ns, 7, lost);
    NodeIs(ns, 8, lost);
    NodeIs(ns, 9, lost);
    RightInner(ns, lost);
    assert [30] == Separators(Shape(ns, lost), [ns[7], ns[8]], 2);
  }

  lemma FlatOne<T>(a: seq<T>)
    ensures Flat([a]) == a
  {
    assert [a][1..] == [];
  }

  lemma FlatTwo<T>(a: seq<T>, b: seq<T>)
    ensures Flat([a, b]) == a + b
  {
    assert [a, b][1..] == [b];
    FlatOne(b);
  }

  // ---------- The tree before the removal ----------

  /** The entries of each leaf lie between its multiple of ten and the next. */
  lemma {:induction false} BucketsSorted(ess: seq<seq<Entry>>, from: nat)
    requires forall k :: 0 <= k < |ess| ==> Sorted(ess[k])
    requires forall k, i :: 0 <= k < |ess| && 0 <= i < |ess[k]| ==> 10 * (from + k) <= ess[k][i].key < 10 * (from + k) + 10
    ensures Sorted(Flat(ess)) && forall i :: 0 <= i < |Flat(ess)| ==> 10 * from <= Flat(ess)[i].key
  {
    if ess != [] {
      var rest: seq<seq<Entry>> := ess[1..];
      forall k: nat, i: nat | k < |rest| && i < |rest[k]| ensures 10 * (from + 1 + k) <= rest[k][i].key < 10 * (from + 1 + k) + 10 {
        assert rest[k] == ess[k + 1];
      }
      BucketsSorted(rest, from + 1);
    }
  }

  lemma EntriesSorted(ns: seq<BTreeNode>)
    requires TenNodes(ns)
    ensures Sorted(Entries(Shape(ns, false), ns[..7]))
  {
    hide Shape, Distinct, Sorted, Flat, RecOf;
    var s, leaves := Shape(ns, false), ns[..7];
    var ess := EntryLists(s, leaves);
    forall k | 0 <= k < 7
      ensures Sorted(ess[k]) && forall i :: 0 <= i < |ess[k]| ==> 10 * k <= ess[k][i].key < 10 * k + 10
    {
      NodeIs(ns, k, false);
      LeafSorted(ns, k);
    }
    BucketsSorted(ess, 0);
  }

  lemma LeafSorted(ns: seq<BTreeNode>, k: nat)
    requires |ns| == 10 && k < 7
    ensures var es := LeafEntries(RecOf(ns, k, false));
      Sorted(es) && forall i :: 0 <= i < |es| ==> 10 * k <= es[i].key < 10 * k + 10
  {
  }

  /** A sound tree, with no internal node at the maximum. */
  lemma BeforeIsSound(ns: seq<BTreeNode>)
    requires TenNodes(ns)
    ensures var s, L := Shape(ns, false), Levels(ns);
      Tree(s, L) && Sized(s, L, MAX) && Roomy(s, L, MAX, 2)
  {
    var s, L := Shape(ns, false), Levels(ns);
    hide *;
    LeavesOk(ns, false);
    InnersOk(ns, false);
    RootOk(ns, false);
    EntriesSorted(ns);
    SizesAre(ns, false);
    LevelsAre(ns);
    Assembled(s, L, ns);
  }

  lemma LevelsAre(ns: seq<BTreeNode>)
    requires |ns| == 10
    ensures Levels(ns) == [ns[..7], ns[7..9], ns[9..]] && ns[7..9] == [ns[7], ns[8]] && ns[9..] == [ns[9]]
  {
  }

  lemma Assembled(s: Store, L: seq<seq<BTreeNode>>, ns: seq<BTreeNode>)
    requires |ns| == 10 && |L| == 3 && L[0] == ns[..7] && L[1] == [ns[7], ns[8]] && L[2] == [ns[9]]
    requires LevelOk(s, L, 0) && LevelOk(s, L, 1) && LevelOk(s, L, 2) && Sorted(Entries(s, L[0]))
    requires NonRootSized(s, L[0], MAX, 0) && NonRootSized(s, L[1], MAX, 1) && RootSized(s, ns[9], MAX, 2)
    requires ns[7] in s && ns[8] in s && ns[9] in s && s[ns[9]].parent == null
    requires |s[ns[7]].keys| == 2 && |s[ns[8]].keys| == 3 && |s[ns[9]].keys| == 1
    ensures Tree(s, L) && Sized(s, L, MAX) && Roomy(s, L, MAX, 2)
  {
    hide LevelOk, Entries, Sorted, NonRootSized, RootSized;
  }

  lemma SizesAre(ns: seq<BTreeNode>, lost: bool)
    requires TenNodes(ns)
    ensures var s, L := Shape(ns, lost), Levels(ns);
      && NonRootSized(s, L[0], MAX, 0) && NonRootSized(s, L[1], MAX, 1) && RootSized(s, ns[9], MAX, 2) && Tall(s, L, 1)
      && ns[7] in s && ns[8] in s && ns[9] in s && |s[ns[7]].keys| == 2 && |s[ns[8]].keys| == 3 && |s[ns[9]].keys| == 1
  {
    hide Shape, Distinct;
    LevelsAre(ns);
    forall k: nat | k < 10 ensures ns[k] in Shape(ns, lost) && Shape(ns, lost)[ns[k]] == RecOf(ns, k, lost) { NodeIs(ns, k, lost); }
  }

  // ---------- The removal of key 1 ----------

  /** The leaf still has the minimum, so the first node to be repaired is its parent, where fix() finds the
      keys it had. */
  lemma KeyOneRemoved(ns: seq<BTreeNode>, s1: Store, s2: Store)
    requires TenNodes(ns) && LeafPut(Shape(ns, false), s1, ns[0], 1, 0, []) && Fixed(s1, s2, ns[7], 1)
    ensures s2 == Shape(ns, true) && |s1[ns[0]].keys| == MinKeys(MAX)
  {
    hide Shape, Distinct, LeafPut;
    NodeIs(ns, 0, false);
    FirstLeafLoses(ns, s1);
    assert s1[ns[0]] == RecOf(ns, 0, true);
    OnlyFirstLeaf(ns, s1);
    LeftInner(ns, true);
    NodeIs(ns, 7, true);
  }

  lemma FirstLeafLoses(ns: seq<BTreeNode>, s1: Store)
    requires TenNodes(ns) && LeafPut(Shape(ns, false), s1, ns[0], 1, 0, [])
    ensures var s := Shape(ns, false);
      ns[0] in s && s1 == s[ns[0] := s[ns[0]].(keys := [2, 3, 4], values := [[2], [3], [4]])]
  {
    hide Shape, Distinct, RecOf, LeafEntries;
    var r, r' := RecOf(ns, 0, false), s1[ns[0]];
    NodeIs(ns, 0, false);
    FirstLeafIs(ns);
    assert FoundAt(r, 1, 0) && LeafEntries(r') == LeafEntries(r)[1..];
    OneToFour(r, r');
  }

  lemma FirstLeafIs(ns: seq<BTreeNode>)
    requires |ns| == 10
    ensures RecOf(ns, 0, false).keys == [1, 2, 3, 4] && RecOf(ns, 0, false).values == [[1], [2], [3], [4]]
  {
  }

  /** The entries of a leaf determine its keys and values. */
  lemma OneToFour(r: Rec, r': Rec)
    requires r.keys == [1, 2, 3, 4] && r.values == [[1], [2], [3], [4]]
    requires |r'.keys| == |r'.values| && LeafEntries(r') == LeafEntries(r)[1..]
    ensures r'.keys == [2, 3, 4] && r'.values == [[2], [3], [4]]
  {
    var es, es' := LeafEntries(r), LeafEntries(r');
    assert |es| == 4 && |es'| == 3;
    assert es'[0] == es[1] == Entry(2, [2]) && es'[1] == es[2] == Entry(3, [3]) && es'[2] == es[3] == Entry(4, [4]);
  }

  lemma OnlyFirstLeaf(ns: seq<BTreeNode>, s1: Store)
    requires TenNodes(ns) && ns[0] in Shape(ns, false) && s1 == Shape(ns, false)[ns[0] := RecOf(ns, 0, true)]
    ensures s1 == Shape(ns, true)
  {
    hide RecOf;
    forall n | n in ns ensures Shape(ns, true)[n] == s1[n] {
      var k := PlaceOf(ns, n);
      NodeIs(ns, k, true);
      NodeIs(ns, k, false);
      if k > 0 {
        assert Differ(ns, 0, k);
        SameButFirst(ns, k);
      }
    }
  }

  lemma SameButFirst(ns: seq<BTreeNode>, k: nat)
    requires |ns| == 10 && k > 0
    ensures RecOf(ns, k, true) == RecOf(ns, k, false)
  {
  }

  /** There is such a removal: the tree it leads to is the one with the shorter leaf. */
  lemma KeyOneCanBeRemoved(ns: seq<BTreeNode>)
    requires TenNodes(ns)
    ensures LeafPut(Shape(ns, false), Shape(ns, true), ns[0], 1, 0, []) && Fixed(Shape(ns, true), Shape(ns, true), ns[7], 1)
  {
    hide Shape, Distinct, LeafEntries;
    var s := Shape(ns, false);
    NodeIs(ns, 0, false);
    NodeIs(ns, 0, true);
    OnlyFirstLeaf(ns, s[ns[0] := RecOf(ns, 0, true)]);
    LastThree(RecOf(ns, 0, false), RecOf(ns, 0, true));
    LeftInner(ns, true);
  }

  lemma LastThree(r: Rec, r': Rec)
    requires r.keys == [1, 2, 3, 4] && r.values == [[1], [2], [3], [4]] && r'.keys == [2, 3, 4] && r'.values == [[2], [3], [4]]
    ensures LeafEntries(r') == LeafEntries(r)[..0] + [] + LeafEntries(r)[1..]
  {
  }

  /** That parent is one key short of the minimum and its neighbour has none to spare: the merge makes one
      node with as many keys as the maximum. */
  lemma RemovalReachesMaximum(ns: seq<BTreeNode>, s1: Store, s2: Store)
    requires TenNodes(ns) && LeafPut(Shape(ns, false), s1, ns[0], 1, 0, []) && Fixed(s1, s2, ns[7], 1)
    ensures Tree(Shape(ns, false), Levels(ns)) && Sized(Shape(ns, false), Levels(ns), MAX) && Roomy(Shape(ns, false), Levels(ns), MAX, 2)
    ensures MergeContext(s2, Levels(ns), 1, 0, 0, MAX) && |s2[ns[7]].keys| == MinKeys(MAX) - 1 && |s2[ns[8]].keys| == MinKeys(MAX)
    ensures var t := EmptiedStore(s2, Levels(ns), 1, 0, 0, MAX); ns[8] in t && |t[ns[8]].keys| == MAX
  {
    var L := Levels(ns);
    BeforeIsSound(ns);
    KeyOneRemoved(ns, s1, s2);
    SizesAre(ns, true);
    LeavesOk(ns, true);
    InnersOk(ns, true);
    hide *;
    LevelsAre(ns);
    Mergeable(s2, L, ns);
    MergeFillsIff(s2, EmptiedStore(s2, L, 1, 0, 0, MAX), L, 1, 0, 0, MAX);
  }

  lemma Mergeable(s: Store, L: seq<seq<BTreeNode>>, ns: seq<BTreeNode>)
    requires |ns| == 10 && |L| == 3 && L[0] == ns[..7] && L[1] == [ns[7], ns[8]] && L[2] == [ns[9]]
    requires LevelOk(s, L, 0) && LevelOk(s, L, 1) && NonRootSized(s, L[0], MAX, 0) && NonRootSized(s, L[1], MAX, 1) && Tall(s, L, 1)
    requires ns[7] in s && ns[8] in s && |s[ns[7]].keys| == 2 && |s[ns[8]].keys| == 3
    ensures MergeContext(s, L, 1, 0, 0, MAX) && |s[ns[7]].keys| == MinKeys(MAX) - 1 && |s[ns[8]].keys| == MinKeys(MAX)
    ensures MAX % 2 == 0
  {
    hide LevelOk, Tall;
    assert NonRootNode(s, L[1][0], MAX, 1) && NonRootNode(s, L[1][1], MAX, 1);
  }
}
