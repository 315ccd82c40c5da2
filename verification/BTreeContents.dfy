/** What the entries of the leaves mean: a map from keys to sets of row ids. */
module BTreeContents {
  import opened Flatten
  import opened BTreeStore
  import opened BTreeSteps
  import opened BTreeSearch
  import opened SortedRows

  ghost predicate RowsOk(rows: seq<RowId>, unique: bool) {
    rows != [] && Increasing(rows) && (unique ==> |rows| == 1)
  }

  ghost predicate EntriesOk(es: seq<Entry>, unique: bool) {
    Sorted(es) && forall i :: 0 <= i < |es| ==> RowsOk(es[i].rows, unique)
  }

  ghost function ContentsOf(es: seq<Entry>): map<Key, set<RowId>> {
    if es == [] then map[] else ContentsOf(es[1..])[es[0].key := Elements(es[0].rows)]
  }

  /** How many row ids are filed in all. */
  ghost function Total(es: seq<Entry>): nat {
    if es == [] then 0 else |es[0].rows| + Total(es[1..])
  }

  lemma {:induction false} ContentsConcat(a: seq<Entry>, b: seq<Entry>)
    ensures ContentsOf(a + b) == ContentsOf(b) + ContentsOf(a)
    ensures Total(a + b) == Total(a) + Total(b)
  {
    if a == [] {
      assert a + b == b;
    } else {
      ContentsConcat(a[1..], b);
      assert (a + b)[1..] == a[1..] + b;
    }
  }

  /** Exactly the listed keys, each with its row ids. */
  lemma {:induction false} ContentsListed(es: seq<Entry>)
    requires Sorted(es)
    ensures forall i :: 0 <= i < |es| ==> es[i].key in ContentsOf(es) && ContentsOf(es)[es[i].key] == Elements(es[i].rows)
    ensures forall k :: k in ContentsOf(es) ==> exists i :: 0 <= i < |es| && es[i].key == k
  {
    if es != [] {
      ContentsListed(es[1..]);
      forall i | 0 <= i < |es|
        ensures es[i].key in ContentsOf(es) && ContentsOf(es)[es[i].key] == Elements(es[i].rows)
      {
        if i > 0 { assert es[i] == es[1..][i - 1]; }
      }
      forall k | k in ContentsOf(es) ensures exists i :: 0 <= i < |es| && es[i].key == k {
        if k == es[0].key {
          assert es[0].key == k;
        } else {
          var rest := es[1..];
          assert k in ContentsOf(rest);
          var i :| 0 <= i < |rest| && rest[i].key == k;
          assert es[i + 1].key == k;
        }
      }
    }
  }

  lemma {:induction false} ContentsBounded(es: seq<Entry>, key: Key)
    ensures AllBelow(es, key) ==> forall k :: k in ContentsOf(es) ==> k < key
    ensures AllAbove(es, key) ==> forall k :: k in ContentsOf(es) ==> key < k
  {
    if es != [] {
      ContentsBounded(es[1..], key);
      assert forall i :: 0 <= i < |es| - 1 ==> es[1..][i] == es[i + 1];
      if AllBelow(es, key) { assert AllBelow(es[1..], key) && es[0].key < key; }
      if AllAbove(es, key) { assert AllAbove(es[1..], key) && key < es[0].key; }
    }
  }

  ghost predicate AllRowsOk(es: seq<Entry>, unique: bool) {
    forall i :: 0 <= i < |es| ==> RowsOk(es[i].rows, unique)
  }

  /** Entries around a key, in order. */
  lemma Sandwich(a: seq<Entry>, e: Entry, b: seq<Entry>)
    requires Sorted(a) && Sorted(b) && AllBelow(a, e.key) && AllAbove(b, e.key)
    ensures Sorted(a + [e] + b)
    ensures ContentsOf(a + [e] + b) == ContentsOf(a + b)[e.key := Elements(e.rows)]
    ensures e.key !in ContentsOf(a + b)
    ensures Total(a + [e] + b) == Total(a + b) + |e.rows|
  {
    SandwichSorted(a, e, b);
    ContentsConcat(a + [e], b);
    ContentsConcat(a, [e]);
    ContentsConcat(a, b);
    ContentsBounded(a, e.key);
    ContentsBounded(b, e.key);
    OneEntry(e);
    hide Sorted, AllBelow, AllAbove, ContentsOf, Total;
  }

  lemma OneEntry(e: Entry)
    ensures ContentsOf([e]) == map[e.key := Elements(e.rows)] && Total([e]) == |e.rows|
  {
    assert [e][1..] == [];
  }

  lemma SandwichSorted(a: seq<Entry>, e: Entry, b: seq<Entry>)
    requires Sorted(a) && Sorted(b) && AllBelow(a, e.key) && AllAbove(b, e.key)
    ensures Sorted(a + [e] + b)
  {
    var es := a + [e] + b;
    forall i, j | 0 <= i < j < |es| ensures es[i].key < es[j].key {
      assert i < |a| ==> es[i] == a[i] && a[i].key < e.key;
      assert j > |a| ==> es[j] == b[j - |a| - 1] && e.key < b[j - |a| - 1].key;
      assert i > |a| ==> es[i] == b[i - |a| - 1];
    }
  }

  lemma JoinSorted(a: seq<Entry>, b: seq<Entry>, key: Key)
    requires Sorted(a) && Sorted(b) && AllBelow(a, key) && AllAbove(b, key)
    ensures Sorted(a + b)
  {
    var es := a + b;
    forall i, j | 0 <= i < j < |es| ensures es[i].key < es[j].key {
      assert i < |a| ==> es[i] == a[i] && a[i].key < key;
      assert j >= |a| ==> es[j] == b[j - |a|] && key < b[j - |a|].key;
      assert i >= |a| ==> es[i] == b[i - |a|];
    }
  }

  /** The list cut at a key it does or does not have. */
  ghost predicate CutAt(es: seq<Entry>, a: seq<Entry>, mid: seq<Entry>, b: seq<Entry>, key: Key, unique: bool) {
    && es == a + mid + b && |mid| <= 1
    && Sorted(a) && Sorted(b) && AllBelow(a, key) && AllAbove(b, key)
    && AllRowsOk(a, unique) && AllRowsOk(b, unique)
    && (mid != [] ==> mid[0].key == key && RowsOk(mid[0].rows, unique))
  }

  /** Filing the rows under the key, or dropping the key when there are none. */
  lemma Refile(es: seq<Entry>, a: seq<Entry>, mid: seq<Entry>, b: seq<Entry>, key: Key, unique: bool, mid': seq<Entry>)
    requires CutAt(es, a, mid, b, key, unique) && |mid'| <= 1
    requires mid' != [] ==> mid'[0].key == key && RowsOk(mid'[0].rows, unique)
    ensures var es' := a + mid' + b;
      && EntriesOk(es', unique)
      && (key in ContentsOf(es) <==> mid != []) && (mid != [] ==> ContentsOf(es)[key] == Elements(mid[0].rows))
      && ContentsOf(es') == (if mid' == [] then ContentsOf(es) - {key} else ContentsOf(es)[key := Elements(mid'[0].rows)])
      && Total(es') == Total(es) - (if mid == [] then 0 else |mid[0].rows|) + (if mid' == [] then 0 else |mid'[0].rows|)
  {
    RefileOne(a, mid, b, key, unique);
    RefileOne(a, mid', b, key, unique);
    ContentsConcat(a, b);
    ContentsBounded(a, key);
    ContentsBounded(b, key);
    assert key !in ContentsOf(a + b);
  }

  lemma RefileOne(a: seq<Entry>, mid: seq<Entry>, b: seq<Entry>, key: Key, unique: bool)
    requires CutAt(a + mid + b, a, mid, b, key, unique)
    ensures EntriesOk(a + mid + b, unique)
    ensures ContentsOf(a + mid + b) == (if mid == [] then ContentsOf(a + b) else ContentsOf(a + b)[key := Elements(mid[0].rows)])
    ensures Total(a + mid + b) == Total(a + b) + (if mid == [] then 0 else |mid[0].rows|)
  {
    if mid == [] {
      assert a + mid + b == a + b;
      JoinSorted(a, b, key);
    } else {
      assert mid == [mid[0]];
      Sandwich(a, mid[0], b);
    }
  }

  /** The fenced leaf says where to cut. */
  lemma CutInLeaf(before: seq<Entry>, r: Rec, after: seq<Entry>, key: Key, pos: nat, unique: bool)
    requires |r.keys| == |r.values| && KeysSorted(r.keys) && SearchPos(r.keys, key, pos)
    requires AllBelow(before, key) && AllAbove(after, key) && EntriesOk(before + LeafEntries(r) + after, unique)
    ensures var found := pos < |r.keys| && r.keys[pos] == key;
      var mine := LeafEntries(r);
      CutAt(before + mine + after, before + mine[..pos], if found then [Entry(key, r.values[pos])] else [],
            mine[if found then pos + 1 else pos..] + after, key, unique)
  {
    var mine, es := LeafEntries(r), before + LeafEntries(r) + after;
    var found := pos < |r.keys| && r.keys[pos] == key;
    var q := if found then pos + 1 else pos;
    var mid := if found then [Entry(key, r.values[pos])] else [];
    assert mine[pos..q] == mid;
    CutParts(before, mine, after, pos, q);
    assert AllBelow(before + mine[..pos], key);
    CutLow(es, before + mine[..pos], key, |before| + pos, unique);
    AboveLeaf(mine, after, key, q);
    CutHigh(es, mine[q..] + after, key, |before| + q, unique);
    if found { assert es[|before| + pos] == mine[pos]; }
  }

  lemma CutParts(before: seq<Entry>, mine: seq<Entry>, after: seq<Entry>, p: nat, q: nat)
    requires p <= q <= |mine|
    ensures before + mine + after == before + mine[..p] + mine[p..q] + (mine[q..] + after)
    ensures before + mine[..p] == (before + mine + after)[..|before| + p]
    ensures mine[q..] + after == (before + mine + after)[|before| + q..]
  {
  }

  lemma AboveLeaf(mine: seq<Entry>, after: seq<Entry>, key: Key, q: nat)
    requires q <= |mine| && AllAbove(after, key) && forall i :: q <= i < |mine| ==> key < mine[i].key
    ensures AllAbove(mine[q..] + after, key)
  {
  }

  lemma CutLow(es: seq<Entry>, a: seq<Entry>, key: Key, p: nat, unique: bool)
    requires EntriesOk(es, unique) && p <= |es| && a == es[..p] && AllBelow(a, key)
    ensures Sorted(a) && AllRowsOk(a, unique)
  {
  }

  lemma CutHigh(es: seq<Entry>, b: seq<Entry>, key: Key, q: nat, unique: bool)
    requires EntriesOk(es, unique) && q <= |es| && b == es[q..] && AllAbove(b, key)
    ensures Sorted(b) && AllRowsOk(b, unique)
  {
  }
}
