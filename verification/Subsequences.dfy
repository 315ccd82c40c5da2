/** Longest common subsequence of two sequences, for any way of comparing elements. */
module Subsequences {

  type Pairs = seq<(nat, nat)>

  /** Pairs of positions with comparable elements, in order in both sequences. */
  ghost predicate IsMatching<T>(a: seq<T>, b: seq<T>, same: (T, T) -> bool, m: Pairs) {
    && (forall k :: 0 <= k < |m| ==> m[k].0 < |a| && m[k].1 < |b| && same(a[m[k].0], b[m[k].1]))
    && (forall k, l :: 0 <= k < l < |m| ==> m[k].0 < m[l].0 && m[k].1 < m[l].1)
  }

  /** The entry of the table for the first i and the first j elements. */
  function Best<T>(a: seq<T>, b: seq<T>, same: (T, T) -> bool, i: nat, j: nat): nat
    requires i <= |a| && j <= |b|
    decreases i + j
  {
    if i == 0 || j == 0 then 0
    else if same(a[i - 1], b[j - 1]) then Best(a, b, same, i - 1, j - 1) + 1
    else Max(Best(a, b, same, i - 1, j), Best(a, b, same, i, j - 1))
  }

  function Max(x: nat, y: nat): nat { if x < y then y else x }

  /** The pairs on the way back through the table. */
  function Matching<T>(a: seq<T>, b: seq<T>, same: (T, T) -> bool, i: nat, j: nat): (m: Pairs)
    requires i <= |a| && j <= |b|
    ensures forall k :: 0 <= k < |m| ==> m[k].0 < i && m[k].1 < j
    decreases i + j
  {
    if i == 0 || j == 0 then []
    else if same(a[i - 1], b[j - 1]) then Matching(a, b, same, i - 1, j - 1) + [(i - 1, j - 1)]
    else if Best(a, b, same, i - 1, j) > Best(a, b, same, i, j - 1) then Matching(a, b, same, i - 1, j)
    else Matching(a, b, same, i, j - 1)
  }

  lemma {:induction false} MatchingMatches<T>(a: seq<T>, b: seq<T>, same: (T, T) -> bool, i: nat, j: nat)
    requires i <= |a| && j <= |b|
    ensures IsMatching(a, b, same, Matching(a, b, same, i, j))
    ensures |Matching(a, b, same, i, j)| == Best(a, b, same, i, j)
    decreases i + j
  {
    if i > 0 && j > 0 {
      if same(a[i - 1], b[j - 1]) {
        MatchingMatches(a, b, same, i - 1, j - 1);
        var m := Matching(a, b, same, i - 1, j - 1);
        assert IsMatching(a, b, same, m + [(i - 1, j - 1)]);
      } else if Best(a, b, same, i - 1, j) > Best(a, b, same, i, j - 1) {
        MatchingMatches(a, b, same, i - 1, j);
      } else {
        MatchingMatches(a, b, same, i, j - 1);
      }
    }
  }

  /** No matching is longer. */
  lemma {:induction false} MatchingIsLongest<T>(a: seq<T>, b: seq<T>, same: (T, T) -> bool, i: nat, j: nat, m: Pairs)
    requires i <= |a| && j <= |b| && IsMatching(a, b, same, m) && forall k :: 0 <= k < |m| ==> m[k].0 < i && m[k].1 < j
    ensures |m| <= Best(a, b, same, i, j)
    decreases i + j
  {
    if m != [] {
      var last, rest := m[|m| - 1], m[..|m| - 1];
      assert i > 0 && j > 0;
      if same(a[i - 1], b[j - 1]) {
        forall k | 0 <= k < |rest| ensures rest[k].0 < i - 1 && rest[k].1 < j - 1 { assert m[k].0 < last.0 && m[k].1 < last.1; }
        MatchingIsLongest(a, b, same, i - 1, j - 1, rest);
      } else if last.0 < i - 1 {
        MatchingIsLongest(a, b, same, i - 1, j, m);
      } else {
        assert last.1 < j - 1;
        MatchingIsLongest(a, b, same, i, j - 1, m);
      }
    }
  }

  /** The pairs that are found match elements in order, and no such pairing has more. */
  lemma LongestMatching<T>(a: seq<T>, b: seq<T>, same: (T, T) -> bool)
    ensures IsMatching(a, b, same, Matching(a, b, same, |a|, |b|))
    ensures forall m :: IsMatching(a, b, same, m) ==> |m| <= |Matching(a, b, same, |a|, |b|)|
  {
    MatchingMatches(a, b, same, |a|, |b|);
    forall m | IsMatching(a, b, same, m) ensures |m| <= |Matching(a, b, same, |a|, |b|)| {
      MatchingIsLongest(a, b, same, |a|, |b|, m);
    }
  }

  function Collected<U>(m: Pairs, collect: (nat, nat) --> U): seq<U>
    requires forall k :: 0 <= k < |m| ==> collect.requires(m[k].0, m[k].1)
  {
    seq(|m|, k requires 0 <= k < |m| => collect(m[k].0, m[k].1))
  }

  lemma CollectedNext<T, U>(a: seq<T>, b: seq<T>, same: (T, T) -> bool, i: nat, j: nat, collect: (nat, nat) --> U)
    requires 0 < i <= |a| && 0 < j <= |b| && same(a[i - 1], b[j - 1])
    requires forall p: nat, q: nat :: p < |a| && q < |b| ==> collect.requires(p, q)
    ensures Collected(Matching(a, b, same, i, j), collect) == Collected(Matching(a, b, same, i - 1, j - 1), collect) + [collect(i - 1, j - 1)]
  {
  }

  /** What the collector makes of each pair, in order. */
  method LongestCommonSubsequence<T, U>(a: seq<T>, b: seq<T>, same: (T, T) -> bool, collect: (nat, nat) --> U) returns (result: seq<U>)
    requires forall i: nat, j: nat :: i < |a| && j < |b| ==> collect.requires(i, j)
    ensures result == Collected(Matching(a, b, same, |a|, |b|), collect)
  {
    hide Collected;
    var table := FillTable(a, b, same);
    result := [];
    var i: nat, j: nat := |a|, |b|;
    ghost var all := Collected(Matching(a, b, same, i, j), collect);
    assert all + [] == all;
    while i > 0 && j > 0
      invariant i <= |a| && j <= |b|
      invariant Collected(Matching(a, b, same, i, j), collect) + result == all
      decreases i + j
    {
      assert RowDone(a, b, same, table[i], i) && RowDone(a, b, same, table[i - 1], i - 1);
      if same(a[i - 1], b[j - 1]) {
        CollectedNext(a, b, same, i, j, collect);
        result := [collect(i - 1, j - 1)] + result;
        i, j := i - 1, j - 1;
      } else if table[i - 1][j] > table[i][j - 1] {
        i := i - 1;
      } else {
        j := j - 1;
      }
    }
    assert Collected(Matching(a, b, same, i, j), collect) == [] by { NothingCollected(collect); }
  }

  lemma NothingCollected<U>(collect: (nat, nat) --> U)
    ensures Collected([], collect) == []
  {
  }

  ghost predicate RowDone<T>(a: seq<T>, b: seq<T>, same: (T, T) -> bool, row: seq<nat>, p: nat)
    requires p <= |a|
  {
    |row| == |b| + 1 && forall q :: 0 <= q <= |b| ==> row[q] == Best(a, b, same, p, q)
  }

  method FillTable<T>(a: seq<T>, b: seq<T>, same: (T, T) -> bool) returns (table: seq<seq<nat>>)
    ensures |table| == |a| + 1
    ensures forall p :: 0 <= p <= |a| ==> RowDone(a, b, same, table[p], p)
  {
    table := [seq(|b| + 1, _ => 0)];
    assert RowDone(a, b, same, table[0], 0);
    hide RowDone;
    for i := 1 to |a| + 1
      invariant |table| == i
      invariant forall p :: 0 <= p < i ==> RowDone(a, b, same, table[p], p)
    {
      var row := FillRow(a, b, same, i, table[i - 1]);
      table := table + [row];
    }
  }

  /** The first n entries of the row. */
  ghost predicate RowUpTo<T>(a: seq<T>, b: seq<T>, same: (T, T) -> bool, row: seq<nat>, i: nat, n: nat)
    requires i <= |a| && n <= |b| + 1
  {
    |row| == n && forall q :: 0 <= q < n ==> row[q] == Best(a, b, same, i, q)
  }

  lemma RowNext<T>(a: seq<T>, b: seq<T>, same: (T, T) -> bool, above: seq<nat>, row: seq<nat>, i: nat, j: nat)
    requires 0 < i <= |a| && 0 < j <= |b| && RowDone(a, b, same, above, i - 1) && RowUpTo(a, b, same, row, i, j)
    ensures RowUpTo(a, b, same, row + [if same(a[i - 1], b[j - 1]) then above[j - 1] + 1 else Max(above[j], row[j - 1])], i, j + 1)
  {
  }

  lemma RowStarts<T>(a: seq<T>, b: seq<T>, same: (T, T) -> bool, i: nat)
    requires i <= |a|
    ensures RowUpTo(a, b, same, [0], i, 1)
  {
  }

  method FillRow<T>(a: seq<T>, b: seq<T>, same: (T, T) -> bool, i: nat, above: seq<nat>) returns (row: seq<nat>)
    requires 0 < i <= |a| && RowDone(a, b, same, above, i - 1)
    ensures RowDone(a, b, same, row, i)
  {
    hide Best;
    row := [0];
    RowStarts(a, b, same, i);
    for j := 1 to |b| + 1
      invariant |row| == j && RowUpTo(a, b, same, row, i, j)
    {
      hide RowUpTo;
      RowNext(a, b, same, above, row, i, j);
      row := row + [if same(a[i - 1], b[j - 1]) then above[j - 1] + 1 else Max(above[j], row[j - 1])];
    }
    RowComplete(a, b, same, row, i);
  }

  lemma RowComplete<T>(a: seq<T>, b: seq<T>, same: (T, T) -> bool, row: seq<nat>, i: nat)
    requires i <= |a| && RowUpTo(a, b, same, row, i, |b| + 1)
    ensures RowDone(a, b, same, row, i)
  {
  }
}
