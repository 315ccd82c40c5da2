/** Turning an observed array of old results into one of new results. */
module ResultDiffs {
  import opened Subsequences

  datatype ChangeRecord<P> = ChangeRecord(index: nat, removed: seq<P>, addedCount: nat)

  /** The observed payload is that of the entry, or of one that compares as the same. */
  ghost predicate Shows<T(!new), P>(payload: T -> P, same: (T, T) -> bool, observed: P, entry: T) {
    exists e :: payload(e) == observed && (e == entry || same(e, entry))
  }

  /** Position by position. */
  ghost predicate AllShown<T(!new), P>(payload: T -> P, same: (T, T) -> bool, observed: seq<P>, entries: seq<T>) {
    && |observed| == |entries|
    && forall i :: 0 <= i < |entries| ==> Shows(payload, same, observed[i], entries[i])
  }

  ghost predicate Transitive<T(!new)>(same: (T, T) -> bool) {
    forall x, y, z :: same(x, y) && same(y, z) ==> same(x, z)
  }

  // ---------- What the records tell an observer ----------

  /** Bringing a copy of the old array up to date, record by record.  A removal names the position before
      the update, from which the n removals before it have taken one each; an addition names the position
      of the new element. */
  function Replay<P>(before: seq<P>, records: seq<ChangeRecord<P>>, after: seq<P>): seq<P> {
    if records == [] then before else
    var n := |records| - 1;
    Spliced(Replay(before, records[..n], after), records[n], n, after)
  }

  function Spliced<P>(rows: seq<P>, record: ChangeRecord<P>, n: nat, after: seq<P>): seq<P> {
    if record.addedCount == 0 then
      if n <= record.index && record.index - n < |rows| then rows[..record.index - n] + rows[record.index - n + 1..] else rows
    else if record.index <= |rows| && record.index < |after| then rows[..record.index] + [after[record.index]] + rows[record.index..] else rows
  }

  lemma ReplayNothing<P>(before: seq<P>, after: seq<P>)
    ensures Replay(before, [], after) == before
  {
  }

  lemma ReplayNext<P>(before: seq<P>, records: seq<ChangeRecord<P>>, record: ChangeRecord<P>, after: seq<P>)
    ensures Replay(before, records + [record], after) == Spliced(Replay(before, records, after), record, |records|, after)
  {
    assert (records + [record])[..|records|] == records;
  }

  lemma {:induction false} ReplayConcat<P>(before: seq<P>, records: seq<ChangeRecord<P>>, more: seq<ChangeRecord<P>>, after: seq<P>)
    requires forall k :: 0 <= k < |more| ==> more[k].addedCount == 1
    ensures Replay(before, records + more, after) == Replay(Replay(before, records, after), more, after)
    decreases |more|
  {
    if more == [] {
      assert records + more == records;
    } else {
      var n := |more| - 1;
      ReplayConcat(before, records, more[..n], after);
      assert (records + more)[..|records| + n] == records + more[..n];
    }
  }

  /** Only what the array holds at the positions of additions matters. */
  lemma {:induction false} ReplaySame<P>(before: seq<P>, records: seq<ChangeRecord<P>>, after: seq<P>, after': seq<P>)
    requires forall k :: 0 <= k < |records| && records[k].addedCount != 0 ==>
      records[k].index < |after| && records[k].index < |after'| && after[records[k].index] == after'[records[k].index]
    ensures Replay(before, records, after) == Replay(before, records, after')
  {
    if records != [] {
      var n := |records| - 1;
      ReplaySame(before, records[..n], after, after');
    }
  }

  function Payloads<T, P>(payload: T -> P, entries: seq<T>): (ps: seq<P>)
    ensures |ps| == |entries| && forall i :: 0 <= i < |entries| ==> ps[i] == payload(entries[i])
  {
    seq(|entries|, i requires 0 <= i < |entries| => payload(entries[i]))
  }

  lemma ReplayAll<P>(before: seq<P>, middle: seq<P>, removals: seq<ChangeRecord<P>>, additions: seq<ChangeRecord<P>>, values: seq<P>, after: seq<P>)
    requires (forall k :: 0 <= k < |removals| ==> removals[k].addedCount == 0)
    requires forall k :: 0 <= k < |additions| ==> (additions[k].addedCount == 1 && additions[k].index < |after| && additions[k].index < |values|
      && after[additions[k].index] == values[additions[k].index])
    requires Replay(before, removals, []) == middle && Replay(middle, additions, values) == after
    ensures Replay(before, removals + additions, after) == after
  {
    ReplaySame(before, removals, [], after);
    ReplaySame(middle, additions, values, after);
    ReplayConcat(before, removals, additions, after);
  }

  lemma RemovalReplayed<P>(before: seq<P>, records: seq<ChangeRecord<P>>, rows: seq<P>, i: nat, at: nat)
    requires Replay(before, records, []) == rows && i == at + |records| && at < |rows|
    ensures Replay(before, records + [ChangeRecord(i, [rows[at]], 0)], []) == rows[..at] + rows[at + 1..]
  {
    ReplayNext(before, records, ChangeRecord(i, [rows[at]], 0), []);
  }

  lemma AdditionReplayed<P>(before: seq<P>, records: seq<ChangeRecord<P>>, rows: seq<P>, i: nat, values: seq<P>)
    requires Replay(before, records, values) == rows && i <= |rows| && i < |values|
    ensures Replay(before, records + [ChangeRecord(i, [], 1)], values) == rows[..i] + [values[i]] + rows[i..]
  {
    ReplayNext(before, records, ChangeRecord(i, [], 1), values);
  }

  // ---------- Subsequences by identity ----------

  /** s is found in t by taking the next element of s as soon as it comes. */
  predicate Found<T(==)>(s: seq<T>, t: seq<T>)
    decreases |t|
  {
    s == [] || (t != [] && Found(if s[0] == t[0] then s[1..] else s, t[1..]))
  }

  lemma {:induction false} FoundLater<T>(s: seq<T>, x: T, t: seq<T>)
    requires Found(s, t)
    ensures Found(s, [x] + t)
    decreases |t|, 1
  {
    assert ([x] + t)[1..] == t;
    if s != [] && s[0] == x {
      FoundShorter(s, t);
    }
  }

  lemma {:induction false} FoundShorter<T>(s: seq<T>, t: seq<T>)
    requires s != [] && Found(s, t)
    ensures Found(s[1..], t)
    decreases |t|, 0
  {
    if s[0] == t[0] {
      FoundLater(s[1..], t[0], t[1..]);
      assert [t[0]] + t[1..] == t;
    } else {
      FoundShorter(s, t[1..]);
      FoundLater(s[1..], t[0], t[1..]);
      assert [t[0]] + t[1..] == t;
    }
  }

  lemma {:induction false} PickedFound<T>(t: seq<T>, at: seq<nat>, s: seq<T>, from: nat)
    requires |s| == |at| && from <= |t|
    requires forall k :: 0 <= k < |at| ==> from <= at[k] < |t| && s[k] == t[at[k]]
    requires forall k, l :: 0 <= k < l < |at| ==> at[k] < at[l]
    ensures Found(s, t[from..])
    decreases |t| - from
  {
    if s != [] {
      assert from <= at[0] < |t|;
      assert t[from..][0] == t[from] && t[from..][1..] == t[from + 1..];
      if at[0] == from {
        PickedFound(t, at[1..], s[1..], from + 1);
      } else {
        PickedFound(t, at, s, from + 1);
        FoundLater(s, t[from], t[from + 1..]);
        assert [t[from]] + t[from + 1..] == t[from..];
      }
    }
  }

  lemma NextIsCommon<T>(common: seq<T>, entries: seq<T>, c: nat, i: nat)
    requires c < |common| && i < |entries| && common[c] == entries[i] && Found(common[c..], entries[i..])
    ensures Found(common[c + 1..], entries[i + 1..])
    ensures common[..c + 1] + entries[i + 1..] == common[..c] + entries[i..]
    ensures entries[..i + 1] + common[c + 1..] == entries[..i] + common[c..]
  {
    assert entries[i..][0] == entries[i] && entries[i..][1..] == entries[i + 1..];
    assert common[c..][0] == common[c] && common[c..][1..] == common[c + 1..];
  }

  lemma NextIsOther<T>(common: seq<T>, entries: seq<T>, c: nat, i: nat)
    requires c <= |common| && i < |entries| && (c < |common| ==> common[c] != entries[i]) && Found(common[c..], entries[i..])
    ensures Found(common[c..], entries[i + 1..]) && entries[i..][1..] == entries[i + 1..]
  {
    assert entries[i..][0] == entries[i] && entries[i..][1..] == entries[i + 1..];
  }

  lemma AllFound<T>(common: seq<T>, entries: seq<T>, c: nat)
    requires c <= |common| && Found(common[c..], entries[|entries|..])
    ensures c == |common| && common[..c] + entries[|entries|..] == common && entries[..|entries|] + common[c..] == entries
  {
  }

  lemma NothingYet<T>(common: seq<T>, entries: seq<T>)
    ensures common[0..] == common && entries[0..] == entries && common[..0] + entries[0..] == entries && entries[..0] + common[0..] == common
  {
  }

  function Lefts(m: Pairs): (at: seq<nat>)
    ensures |at| == |m| && forall k :: 0 <= k < |m| ==> at[k] == m[k].0
  {
    seq(|m|, k requires 0 <= k < |m| => m[k].0)
  }

  function Rights(m: Pairs): (at: seq<nat>)
    ensures |at| == |m| && forall k :: 0 <= k < |m| ==> at[k] == m[k].1
  {
    seq(|m|, k requires 0 <= k < |m| => m[k].1)
  }

  // ---------- The calculator ----------

  lemma CommonFound<T>(a: seq<T>, b: seq<T>, same: (T, T) -> bool, left: seq<T>, right: seq<T>)
    requires var m := Matching(a, b, same, |a|, |b|);
      |left| == |m| == |right| && forall k :: 0 <= k < |m| ==> left[k] == a[m[k].0] && right[k] == b[m[k].1]
    ensures Found(left, a) && Found(right, b)
  {
    var m := Matching(a, b, same, |a|, |b|);
    LongestMatching(a, b, same);
    PickedFound(a, Lefts(m), left, 0);
    PickedFound(b, Rights(m), right, 0);
    assert a[0..] == a && b[0..] == b;
  }

  /** What shows the common entries of one sequence shows their partners in the other. */
  lemma PartnersShown<T(!new), P>(payload: T -> P, same: (T, T) -> bool, observed: seq<P>, left: seq<T>, right: seq<T>)
    requires Transitive(same) && AllShown(payload, same, observed, left) && |left| == |right|
    requires forall k :: 0 <= k < |left| ==> same(left[k], right[k])
    ensures AllShown(payload, same, observed, right)
  {
    forall k | 0 <= k < |right| ensures Shows(payload, same, observed[k], right[k]) {
      assert Shows(payload, same, observed[k], left[k]);
      var e :| payload(e) == observed[k] && (e == left[k] || same(e, left[k]));
      assert e == right[k] || same(e, right[k]);
    }
  }

  // ---------- The calculator ----------

  class DiffCalculator<T(==, !new), P> {
    const payload: T -> P
    const same: (T, T) -> bool
    var observableResults: seq<P>

    constructor (payload: T -> P, same: (T, T) -> bool)
      ensures this.payload == payload && this.same == same && observableResults == []
    {
      this.payload, this.same, observableResults := payload, same, [];
    }

    /** One record per removed and per added entry, so that without records nothing has changed. */
    method ApplyDiff(oldEntries: seq<T>, newEntries: seq<T>) returns (changeRecords: seq<ChangeRecord<P>>)
      requires AllShown(payload, same, observableResults, oldEntries) && Transitive(same)
      modifies this`observableResults
      ensures changeRecords == [] ==> observableResults == old(observableResults)
      ensures AllShown(payload, same, observableResults, newEntries)
      ensures var common := |Matching(oldEntries, newEntries, same, |oldEntries|, |newEntries|)|;
        && common <= |oldEntries| && common <= |newEntries| && |changeRecords| == |oldEntries| + |newEntries| - 2 * common
        && Removals(old(observableResults), changeRecords[..|oldEntries| - common])
        && Additions(observableResults, payload, newEntries, changeRecords[|oldEntries| - common..])
      ensures Replay(old(observableResults), changeRecords, observableResults) == observableResults
    {
      hide AllShown, Found, Removals, Additions, Replay, Spliced;
      ghost var m := Matching(oldEntries, newEntries, same, |oldEntries|, |newEntries|);
      LongestMatching(oldEntries, newEntries, same);
      var left := LongestCommonSubsequence(oldEntries, newEntries, same, (l: nat, r: nat) requires l < |oldEntries| => oldEntries[l]);
      var right := LongestCommonSubsequence(oldEntries, newEntries, same, (l: nat, r: nat) requires r < |newEntries| => newEntries[r]);
      CommonFound(oldEntries, newEntries, same, left, right);
      var removals := RemoveOld(oldEntries, left);
      ghost var middle := observableResults;
      PartnersShown(payload, same, observableResults, left, right);
      var additions := AddNew(newEntries, right);
      changeRecords := removals + additions;
      RecordsReplay(old(observableResults), middle, observableResults, payload, newEntries, removals, additions);
      assert changeRecords[..|removals|] == removals && changeRecords[|removals|..] == additions;
    }

    /** The deletion phase, which leaves the common entries. */
    method RemoveOld(entries: seq<T>, common: seq<T>) returns (records: seq<ChangeRecord<P>>)
      requires AllShown(payload, same, observableResults, entries) && Found(common, entries)
      modifies this`observableResults
      ensures records == [] ==> observableResults == old(observableResults)
      ensures AllShown(payload, same, observableResults, common)
      ensures |records| == |entries| - |common| && Removals(old(observableResults), records)
      ensures Replay(old(observableResults), records, []) == observableResults
    {
      records := [];
      var commonIndex := 0;
      hide AllShown, Found, Removals, Replay, Spliced;
      ReplayNothing(observableResults, []);
      NothingYet(common, entries);
      NoRemovals(observableResults);
      ShownLength(payload, same, observableResults, entries);
      for i := 0 to |entries|
        invariant commonIndex <= |common| && commonIndex <= i && |records| == i - commonIndex
        invariant Found(common[commonIndex..], entries[i..])
        invariant AllShown(payload, same, observableResults, common[..commonIndex] + entries[i..])
        invariant |observableResults| == commonIndex + |entries| - i && observableResults[commonIndex..] == old(observableResults)[i..]
        invariant records == [] ==> observableResults == old(observableResults)
        invariant Replay(old(observableResults), records, []) == observableResults
        invariant Removals(old(observableResults), records) && forall k :: 0 <= k < |records| ==> records[k].index < i
      {
        if commonIndex < |common| && common[commonIndex] == entries[i] {
          NextIsCommon(common, entries, commonIndex, i);
          commonIndex := commonIndex + 1;
        } else {
          NextIsOther(common, entries, commonIndex, i);
          RemovedShown(payload, same, observableResults, common[..commonIndex], entries[i..]);
          var removed := observableResults[commonIndex];
          assert removed == old(observableResults)[i];
          RemovalNext(old(observableResults), records, i);
          RemovalReplayed(old(observableResults), records, observableResults, i, commonIndex);
          observableResults := observableResults[..commonIndex] + observableResults[commonIndex + 1..];
          records := records + [ChangeRecord(i, [removed], 0)];
        }
      }
      AllFound(common, entries, commonIndex);
    }

    /** The insertion phase. */
    method AddNew(entries: seq<T>, common: seq<T>) returns (records: seq<ChangeRecord<P>>)
      requires AllShown(payload, same, observableResults, common) && Found(common, entries)
      modifies this`observableResults
      ensures records == [] ==> observableResults == old(observableResults)
      ensures AllShown(payload, same, observableResults, entries)
      ensures |records| == |entries| - |common| && Additions(observableResults, payload, entries, records)
      ensures Replay(old(observableResults), records, Payloads(payload, entries)) == observableResults
    {
      records := [];
      NoAdditions(observableResults, payload, entries);
      ghost var values := Payloads(payload, entries);
      var commonIndex := 0;
      hide *;
      ReplayNothing(observableResults, values);
      NothingYet(common, entries);
      ShownLength(payload, same, observableResults, common);
      for i := 0 to |entries|
        invariant commonIndex <= |common| && commonIndex <= i && |records| == i - commonIndex
        invariant Found(common[commonIndex..], entries[i..])
        invariant AllShown(payload, same, observableResults, entries[..i] + common[commonIndex..]) && |observableResults| == i + |common| - commonIndex
        invariant forall k :: 0 <= k < |records| ==> records[k].index < i
        invariant records == [] ==> observableResults == old(observableResults)
        invariant Additions(observableResults, payload, entries, records)
        invariant Replay(old(observableResults), records, values) == observableResults
      {
        if commonIndex < |common| && common[commonIndex] == entries[i] {
          NextIsCommon(common, entries, commonIndex, i);
          commonIndex := commonIndex + 1;
        } else {
          NextIsOther(common, entries, commonIndex, i);
          assert values[i] == payload(entries[i]);
          AddedShown(payload, same, observableResults, entries, i, common[commonIndex..]);
          AdditionNext(observableResults, payload, entries, records, i);
          AdditionReplayed(old(observableResults), records, observableResults, i, values);
          observableResults := observableResults[..i] + [payload(entries[i])] + observableResults[i..];
          records := records + [ChangeRecord(i, [], 1)];
        }
      }
      AllFound(common, entries, commonIndex);
    }
  }

  /** Each record removes one element, named by its position before the update. */
  ghost predicate Removals<P>(before: seq<P>, records: seq<ChangeRecord<P>>) {
    && (forall k :: 0 <= k < |records| ==>
         records[k].index < |before| && records[k].removed == [before[records[k].index]] && records[k].addedCount == 0)
    && forall k, l :: 0 <= k < l < |records| ==> records[k].index < records[l].index
  }

  /** Each record adds the payload of one new entry, at its position. */
  ghost predicate Additions<T(!new), P>(after: seq<P>, payload: T -> P, entries: seq<T>, records: seq<ChangeRecord<P>>) {
    && (forall k :: 0 <= k < |records| ==>
         records[k].index < |after| && records[k].index < |entries| && after[records[k].index] == payload(entries[records[k].index])
         && records[k].removed == [] && records[k].addedCount == 1)
    && forall k, l :: 0 <= k < l < |records| ==> records[k].index < records[l].index
  }

  lemma RecordsReplay<T(!new), P>(before: seq<P>, middle: seq<P>, after: seq<P>, payload: T -> P, entries: seq<T>, removals: seq<ChangeRecord<P>>, additions: seq<ChangeRecord<P>>)
    requires Removals(before, removals) && Additions(after, payload, entries, additions)
    requires Replay(before, removals, []) == middle && Replay(middle, additions, Payloads(payload, entries)) == after
    ensures Replay(before, removals + additions, after) == after
  {
    ReplayAll(before, middle, removals, additions, Payloads(payload, entries), after);
  }

  lemma NoRemovals<P>(before: seq<P>)
    ensures Removals(before, [])
  {
  }

  lemma RemovalNext<P>(before: seq<P>, records: seq<ChangeRecord<P>>, i: nat)
    requires i < |before| && Removals(before, records) && forall k :: 0 <= k < |records| ==> records[k].index < i
    ensures Removals(before, records + [ChangeRecord(i, [before[i]], 0)])
  {
  }

  lemma NoAdditions<T(!new), P>(after: seq<P>, payload: T -> P, entries: seq<T>)
    ensures Additions(after, payload, entries, [])
  {
  }

  lemma AdditionNext<T(!new), P>(after: seq<P>, payload: T -> P, entries: seq<T>, records: seq<ChangeRecord<P>>, i: nat)
    requires i < |entries| && i <= |after| && Additions(after, payload, entries, records)
    requires forall k :: 0 <= k < |records| ==> records[k].index < i
    ensures Additions(after[..i] + [payload(entries[i])] + after[i..], payload, entries, records + [ChangeRecord(i, [], 1)])
  {
  }

  lemma ShownLength<T(!new), P>(payload: T -> P, same: (T, T) -> bool, observed: seq<P>, entries: seq<T>)
    requires AllShown(payload, same, observed, entries)
    ensures |observed| == |entries|
  {
  }

  lemma RemovedShown<T(!new), P>(payload: T -> P, same: (T, T) -> bool, observed: seq<P>, kept: seq<T>, rest: seq<T>)
    requires AllShown(payload, same, observed, kept + rest) && rest != []
    ensures AllShown(payload, same, observed[..|kept|] + observed[|kept| + 1..], kept + rest[1..])
  {
    var next, entries := observed[..|kept|] + observed[|kept| + 1..], kept + rest[1..];
    forall i | 0 <= i < |entries| ensures Shows(payload, same, next[i], entries[i]) {
      var at := if i < |kept| then i else i + 1;
      assert next[i] == observed[at] && entries[i] == (kept + rest)[at];
    }
  }

  lemma AddedShown<T(!new), P>(payload: T -> P, same: (T, T) -> bool, observed: seq<P>, entries: seq<T>, i: nat, rest: seq<T>)
    requires i < |entries| && AllShown(payload, same, observed, entries[..i] + rest)
    ensures AllShown(payload, same, observed[..i] + [payload(entries[i])] + observed[i..], entries[..i + 1] + rest)
  {
    var next, shown := observed[..i] + [payload(entries[i])] + observed[i..], entries[..i + 1] + rest;
    forall k | 0 <= k < |shown| ensures Shows(payload, same, next[k], shown[k]) {
      if k == i {
        assert next[k] == payload(entries[i]) && shown[k] == entries[i];
      } else {
        var at := if k < i then k else k - 1;
        assert next[k] == observed[at] && shown[k] == (entries[..i] + rest)[at];
      }
    }
  }

  /** An observed query: whatever results come, the observed array shows the latest ones. */
  class ObserverRegistryEntry<T(==, !new), P> {
    const diffCalculator: DiffCalculator<T, P>
    var lastResults: seq<T>

    ghost predicate Valid()
      reads this, diffCalculator
    {
      && Transitive(diffCalculator.same)
      && AllShown(diffCalculator.payload, diffCalculator.same, diffCalculator.observableResults, lastResults)
    }

    constructor (payload: T -> P, same: (T, T) -> bool)
      requires Transitive(same)
      ensures Valid() && fresh(diffCalculator) && lastResults == []
    {
      diffCalculator := new DiffCalculator(payload, same);
      lastResults := [];
    }

    method UpdateResults(newResults: seq<T>) returns (changeRecords: seq<ChangeRecord<P>>)
      requires Valid()
      modifies this`lastResults, diffCalculator
      ensures Valid() && lastResults == newResults
      ensures changeRecords == [] ==> diffCalculator.observableResults == old(diffCalculator.observableResults)
      ensures Replay(old(diffCalculator.observableResults), changeRecords, diffCalculator.observableResults) == diffCalculator.observableResults
      ensures var common := |Matching(old(lastResults), newResults, diffCalculator.same, |old(lastResults)|, |newResults|)|;
        && common <= |old(lastResults)| && common <= |newResults| && |changeRecords| == |old(lastResults)| + |newResults| - 2 * common
        && Removals(old(diffCalculator.observableResults), changeRecords[..|old(lastResults)| - common])
        && Additions(diffCalculator.observableResults, diffCalculator.payload, newResults, changeRecords[|old(lastResults)| - common..])
    {
      changeRecords := diffCalculator.ApplyDiff(lastResults, newResults);
      lastResults := newResults;
    }
  }
}
