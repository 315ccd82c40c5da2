/** Ranges of one-column keys, and sorted sets of disjoint ranges. */
module KeyRanges {

  datatype Favor = Lhs | Tie | Rhs

  datatype Bound = Unbound | AtKey(key: int)

  datatype KeyRange = KeyRange(from: Bound, to: Bound, excludeLower: bool, excludeUpper: bool)

  /** The constructor drops the exclude flag of an unbounded side. */
  predicate Normal(r: KeyRange) {
    (r.from.Unbound? ==> !r.excludeLower) && (r.to.Unbound? ==> !r.excludeUpper)
  }

  type Range = r: KeyRange | Normal(r) witness KeyRange(Unbound, Unbound, false, false)

  datatype Option<T> = None | Some(value: T)

  function MakeRange(from: Bound, to: Bound, excludeLower: bool, excludeUpper: bool): Range {
    KeyRange(from, to, from.AtKey? && excludeLower, to.AtKey? && excludeUpper)
  }

  function All(): Range { MakeRange(Unbound, Unbound, false, false) }

  function Only(key: int): Range { MakeRange(AtKey(key), AtKey(key), false, false) }

  function UpperBound(key: int, exclude: bool): Range { MakeRange(Unbound, AtKey(key), false, exclude) }

  function LowerBound(key: int, exclude: bool): Range { MakeRange(AtKey(key), Unbound, exclude, false) }

  predicate IsAll(r: Range) { r.from.Unbound? && r.to.Unbound? }

  predicate IsOnly(r: Range) { r.from == r.to && r.from.AtKey? && !r.excludeLower && !r.excludeUpper }

  predicate Contains(r: Range, key: int) {
    var left := r.from.Unbound? || key > r.from.key || (key == r.from.key && !r.excludeLower);
    var right := r.to.Unbound? || key < r.to.key || (key == r.to.key && !r.excludeUpper);
    left && right
  }

  function OnlyKey(r: Range): int
    requires IsOnly(r)
  {
    r.from.key
  }

  // ---------- The order of ranges ----------

  function Flip(favor: Favor, lower: bool): Favor {
    if lower then favor else if favor == Lhs then Rhs else Lhs
  }

  function CompareKey(l: Bound, r: Bound, lower: bool, excludeL: bool, excludeR: bool): Favor {
    var tieLogic := if excludeL == excludeR then Tie else if excludeL then Flip(Lhs, lower) else Flip(Rhs, lower);
    if l.Unbound? then
      if !r.Unbound? then Flip(Rhs, lower) else tieLogic
    else if r.Unbound? then Flip(Lhs, lower)
    else if l.key < r.key then Rhs
    else if l.key == r.key then tieLogic
    else Lhs
  }

  function Compare(l: Range, r: Range): Favor {
    var result := CompareKey(l.from, r.from, true, l.excludeLower, r.excludeLower);
    if result == Tie then CompareKey(l.to, r.to, false, l.excludeUpper, r.excludeUpper) else result
  }

  predicate NotAfter(l: Range, r: Range) { Compare(l, r) != Lhs }

  /** A total order: equal only to itself, antisymmetric, transitive. */
  lemma CompareIsTotalOrder(a: Range, b: Range, c: Range)
    ensures Compare(a, b) == Tie <==> a == b
    ensures Compare(a, b) == Lhs <==> Compare(b, a) == Rhs
    ensures NotAfter(a, b) && NotAfter(b, c) ==> NotAfter(a, c)
  {
    var x, y, z := CompareKey(a.from, b.from, true, a.excludeLower, b.excludeLower),
                   CompareKey(b.from, c.from, true, b.excludeLower, c.excludeLower),
                   CompareKey(a.from, c.from, true, a.excludeLower, c.excludeLower);
    assert x == Tie ==> a.from == b.from && a.excludeLower == b.excludeLower;
    assert y == Tie ==> b.from == c.from && b.excludeLower == c.excludeLower;
    assert x == Rhs && y == Rhs ==> z == Rhs;
  }

  // ---------- Operations on two ranges ----------

  predicate Overlaps(r: Range, s: Range) {
    var favor := CompareKey(r.from, s.from, true, r.excludeLower, s.excludeLower);
    favor == Tie ||
    (var left, right := if favor == Rhs then r else s, if favor == Lhs then r else s;
     left.to.Unbound? || right.from.Unbound? || left.to.key > right.from.key ||
     (left.to.key == right.from.key && !left.excludeUpper && !right.excludeLower))
  }

  function And(r: Range, s: Range): Option<Range> {
    if !Overlaps(r, s) then None else
    var favor := CompareKey(r.from, s.from, true, false, false);
    var left := if favor == Tie then (if r.excludeLower then r else s) else if favor != Rhs then r else s;
    var right :=
      if r.to.Unbound? || s.to.Unbound? then (if r.to.Unbound? then s else r)
      else
        var favorTo := CompareKey(r.to, s.to, false, false, false);
        if favorTo == Tie then (if r.excludeUpper then r else s) else if favorTo == Rhs then r else s;
    Some(MakeRange(left.from, right.to, left.excludeLower, right.excludeUpper))
  }

  function BoundingRange(r: Range, s: Range): Range {
    var favorFrom := CompareKey(r.from, s.from, true, false, false);
    var favorTo := CompareKey(r.to, s.to, false, false, false);
    var from, excludeLower :=
      if r.from.Unbound? || s.from.Unbound? then Unbound
      else if favorFrom != Lhs then r.from else s.from,
      if r.from.Unbound? || s.from.Unbound? then false
      else if favorFrom != Lhs then (if favorFrom != Tie then r.excludeLower else r.excludeLower && s.excludeLower)
      else s.excludeLower;
    var to, excludeUpper :=
      if r.to.Unbound? || s.to.Unbound? then Unbound
      else if favorTo != Rhs then r.to else s.to,
      if r.to.Unbound? || s.to.Unbound? then false
      else if favorTo != Rhs then (if favorTo != Tie then r.excludeUpper else r.excludeUpper && s.excludeUpper)
      else s.excludeUpper;
    MakeRange(from, to, excludeLower, excludeUpper)
  }

  function Complement(r: Range): seq<Range> {
    if IsAll(r) then [] else
    (if r.from.AtKey? then [MakeRange(Unbound, r.from, false, !r.excludeLower)] else []) +
    (if r.to.AtKey? then [MakeRange(r.to, Unbound, !r.excludeUpper, false)] else [])
  }

  /** Restricts the range to the keys from min to max. */
  function Bounded(r: Range, min: int, max: int): Option<Range> {
    if (r.from.Unbound? && !Contains(r, min)) || (r.to.Unbound? && !Contains(r, max)) then None else
    var from, excludeLower := if r.from.AtKey? && r.from.key >= min then r.from.key else min,
                              r.from.AtKey? && r.from.key >= min && r.excludeLower;
    var to, excludeUpper := if r.to.AtKey? && r.to.key <= max then r.to.key else max,
                            r.to.AtKey? && r.to.key <= max && r.excludeUpper;
    if from > to || (from == to && (excludeUpper || excludeLower)) then None
    else Some(MakeRange(AtKey(from), AtKey(to), excludeLower, excludeUpper))
  }

  /** The intersection has exactly the common keys; there is none when there is no common key. */
  lemma AndIsIntersection(r: Range, s: Range, key: int)
    ensures Contains(r, key) && Contains(s, key) <==> And(r, s).Some? && Contains(And(r, s).value, key)
  {
  }

  /** Two overlapping ranges leave no gap. */
  lemma BoundingIsUnion(r: Range, s: Range, key: int)
    requires Overlaps(r, s)
    ensures Contains(BoundingRange(r, s), key) <==> Contains(r, key) || Contains(s, key)
  {
  }

  lemma ComplementIsComplement(r: Range, key: int)
    ensures AnyContains(Complement(r), key) <==> !Contains(r, key)
  {
    var low, high := MakeRange(Unbound, r.from, false, !r.excludeLower), MakeRange(r.to, Unbound, !r.excludeUpper, false);
    assert r.from.AtKey? ==> Complement(r)[0] == low;
    assert r.to.AtKey? ==> Complement(r)[|Complement(r)| - 1] == high;
    if AnyContains(Complement(r), key) {
      var i :| 0 <= i < |Complement(r)| && Contains(Complement(r)[i], key);
      assert Contains(low, key) || Contains(high, key);
    }
  }

  /** The two parts of a complement are in order and apart unless the bounds are reversed, or equal and
      both excluded. */
  lemma ComplementIsApartIff(r: Range)
    ensures Disjoint(Complement(r)) <==>
      (r.from.AtKey? && r.to.AtKey? ==> r.from.key < r.to.key || (r.from.key == r.to.key && !(r.excludeLower && r.excludeUpper)))
  {
    if r.from.AtKey? && r.to.AtKey? {
      var low, high := MakeRange(Unbound, r.from, false, !r.excludeLower), MakeRange(r.to, Unbound, !r.excludeUpper, false);
      assert Complement(r) == [low, high];
      assert Disjoint([low, high]) <==> Before(low, high) by {
        if Disjoint([low, high]) { assert Before([low, high][0], [low, high][1]); }
      }
    }
  }

  /** The bounded range has exactly the range's keys between min and max, also when those are reversed. */
  lemma BoundedIsRestriction(r: Range, min: int, max: int, key: int)
    ensures Bounded(r, min, max).Some? && Contains(Bounded(r, min, max).value, key) <==>
            Contains(r, key) && min <= key <= max
  {
  }

  /** Contains for a key between the integers. */
  predicate ContainsReal(r: Range, key: real) {
    && (r.from.Unbound? || key > r.from.key as real || (key == r.from.key as real && !r.excludeLower))
    && (r.to.Unbound? || key < r.to.key as real || (key == r.to.key as real && !r.excludeUpper))
  }

  /** A range is returned exactly if it has room for a key, though the room may lie between two
      integers. */
  lemma BoundedIsSomeIff(r: Range, min: int, max: int)
    ensures Bounded(r, min, max).Some? <==> exists key :: ContainsReal(r, key) && min as real <= key <= max as real
  {
    if Bounded(r, min, max).Some? {
      var b := Bounded(r, min, max).value;
      var key := (b.from.key as real + b.to.key as real) / 2.0;
      assert ContainsReal(b, key);
      assert ContainsReal(r, key);
    }
  }

  // ---------- Sets of ranges ----------

  predicate AnyContains(rs: seq<Range>, key: int) {
    exists i :: 0 <= i < |rs| && Contains(rs[i], key)
  }

  /** r ends before s begins. */
  predicate Before(r: Range, s: Range) { NotAfter(r, s) && !Overlaps(r, s) }

  predicate Disjoint(rs: seq<Range>) {
    forall i, j :: 0 <= i < j < |rs| ==> Before(rs[i], rs[j])
  }

  predicate InOrder(rs: seq<Range>) {
    forall i, j :: 0 <= i < j < |rs| ==> NotAfter(rs[i], rs[j])
  }

  lemma BeforeApart(r: Range, s: Range, key: int, key': int)
    requires Before(r, s) && Contains(r, key) && Contains(s, key')
    ensures key < key'
  {
  }

  lemma BeforeTrans(r: Range, s: Range, t: Range)
    requires Before(r, s) && NotAfter(s, t)
    ensures Before(r, t)
  {
    CompareIsTotalOrder(r, s, t);
  }

  /** Array sort with Compare. */
  function Insert(rs: seq<Range>, r: Range): (s: seq<Range>)
    requires InOrder(rs)
    ensures InOrder(s) && multiset(s) == multiset(rs) + multiset{r}
  {
    if rs == [] || NotAfter(r, rs[0]) then
      InsertFront(rs, r);
      assert [r] + rs == [r] + rs;
      [r] + rs
    else
      var tail := Insert(rs[1..], r);
      InsertBehind(rs, r, tail);
      [rs[0]] + tail
  }

  lemma InsertFront(rs: seq<Range>, r: Range)
    requires InOrder(rs) && (rs == [] || NotAfter(r, rs[0]))
    ensures InOrder([r] + rs)
  {
    forall i | 0 <= i < |rs| ensures NotAfter(r, rs[i]) {
      CompareIsTotalOrder(r, rs[0], rs[i]);
    }
  }

  lemma InsertBehind(rs: seq<Range>, r: Range, tail: seq<Range>)
    requires rs != [] && InOrder(rs) && !NotAfter(r, rs[0]) && InOrder(tail) && multiset(tail) == multiset(rs[1..]) + multiset{r}
    ensures InOrder([rs[0]] + tail) && multiset([rs[0]] + tail) == multiset(rs) + multiset{r}
  {
    assert rs == [rs[0]] + rs[1..];
    forall i | 0 <= i < |tail| ensures NotAfter(rs[0], tail[i]) {
      assert tail[i] in multiset(tail);
      if tail[i] != r {
        assert tail[i] in rs[1..];
      }
      CompareIsTotalOrder(r, rs[0], rs[0]);
    }
  }

  function SortRanges(rs: seq<Range>): (s: seq<Range>)
    ensures InOrder(s) && multiset(s) == multiset(rs)
  {
    if rs == [] then [] else
    assert rs == [rs[0]] + rs[1..];
    Insert(SortRanges(rs[1..]), rs[0])
  }

  lemma SameKeys(rs: seq<Range>, ss: seq<Range>, key: int)
    requires multiset(rs) == multiset(ss)
    ensures AnyContains(rs, key) <==> AnyContains(ss, key)
  {
    assert forall r :: r in rs <==> r in multiset(rs);
    assert forall r :: r in ss <==> r in multiset(ss);
    assert AnyContains(rs, key) <==> exists r :: r in rs && Contains(r, key);
    assert AnyContains(ss, key) <==> exists r :: r in ss && Contains(r, key);
  }

  /** The complement of a list of single keys: the gaps between them. */
  method ComplementOfKeys(keyRanges: seq<Range>) returns (gaps: seq<Range>)
    requires forall i :: 0 <= i < |keyRanges| ==> IsOnly(keyRanges[i])
    ensures keyRanges == [] ==> gaps == []
    ensures keyRanges != [] ==> forall key :: AnyContains(gaps, key) <==> !AnyContains(keyRanges, key)
    ensures Disjoint(gaps) <==> NoneTwice(keyRanges)
  {
    hide AnyContains, Contains, Overlaps, Compare;
    if |keyRanges| == 0 {
      return [];
    }
    var sorted := SortRanges(keyRanges);
    SortedOnly(keyRanges, sorted);
    gaps := [];
    for i := 0 to |sorted| + 1
      invariant |gaps| == i
      invariant forall k :: 0 <= k < i ==> gaps[k] == Gap(sorted, k)
    {
      if i == 0 {
        gaps := gaps + [UpperBound(sorted[i].from.key, true)];
      } else if i == |sorted| {
        gaps := gaps + [LowerBound(sorted[i - 1].to.key, true)];
      } else {
        gaps := gaps + [MakeRange(sorted[i - 1].to, sorted[i].from, true, true)];
      }
    }
    GapsAreComplement(keyRanges, sorted, gaps);
  }

  lemma GapsAreComplement(rs: seq<Range>, sorted: seq<Range>, gaps: seq<Range>)
    requires multiset(rs) == multiset(sorted) && sorted != [] && InOrder(sorted) && forall i :: 0 <= i < |sorted| ==> IsOnly(sorted[i])
    requires |gaps| == |sorted| + 1 && forall k :: 0 <= k < |gaps| ==> gaps[k] == Gap(sorted, k)
    ensures forall key :: AnyContains(gaps, key) <==> !AnyContains(rs, key)
    ensures Disjoint(gaps) <==> NoneTwice(rs)
  {
    hide AnyContains, Disjoint, NoneTwice, Contains;
    forall key ensures AnyContains(gaps, key) <==> !AnyContains(rs, key) {
      SameKeys(rs, sorted, key);
      GapsCover(sorted, gaps, key);
    }
    SameRepeats(rs, sorted);
    GapsApartIff(sorted, gaps);
  }

  predicate NoneTwice(rs: seq<Range>) {
    forall i, j :: 0 <= i < j < |rs| ==> rs[i] != rs[j]
  }

  lemma {:induction false} RepeatsCount(rs: seq<Range>)
    ensures NoneTwice(rs) <==> forall r: Range :: multiset(rs)[r] <= 1
  {
    if rs != [] {
      var n := |rs| - 1;
      RepeatsCount(rs[..n]);
      assert rs == rs[..n] + [rs[n]];
      assert NoneTwice(rs) <==> NoneTwice(rs[..n]) && rs[n] !in rs[..n];
      assert rs[n] in rs[..n] <==> multiset(rs[..n])[rs[n]] >= 1;
      forall r: Range ensures multiset(rs)[r] == multiset(rs[..n])[r] + if r == rs[n] then 1 else 0 { }
    }
  }

  lemma SameRepeats(rs: seq<Range>, ss: seq<Range>)
    requires multiset(rs) == multiset(ss)
    ensures NoneTwice(rs) <==> NoneTwice(ss)
  {
    RepeatsCount(rs);
    RepeatsCount(ss);
  }

  /** A repeated key leaves an empty gap, which the next one begins with. */
  lemma GapsApartIff(sorted: seq<Range>, gaps: seq<Range>)
    requires sorted != [] && InOrder(sorted) && forall i :: 0 <= i < |sorted| ==> IsOnly(sorted[i])
    requires |gaps| == |sorted| + 1 && forall k :: 0 <= k < |gaps| ==> gaps[k] == Gap(sorted, k)
    ensures Disjoint(gaps) <==> NoneTwice(sorted)
  {
    if NoneTwice(sorted) {
      forall i, j | 0 <= i < j < |gaps| ensures Before(gaps[i], gaps[j]) {
        assert NotAfter(sorted[i], sorted[j - 1]);
        assert i < j - 1 ==> sorted[i] != sorted[j - 1];
        if i > 0 { assert NotAfter(sorted[i - 1], sorted[i]) && sorted[i - 1] != sorted[i]; }
      }
    }
    if i, j :| 0 <= i < j < |sorted| && sorted[i] == sorted[j] {
      assert NotAfter(sorted[i], sorted[i + 1]) && NotAfter(sorted[i + 1], sorted[j]);
      CompareIsTotalOrder(sorted[i], sorted[i + 1], sorted[j]);
      assert !Before(gaps[i + 1], gaps[i + 2]);
    }
  }

  lemma SortedOnly(rs: seq<Range>, sorted: seq<Range>)
    requires multiset(rs) == multiset(sorted) && forall i :: 0 <= i < |rs| ==> IsOnly(rs[i])
    ensures |sorted| == |rs| && forall i :: 0 <= i < |sorted| ==> IsOnly(sorted[i])
  {
    assert |multiset(rs)| == |rs| && |multiset(sorted)| == |sorted|;
    forall i | 0 <= i < |sorted| ensures IsOnly(sorted[i]) {
      assert sorted[i] in multiset(sorted);
      assert sorted[i] in rs;
    }
  }

  function Gap(sorted: seq<Range>, k: nat): Range
    requires k <= |sorted| && 0 < |sorted| && forall i :: 0 <= i < |sorted| ==> IsOnly(sorted[i])
  {
    if k == 0 then UpperBound(OnlyKey(sorted[0]), true)
    else if k == |sorted| then LowerBound(OnlyKey(sorted[k - 1]), true)
    else MakeRange(sorted[k - 1].to, sorted[k].from, true, true)
  }

  /** A key lies in a gap exactly when it is none of the sorted keys. */
  lemma GapsCover(sorted: seq<Range>, gaps: seq<Range>, key: int)
    requires 0 < |sorted| && InOrder(sorted) && (forall i :: 0 <= i < |sorted| ==> IsOnly(sorted[i]))
    requires |gaps| == |sorted| + 1 && forall k :: 0 <= k < |gaps| ==> gaps[k] == Gap(sorted, k)
    ensures AnyContains(gaps, key) <==> !AnyContains(sorted, key)
  {
    hide Contains, Gap, InOrder;
    if AnyContains(gaps, key) {
      var k :| 0 <= k < |gaps| && Contains(gaps[k], key);
      assert gaps[k] == Gap(sorted, k);
      GapMissesKeys(sorted, k, key);
    }
    if !AnyContains(sorted, key) {
      var k := FirstAbove(sorted, key, 0);
      GapHasKey(sorted, k, key);
      assert Contains(gaps[k], key);
    }
  }

  lemma GapMissesKeys(sorted: seq<Range>, k: nat, key: int)
    requires 0 < |sorted| && k <= |sorted| && InOrder(sorted) && (forall i :: 0 <= i < |sorted| ==> IsOnly(sorted[i]))
    requires Contains(Gap(sorted, k), key)
    ensures !AnyContains(sorted, key)
  {
    forall i | 0 <= i < |sorted| ensures !Contains(sorted[i], key) {
      if i < k { assert NotAfter(sorted[i], sorted[k - 1]) || i == k - 1; } else { assert NotAfter(sorted[k], sorted[i]) || i == k; }
    }
  }

  lemma GapHasKey(sorted: seq<Range>, k: nat, key: int)
    requires 0 < |sorted| && k <= |sorted| && (forall i :: 0 <= i < |sorted| ==> IsOnly(sorted[i])) && !AnyContains(sorted, key)
    requires k > 0 ==> OnlyKey(sorted[k - 1]) <= key
    requires k < |sorted| ==> key < OnlyKey(sorted[k])
    ensures Contains(Gap(sorted, k), key)
  {
    assert k > 0 ==> !Contains(sorted[k - 1], key);
  }

  /** How many of the sorted keys are not above the given key. */
  function FirstAbove(sorted: seq<Range>, key: int, k: nat): (n: nat)
    requires k <= |sorted| && (forall i :: 0 <= i < |sorted| ==> IsOnly(sorted[i]))
    requires k > 0 ==> OnlyKey(sorted[k - 1]) <= key
    ensures k <= n <= |sorted|
    ensures n > 0 ==> OnlyKey(sorted[n - 1]) <= key
    ensures n < |sorted| ==> key < OnlyKey(sorted[n])
    decreases |sorted| - k
  {
    if k == |sorted| || key < OnlyKey(sorted[k]) then k else FirstAbove(sorted, key, k + 1)
  }

  class RangeSet {
    var ranges: seq<Range>

    ghost predicate Valid()
      reads this
    {
      Disjoint(ranges)
    }

    predicate ContainsKey(key: int)
      reads this
    {
      AnyContains(ranges, key)
    }

    constructor (rs: seq<Range>)
      ensures Valid()
      ensures forall key :: ContainsKey(key) <==> AnyContains(rs, key)
    {
      ranges := [];
      new;
      Add(rs);
    }

    /** Sorts the old and the new ranges together and sweeps, joining those that overlap. */
    method Add(keyRanges: seq<Range>)
      requires Valid()
      modifies this
      ensures Valid()
      ensures forall key :: ContainsKey(key) <==> old(ContainsKey(key)) || AnyContains(keyRanges, key)
    {
      if |keyRanges| == 0 {
        return;
      }
      var both := ranges + keyRanges;
      ghost var before := ranges;
      forall key ensures AnyContains(both, key) <==> AnyContains(before, key) || AnyContains(keyRanges, key) {
        AnyConcat(before, keyRanges, key);
      }
      if |both| == 1 {
        ranges := both;
        return;
      }
      ranges := Sweep(both);
    }
  }

  /** Joins overlapping ranges. */
  method Sweep(both: seq<Range>) returns (results: seq<Range>)
    requires |both| > 0
    ensures Disjoint(results)
    ensures forall key :: AnyContains(results, key) <==> AnyContains(both, key)
  {
    var sorted := SortRanges(both);
    SortedLength(both, sorted);
    results := [];
    var start := sorted[0];
    hide *;
    for i := 1 to |sorted|
      invariant Swept(results, start, sorted, i)
    {
      if Overlaps(start, sorted[i]) {
        SweepJoins(results, start, sorted, i);
        start := BoundingRange(start, sorted[i]);
      } else {
        SweepPushes(results, start, sorted, i);
        results := results + [start];
        start := sorted[i];
      }
    }
    SweepEnds(results, start, sorted, both);
    results := results + [start];
  }

  /** The first i ranges have been swept: their keys are in results and in start. */
  ghost predicate Swept(results: seq<Range>, start: Range, sorted: seq<Range>, i: nat) {
    && i <= |sorted| && InOrder(sorted) && Disjoint(results + [start]) && Reached(start, sorted, i)
    && forall key :: AnyContains(results, key) || Contains(start, key) <==> AnyContains(sorted[..i], key)
  }

  lemma SweepTakes(sorted: seq<Range>, i: nat, key: int)
    requires i < |sorted|
    ensures AnyContains(sorted[..i + 1], key) <==> AnyContains(sorted[..i], key) || Contains(sorted[i], key)
  {
    AnyPush(sorted[..i], sorted[i], key);
    assert sorted[..i + 1] == sorted[..i] + [sorted[i]];
  }

  lemma SweepJoins(results: seq<Range>, start: Range, sorted: seq<Range>, i: nat)
    requires Swept(results, start, sorted, i) && i < |sorted| && Overlaps(start, sorted[i])
    ensures Swept(results, BoundingRange(start, sorted[i]), sorted, i + 1)
  {
    var b := BoundingRange(start, sorted[i]);
    JoinKeeps(results, start, sorted[i]);
    JoinReaches(start, sorted, i);
    forall key ensures AnyContains(results, key) || Contains(b, key) <==> AnyContains(sorted[..i + 1], key) {
      SweepTakes(sorted, i, key);
      BoundingIsUnion(start, sorted[i], key);
    }
  }

  lemma SweepPushes(results: seq<Range>, start: Range, sorted: seq<Range>, i: nat)
    requires Swept(results, start, sorted, i) && i < |sorted| && !Overlaps(start, sorted[i])
    ensures Swept(results + [start], sorted[i], sorted, i + 1)
  {
    PushKeeps(results, start, sorted[i]);
    forall j | i + 1 <= j < |sorted| ensures LowerNotAfter(sorted[i], sorted[j]) && NotAfter(sorted[i], sorted[j]) {
    }
    forall key ensures AnyContains(results + [start], key) || Contains(sorted[i], key) <==> AnyContains(sorted[..i + 1], key) {
      SweepTakes(sorted, i, key);
      AnyPush(results, start, key);
    }
  }

  lemma SweepEnds(results: seq<Range>, start: Range, sorted: seq<Range>, both: seq<Range>)
    requires Swept(results, start, sorted, |sorted|) && multiset(sorted) == multiset(both)
    ensures Disjoint(results + [start])
    ensures forall key :: AnyContains(results + [start], key) <==> AnyContains(both, key)
  {
    assert sorted[..|sorted|] == sorted;
    forall key ensures AnyContains(results + [start], key) <==> AnyContains(both, key) {
      AnyPush(results, start, key);
      SameKeys(both, sorted, key);
    }
  }

  /** The sweep's current range does not begin after any range still to come. */
  predicate Reached(start: Range, sorted: seq<Range>, i: nat) {
    forall j :: i <= j < |sorted| ==> LowerNotAfter(start, sorted[j]) && (Overlaps(start, sorted[j]) || NotAfter(start, sorted[j]))
  }

  predicate LowerNotAfter(r: Range, s: Range) {
    CompareKey(r.from, s.from, true, r.excludeLower, s.excludeLower) != Lhs
  }

  lemma SortedLength(rs: seq<Range>, sorted: seq<Range>)
    requires multiset(rs) == multiset(sorted) && InOrder(sorted) && |rs| > 0
    ensures |sorted| == |rs| && Swept([], sorted[0], sorted, 1)
  {
    assert |multiset(rs)| == |rs| && |multiset(sorted)| == |sorted|;
    forall key ensures AnyContains([], key) || Contains(sorted[0], key) <==> AnyContains(sorted[..1], key) {
      if AnyContains(sorted[..1], key) { assert sorted[..1][0] == sorted[0]; }
      if Contains(sorted[0], key) { assert Contains(sorted[..1][0], key); }
    }
  }

  lemma AnyConcat(a: seq<Range>, b: seq<Range>, key: int)
    ensures AnyContains(a + b, key) <==> AnyContains(a, key) || AnyContains(b, key)
  {
    if AnyContains(a, key) {
      var i :| 0 <= i < |a| && Contains(a[i], key);
      assert (a + b)[i] == a[i];
    }
    if AnyContains(b, key) {
      var i :| 0 <= i < |b| && Contains(b[i], key);
      assert (a + b)[|a| + i] == b[i];
    }
    if AnyContains(a + b, key) {
      var i :| 0 <= i < |a + b| && Contains((a + b)[i], key);
      assert if i < |a| then Contains(a[i], key) else Contains(b[i - |a|], key);
    }
  }

  lemma AnyPush(a: seq<Range>, r: Range, key: int)
    ensures AnyContains(a + [r], key) <==> AnyContains(a, key) || Contains(r, key)
  {
    AnyConcat(a, [r], key);
    assert AnyContains([r], key) <==> Contains([r][0], key);
  }

  lemma JoinKeeps(results: seq<Range>, start: Range, next: Range)
    requires Disjoint(results + [start]) && LowerNotAfter(start, next) && Overlaps(start, next)
    ensures Disjoint(results + [BoundingRange(start, next)])
  {
    var b := BoundingRange(start, next);
    forall i | 0 <= i < |results| ensures Before(results[i], b) {
      assert Before((results + [start])[i], (results + [start])[|results|]);
      assert b.from == start.from && b.excludeLower == start.excludeLower;
    }
    forall i, j | 0 <= i < j < |results + [b]| ensures Before((results + [b])[i], (results + [b])[j]) {
      if j < |results| { assert Before((results + [start])[i], (results + [start])[j]); }
    }
  }

  lemma PushKeeps(results: seq<Range>, start: Range, next: Range)
    requires Disjoint(results + [start]) && NotAfter(start, next) && !Overlaps(start, next)
    ensures Disjoint(results + [start] + [next])
  {
    var all := results + [start];
    forall i | 0 <= i < |all| ensures Before(all[i], next) {
      if i < |results| {
        assert Before(all[i], all[|results|]);
        BeforeTrans(all[i], start, next);
      }
    }
    forall i, j | 0 <= i < j < |all + [next]| ensures Before((all + [next])[i], (all + [next])[j]) {
      if j < |all| { assert Before(all[i], all[j]); }
    }
  }

  lemma JoinReaches(start: Range, sorted: seq<Range>, i: nat)
    requires InOrder(sorted) && i < |sorted| && Reached(start, sorted, i)
    ensures Reached(BoundingRange(start, sorted[i]), sorted, i + 1)
  {
    var b := BoundingRange(start, sorted[i]);
    forall j | i + 1 <= j < |sorted|
      ensures LowerNotAfter(b, sorted[j]) && (Overlaps(b, sorted[j]) || NotAfter(b, sorted[j]))
    {
      assert LowerNotAfter(start, sorted[j]) && LowerNotAfter(start, sorted[i]);
    }
  }

  /** All pairwise intersections, as a new set. */
  method Intersect(s0: RangeSet, s1: RangeSet) returns (result: RangeSet)
    requires s0.Valid() && s1.Valid()
    ensures fresh(result) && result.Valid()
    ensures forall key :: result.ContainsKey(key) <==> s0.ContainsKey(key) && s1.ContainsKey(key)
  {
    var pairs := AllPairs(s0.ranges, s1.ranges);
    forall key ensures AnyContains(pairs, key) <==> AnyContains(s0.ranges, key) && AnyContains(s1.ranges, key) {
      PairsIntersect(s0.ranges, s1.ranges, key);
    }
    result := new RangeSet(pairs);
  }

  function AndRow(r: Range, ss: seq<Range>): seq<Range> {
    if ss == [] then [] else (if And(r, ss[0]).Some? then [And(r, ss[0]).value] else []) + AndRow(r, ss[1..])
  }

  function AllPairs(rs: seq<Range>, ss: seq<Range>): seq<Range> {
    if rs == [] then [] else AndRow(rs[0], ss) + AllPairs(rs[1..], ss)
  }

  lemma {:induction false} RowIntersects(r: Range, ss: seq<Range>, key: int)
    ensures AnyContains(AndRow(r, ss), key) <==> Contains(r, key) && AnyContains(ss, key)
  {
    if ss != [] {
      RowIntersects(r, ss[1..], key);
      AndIsIntersection(r, ss[0], key);
      var head := if And(r, ss[0]).Some? then [And(r, ss[0]).value] else [];
      AnyConcat(head, AndRow(r, ss[1..]), key);
      AnyConcat([ss[0]], ss[1..], key);
      assert ss == [ss[0]] + ss[1..];
      assert AnyContains(head, key) <==> And(r, ss[0]).Some? && Contains(And(r, ss[0]).value, key) by {
        if And(r, ss[0]).Some? { assert head[0] == And(r, ss[0]).value; }
      }
      assert AnyContains([ss[0]], key) <==> Contains([ss[0]][0], key);
    }
  }

  lemma {:induction false} PairsIntersect(rs: seq<Range>, ss: seq<Range>, key: int)
    ensures AnyContains(AllPairs(rs, ss), key) <==> AnyContains(rs, key) && AnyContains(ss, key)
  {
    if rs != [] {
      PairsIntersect(rs[1..], ss, key);
      RowIntersects(rs[0], ss, key);
      AnyConcat(AndRow(rs[0], ss), AllPairs(rs[1..], ss), key);
      AnyConcat([rs[0]], rs[1..], key);
      assert rs == [rs[0]] + rs[1..];
      assert AnyContains([rs[0]], key) <==> Contains([rs[0]][0], key);
    }
  }
}
