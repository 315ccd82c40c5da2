/** Sorted lists of row ids and the binary search that maintains them. */
module SortedRows {

  predicate Increasing(xs: seq<int>) {
    forall i, j :: 0 <= i < j < |xs| ==> xs[i] < xs[j]
  }

  function Elements(xs: seq<int>): set<int> {
    set x | x in xs
  }

  /** The lowest position of value, or -(insertion point) - 1. */
  method BinarySearch(xs: seq<int>, value: int) returns (index: int)
    requires Increasing(xs)
    ensures 0 <= index ==> index < |xs| && xs[index] == value
    ensures index < 0 ==> -index - 1 <= |xs| && value !in xs
    ensures index < 0 ==> forall i :: 0 <= i < |xs| ==> (xs[i] < value <==> i < -index - 1)
  {
    var left, right := 0, |xs|;
    while left < right
      invariant 0 <= left <= right <= |xs|
      invariant forall i :: 0 <= i < left ==> xs[i] < value
      invariant forall i :: right <= i < |xs| ==> value <= xs[i]
    {
      var middle := (left + right) / 2;
      if xs[middle] < value {
        left := middle + 1;
      } else {
        right := middle;
      }
    }
    index := if left < |xs| && xs[left] == value then left else -left - 1;
  }

  method BinaryInsert(xs: seq<int>, value: int) returns (inserted: bool, ys: seq<int>)
    requires Increasing(xs)
    ensures inserted <==> value !in xs
    ensures Increasing(ys) && Elements(ys) == Elements(xs) + {value}
    ensures |ys| == if inserted then |xs| + 1 else |xs|
  {
    var index := BinarySearch(xs, value);
    if index < 0 {
      var p := -(index + 1);
      ys := xs[..p] + [value] + xs[p..];
      inserted := true;
      assert forall x :: x in xs ==> x in xs[..p] || x in xs[p..];
    } else {
      ys := xs;
      inserted := false;
    }
  }

  method BinaryRemove(xs: seq<int>, value: int) returns (removed: bool, ys: seq<int>)
    requires Increasing(xs)
    ensures removed <==> value in xs
    ensures Increasing(ys) && Elements(ys) == Elements(xs) - {value}
    ensures |ys| == if removed then |xs| - 1 else |xs|
  {
    var index := BinarySearch(xs, value);
    if index < 0 {
      ys := xs;
      removed := false;
    } else {
      ys := xs[..index] + xs[index + 1..];
      removed := true;
      forall x | x in xs && x != value ensures x in ys {
        var i :| 0 <= i < |xs| && xs[i] == x;
        assert ys[if i < index then i else i - 1] == x;
      }
    }
  }
}
