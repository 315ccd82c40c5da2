/** Concatenating a sequence of sequences, and what a local change does to the result. */
module Flatten {

  ghost function Flat<T>(xss: seq<seq<T>>): seq<T> {
    if xss == [] then [] else xss[0] + Flat(xss[1..])
  }

  lemma {:induction false} FlatConcat<T>(a: seq<seq<T>>, b: seq<seq<T>>)
    ensures Flat(a + b) == Flat(a) + Flat(b)
  {
    if a == [] {
      assert a + b == b;
    } else {
      FlatConcat(a[1..], b);
      assert (a + b)[1..] == a[1..] + b;
      Associate(a[0], Flat(a[1..]), Flat(b), []);
    }
  }

  /** The result splits around any one of the parts. */
  lemma FlatAround<T>(xss: seq<seq<T>>, j: nat)
    requires j < |xss|
    ensures Flat(xss) == Flat(xss[..j]) + xss[j] + Flat(xss[j + 1..])
  {
    FlatConcat(xss[..j], xss[j..]);
    assert xss == xss[..j] + xss[j..];
    assert xss[j..][0] == xss[j] && xss[j..][1..] == xss[j + 1..];
  }

  lemma FlatUpdate<T>(xss: seq<seq<T>>, j: nat, v: seq<T>)
    requires j < |xss|
    ensures Flat(xss[j := v]) == Flat(xss[..j]) + v + Flat(xss[j + 1..])
  {
    FlatAround(xss[j := v], j);
    assert xss[j := v][..j] == xss[..j] && xss[j := v][j + 1..] == xss[j + 1..];
  }

  /** Moving elements between two neighbours is invisible in the result. */
  lemma FlatPair<T>(xss: seq<seq<T>>, yss: seq<seq<T>>, j: nat)
    requires |xss| == |yss| && j + 1 < |xss|
    requires forall i :: 0 <= i < |xss| && i != j && i != j + 1 ==> xss[i] == yss[i]
    requires xss[j] + xss[j + 1] == yss[j] + yss[j + 1]
    ensures Flat(xss) == Flat(yss)
  {
    FlatPairSplit(xss, j);
    FlatPairSplit(yss, j);
    assert xss[..j] == yss[..j] && xss[j + 2..] == yss[j + 2..];
  }

  lemma FlatPairSplit<T>(xss: seq<seq<T>>, j: nat)
    requires j + 1 < |xss|
    ensures Flat(xss) == Flat(xss[..j]) + (xss[j] + xss[j + 1]) + Flat(xss[j + 2..])
  {
    FlatAround(xss, j);
    var tail := xss[j + 1..];
    assert tail[0] == xss[j + 1] && tail[1..] == xss[j + 2..];
    Associate(Flat(xss[..j]), xss[j], xss[j + 1], Flat(xss[j + 2..]));
  }

  lemma Associate<T>(a: seq<T>, b: seq<T>, c: seq<T>, d: seq<T>)
    ensures a + b + (c + d) == a + (b + c) + d
    ensures a + b + c == a + (b + c)
  {
  }

  /** An empty part contributes nothing. */
  lemma FlatDrop<T>(xss: seq<seq<T>>, j: nat)
    requires j < |xss| && xss[j] == []
    ensures Flat(xss[..j] + xss[j + 1..]) == Flat(xss)
  {
    hide Flat;
    var before, after := xss[..j], xss[j + 1..];
    FlatAround(xss, j);
    FlatConcat(before, after);
    assert Flat(before) + [] == Flat(before);
  }

  ghost function Offset<T>(xss: seq<seq<T>>, j: nat): nat
    requires j <= |xss|
  {
    |Flat(xss[..j])|
  }

  /** Where element p of part j lands in the result. */
  lemma FlatIndex<T>(xss: seq<seq<T>>, j: nat, p: nat)
    requires j < |xss| && p < |xss[j]|
    ensures Offset(xss, j) + p < |Flat(xss)|
    ensures Flat(xss)[Offset(xss, j) + p] == xss[j][p]
    ensures Offset(xss, j + 1) == Offset(xss, j) + |xss[j]|
  {
    FlatAround(xss, j);
    OffsetStep(xss, j);
  }

  lemma OffsetStep<T>(xss: seq<seq<T>>, j: nat)
    requires j < |xss|
    ensures Offset(xss, j + 1) == Offset(xss, j) + |xss[j]|
  {
    assert xss[..j + 1] == xss[..j] + [xss[j]];
    FlatConcat(xss[..j], [xss[j]]);
    assert Flat([xss[j]]) == xss[j] + Flat([]);
  }

  lemma {:induction false} OffsetMonotone<T>(xss: seq<seq<T>>, i: nat, j: nat)
    requires i <= j <= |xss|
    ensures Offset(xss, i) <= Offset(xss, j)
    ensures (forall k :: i <= k < j ==> |xss[k]| > 0) ==> Offset(xss, i) + (j - i) <= Offset(xss, j)
    decreases j - i
  {
    if i < j {
      OffsetStep(xss, i);
      OffsetMonotone(xss, i + 1, j);
    }
  }

  /** Every element of the result comes from some part. */
  lemma {:induction false} FlatFind<T>(xss: seq<seq<T>>, k: nat) returns (j: nat, p: nat)
    requires k < |Flat(xss)|
    ensures j < |xss| && p < |xss[j]| && Offset(xss, j) + p == k && Flat(xss)[k] == xss[j][p]
  {
    if k < |xss[0]| {
      j, p := 0, k;
      assert xss[..0] == [];
    } else {
      var j', p' := FlatFind(xss[1..], k - |xss[0]|);
      j, p := j' + 1, p';
      assert xss[..j] == [xss[0]] + xss[1..][..j'];
      FlatConcat([xss[0]], xss[1..][..j']);
      assert Flat([xss[0]]) == xss[0] + Flat([]);
    }
  }

  /** Two elements of the result at one place are one element. */
  lemma SamePlace<T>(xss: seq<seq<T>>, i: nat, p: nat, j: nat, q: nat)
    requires i < |xss| && p < |xss[i]| && j < |xss| && q < |xss[j]|
    requires Offset(xss, i) + p == Offset(xss, j) + q
    ensures i == j && p == q
  {
    OffsetStep(xss, i);
    OffsetStep(xss, j);
    if i < j { OffsetMonotone(xss, i + 1, j); }
    if j < i { OffsetMonotone(xss, j + 1, i); }
  }
}
