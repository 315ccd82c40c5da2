/** Mapping each element to a sequence and joining the results. */
module ConcatMaps {

  function ConcatMap<A, B>(f: A -> seq<B>, xs: seq<A>): seq<B> {
    if xs == [] then [] else f(xs[0]) + ConcatMap(f, xs[1..])
  }

  lemma {:induction false} ConcatMapConcat<A, B>(f: A -> seq<B>, xs: seq<A>, ys: seq<A>)
    ensures ConcatMap(f, xs + ys) == ConcatMap(f, xs) + ConcatMap(f, ys)
  {
    if xs == [] {
      assert xs + ys == ys;
    } else {
      ConcatMapConcat(f, xs[1..], ys);
      assert (xs + ys)[1..] == xs[1..] + ys;
    }
  }

  /** Reordering the input only reorders the output. */
  lemma {:induction false} Reordered<A, B>(f: A -> seq<B>, xs: seq<A>, ys: seq<A>)
    requires multiset(xs) == multiset(ys)
    ensures multiset(ConcatMap(f, xs)) == multiset(ConcatMap(f, ys))
    decreases |xs|
  {
    if xs == [] {
      assert |multiset(ys)| == |ys| == 0;
    } else {
      assert xs[0] in multiset(ys);
      var i :| 0 <= i < |ys| && ys[i] == xs[0];
      var rest := ys[..i] + ys[i + 1..];
      TakeOut(xs, ys, i);
      Reordered(f, xs[1..], rest);
      ConcatMapAround(f, ys, i);
      ConcatMapConcat(f, ys[..i], ys[i + 1..]);
    }
  }

  lemma TakeOut<A>(xs: seq<A>, ys: seq<A>, i: nat)
    requires xs != [] && i < |ys| && ys[i] == xs[0] && multiset(xs) == multiset(ys)
    ensures multiset(xs[1..]) == multiset(ys[..i] + ys[i + 1..])
  {
    assert xs == [xs[0]] + xs[1..];
    assert ys == ys[..i] + ([ys[i]] + ys[i + 1..]);
    assert multiset(xs) == multiset{xs[0]} + multiset(xs[1..]);
    assert multiset(ys) == multiset(ys[..i]) + (multiset{ys[i]} + multiset(ys[i + 1..]));
    assert multiset(xs[1..]) == multiset(xs) - multiset{xs[0]};
    assert multiset(ys[..i] + ys[i + 1..]) == multiset(ys) - multiset{xs[0]};
  }

  lemma ConcatMapAround<A, B>(f: A -> seq<B>, ys: seq<A>, i: nat)
    requires i < |ys|
    ensures ConcatMap(f, ys) == ConcatMap(f, ys[..i]) + (f(ys[i]) + ConcatMap(f, ys[i + 1..]))
  {
    assert ys == ys[..i] + ys[i..];
    ConcatMapConcat(f, ys[..i], ys[i..]);
    assert ys[i..][1..] == ys[i + 1..];
  }

  ghost predicate NoRepeats<T>(xs: seq<T>) {
    forall i, j :: 0 <= i < j < |xs| ==> xs[i] != xs[j]
  }

  lemma {:induction false} SameMembersSameCounts<T(!new)>(xs: seq<T>, ys: seq<T>)
    requires NoRepeats(xs) && NoRepeats(ys) && forall k :: k in xs <==> k in ys
    ensures multiset(xs) == multiset(ys)
  {
    forall k ensures multiset(xs)[k] == multiset(ys)[k] {
      CountOne(xs, k);
      CountOne(ys, k);
    }
  }

  lemma {:induction false} CountOne<T>(xs: seq<T>, k: T)
    requires NoRepeats(xs)
    ensures multiset(xs)[k] == if k in xs then 1 else 0
  {
    if xs != [] {
      CountOne(xs[1..], k);
      assert xs == [xs[0]] + xs[1..];
    }
  }
}
