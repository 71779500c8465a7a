/** Values that are updated by a stream of inputs, some steps bringing none. */
module Folds {

  function Fold<A, B>(f: (A, B) -> A, a: A, bs: seq<B>): A {
    if bs == [] then a else f(Fold(f, a, bs[..|bs| - 1]), bs[|bs| - 1])
  }

  lemma {:induction false} FoldMore<A, B>(f: (A, B) -> A, a: A, bs: seq<B>, more: seq<B>)
    ensures Fold(f, a, bs + more) == Fold(f, Fold(f, a, bs), more)
    decreases |more|
  {
    if more == [] {
      assert bs + more == bs;
    } else {
      var n := |more| - 1;
      FoldMore(f, a, bs, more[..n]);
      assert (bs + more)[..|bs| + n] == bs + more[..n];
    }
  }

  /** The inputs of the first n steps, in order. */
  function Flat<B>(parts: seq<seq<B>>, n: nat): seq<B>
    requires n <= |parts|
  {
    if n == 0 then [] else Flat(parts, n - 1) + parts[n - 1]
  }

  lemma {:induction false} FlatGrows<B>(parts: seq<seq<B>>, n: nat, m: nat)
    requires n <= m <= |parts|
    ensures Flat(parts, n) <= Flat(parts, m)
  {
    if n < m {
      FlatGrows(parts, n, m - 1);
    }
  }

  /** Each value follows from the one before by the inputs of the step in between. */
  ghost predicate Follows<A(!new), B(!new)>(f: (A, B) -> A, values: seq<A>, parts: seq<seq<B>>) {
    && |values| == |parts| + 1
    && forall i {:trigger parts[i]} | 0 <= i < |parts| :: values[i + 1] == Fold(f, values[i], parts[i])
  }

  lemma {:induction false} FollowsAt<A(!new), B(!new)>(f: (A, B) -> A, values: seq<A>, parts: seq<seq<B>>, n: nat)
    requires Follows(f, values, parts) && n <= |parts|
    ensures values[n] == Fold(f, values[0], Flat(parts, n))
  {
    if n > 0 {
      FollowsAt(f, values, parts, n - 1);
      FoldMore(f, values[0], Flat(parts, n - 1), parts[n - 1]);
    }
  }

  /** Every value is reached by the first of all inputs. */
  lemma ReachedBy<A(!new), B(!new)>(f: (A, B) -> A, values: seq<A>, parts: seq<seq<B>>, i: nat)
    requires Follows(f, values, parts) && i <= |parts|
    ensures var all, k := Flat(parts, |parts|), |Flat(parts, i)|;
            k <= |all| && values[i] == Fold(f, values[0], all[..k])
  {
    FollowsAt(f, values, parts, i);
    FlatGrows(parts, i, |parts|);
    assert Flat(parts, |parts|)[..|Flat(parts, i)|] == Flat(parts, i);
  }
}
