/** Maximum bipartite matching by augmenting paths, in one pass over the left nodes.

    The proof carries one ghost set of right nodes, `closed`: every node in it is
    matched, and its partner has no neighbour outside the set.  A search that
    fails adds the nodes it visited to the set; a search that succeeds never
    writes inside it.  That is why a left node needs to be tried only once, and at
    the end the set certifies that no larger matching exists.
  */
module BipartiteMatching {
  import opened SetSizes

  const UNUSED: int := -1

  /** The graph: left nodes 0..lhs, right nodes 0..rhs. */
  datatype MatchMatrix = MatchMatrix(lhs: nat, rhs: nat, edges: set<(int, int)>) {

    predicate HasEdge(l: int, r: int) {
      (l, r) in edges
    }

    ghost predicate Valid() {
      forall l, r | HasEdge(l, r) :: 0 <= l < lhs && 0 <= r < rhs
    }
  }

  /** A set of edges of `g` in which no left node and no right node repeats. */
  ghost predicate IsMatching(g: MatchMatrix, m: set<(int, int)>) {
    && (forall p | p in m :: g.HasEdge(p.0, p.1))
    && (forall p, q | p in m && q in m && p != q :: p.0 != q.0 && p.1 != q.1)
  }

  /** `left` and `right` refer to each other along edges of `g`; only the entry of
      `right` at `stale` (if any) may point to a left node that has moved on. */
  ghost predicate Linked(g: MatchMatrix, left: seq<int>, right: seq<int>, stale: int) {
    && |left| == g.lhs
    && |right| == g.rhs
    && (forall l | 0 <= l < |left| && left[l] != UNUSED ::
          0 <= left[l] < |right| && g.HasEdge(l, left[l]) && right[left[l]] == l)
    && (forall r | 0 <= r < |right| && right[r] != UNUSED ::
          0 <= right[r] < |left| && (r != stale ==> left[right[r]] == r))
  }

  /** Every neighbour of left node `l` lies in `s`. */
  ghost predicate Confined(g: MatchMatrix, l: int, s: set<int>) {
    forall r | g.HasEdge(l, r) :: r in s
  }

  /** All nodes of `c` are matched, to left nodes with no neighbour outside `s`. */
  ghost predicate Saturated(g: MatchMatrix, right: seq<int>, c: set<int>, s: set<int>) {
    forall r | r in c ::
      0 <= r < |right| && right[r] != UNUSED && Confined(g, right[r], s)
  }

  ghost function Marked(seen: seq<bool>): set<int> {
    set r | 0 <= r < |seen| && seen[r]
  }

  ghost function Unmarked(seen: seq<bool>): set<int> {
    set r | 0 <= r < |seen| && !seen[r]
  }

  /** After a failed search: every right node it marked is matched, to a left node
      all of whose neighbours are marked. */
  ghost predicate Exhausted(g: MatchMatrix, right: seq<int>, seen: seq<bool>, seen': seq<bool>) {
    Saturated(g, right, Marked(seen') - Marked(seen), Marked(seen'))
  }

  /** After a successful search from `start`: the links are mutual again except at
      the old partner of `start`, only right nodes marked by this search were
      relinked, only left nodes linked to unmarked nodes moved, and no left node
      other than `start` changed between matched and unmatched. */
  ghost predicate Relinked(g: MatchMatrix, left: seq<int>, right: seq<int>, seen: seq<bool>,
                           left': seq<int>, right': seq<int>, seen': seq<bool>, start: int)
    requires Linked(g, left, right, UNUSED) && 0 <= start < |left|
    requires |right| == |seen| == |seen'|
  {
    && Linked(g, left', right', left[start])
    && left'[start] != UNUSED && !seen[left'[start]]
    && (forall r | 0 <= r < |right| && right'[r] != right[r] :: seen'[r] && !seen[r])
    && (forall l | 0 <= l < |left| && l != start && left'[l] != left[l] ::
          left[l] != UNUSED && left'[l] != UNUSED && !seen[left[l]])
  }

  lemma MarkShrinks(seen0: seq<bool>, seen1: seq<bool>, r: int)
    requires |seen0| == |seen1| && Marked(seen0) <= Marked(seen1)
    requires 0 <= r < |seen1| && !seen1[r]
    ensures Marked(seen1[r := true]) == Marked(seen1) + {r}
    ensures |Unmarked(seen1[r := true])| < |Unmarked(seen0)|
  {
    assert Unmarked(seen1[r := true]) == Unmarked(seen1) - {r} && r in Unmarked(seen1);
    forall x | x in Unmarked(seen1) ensures x in Unmarked(seen0) {
      assert x !in Marked(seen1);
    }
    SubsetSize(Unmarked(seen1), Unmarked(seen0));
  }

  /** A failed search below `r` extends what the searches before it exhausted. */
  lemma ExhaustedStep(g: MatchMatrix, right: seq<int>, seen0: seq<bool>, seen1: seq<bool>, seen2: seq<bool>, r: int)
    requires |seen0| == |seen1| == |seen2| == |right|
    requires 0 <= r < |right| && !seen1[r] && right[r] != UNUSED
    requires Marked(seen1) + {r} <= Marked(seen2)
    requires Exhausted(g, right, seen0, seen1)
    requires Exhausted(g, right, seen1[r := true], seen2)
    requires Confined(g, right[r], Marked(seen2))
    ensures Exhausted(g, right, seen0, seen2)
  {
    forall x | x in Marked(seen2) - Marked(seen0)
      ensures 0 <= x < |right| && right[x] != UNUSED && Confined(g, right[x], Marked(seen2))
    {
      if x in Marked(seen1) {
        assert x in Marked(seen1) - Marked(seen0);
      } else if x != r {
        assert x in Marked(seen2) - Marked(seen1[r := true]);
      }
    }
  }

  /** Linking `l` to a free right node. */
  lemma RelinkFree(g: MatchMatrix, left: seq<int>, right: seq<int>, seen: seq<bool>, seen': seq<bool>, l: int, r: int)
    requires Linked(g, left, right, UNUSED) && |right| == |seen| == |seen'|
    requires 0 <= l < |left| && 0 <= r < |right| && g.HasEdge(l, r) && right[r] == UNUSED
    requires !seen[r] && seen'[r]
    ensures Relinked(g, left, right, seen, left[l := r], right[r := l], seen', l)
  {
  }

  /** Linking `l` to `r` after the old partner of `r` has found another node. */
  lemma RelinkMoved(g: MatchMatrix, left: seq<int>, right: seq<int>, seen: seq<bool>, seen1: seq<bool>,
                    left1: seq<int>, right1: seq<int>, seen2: seq<bool>, l: int, r: int)
    requires Linked(g, left, right, UNUSED) && |right| == |seen| == |seen1| == |seen2|
    requires 0 <= l < |left| && 0 <= r < |right| && g.HasEdge(l, r) && right[r] != UNUSED
    requires left[l] != UNUSED ==> seen[left[l]]
    requires Marked(seen) <= Marked(seen1) && !seen1[r] && Marked(seen1) + {r} <= Marked(seen2)
    requires Relinked(g, left, right, seen1[r := true], left1, right1, seen2, right[r])
    ensures Relinked(g, left, right, seen, left1[l := r], right1[r := l], seen2, l)
  {
    assert left[right[r]] == r;
    assert r in Marked(seen2) && r !in Marked(seen1) && r !in Marked(seen);
    assert left1[l] == left[l] by {
      if left[l] != UNUSED {
        assert left[l] in Marked(seen) && left[l] in Marked(seen1);
      }
    }
    forall x | 0 <= x < |right| && right1[x] != right[x] ensures !seen[x] {
      assert x !in Marked(seen1);
    }
    forall x | 0 <= x < |left| && x != l && left1[x] != left[x]
      ensures left[x] != UNUSED && left1[x] != UNUSED && !seen[left[x]]
    {
      if x != right[r] {
        assert left[x] !in Marked(seen1);
      }
    }
  }

  /** State of the pass after the left nodes 0..|found|: exactly those whose search
      succeeded are matched, and the others are confined to the saturated set. */
  ghost predicate Searched(g: MatchMatrix, left: seq<int>, right: seq<int>, found: seq<bool>, closed: set<int>) {
    && Linked(g, left, right, UNUSED)
    && |found| <= |left|
    && (forall l | 0 <= l < |left| :: left[l] != UNUSED <==> l < |found| && found[l])
    && Saturated(g, right, closed, closed)
    && (forall l | 0 <= l < |found| && !found[l] :: Confined(g, l, closed))
  }

  ghost function NoneSeen(n: nat): seq<bool> {
    seq(n, _ => false)
  }

  lemma SearchedFound(g: MatchMatrix, left: seq<int>, right: seq<int>,
                      left': seq<int>, right': seq<int>, seen: seq<bool>, found: seq<bool>, closed: set<int>)
    requires Searched(g, left, right, found, closed) && |found| < |left| && |seen| == |right|
    requires Relinked(g, left, right, NoneSeen(|right|), left', right', seen, |found|)
    requires forall r | r in closed :: right'[r] == right[r]
    ensures Searched(g, left', right', found + [true], closed)
  {
  }

  lemma SearchedFailed(g: MatchMatrix, left: seq<int>, right: seq<int>,
                       seen: seq<bool>, found: seq<bool>, closed: set<int>)
    requires Searched(g, left, right, found, closed) && |found| < |left|
    requires Exhausted(g, right, NoneSeen(|right|), seen) && Confined(g, |found|, Marked(seen))
    ensures Searched(g, left, right, found + [false], closed + Marked(seen))
  {
    assert Marked(NoneSeen(|right|)) == {};
  }

  class MaxBipartiteMatchState {
    const graph: MatchMatrix
    const left: array<int>
    const right: array<int>

    ghost predicate Valid()
      reads this, left, right
    {
      && graph.Valid()
      && left != right
      && Linked(graph, left[..], right[..], UNUSED)
    }

    constructor (g: MatchMatrix)
      requires g.Valid()
      ensures Valid() && fresh(left) && fresh(right) && graph == g
      ensures forall l | 0 <= l < left.Length :: left[l] == UNUSED
    {
      graph := g;
      left := new int[g.lhs](_ => UNUSED);
      right := new int[g.rhs](_ => UNUSED);
    }

    /** Depth-first search for an augmenting path from left node `ilhs`. */
    method TryAugment(ilhs: int, seen: array<bool>, ghost closed: set<int>) returns (found: bool)
      requires Valid()
      requires 0 <= ilhs < left.Length && seen.Length == right.Length
      requires left[ilhs] != UNUSED ==> seen[left[ilhs]]
      requires Saturated(graph, right[..], closed, closed)
      modifies left, right, seen
      ensures Marked(old(seen[..])) <= Marked(seen[..])
      ensures found ==>
                Relinked(graph, old(left[..]), old(right[..]), old(seen[..]), left[..], right[..], seen[..], ilhs)
      ensures found ==> forall r | r in closed :: right[r] == old(right[r])
      ensures !found ==> left[..] == old(left[..]) && right[..] == old(right[..])
      ensures !found ==> Exhausted(graph, right[..], old(seen[..]), seen[..]) && Confined(graph, ilhs, Marked(seen[..]))
      ensures Confined(graph, ilhs, closed) ==> !found
      decreases |Unmarked(seen[..])|
    {
      ghost var left0, right0, seen0 := left[..], right[..], seen[..];
      for irhs := 0 to right.Length
        invariant left[..] == left0 && right[..] == right0
        invariant Marked(seen0) <= Marked(seen[..])
        invariant forall r | 0 <= r < irhs && graph.HasEdge(ilhs, r) :: r in Marked(seen[..])
        invariant Exhausted(graph, right0, seen0, seen[..])
      {
        if seen[irhs] || !graph.HasEdge(ilhs, irhs) {
          continue;
        }
        ghost var seen1 := seen[..];
        seen[irhs] := true;
        assert seen[..] == seen1[irhs := true];
        MarkShrinks(seen0, seen1, irhs);
        found := right[irhs] == UNUSED;
        if !found {
          found := TryAugment(right[irhs], seen, closed);
          if !found {
            ExhaustedStep(graph, right0, seen0, seen1, seen[..], irhs);
          }
        }
        if found {
          ghost var left1, right1 := left[..], right[..];
          left[ilhs] := irhs;
          right[irhs] := ilhs;
          assert left[..] == left1[ilhs := irhs] && right[..] == right1[irhs := ilhs];
          if right0[irhs] == UNUSED {
            RelinkFree(graph, left0, right0, seen0, seen[..], ilhs, irhs);
          } else {
            RelinkMoved(graph, left0, right0, seen0, seen1, left1, right1, seen[..], ilhs, irhs);
          }
          return;
        }
      }
      found := false;
    }

    /** One search per left node, in order; then the linked pairs, in order.
        `found[l]` is what the only search from `l` answered: it decides for good
        whether `l` is matched.  A node whose search failed ends up confined to
        `closed`, from where (see TryAugment) every further search fails. */
    method Compute() returns (pairs: seq<(int, int)>, ghost found: seq<bool>, ghost closed: set<int>)
      requires Valid()
      requires forall l | 0 <= l < left.Length :: left[l] == UNUSED
      modifies left, right
      ensures Valid()
      ensures pairs == Pairs(left[..])
      ensures Maximum(graph, set p | p in pairs)
      ensures |found| == left.Length && Searched(graph, left[..], right[..], found, closed)
    {
      found, closed := [], {};
      for ilhs := 0 to left.Length
        invariant |found| == ilhs && Searched(graph, left[..], right[..], found, closed)
      {
        assert left[ilhs] == UNUSED;
        ghost var left0, right0 := left[..], right[..];
        var seen := new bool[right.Length](_ => false);
        assert seen[..] == NoneSeen(right.Length);
        var ok := TryAugment(ilhs, seen, closed);
        if ok {
          SearchedFound(graph, left0, right0, left[..], right[..], seen[..], found, closed);
        } else {
          SearchedFailed(graph, left0, right0, seen[..], found, closed);
          closed := closed + Marked(seen[..]);
        }
        found := found + [ok];
      }
      CertifiedMaximum(graph, left[..], right[..], found, closed);
      PairsAre(left[..]);
      pairs := [];
      for ilhs := 0 to left.Length
        invariant pairs == Pairs(left[..ilhs])
      {
        assert left[..ilhs + 1][..ilhs] == left[..ilhs];
        if left[ilhs] != UNUSED {
          pairs := pairs + [(ilhs, left[ilhs])];
        }
      }
      assert left[..left.Length] == left[..];
    }
  }

  /** The matched left nodes with their partners, in increasing order of left node. */
  function Pairs(left: seq<int>): (pairs: seq<(int, int)>) {
    if left == [] then [] else
    var last := |left| - 1;
    Pairs(left[..last]) + if left[last] == UNUSED then [] else [(last, left[last])]
  }

  lemma LinksNext(left: seq<int>)
    requires left != []
    ensures var last := |left| - 1;
            Links(left) == Links(left[..last]) + if left[last] == UNUSED then {} else {(last, left[last])}
  {
  }

  lemma {:induction false} PairIsLink(left: seq<int>, p: (int, int))
    ensures p in Pairs(left) <==> p in Links(left)
  {
    if left != [] {
      PairIsLink(left[..|left| - 1], p);
      LinksNext(left);
    }
  }

  lemma {:induction false} PairsCount(left: seq<int>)
    ensures |Pairs(left)| == |Links(left)|
  {
    if left != [] {
      PairsCount(left[..|left| - 1]);
      LinksNext(left);
    }
  }

  lemma PairsAre(left: seq<int>)
    ensures (set p | p in Pairs(left)) == Links(left)
    ensures |Pairs(left)| == |Links(left)|
  {
    PairsCount(left);
    forall p ensures p in Pairs(left) <==> p in Links(left) {
      PairIsLink(left, p);
    }
  }

  /** The matching held in `left`, as a set of edges. */
  ghost function Links(left: seq<int>): set<(int, int)> {
    set l | 0 <= l < |left| && left[l] != UNUSED :: (l, left[l])
  }

  ghost predicate Maximum(g: MatchMatrix, m: set<(int, int)>) {
    && IsMatching(g, m)
    && forall other | IsMatching(g, other) :: |other| <= |m|
  }

  /** Injective images keep their size. */
  lemma {:induction false} InjectiveImage<T, U>(s: set<T>, f: T -> U, t: set<U>)
    requires forall x | x in s :: f(x) in t
    requires forall x, y | x in s && y in s && x != y :: f(x) != f(y)
    ensures |s| <= |t|
  {
    if s != {} {
      var x :| x in s;
      InjectiveImage(s - {x}, f, t - {f(x)});
    }
  }

  /** Where an edge of some other matching is sent to in ours: to our edge at its
      right end if its left end is confined to the set, else to our edge at its left end. */
  ghost function Sent(g: MatchMatrix, left: seq<int>, right: seq<int>, closed: set<int>, e: (int, int)): (int, int) {
    if !(0 <= e.0 < |left| && 0 <= e.1 < |right|) then e
    else if Confined(g, e.0, closed) then (right[e.1], e.1)
    else (e.0, left[e.0])
  }

  lemma SentIsLink(g: MatchMatrix, left: seq<int>, right: seq<int>, found: seq<bool>, closed: set<int>, e: (int, int))
    requires g.Valid() && Searched(g, left, right, found, closed) && |found| == |left|
    requires g.HasEdge(e.0, e.1)
    ensures Sent(g, left, right, closed, e) in Links(left)
  {
  }

  /** Mixed cases cannot collide: the partner of a node of the set is confined to it. */
  lemma SentInjective(g: MatchMatrix, left: seq<int>, right: seq<int>, found: seq<bool>, closed: set<int>,
                      d: (int, int), e: (int, int))
    requires g.Valid() && Searched(g, left, right, found, closed) && |found| == |left|
    requires g.HasEdge(d.0, d.1) && g.HasEdge(e.0, e.1) && d.0 != e.0 && d.1 != e.1
    ensures Sent(g, left, right, closed, d) != Sent(g, left, right, closed, e)
  {
  }

  /** The closed set at the end certifies the matching: sending the edges of any
      other matching to ours is injective, so that matching is no larger. */
  lemma CertifiedMaximum(g: MatchMatrix, left: seq<int>, right: seq<int>, found: seq<bool>, closed: set<int>)
    requires g.Valid()
    requires Searched(g, left, right, found, closed) && |found| == |left|
    ensures Maximum(g, Links(left))
  {
    forall other | IsMatching(g, other) ensures |other| <= |Links(left)| {
      var f := e => Sent(g, left, right, closed, e);
      forall e | e in other ensures f(e) in Links(left) {
        SentIsLink(g, left, right, found, closed, e);
      }
      forall d, e | d in other && e in other && d != e ensures f(d) != f(e) {
        SentInjective(g, left, right, found, closed, d, e);
      }
      InjectiveImage(other, f, Links(left));
    }
  }

  /** Entry point: build the state and run it. */
  method FindMaxBipartiteMatching(g: MatchMatrix) returns (pairs: seq<(int, int)>)
    requires g.Valid()
    ensures Maximum(g, set p | p in pairs)
    ensures forall i, j | 0 <= i < j < |pairs| :: pairs[i].0 < pairs[j].0
  {
    var state := new MaxBipartiteMatchState(g);
    ghost var found, closed;
    pairs, found, closed := state.Compute();
    PairsOrdered(state.left[..]);
  }

  lemma {:induction false} PairsOrdered(left: seq<int>)
    ensures forall p | p in Pairs(left) :: p.0 < |left|
    ensures forall i, j | 0 <= i < j < |Pairs(left)| :: Pairs(left)[i].0 < Pairs(left)[j].0
  {
    if left != [] {
      PairsOrdered(left[..|left| - 1]);
    }
  }
}
