/** The bounded duplicate-share checker: it remembers the shares of the N highest
    block heights seen, and must agree with a checker that forgets nothing. */
module DuplicateShares {
  import opened OrderedKeys
  import opened SetSizes

  /** Everything ever submitted. */
  type History<G> = seq<(nat, G)>

  ghost function Heights<G>(history: History<G>): set<nat> {
    set i | 0 <= i < |history| :: history[i].0
  }

  ghost function SharesAt<G>(history: History<G>, height: nat): set<G> {
    set i | 0 <= i < |history| && history[i].0 == height :: history[i].1
  }

  ghost function Above(heights: set<nat>, h: nat): set<nat> {
    set x | x in heights && x > h
  }

  /** h is one of the n largest of these heights. */
  ghost predicate Tracked(heights: set<nat>, n: nat, h: nat) {
    h in heights && |Above(heights, h)| < n
  }

  /** The bounded memory holds exactly the n largest heights, each with all its shares. */
  ghost predicate Remembers<G>(kept: map<nat, set<G>>, history: History<G>, n: nat) {
    && (forall h :: h in kept <==> Tracked(Heights(history), n, h))
    && (forall h | h in kept :: kept[h] == SharesAt(history, h))
  }

  // ---- Counting heights ----

  /** The n largest of a set, when it has no more than n members, are all of them. */
  lemma AllTracked(heights: set<nat>, n: nat, h: nat)
    requires |heights| <= n && h in heights
    ensures Tracked(heights, n, h)
  {
    SubsetSize(Above(heights, h), heights);
  }

  /** Dropping a minimum that has at least n heights above it keeps the n largest. */
  lemma DropMinimum(heights: set<nat>, n: nat, low: nat, h: nat)
    requires low in heights && (forall x | x in heights :: low <= x) && |heights| > n
    ensures Tracked(heights - {low}, n, h) <==> Tracked(heights, n, h)
  {
    assert Above(heights, low) == heights - {low};
    if h in heights && h != low {
      assert Above(heights - {low}, h) == Above(heights, h);
    }
  }

  /** Among the tracked heights alone, the same ones are the n largest. */
  lemma TrackedOfTracked(heights: set<nat>, top: set<nat>, n: nat, extra: nat, h: nat)
    requires forall x :: x in top <==> Tracked(heights, n, x)
    ensures Tracked(top + {extra}, n, h) <==> Tracked(heights + {extra}, n, h)
  {
    var small, big := top + {extra}, heights + {extra};
    assert Above(small, h) <= Above(big, h);
    SubsetSize(Above(small, h), Above(big, h));
    if Tracked(small, n, h) && Above(small, h) != Above(big, h) {
      var x :| x in Above(big, h) && x !in Above(small, h);
      NotTrackedHasMany(heights, top, n, x);
      SubsetSize(Above(top, x), Above(small, h));
    }
    if Tracked(big, n, h) && h != extra {
      SubsetSize(Above(heights, h), Above(big, h));
    }
  }

  /** Below the tracked heights there are n tracked ones above. */
  lemma NotTrackedHasMany(heights: set<nat>, top: set<nat>, n: nat, x: nat)
    requires forall y :: y in top <==> Tracked(heights, n, y)
    requires x in heights && x !in top
    ensures |Above(top, x)| >= n
  {
    TopSize(heights, top, n, Above(heights, x));
    assert forall y | y in top :: y > x by {
      forall y | y in top ensures y > x {
        if y < x {
          assert Above(heights, x) <= Above(heights, y);
          SubsetSize(Above(heights, x), Above(heights, y));
        }
      }
    }
    assert Above(top, x) == top;
  }

  /** If some height has at least n above it, then n heights are tracked. */
  lemma TopSize(heights: set<nat>, top: set<nat>, n: nat, above: set<nat>)
    requires forall y :: y in top <==> Tracked(heights, n, y)
    requires above <= heights && n <= |above|
    ensures |top| >= n
  {
    SubsetSize(above, heights);
    CountTop(heights, top, n);
  }

  lemma {:induction false} CountTop(heights: set<nat>, top: set<nat>, n: nat)
    requires forall y :: y in top <==> Tracked(heights, n, y)
    requires n <= |heights|
    ensures |top| == n
    decreases |heights|
  {
    if |heights| == n {
      forall h | h in heights { AllTracked(heights, n, h); }
      assert top == heights;
    } else {
      var low := Lowest(heights);
      forall h { DropMinimum(heights, n, low, h); }
      CountTop(heights - {low}, top, n);
    }
  }

  lemma HistoryGrows<G>(history: History<G>, height: nat, g: G)
    ensures Heights(history + [(height, g)]) == Heights(history) + {height}
    ensures forall h :: SharesAt(history + [(height, g)], h) ==
                        SharesAt(history, h) + if h == height then {g} else {}
  {
    var longer := history + [(height, g)];
    forall x ensures x in Heights(longer) <==> x in Heights(history) + {height} {
      if x in Heights(history) {
        var i :| 0 <= i < |history| && history[i].0 == x;
        assert longer[i].0 == x;
      } else if x == height {
        assert longer[|history|].0 == x;
      }
    }
    forall h ensures SharesAt(longer, h) == SharesAt(history, h) + if h == height then {g} else {} {
      forall y ensures y in SharesAt(longer, h) <==> y in SharesAt(history, h) || (h == height && y == g) {
        if y in SharesAt(history, h) {
          var i :| 0 <= i < |history| && history[i] == (h, y);
          assert longer[i] == (h, y);
        } else if h == height && y == g {
          assert longer[|history|] == (h, y);
        }
      }
    }
  }

  lemma SubmittedBefore<G>(history: History<G>, height: nat, g: G)
    ensures (height, g) in history <==> g in SharesAt(history, height)
  {
  }

  /** `kept` is `all` cut down to its n largest heights. */
  ghost predicate Trimmed<G>(all: map<nat, set<G>>, kept: map<nat, set<G>>, n: nat) {
    && (forall h :: h in kept <==> Tracked(all.Keys, n, h))
    && (forall h | h in kept :: kept[h] == all[h])
  }

  lemma NothingToTrim<G>(all: map<nat, set<G>>, n: nat)
    requires |all| <= n
    ensures Trimmed(all, all, n)
  {
    forall h | h in all { AllTracked(all.Keys, n, h); }
  }

  function Added<G>(kept: map<nat, set<G>>, height: nat, g: G): map<nat, set<G>> {
    kept[height := (if height in kept then kept[height] else {}) + {g}]
  }

  lemma TrimmedHeight<G>(kept: map<nat, set<G>>, history: History<G>, n: nat, height: nat, g: G,
                         kept': map<nat, set<G>>, h: nat)
    requires Remembers(kept, history, n) && Trimmed(Added(kept, height, g), kept', n)
    ensures h in kept' <==> Tracked(Heights(history) + {height}, n, h)
  {
    assert Added(kept, height, g).Keys == kept.Keys + {height};
    TrackedOfTracked(Heights(history), kept.Keys, n, height, h);
  }

  lemma TrimmedShares<G>(kept: map<nat, set<G>>, history: History<G>, n: nat, height: nat, g: G,
                         kept': map<nat, set<G>>, h: nat)
    requires Remembers(kept, history, n) && Trimmed(Added(kept, height, g), kept', n) && h in kept'
    ensures kept'[h] == SharesAt(history, h) + if h == height then {g} else {}
  {
    if h == height && height !in kept {
      TrimmedHeight(kept, history, n, height, g, kept', height);
      NewlyTracked(Heights(history), n, height);
      NoShares(history, height);
    }
  }

  lemma NoShares<G>(history: History<G>, h: nat)
    requires h !in Heights(history)
    ensures SharesAt(history, h) == {}
  {
  }

  /** Taking in a share and then keeping only the n largest heights is right. */
  lemma RemembersStep<G>(kept: map<nat, set<G>>, history: History<G>, n: nat, height: nat, g: G,
                         kept': map<nat, set<G>>)
    requires Remembers(kept, history, n) && Trimmed(Added(kept, height, g), kept', n)
    ensures Remembers(kept', history + [(height, g)], n)
  {
    var longer := history + [(height, g)];
    HistoryGrows(history, height, g);
    forall h ensures h in kept' <==> Tracked(Heights(longer), n, h) {
      TrimmedHeight(kept, history, n, height, g, kept', h);
    }
    forall h | h in kept' ensures kept'[h] == SharesAt(longer, h) {
      TrimmedShares(kept, history, n, height, g, kept', h);
    }
  }

  /** A height that was dropped once is never tracked again. */
  lemma NewlyTracked(heights: set<nat>, n: nat, h: nat)
    requires Tracked(heights + {h}, n, h) && !Tracked(heights, n, h)
    ensures h !in heights
  {
    if h in heights {
      SameSet(heights, h);
    }
  }

  lemma SameSet<T>(s: set<T>, x: T)
    requires x in s
    ensures s + {x} == s
  {
  }

  /** A repeated share of a tracked height changes nothing. */
  lemma RemembersRepeat<G>(kept: map<nat, set<G>>, history: History<G>, n: nat, height: nat, g: G)
    requires Remembers(kept, history, n) && height in kept && g in kept[height]
    ensures Remembers(kept, history + [(height, g)], n)
  {
    HistoryGrows(history, height, g);
    SameSet(Heights(history), height);
    SameSet(SharesAt(history, height), g);
  }

  /** Exactly N heights are kept, or all of them while there are fewer. */
  lemma RemembersSize<G>(kept: map<nat, set<G>>, history: History<G>, n: nat)
    requires Remembers(kept, history, n)
    ensures |kept| == if |Heights(history)| < n then |Heights(history)| else n
  {
    if |Heights(history)| < n {
      forall h | h in Heights(history) { AllTracked(Heights(history), n, h); }
      assert kept.Keys == Heights(history);
    } else {
      CountTop(Heights(history), kept.Keys, n);
    }
  }

  // ---- The checker ----

  class DuplicateShareChecker<G(==, !new)> {
    const trackingHeightNumber: nat
    var gshareSetMap: map<nat, set<G>>
    ghost var history: History<G>

    ghost predicate Valid()
      reads this
    {
      trackingHeightNumber > 0 && Remembers(gshareSetMap, history, trackingHeightNumber)
    }

    constructor (trackingHeightNumber: nat)
      requires trackingHeightNumber > 0
      ensures Valid() && history == [] && this.trackingHeightNumber == trackingHeightNumber
    {
      this.trackingHeightNumber := trackingHeightNumber;
      gshareSetMap, history := map[], [];
    }

    /** A share is refused exactly if it was submitted before at a height that is still
        one of the N highest. */
    method AddGShare(height: nat, gshare: G) returns (isNew: bool)
      requires Valid()
      modifies this
      ensures Valid() && history == old(history) + [(height, gshare)]
      ensures isNew <==> !(Tracked(Heights(old(history)), trackingHeightNumber, height) &&
                           (height, gshare) in old(history))
    {
      SubmittedBefore(history, height, gshare);
      ghost var before := gshareSetMap;
      var gset := if height in gshareSetMap then gshareSetMap[height] else {};
      if gshare in gset {
        RemembersRepeat(gshareSetMap, history, trackingHeightNumber, height, gshare);
        history := history + [(height, gshare)];
        return false;
      }
      gshareSetMap := gshareSetMap[height := gset + {gshare}];
      assert gshareSetMap == Added(before, height, gshare);
      if |gshareSetMap| > trackingHeightNumber {
        ClearExcess();
      } else {
        NothingToTrim(gshareSetMap, trackingHeightNumber);
      }
      RemembersStep(before, history, trackingHeightNumber, height, gshare, gshareSetMap);
      history := history + [(height, gshare)];
      return true;
    }

    /** Forget the lowest heights until N are left. */
    method ClearExcess()
      modifies this`gshareSetMap
      ensures Trimmed(old(gshareSetMap), gshareSetMap, trackingHeightNumber)
    {
      ghost var all := gshareSetMap;
      while |gshareSetMap| > trackingHeightNumber
        invariant forall h ::
                    Tracked(gshareSetMap.Keys, trackingHeightNumber, h) <==> Tracked(all.Keys, trackingHeightNumber, h)
        invariant forall h | h in gshareSetMap :: h in all && gshareSetMap[h] == all[h]
        decreases |gshareSetMap|
      {
        var low := Lowest(gshareSetMap.Keys);
        forall h { DropMinimum(gshareSetMap.Keys, trackingHeightNumber, low, h); }
        gshareSetMap := gshareSetMap - {low};
      }
      forall h | h in gshareSetMap { AllTracked(gshareSetMap.Keys, trackingHeightNumber, h); }
    }
  }
}
