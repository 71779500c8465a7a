/** The first key of an ordered map. */
module OrderedKeys {

  ghost predicate IsLowest(s: set<nat>, low: nat) {
    low in s && forall x | x in s :: low <= x
  }

  lemma {:induction false} FindLowest(s: set<nat>) returns (low: nat)
    requires s != {}
    ensures IsLowest(s, low)
    decreases |s|
  {
    low :| low in s;
    if s != {low} {
      var rest := s - {low};
      var other := FindLowest(rest);
      assert forall x | x in s :: x == low || x in rest;
      low := if low < other then low else other;
    }
  }

  function Lowest(s: set<nat>): (low: nat)
    requires s != {}
    ensures IsLowest(s, low)
  {
    assert exists low :: low in s && forall x | x in s :: low <= x by {
      var low := FindLowest(s);
    }
    var low :| low in s && forall x | x in s :: low <= x;
    low
  }
}
