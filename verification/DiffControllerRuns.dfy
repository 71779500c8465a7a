/** Runs of a controller from its configuration: what repeated retargets at one moment
    can do, and what a controller does that hears of no share. */
module DiffControlRuns {
  import opened Arithmetic
  import opened Powers
  import opened Runs
  import opened StatsWindows
  import opened DiffControl
  import opened DiffControlLaws

  function Repeat(op: Op, n: nat): seq<Op> {
    if n == 0 then [] else Repeat(op, n - 1) + [op]
  }

  // ---- A controller that hears of no share ----

  ghost predicate Silent(c: Controller) {
    c.Valid() && IsZero(c.sharesNum)
  }

  lemma SilentCount(c: Controller, now: nat)
    requires Silent(c)
    ensures c.Count(now) == 0.0
  {
    var w, begin, n := c.sharesNum, now / c.kRecordSeconds, |c.sharesNum.slots|;
    ZeroSum(w, Min(begin, w.max), begin - n);
  }

  lemma {:induction false} SlowDownFalls(c: Controller, now: nat, e: real)
    requires Silent(c)
    ensures Silent(c.SlowDown(now, e)) && c.SlowDown(now, e).curDiff <= c.curDiff
    decreases c.curDiff
  {
    if c.Count(now) < e * 0.4 && c.curDiff >= Wrap64(c.minDiff * 2) {
      SlowDownFalls(c.Halved(), now, e);
    }
  }

  /** Without shares a retarget never raises the difficulty. */
  lemma SilentFalls(c: Controller, now: nat)
    requires Silent(c) && now > 0
    ensures var d := c.CalcCurDiff(now);
            Silent(d) && d.curDiff <= c.curDiff && d.minDiff == c.minDiff && SameConfig(c, d)
  {
    var p := c.Prepare(now);
    var e := p.Expected(now);
    ExpectedPositive(p, now);
    RetargetFrame(p, now, e);
    SilentCount(p, now);
    if !p.LowRate(now) {
      SlowDownFalls(p, now, e);
    }
  }

  // ---- Halving again and again ----

  lemma Cancel(a: nat, b: nat, p: nat)
    requires p > 0 && a * p >= b * p
    ensures a >= b
  {
    if a < b {
      MulMonotone(p, a + 1, b);
    }
  }

  lemma RoomBefore(cur: nat, min: nat, n: nat)
    requires n > 0 && cur >= min * Pow2(n)
    ensures cur >= min * Pow2(n - 1)
  {
    MulMonotone(min, Pow2(n - 1), Pow2(n));
  }

  lemma RoomToHalve(cur: nat, min: nat, mid: nat, n: nat)
    requires n > 0 && cur >= min * Pow2(n) && mid * Pow2(n - 1) == cur
    ensures mid >= 2 * min
  {
    var p := Pow2(n - 1);
    assert min * Pow2(n) == 2 * min * p;
    Cancel(mid, 2 * min, p);
  }

  lemma HalvedAgain(cur: nat, mid: nat, next: nat, n: nat)
    requires n > 0 && mid * Pow2(n - 1) == cur && next * 2 == mid
    ensures next * Pow2(n) == cur
  {
    var p := Pow2(n - 1);
    assert next * (2 * p) == next * 2 * p;
  }

  ghost predicate LowAt(c: Controller, now: nat) {
    Invariant(c) && Silent(c) && c.startTime != 0 && c.startTime + 60 <= now < c.startTime + c.kDiffWindow
  }

  lemma HalvingStep(c: Controller, now: nat)
    requires LowAt(c, now) && c.curDiff >= 2 * c.minDiff
    ensures var d := c.CalcCurDiff(now);
            LowAt(d, now) && d.curDiff * 2 == c.curDiff && d.minDiff == c.minDiff
  {
    SilentCount(c, now);
    assert c.Prepare(now) == c && c.LowRate(now);
    HalvedKeeps(c);
  }

  /** n calls at the same moment halve the difficulty n times, down to the minimum. */
  lemma {:induction false} HalvingRun(first: Controller, ops: seq<Op>, c: Controller, now: nat, n: nat)
    returns (d: Controller)
    requires Leads(Step, first, ops, c) && LowAt(c, now) && c.curDiff >= c.minDiff * Pow2(n)
    ensures Leads(Step, first, ops + Repeat(CalcCurDiff(now), n), d)
    ensures LowAt(d, now) && d.minDiff == c.minDiff && d.curDiff * Pow2(n) == c.curDiff
  {
    if n == 0 {
      assert ops + Repeat(CalcCurDiff(now), n) == ops;
      return c;
    }
    RoomBefore(c.curDiff, c.minDiff, n);
    var mid := HalvingRun(first, ops, c, now, n - 1);
    RoomToHalve(c.curDiff, c.minDiff, mid.curDiff, n);
    HalvingStep(mid, now);
    d := mid.CalcCurDiff(now);
    HalvedAgain(c.curDiff, mid.curDiff, d.curDiff, n);
    LeadsOn(Step, first, ops + Repeat(CalcCurDiff(now), n - 1), mid, CalcCurDiff(now), d);
    assert ops + Repeat(CalcCurDiff(now), n - 1) + [CalcCurDiff(now)] == ops + Repeat(CalcCurDiff(now), n);
  }

  /** The first call only starts the clock. */
  lemma FirstCall(c: Controller, start: nat)
    requires Invariant(c) && Silent(c) && c.startTime == 0 && start > 0
    ensures c.CalcCurDiff(start) == c.(startTime := start)
    ensures Leads(Step, c, [CalcCurDiff(start)], c.(startTime := start))
  {
    var p := c.Prepare(start);
    assert p == c.(startTime := start);
    ExpectedPositive(p, start);
    SilentCount(p, start);
    LeadsNowhere<Controller, Op>(Step, c);
    LeadsOn(Step, c, [], c, CalcCurDiff(start), p);
    assert [] + [CalcCurDiff(start)] == [CalcCurDiff(start)];
  }

  /** For every configuration with a window of more than a minute: after a minute without
      shares, n calls in the same second halve the difficulty n times. */
  lemma HalvesAgainAndAgain(defaultDiff: nat, maxDiff: nat, minDiff: nat, avgSeconds: nat, period: nat,
                            start: nat, n: nat)
    returns (d: Controller)
    requires IsPow2(defaultDiff) && IsPow2(maxDiff) && IsPow2(minDiff)
    requires minDiff * Pow2(n) <= defaultDiff <= maxDiff <= MAX_ALLOWED
    requires 1 <= avgSeconds <= period && period > 60 && start > 0
    ensures Leads(Step, NewController(defaultDiff, maxDiff, minDiff, avgSeconds, period),
                  [CalcCurDiff(start)] + Repeat(CalcCurDiff(start + 60), n), d)
    ensures d.curDiff * Pow2(n) == defaultDiff && d.Answer() == d.curDiff
  {
    assert minDiff <= minDiff * Pow2(n) by { MulMonotone(minDiff, 1, Pow2(n)); }
    var c := NewController(defaultDiff, maxDiff, minDiff, avgSeconds, period);
    NewControllerIs(defaultDiff, maxDiff, minDiff, avgSeconds, period);
    FirstCall(c, start);
    d := HalvingRun(c, [CalcCurDiff(start)], c.(startTime := start), start + 60, n);
    Cancel(d.curDiff, minDiff, Pow2(n));
  }

  // ---- A swing from scratch ----

  /** Minimum 1, default 4, a share expected every 100 seconds, a window of 300. */
  function Fresh(): Controller {
    NewController(4, 1024, 1, 100, 300)
  }

  /** The same, first called at 100000, after shares of difficulty 4 in its third period. */
  function Filled(n: nat): Controller {
    if n == 0 then Fresh().(startTime := 100_000) else
    Fresh().(startTime := 100_000, sharesNum := Window(1002, [n as real, 0.0, 0.0]),
             shares := Window(1002, [(4 * n) as real, 0.0, 0.0]))
  }

  lemma FreshIs()
    ensures Invariant(Fresh()) && Silent(Fresh())
    ensures Fresh() == Controller(1024, 1, 300, 100, 0, 1, 4, 0, Empty(3), Empty(3))
  {
    assert Pow2(0) == 1 && Pow2(2) == 4;
    Pow2Plus8(2);
    assert Pow2(10) == 1024;
    NewControllerIs(4, 1024, 1, 100, 300);
  }

  lemma FilledValid(n: nat)
    ensures Invariant(Filled(n))
  {
    FreshIs();
  }

  lemma FilledMore(n: nat)
    ensures Step(Filled(n), AddShare(4, 100_299), Filled(n + 1))
  {
    FreshIs();
    FilledValid(n);
    var c, d := Filled(n), Filled(n + 1);
    assert c.sharesNum.Insert(1002, 1.0) == d.sharesNum;
    assert c.shares.Insert(1002, 4.0) == d.shares;
  }

  lemma {:induction false} FilledRun(n: nat)
    ensures Leads(Step, Fresh(), [CalcCurDiff(100_000)] + Repeat(AddShare(4, 100_299), n), Filled(n))
  {
    var start := [CalcCurDiff(100_000)];
    if n == 0 {
      FreshIs();
      FirstCall(Fresh(), 100_000);
      assert start + Repeat(AddShare(4, 100_299), n) == start;
    } else {
      FilledRun(n - 1);
      FilledMore(n - 1);
      var op := AddShare(4, 100_299);
      LeadsOn(Step, Fresh(), start + Repeat(op, n - 1), Filled(n - 1), op, Filled(n));
      assert start + Repeat(op, n - 1) + [op] == start + Repeat(op, n);
    }
  }

  lemma FiveCounted()
    ensures Filled(5).Valid() && Filled(5).Count(100_299) == 5.0 && Filled(5).Expected(100_299) == 3.0
  {
    FreshIs();
    FilledValid(5);
    var w := Filled(5).sharesNum;
    assert w.SumDown(1002, 999) == w.Slot(1002) + w.Slot(1001) + w.Slot(1000) by {
      assert w.SumDown(1000, 999) == w.Slot(1000) + w.SumDown(999, 999);
    }
  }

  /** Five shares within 299 of 300 seconds lead to a state that swings: 4, 8, 4, 8, ... */
  lemma SwingExample()
    ensures Leads(Step, Fresh(), [CalcCurDiff(100_000)] + Repeat(AddShare(4, 100_299), 5), Filled(5))
    ensures Filled(5).Valid() && Swings(Filled(5), 100_299)
    ensures Filled(5).Answer() == 4 && Filled(5).CalcCurDiff(100_299).Answer() == 8
    ensures Filled(5).CalcCurDiff(100_299).CalcCurDiff(100_299) == Filled(5)
  {
    FilledRun(5);
    SwingStarts();
    CalcSwings(Filled(5), 100_299);
  }

  lemma SwingStarts()
    ensures Filled(5).Valid() && Filled(5).curDiff == 4 && Swings(Filled(5), 100_299)
  {
    FreshIs();
    FiveCounted();
  }
}
