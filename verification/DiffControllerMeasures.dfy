/** What the controller measures and answers: counts and rates against the log of all
    shares, the expected count, bounds, resets, copies and first answers. */
module DiffControlMeasures {
  import opened Arithmetic
  import opened Powers
  import opened StatsWindows
  import opened StatsWindowHistory
  import opened DiffControl
  import opened DiffControlLaws
  import opened DiffControlRuns

  // ---- Bounds ----

  function Gap(a: int, b: int): int {
    if a < b then b - a else a - b
  }

  /** A request within bounds is taken as it is, any other one as the nearest bound. */
  lemma ClampIs(c: Controller, diff: nat)
    requires c.kMinDiff <= c.kMaxDiff
    ensures c.kMinDiff <= c.Clamp(diff) <= c.kMaxDiff
    ensures c.kMinDiff <= diff <= c.kMaxDiff ==> c.Clamp(diff) == diff
    ensures forall x: nat | c.kMinDiff <= x <= c.kMaxDiff :: Gap(c.Clamp(diff), diff) <= Gap(x, diff)
  {
  }

  // ---- The expected count ----

  lemma Rounded(x: real)
    ensures -0.5 < (x + 0.5).Floor as real - x <= 0.5
  {
    var f := (x + 0.5).Floor;
    assert f as real <= x + 0.5 < f as real + 1.0;
  }

  /** One share per period, to the nearest integer. */
  lemma BaseIs(window: nat, seconds: nat)
    requires seconds > 0
    ensures -0.5 < BaseCount(window, seconds) - window as real / seconds as real <= 0.5
  {
    Rounded(window as real / seconds as real);
  }

  /** Never more than one share a second, and before the window is full the plain count. */
  lemma ExpectedIs(c: Controller, now: nat)
    requires c.Valid()
    ensures 1.0 <= c.Expected(now) <= c.kDiffWindow as real
    ensures now < c.startTime + c.kDiffWindow ==>
              -0.5 < c.Expected(now) - c.kDiffWindow as real / c.kRecordSeconds as real <= 0.5
    ensures now >= c.startTime + c.kDiffWindow ==>
              c.Expected(now) >= BaseCount(c.kDiffWindow, c.kRecordSeconds)
  {
    ExpectedPositive(c, now);
    BaseIs(c.kDiffWindow, c.kRecordSeconds);
    BaseWithinWindow(c.kDiffWindow, c.kRecordSeconds);
    ScaledIsMore(BaseCount(c.kDiffWindow, c.kRecordSeconds), c.level);
  }

  lemma ScaledIsMore(base: real, level: int)
    requires 0 <= level <= 8 && base >= 0.0
    ensures Times(base, Coefficient(level)) >= base
  {
    CoefficientGrows(0, level);
    assert base * (Coefficient(level) - 1.0) >= 0.0;
  }

  lemma BaseWithinWindow(window: nat, seconds: nat)
    requires 1 <= seconds <= window
    ensures 0.0 <= BaseCount(window, seconds) <= window as real
  {
    var x := window as real / seconds as real;
    assert 0.0 <= x <= window as real by { QuotientWithin(window as real, seconds as real); }
    var f := (x + 0.5).Floor;
    assert f as real <= x + 0.5 < window as real + 1.0;
    assert f < window + 1 by { assert f as real < (window + 1) as real; }
    assert f >= 0 by { assert f as real > -1.0; }
  }

  lemma QuotientWithin(x: real, y: real)
    requires x >= 0.0 && y >= 1.0
    ensures 0.0 <= x / y <= x
  {
    var q := x / y;
    RealQuotient(x, y, 0.0);
    assert q * y == x && q * (y - 1.0) >= 0.0;
  }

  // ---- Rates ----

  /** The share difficulty that a rate produces in so many seconds is measured as that rate. */
  lemma RateIsMeasured(rate: real, seconds: nat)
    requires seconds > 0
    ensures TeraRate(rate * 1000000000000.0 * seconds as real / 4294967296.0, seconds) == rate
  {
    var s := seconds as real;
    var hashes := rate * 1000000000000.0 * s;
    assert hashes / 4294967296.0 * 4294967296.0 == hashes;
    DivideBack(rate * 1000000000000.0, s);
  }

  lemma DivideBack(x: real, y: real)
    requires y > 0.0
    ensures x * y / y == x
  {
  }

  // ---- What has been counted ----

  /** Shares, oldest first: when they came and their difficulty. */
  type Shares = seq<(nat, nat)>

  function AddAll(c: Controller, shares: Shares): (d: Controller)
    requires c.Valid()
    ensures d.Valid() && SameBounds(c, d)
  {
    if shares == [] then c else
    var (time, share) := shares[|shares| - 1];
    AddAll(c, shares[..|shares| - 1]).AddShare(share, time)
  }

  predicate SameBounds(c: Controller, d: Controller) {
    d.kDiffWindow == c.kDiffWindow && d.kRecordSeconds == c.kRecordSeconds
  }

  /** By period: one for each share, or its difficulty. */
  function LogOf(shares: Shares, seconds: nat, weighted: bool): (log: Log)
    requires seconds > 0
    ensures |log| == |shares|
    ensures forall i | 0 <= i < |shares| :: log[i].0 == shares[i].0 / seconds
  {
    if shares == [] then [] else
    var (time, share) := shares[|shares| - 1];
    LogOf(shares[..|shares| - 1], seconds, weighted) + [(time / seconds, if weighted then share as real else 1.0)]
  }

  lemma {:induction false} AddAllIs(c: Controller, shares: Shares)
    requires c.Valid() && c.sharesNum == c.shares == Empty(c.kDiffWindow / c.kRecordSeconds)
    ensures var size, d := c.kDiffWindow / c.kRecordSeconds, AddAll(c, shares);
            && size > 0
            && d.sharesNum == InsertAll(size, LogOf(shares, c.kRecordSeconds, false))
            && d.shares == InsertAll(size, LogOf(shares, c.kRecordSeconds, true))
  {
    if shares != [] {
      AddAllIs(c, shares[..|shares| - 1]);
      LogNext(shares, c.kRecordSeconds, false);
      LogNext(shares, c.kRecordSeconds, true);
    }
  }

  lemma LogNext(shares: Shares, seconds: nat, weighted: bool)
    requires seconds > 0 && shares != []
    ensures var n, log := |shares| - 1, LogOf(shares, seconds, weighted);
            && log[..n] == LogOf(shares[..n], seconds, weighted)
            && log[n] == (shares[n].0 / seconds, if weighted then shares[n].1 as real else 1.0)
  {
  }

  /** Sum over the log for the window that ends in the given period. */
  function InWindow(log: Log, k: int, size: nat): real {
    LogSum(log, k - size, k)
  }

  lemma RingIsLog(size: nat, log: Log, k: nat)
    requires size > 0 && forall i, j | 0 <= i < j < |log| :: log[i].0 <= log[j].0
    requires log == [] || log[|log| - 1].0 <= k
    ensures InsertAll(size, log).Sum(k, size) == InWindow(log, k, size)
  {
    ClockIsOnTime(size, log);
    RunIsRecorded(size, log);
    SumIsExact(InsertAll(size, log), log, k, size);
  }

  ghost predicate Chronological(shares: Shares, now: nat) {
    && (forall i, j | 0 <= i < j < |shares| :: shares[i].0 <= shares[j].0)
    && (shares == [] || shares[|shares| - 1].0 <= now)
  }

  lemma LogInOrder(shares: Shares, seconds: nat, weighted: bool, now: nat)
    requires seconds > 0 && Chronological(shares, now)
    ensures var log := LogOf(shares, seconds, weighted);
            && (forall i, j | 0 <= i < j < |log| :: log[i].0 <= log[j].0)
            && (log == [] || log[|log| - 1].0 <= now / seconds)
  {
    var log := LogOf(shares, seconds, weighted);
    forall i, j | 0 <= i < j < |log| ensures log[i].0 <= log[j].0 {
      DivMonotone(shares[i].0, shares[j].0, seconds);
    }
    if log != [] {
      DivMonotone(shares[|shares| - 1].0, now, seconds);
    }
  }

  /** Whatever shares came in, the count is the number of those in the window and the
      rate is that of their difficulties. */
  lemma SharesAreMeasured(c: Controller, shares: Shares, now: nat)
    requires c.Valid() && c.sharesNum == c.shares == Empty(c.kDiffWindow / c.kRecordSeconds)
    requires Chronological(shares, now)
    ensures var size, d, k := c.kDiffWindow / c.kRecordSeconds, AddAll(c, shares), now / c.kRecordSeconds;
            && d.Count(now) == InWindow(LogOf(shares, c.kRecordSeconds, false), k, size)
            && d.shares.Sum(k, size) == InWindow(LogOf(shares, c.kRecordSeconds, true), k, size)
  {
    var size, k := c.kDiffWindow / c.kRecordSeconds, now / c.kRecordSeconds;
    AddAllIs(c, shares);
    LogInOrder(shares, c.kRecordSeconds, false, now);
    LogInOrder(shares, c.kRecordSeconds, true, now);
    RingIsLog(size, LogOf(shares, c.kRecordSeconds, false), k);
    RingIsLog(size, LogOf(shares, c.kRecordSeconds, true), k);
  }

  /** Once the window is full the rate is taken over the whole window. */
  lemma FullRateIs(c: Controller, shares: Shares, now: nat)
    requires c.Valid() && c.sharesNum == c.shares == Empty(c.kDiffWindow / c.kRecordSeconds)
    requires Chronological(shares, now) && now >= c.startTime + c.kDiffWindow
    ensures var size, d, k := c.kDiffWindow / c.kRecordSeconds, AddAll(c, shares), now / c.kRecordSeconds;
            var sum := LowWord(InWindow(LogOf(shares, c.kRecordSeconds, true), k, size));
            && d.startTime == c.startTime
            && d.HashRate(now) == sum * 4294967296.0 / c.kDiffWindow as real / 1000000000000.0
  {
    SharesAreMeasured(c, shares, now);
    AddAllFrame(c, shares);
  }

  lemma {:induction false} AddAllFrame(c: Controller, shares: Shares)
    requires c.Valid()
    ensures AddAll(c, shares).startTime == c.startTime
  {
    if shares != [] {
      AddAllFrame(c, shares[..|shares| - 1]);
    }
  }

  // ---- Resets, copies and first answers ----

  lemma ScaledToZero(w: Window)
    requires w.Valid()
    ensures IsZero(w.Scale(0.0))
  {
    forall i | 0 <= i < |w.slots| ensures w.Scale(0.0).slots[i] == 0.0 {
    }
  }

  /** A reset forgets every share. */
  lemma ResetForgets(c: Controller, diff: nat, now: nat)
    requires c.Valid()
    ensures var d := c.ResetCurDiff(diff);
            && Silent(d) && d.Count(now) == 0.0 && d.curDiff == c.Clamp(diff) && d.minDiff == c.minDiff
            && IsZero(d.shares)
  {
    ScaledToZero(c.sharesNum);
    ScaledToZero(c.shares);
    SilentCount(c.ResetCurDiff(diff), now);
  }

  /** Without shares and within a minute of the first call the difficulty stays. */
  lemma SilentStays(c: Controller, now: nat)
    requires Silent(c) && now > 0 && (c.startTime == 0 || now < c.startTime + 60) && !c.Started(now).IsFullWindow(now)
    ensures c.CalcCurDiff(now) == c.Started(now)
  {
    var p := c.Prepare(now);
    ExpectedPositive(p, now);
    SilentCount(p, now);
  }

  /** So a requested difficulty is the next answer, unless the minimum is greater. */
  lemma ResetIsAnswered(c: Controller, diff: nat, now: nat)
    requires c.Valid() && now > 0 && (c.startTime == 0 || now < c.startTime + 60)
    requires !c.Started(now).IsFullWindow(now)
    ensures c.ResetCurDiff(diff).CalcCurDiff(now).Answer() == Max(c.Clamp(diff), c.minDiff)
  {
    ResetForgets(c, diff, now);
    SilentStays(c.ResetCurDiff(diff), now);
  }

  /** A copy starts anew, with the answer of the original. */
  lemma CopyIsAnswered(c: Controller, now: nat)
    requires c.Valid() && now > 0
    ensures var d := c.Copied().CalcCurDiff(now);
            d.Answer() == c.Answer() && d.startTime == now && d.level == c.level && Silent(d)
  {
    SilentStays(c.Copied(), now);
  }

  /** The first answer of a configured controller is the default, brought into bounds. */
  lemma FirstAnswer(defaultDiff: nat, maxDiff: nat, minDiff: nat, avgSeconds: nat, period: nat, now: nat)
    requires 1 <= minDiff <= maxDiff <= MAX_ALLOWED && 1 <= avgSeconds <= period && now > 0
    ensures var c := NewController(defaultDiff, maxDiff, minDiff, avgSeconds, period);
            c.Valid() && c.CalcCurDiff(now).Answer() == c.Clamp(defaultDiff) && c.minDiff == minDiff
  {
    var c := NewController(defaultDiff, maxDiff, minDiff, avgSeconds, period);
    assert period / avgSeconds >= 1 by { DivMonotone(avgSeconds, period, avgSeconds); }
    SilentStays(c, now);
  }
}
