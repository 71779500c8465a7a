/** What every retarget keeps, and when retargeting has settled. */
module DiffControlLaws {
  import opened Arithmetic
  import opened Folds
  import opened Powers
  import opened Runs
  import opened StatsWindows
  import opened DiffControl

  // ---- Retargeting settles ----

  /** `d` differs from `c` at most in the current difficulty and the scale of the share counts. */
  ghost predicate SameBut(c: Controller, d: Controller) {
    && d == c.(curDiff := d.curDiff, sharesNum := d.sharesNum)
    && d.sharesNum.max == c.sharesNum.max && |d.sharesNum.slots| == |c.sharesNum.slots|
  }

  lemma CountScales(c: Controller, now: nat)
    requires c.Valid()
    ensures c.Doubled().Valid() && c.Doubled().Count(now) == c.Count(now) / 2.0
    ensures c.Halved().Valid() && c.Halved().Count(now) == c.Count(now) * 2.0
  {
    SumScaled(c.sharesNum, 1.0 / 2.0, now / c.kRecordSeconds, |c.sharesNum.slots|);
    SumScaled(c.sharesNum, 2.0, now / c.kRecordSeconds, |c.sharesNum.slots|);
  }

  /** Speeding up lands between half the expected count and the expected count,
      unless it hits the maximum. */
  lemma {:induction false} SpeedUpLands(c: Controller, now: nat, expected: real)
    requires c.Valid() && c.Count(now) > expected / 2.0
    ensures var d := c.SpeedUp(now, expected);
            && SameBut(c, d)
            && d.Count(now) > expected / 2.0
            && (d.Count(now) <= expected || d.curDiff == c.kMaxDiff)
    decreases c.kMaxDiff - c.curDiff
  {
    if c.Count(now) > expected && c.curDiff < c.kMaxDiff {
      CountScales(c, now);
      SpeedUpLands(c.Doubled(), now, expected);
    }
  }

  /** Slowing down lands between 0.4 and 0.8 of the expected count, unless it had
      nothing to do or the difficulty cannot be halved any more. */
  lemma {:induction false} SlowDownLands(c: Controller, now: nat, expected: real)
    requires c.Valid() && expected > 0.0
    ensures var d := c.SlowDown(now, expected);
            && SameBut(c, d)
            && (d == c || d.Count(now) < expected * 0.8)
            && (d.Count(now) >= expected * 0.4 || d.curDiff < 2 * d.minDiff)
    decreases c.curDiff
  {
    if c.Count(now) < expected * 0.4 && c.curDiff >= Wrap64(c.minDiff * 2) {
      CountScales(c, now);
      SlowDownLands(c.Halved(), now, expected);
    }
  }

  lemma ExpectedPositive(c: Controller, now: nat)
    requires c.Valid()
    ensures c.Expected(now) >= 1.0
  {
    CountPositive(c.kDiffWindow, c.kRecordSeconds, c.level, c.IsFullWindow(now));
  }

  lemma CountPositive(window: nat, seconds: nat, level: int, full: bool)
    requires 1 <= seconds <= window && 0 <= level <= 8
    ensures ScaledCount(window, seconds, level, full) >= 1.0
  {
    assert window as real / seconds as real >= 1.0;
    assert BaseCount(window, seconds) >= 1.0;
    assert Coefficient(level) >= 1.0;
    assert BaseCount(window, seconds) * Coefficient(level) >= BaseCount(window, seconds);
  }

  lemma RetargetFrame(c: Controller, now: nat, e: real)
    requires c.Valid() && e > 0.0
    ensures SameBut(c, c.Retarget(now, e))
  {
    if !c.LowRate(now) {
      if c.Count(now) > e * 1.4 {
        SpeedUpLands(c, now, e);
      } else if c.IsFullWindow(now) && c.curDiff >= Wrap64(c.minDiff * 2) {
        SlowDownLands(c, now, e);
      }
    }
  }

  /** Preparing a second time at the same moment changes nothing. */
  lemma PrepareSettles(c: Controller, d: Controller, now: nat)
    requires c.Valid() && d.Valid() && now > 0
    requires SameBut(c.Prepare(now), d)
    ensures d.Prepare(now) == d
  {
    var p := c.Prepare(now);
    if d.IsFullWindow(now) {
      var q := c.Started(now);
      assert d.HashRate(now) == q.HashRate(now);
      AdjustIdempotent(q.level, q.HashRate(now));
    }
  }

  /** Neither loop has anything to do. */
  ghost predicate InBand(c: Controller, now: nat, e: real)
    requires c.Valid()
  {
    && (c.Count(now) <= e * 1.4 || c.curDiff == c.kMaxDiff)
    && (c.Count(now) >= e * 0.4 || c.curDiff < 2 * c.minDiff || !c.IsFullWindow(now))
  }

  lemma InBandStays(c: Controller, now: nat, e: real)
    requires c.Valid() && e > 0.0 && InBand(c, now, e)
    ensures c.Retarget(now, e) == c <==> !c.LowRate(now)
  {
    if c.LowRate(now) {
      assert c.Halved().curDiff < c.curDiff;
    }
  }

  lemma RetargetLandsInBand(c: Controller, now: nat, e: real)
    requires c.Valid() && e > 0.0 && !c.LowRate(now)
    ensures InBand(c.Retarget(now, e), now, e)
  {
    if c.Count(now) > e * 1.4 {
      SpeedUpLands(c, now, e);
    } else if c.IsFullWindow(now) && c.curDiff >= Wrap64(c.minDiff * 2) {
      SlowDownLands(c, now, e);
    }
  }

  lemma {:induction false} SpeedUpRises(c: Controller, now: nat, e: real)
    requires c.Valid()
    ensures c.SpeedUp(now, e).curDiff >= c.curDiff
    ensures c.Count(now) > e && c.curDiff < c.kMaxDiff ==> c.SpeedUp(now, e).curDiff > c.curDiff
    decreases c.kMaxDiff - c.curDiff
  {
    if c.Count(now) > e && c.curDiff < c.kMaxDiff {
      SpeedUpRises(c.Doubled(), now, e);
    }
  }

  /** More shares than the band allows, and room to double. */
  ghost predicate TooFast(c: Controller, now: nat, e: real)
    requires c.Valid()
  {
    c.Count(now) > e * 1.4 && c.curDiff < c.kMaxDiff
  }

  /** Before the window is full only two rules can move the difficulty. */
  lemma EarlyStays(c: Controller, now: nat, e: real)
    requires c.Valid() && e > 0.0 && !c.IsFullWindow(now)
    ensures c.Retarget(now, e) == c <==> !c.LowRate(now) && !TooFast(c, now, e)
  {
    if c.LowRate(now) {
      assert c.Halved().curDiff < c.curDiff;
    } else if TooFast(c, now, e) {
      SpeedUpRises(c, now, e);
    }
  }

  /** Count and difficulty where the doubling loop ends. */
  function Landed(count: real, diff: nat, e: real, max: nat): (real, nat)
    requires 0 < diff <= max
    decreases max - diff
  {
    if count > e && diff < max then Landed(count / 2.0, if diff * 2 < max then diff * 2 else max, e, max)
    else (count, diff)
  }

  /** The count and the difficulty after j doublings, without a bound. */
  function CountAfter(count: real, j: nat): real {
    count / Pow2(j) as real
  }

  function DiffAfter(diff: nat, j: nat): nat {
    diff * Pow2(j)
  }

  /** After j doublings the loop has nothing left to do. */
  ghost predicate StopsAt(count: real, diff: nat, e: real, max: nat, j: nat) {
    CountAfter(count, j) <= e || DiffAfter(diff, j) >= max
  }

  lemma OneDoubling(count: real, diff: nat, j: nat)
    ensures CountAfter(count / 2.0, j) == CountAfter(count, j + 1)
    ensures DiffAfter(diff * 2, j) == DiffAfter(diff, j + 1)
    ensures CountAfter(count, 0) == count && DiffAfter(diff, 0) == diff
  {
    assert Pow2(j + 1) as real == 2.0 * Pow2(j) as real;
    DivideTwice(count, 2.0, Pow2(j) as real);
  }

  lemma DivideTwice(x: real, a: real, b: real)
    requires a > 0.0 && b > 0.0
    ensures a * b > 0.0 && x / a / b == x / (a * b)
  {
    var q := x / a / b;
    assert q * b == x / a;
    assert q * b * a == x;
    assert q * (a * b) == x;
  }

  /** k is the least number of doublings at which the loop stops. */
  ghost predicate StopsFirstAt(count: real, diff: nat, e: real, max: nat, k: nat) {
    StopsAt(count, diff, e, max, k) && forall j: nat | j < k :: !StopsAt(count, diff, e, max, j)
  }

  lemma StopsOneLater(count: real, diff: nat, e: real, max: nat, k: nat)
    requires count > e && diff < max && StopsFirstAt(count / 2.0, diff * 2, e, max, k)
    ensures StopsFirstAt(count, diff, e, max, k + 1)
  {
    OneDoubling(count, diff, k);
    forall j: nat | j < k + 1 ensures !StopsAt(count, diff, e, max, j) {
      if j > 0 {
        assert !StopsAt(count / 2.0, diff * 2, e, max, j - 1);
        OneDoubling(count, diff, j - 1);
      } else {
        OneDoubling(count, diff, 0);
      }
    }
  }

  lemma StopsNow(count: real, diff: nat, e: real, max: nat)
    requires count <= e || diff >= max
    ensures StopsFirstAt(count, diff, e, max, 0)
  {
    OneDoubling(count, diff, 0);
  }

  /** Where the loop lands, in closed form: after the least number of doublings at which
      it has nothing left to do. */
  lemma {:induction false} LandedIs(count: real, diff: nat, e: real, max: nat) returns (k: nat)
    requires 0 < diff <= max
    ensures StopsFirstAt(count, diff, e, max, k)
    ensures Landed(count, diff, e, max) ==
            (CountAfter(count, k), if DiffAfter(diff, k) < max then DiffAfter(diff, k) else max)
    decreases max - diff
  {
    if count <= e || diff == max {
      k := 0;
      StopsNow(count, diff, e, max);
      OneDoubling(count, diff, 0);
    } else {
      if diff * 2 < max {
        k := LandedIs(count / 2.0, diff * 2, e, max);
      } else {
        k := 0;
        StopsNow(count / 2.0, diff * 2, e, max);
        OneDoubling(count / 2.0, diff * 2, 0);
      }
      StopsOneLater(count, diff, e, max, k);
      OneDoubling(count, diff, k);
      k := k + 1;
    }
  }

  lemma {:induction false} SpeedUpIs(c: Controller, now: nat, e: real)
    requires c.Valid()
    ensures var d := c.SpeedUp(now, e);
            (d.Count(now), d.curDiff) == Landed(c.Count(now), c.curDiff, e, c.kMaxDiff)
    decreases c.kMaxDiff - c.curDiff
  {
    if c.Count(now) > e && c.curDiff < c.kMaxDiff {
      CountScales(c, now);
      SpeedUpIs(c.Doubled(), now, e);
    }
  }

  /** The low-rate rule at another count and difficulty. */
  predicate TooFew(c: Controller, now: nat, count: real, diff: nat) {
    && c.startTime + 60 <= now < c.startTime + c.kDiffWindow
    && count <= ((now - c.startTime) / 60) as real
    && diff >= 2 * c.minDiff
  }

  lemma LowRateIs(c: Controller, d: Controller, now: nat)
    requires c.Valid() && d.Valid() && SameBut(c, d)
    ensures d.LowRate(now) <==> TooFew(c, now, d.Count(now), d.curDiff)
  {
  }

  /** What can be told before the call: halving does not call for another halving or for
      a doubling, and doubling does not end where halving starts. */
  ghost predicate SettlesAtOnce(p: Controller, now: nat)
    requires p.Valid()
  {
    var count, e := p.Count(now), p.Expected(now);
    if p.LowRate(now) then !TooFew(p, now, 2.0 * count, p.curDiff / 2) && 2.0 * count <= e * 1.4
    else if count > e * 1.4 then
      var (landed, diff) := Landed(count, p.curDiff, e, p.kMaxDiff);
      !TooFew(p, now, landed, diff)
    else true
  }

  lemma HalvedIs(p: Controller, now: nat)
    requires p.Valid() && p.LowRate(now)
    ensures var d := p.Halved();
            d.Valid() && SameBut(p, d) && d.Count(now) == 2.0 * p.Count(now) && d.curDiff == p.curDiff / 2
  {
    CountScales(p, now);
  }

  /** Where the retarget leads: the rule that may apply next is known beforehand. */
  lemma RetargetSettles(p: Controller, now: nat, e: real)
    requires p.Valid() && e == p.Expected(now) && e > 0.0
    ensures var d := p.Retarget(now, e);
            d.Retarget(now, e) == d <==> SettlesAtOnce(p, now)
  {
    var d := p.Retarget(now, e);
    RetargetFrame(p, now, e);
    LowRateIs(p, d, now);
    if p.LowRate(now) {
      HalvedIs(p, now);
      EarlyStays(d, now, e);
    } else {
      RetargetLandsInBand(p, now, e);
      InBandStays(d, now, e);
      SpeedUpIs(p, now, e);
    }
  }

  /** A second call at the same moment, with no share in between, changes nothing at
      all - exactly under the condition above. */
  lemma CalcSettles(c: Controller, now: nat)
    requires c.Valid() && now > 0
    ensures var d := c.CalcCurDiff(now);
            d.CalcCurDiff(now) == d <==> SettlesAtOnce(c.Prepare(now), now)
  {
    var p := c.Prepare(now);
    var e := p.Expected(now);
    var d := p.Retarget(now, e);
    ExpectedPositive(p, now);
    RetargetFrame(p, now, e);
    PrepareSettles(c, d, now);
    SameExpected(p, d, now);
    RetargetSettles(p, now, e);
  }

  /** With a period of at most 20 seconds three shares a minute or more are expected. */
  lemma OftenExpected(p: Controller, now: nat)
    requires p.Valid() && p.kRecordSeconds <= 20 && !p.IsFullWindow(now) && now >= p.startTime + 60
    ensures p.Expected(now) >= 3.0 * ((now - p.startTime) / 60) as real
  {
    var minutes := (now - p.startTime) / 60;
    assert p.kDiffWindow >= 60 * minutes;
    QuotientAtLeast(p.kDiffWindow, p.kRecordSeconds, 3 * minutes);
  }

  lemma {:induction false} ProductAsReal(n: nat, k: nat)
    ensures (n * k) as real == n as real * k as real
  {
    if k > 0 {
      ProductAsReal(n, k - 1);
      assert n * k == n * (k - 1) + n;
    }
  }

  lemma RealQuotient(x: real, y: real, n: real)
    requires y > 0.0 && x >= n * y
    ensures x / y >= n
  {
    var q := x / y;
    assert q * y == x;
    if q < n {
      assert (n - q) * y > 0.0;
    }
  }

  lemma QuotientAtLeast(window: nat, seconds: nat, n: nat)
    requires 1 <= seconds <= 20 && window >= 20 * n
    ensures BaseCount(window, seconds) >= n as real
  {
    assert window >= n * seconds by { MulMonotone(n, seconds, 20); }
    ExactQuotient(window, seconds, n);
    RoundedAtLeast(window as real / seconds as real, n);
  }

  lemma ExactQuotient(window: nat, seconds: nat, n: nat)
    requires seconds > 0 && window >= n * seconds
    ensures window as real / seconds as real >= n as real
  {
    ProductAsReal(n, seconds);
    RealQuotient(window as real, seconds as real, n as real);
  }

  lemma RoundedAtLeast(x: real, n: nat)
    requires x >= n as real
    ensures (x + 0.5).Floor as real >= n as real
  {
    var f := (x + 0.5).Floor;
    assert x + 0.5 < f as real + 1.0;
    assert f > n - 1 by { assert f as real > (n - 1) as real; }
  }

  /** Then one call settles it, except that halving may go on. */
  lemma OnlyHalvingRepeats(c: Controller, now: nat)
    requires c.Valid() && now > 0 && c.kRecordSeconds <= 20
    ensures var p, d := c.Prepare(now), c.CalcCurDiff(now);
            d.CalcCurDiff(now) == d <==>
            !(p.LowRate(now) && TooFew(p, now, 2.0 * p.Count(now), p.curDiff / 2))
  {
    var p := c.Prepare(now);
    CalcSettles(c, now);
    ExpectedPositive(p, now);
    if !p.IsFullWindow(now) && now >= p.startTime + 60 {
      OftenExpected(p, now);
      if !p.LowRate(now) && p.Count(now) > p.Expected(now) * 1.4 {
        SpeedUpIs(p, now, p.Expected(now));
        SpeedUpLands(p, now, p.Expected(now));
      }
    }
  }

  // ---- A retarget that undoes itself ----

  lemma ScaleOne(w: Window)
    ensures w.Scale(1.0) == w
  {
    assert w.Scale(1.0).slots == w.slots;
  }

  /** With a longer period the doubling can end where halving starts: then two calls at
      the same moment lead back, and the difficulty swings for ever. */
  ghost predicate Swings(c: Controller, now: nat)
    requires c.Valid()
  {
    var count, e := c.Count(now), c.Expected(now);
    && c.startTime != 0 && !c.LowRate(now)
    && e * 1.4 < count <= e * 2.0
    && c.minDiff <= c.curDiff && c.curDiff * 2 <= c.kMaxDiff
    && TooFew(c, now, count / 2.0, c.curDiff * 2)
  }

  lemma SpeedUpOnce(c: Controller, now: nat, e: real)
    requires c.Valid() && e < c.Count(now) <= e * 2.0 && c.curDiff < c.kMaxDiff
    ensures c.SpeedUp(now, e) == c.Doubled()
  {
    CountScales(c, now);
  }

  lemma BackAgain(c: Controller)
    requires c.Valid() && c.curDiff * 2 <= c.kMaxDiff
    ensures c.Doubled().Valid() && c.Doubled().curDiff == c.curDiff * 2 && c.Doubled().Halved() == c
  {
    ScaleTwice(c.sharesNum, 1.0 / 2.0, 2.0);
    ScaleOne(c.sharesNum);
  }

  lemma CalcSwings(c: Controller, now: nat)
    requires c.Valid() && now > 0 && Swings(c, now)
    ensures c.CalcCurDiff(now).curDiff == c.curDiff * 2
    ensures c.CalcCurDiff(now).CalcCurDiff(now) == c
    ensures c.Answer() == c.curDiff && c.CalcCurDiff(now).Answer() == c.curDiff * 2
  {
    AnswerIs(c, now);
    var e := c.Expected(now);
    ExpectedPositive(c, now);
    SpeedUpOnce(c, now, e);
    BackAgain(c);
    CountScales(c, now);
    var d := c.Doubled();
    assert c.Prepare(now) == c && c.CalcCurDiff(now) == d;
    LowRateIs(c, d, now);
    assert d.Prepare(now) == d;
  }

  lemma SameExpected(c: Controller, d: Controller, now: nat)
    requires c.Valid() && d.Valid() && SameBut(c, d)
    ensures c.Expected(now) == d.Expected(now)
  {
  }

  /** Once the window is full, retargeting is a fixed point. */
  lemma CalcFixedPoint(c: Controller, now: nat)
    requires c.Valid() && now > 0 && c.startTime != 0 && c.IsFullWindow(now)
    ensures c.CalcCurDiff(now).CalcCurDiff(now) == c.CalcCurDiff(now)
  {
    CalcSettles(c, now);
    ExpectedPositive(c.Prepare(now), now);
    RetargetFrame(c.Prepare(now), now, c.Prepare(now).Expected(now));
  }

  /** Before the window is full it need not be: with no shares at all, every call
      at the same moment halves the difficulty once more. */
  lemma LowRateRepeats(c: Controller, now: nat, e: real)
    requires c.Valid() && c.LowRate(now) && c.Count(now) == 0.0 && c.curDiff >= 4 * c.minDiff
    ensures c.Retarget(now, e).LowRate(now)
    ensures c.Retarget(now, e).Retarget(now, e).curDiff == c.curDiff / 2 / 2
  {
    CountScales(c, now);
    var d := c.Halved();
    assert c.Retarget(now, e) == d && d.curDiff == c.curDiff / 2;
    assert d.LowRate(now);
    assert d.Retarget(now, e) == d.Halved();
  }

  // ---- Powers of two, and the conservation of work ----

  ghost predicate AllPow2(c: Controller) {
    IsPow2(c.kMaxDiff) && IsPow2(c.kMinDiff) && IsPow2(c.minDiff) && IsPow2(c.curDiff)
  }

  /** The work behind the share counts: each slot weighted by the current difficulty. */
  function Work(c: Controller): Window {
    c.sharesNum.Scale(c.curDiff as real)
  }

  lemma ScaleTwice(w: Window, f: real, g: real)
    ensures w.Scale(f).Scale(g) == w.Scale(f * g)
  {
    var twice, once := w.Scale(f).Scale(g).slots, w.Scale(f * g).slots;
    forall i | 0 <= i < |w.slots| ensures twice[i] == once[i] {
      assert twice[i] == w.slots[i] * f * g;
    }
    assert twice == once;
  }

  /** The counts times the new difficulty are the counts before times the old one. */
  lemma Rescaled(w: Window, f: real, next: nat, diff: nat)
    requires f * next as real == diff as real
    ensures w.Scale(f).Scale(next as real) == w.Scale(diff as real)
  {
    ScaleTwice(w, f, next as real);
  }

  lemma ClampKeepsPow2(c: Controller, diff: nat)
    requires c.Valid() && AllPow2(c) && IsPow2(diff)
    ensures IsPow2(c.Clamp(diff)) && c.kMinDiff <= c.Clamp(diff) <= c.kMaxDiff
  {
  }

  /** Doubling below the maximum never meets the bound, and the counter product is exact. */
  lemma DoubledKeeps(c: Controller)
    requires c.Valid() && AllPow2(c) && c.curDiff < c.kMaxDiff
    ensures c.curDiff * 2 < TWO_64 && c.Doubled().curDiff == c.curDiff * 2
    ensures AllPow2(c.Doubled()) && Work(c.Doubled()) == Work(c)
  {
    NextPow2(c.curDiff, c.kMaxDiff);
    DoublePow2(c.curDiff);
    Rescaled(c.sharesNum, 1.0 / 2.0, c.curDiff * 2, c.curDiff);
  }

  lemma HalvedKeeps(c: Controller)
    requires c.Valid() && AllPow2(c) && c.curDiff >= c.minDiff * 2
    ensures c.minDiff * 2 < TWO_64 && c.Halved().curDiff * 2 == c.curDiff
    ensures c.Halved().curDiff >= c.minDiff
    ensures AllPow2(c.Halved()) && Work(c.Halved()) == Work(c)
  {
    HalfPow2(c.curDiff);
    Rescaled(c.sharesNum, 2.0, c.curDiff / 2, c.curDiff);
  }

  lemma {:induction false} SpeedUpKeeps(c: Controller, now: nat, e: real)
    requires c.Valid() && AllPow2(c)
    ensures AllPow2(c.SpeedUp(now, e)) && Work(c.SpeedUp(now, e)) == Work(c)
    decreases c.kMaxDiff - c.curDiff
  {
    if c.Count(now) > e && c.curDiff < c.kMaxDiff {
      DoubledKeeps(c);
      SpeedUpKeeps(c.Doubled(), now, e);
    }
  }

  lemma {:induction false} SlowDownKeeps(c: Controller, now: nat, e: real)
    requires c.Valid() && AllPow2(c)
    ensures AllPow2(c.SlowDown(now, e)) && Work(c.SlowDown(now, e)) == Work(c)
    decreases c.curDiff
  {
    if c.Count(now) < e * 0.4 && c.curDiff >= Wrap64(c.minDiff * 2) {
      HalvedKeeps(c);
      SlowDownKeeps(c.Halved(), now, e);
    }
  }

  lemma RetargetKeeps(c: Controller, now: nat, e: real)
    requires c.Valid() && AllPow2(c)
    ensures AllPow2(c.Retarget(now, e)) && Work(c.Retarget(now, e)) == Work(c)
  {
    if c.LowRate(now) {
      HalvedKeeps(c);
    } else if c.Count(now) > e * 1.4 {
      SpeedUpKeeps(c, now, e);
    } else if c.IsFullWindow(now) && c.curDiff >= Wrap64(c.minDiff * 2) {
      SlowDownKeeps(c, now, e);
    }
  }

  /** Every retarget keeps powers of two and conserves the work in every slot. */
  lemma CalcKeeps(c: Controller, now: nat)
    requires c.Valid() && AllPow2(c) && now > 0
    ensures AllPow2(c.CalcCurDiff(now)) && Work(c.CalcCurDiff(now)) == Work(c)
    ensures IsPow2(c.CalcCurDiff(now).Answer())
    ensures c.minDiff <= c.CalcCurDiff(now).Answer() <= c.kMaxDiff
  {
    var p := c.Prepare(now);
    ExpectedPositive(p, now);
    RetargetFrame(p, now, p.Expected(now));
    RetargetKeeps(p, now, p.Expected(now));
  }

  /** The limit 2^62 on the maximum is needed: one bit more, and with the smallest
      difficulty at 2^63 the halving loop would turn on the spot. */
  lemma HalvingWouldSpin(c: Controller, now: nat)
    requires c.kMinDiff == c.kMaxDiff == c.minDiff == c.curDiff == TWO_63
    ensures c.curDiff >= Wrap64(c.minDiff * 2)
    ensures c.Halved().curDiff == c.curDiff && c.Halved().minDiff == c.minDiff
  {
  }

  // ---- Whole runs ----

  datatype Op =
    | AddShare(share: nat, now: nat)
    | SetMinDiff(diff: nat)
    | ResetCurDiff(diff: nat)
    | CalcCurDiff(now: nat)

  /** The requests the server makes: difficulties already rounded, the clock running. */
  ghost predicate Legal(op: Op) {
    match op
    case AddShare(_, now) => now > 0
    case SetMinDiff(d) => IsPow2(d)
    case ResetCurDiff(d) => IsPow2(d)
    case CalcCurDiff(now) => now > 0
  }

  ghost function Apply(c: Controller, op: Op): Controller
    requires c.Valid() && Legal(op)
  {
    match op
    case AddShare(share, now) => c.AddShare(share, now)
    case SetMinDiff(d) => c.SetMinDiff(d)
    case ResetCurDiff(d) => c.ResetCurDiff(d)
    case CalcCurDiff(now) => c.CalcCurDiff(now)
  }

  ghost predicate Invariant(c: Controller) {
    c.Valid() && AllPow2(c)
  }

  /** A server configured with rounded difficulties starts in the invariant. */
  lemma NewControllerIs(defaultDiff: nat, maxDiff: nat, minDiff: nat, avgSeconds: nat, period: nat)
    requires IsPow2(defaultDiff) && IsPow2(maxDiff) && IsPow2(minDiff)
    requires minDiff <= maxDiff <= MAX_ALLOWED && 1 <= avgSeconds <= period
    ensures Invariant(NewController(defaultDiff, maxDiff, minDiff, avgSeconds, period))
  {
    assert period / avgSeconds >= 1 by { DivMonotone(avgSeconds, period, avgSeconds); }
  }

  lemma ApplyKeeps(c: Controller, op: Op)
    requires Invariant(c) && Legal(op)
    ensures Invariant(Apply(c, op))
  {
    match op
    case AddShare(_, _) =>
    case SetMinDiff(d) => ClampKeepsPow2(c, d);
    case ResetCurDiff(d) => ClampKeepsPow2(c, d);
    case CalcCurDiff(now) => CalcKeeps(c, now);
  }

  ghost predicate Step(c: Controller, op: Op, d: Controller) {
    c.Valid() && Legal(op) && d == Apply(c, op)
  }

  lemma StepKeeps(c: Controller, op: Op, d: Controller)
    requires Invariant(c) && Step(c, op, d)
    ensures Invariant(d)
  {
    ApplyKeeps(c, op);
  }

  /** The answer is the current difficulty or the minimum, whichever is greater. */
  lemma AnswerIs(c: Controller, now: nat)
    requires c.Valid() && now > 0
    ensures var d := c.CalcCurDiff(now);
            && d.Answer() >= d.curDiff && d.Answer() >= d.minDiff
            && (d.Answer() == d.curDiff || d.Answer() == d.minDiff)
            && d.minDiff == c.minDiff
  {
    var p := c.Prepare(now);
    ExpectedPositive(p, now);
    RetargetFrame(p, now, p.Expected(now));
  }

  /** The configuration never changes. */
  ghost predicate SameConfig(c: Controller, d: Controller) {
    && d.kMaxDiff == c.kMaxDiff && d.kMinDiff == c.kMinDiff
    && d.kDiffWindow == c.kDiffWindow && d.kRecordSeconds == c.kRecordSeconds
  }

  lemma StepFrame(c: Controller, op: Op, d: Controller)
    requires Step(c, op, d)
    ensures SameConfig(c, d)
    ensures d.level == AdjustAll(c.level, Measured(c, op))
  {
    if op.CalcCurDiff? {
      var p := c.Prepare(op.now);
      ExpectedPositive(p, op.now);
      RetargetFrame(p, op.now, p.Expected(op.now));
      assert AdjustAll(c.level, []) == c.level;
      if c.IsFullWindow(op.now) {
        var rate := c.HashRate(op.now);
        assert AdjustAll(c.level, [rate]) == AdjustLevel(c.level, rate);
      }
    }
  }

  /** In every run both difficulties stay powers of two between the configured
      bounds, and the level stays in its table. */
  lemma RunKeeps(states: seq<Controller>, ops: seq<Op>, n: nat)
    requires IsRun(Step, states, ops) && Invariant(states[0]) && n <= |ops|
    ensures Invariant(states[n]) && SameConfig(states[0], states[n])
  {
    var first := states[0];
    var inv := c => Invariant(c) && SameConfig(first, c);
    forall c, op, d | inv(c) && Step(c, op, d) ensures inv(d) {
      StepKeeps(c, op, d);
      StepFrame(c, op, d);
    }
    Throughout(Step, inv, states, ops, n);
  }

  // ---- Levels over whole runs ----

  /** The hash rate this operation estimates, if it does. */
  ghost function Measured(c: Controller, op: Op): seq<real> {
    if op.CalcCurDiff? && c.Valid() && c.startTime != 0 && op.now >= c.startTime + c.kDiffWindow
    then [c.HashRate(op.now)] else []
  }

  ghost function Measurements(states: seq<Controller>, ops: seq<Op>): seq<seq<real>>
    requires |states| == |ops| + 1
  {
    seq(|ops|, i requires 0 <= i < |ops| => Measured(states[i], ops[i]))
  }

  /** The rates estimated in a run, in order. */
  ghost function Rates(states: seq<Controller>, ops: seq<Op>): seq<real>
    requires |states| == |ops| + 1
  {
    Flat(Measurements(states, ops), |ops|)
  }

  ghost function Levels(states: seq<Controller>): seq<int> {
    seq(|states|, i requires 0 <= i < |states| => states[i].level)
  }

  ghost predicate LevelStep(c: Controller, op: Op, d: Controller) {
    d.level == Fold(AdjustAny, c.level, Measured(c, op))
  }

  lemma StepAt(states: seq<Controller>, ops: seq<Op>, i: nat)
    requires IsRun(Step, states, ops) && i < |ops|
    ensures LevelStep(states[i], ops[i], states[i + 1])
  {
    assert Step(states[i], ops[i], states[i + 1]);
    StepFrame(states[i], ops[i], states[i + 1]);
    AdjustAllIs(states[i].level, Measured(states[i], ops[i]));
  }

  lemma RunFollows(states: seq<Controller>, ops: seq<Op>)
    requires IsRun(Step, states, ops)
    ensures Follows(AdjustAny, Levels(states), Measurements(states, ops))
  {
    var levels, parts := Levels(states), Measurements(states, ops);
    forall i | 0 <= i < |parts| ensures levels[i + 1] == Fold(AdjustAny, levels[i], parts[i]) {
      StepAt(states, ops, i);
    }
  }

  /** In every run whose estimated rates are steady, the level never turns back. */
  lemma RunLevelMonotone(states: seq<Controller>, ops: seq<Op>, low: real, high: real)
    requires IsRun(Step, states, ops) && 0 <= states[0].level <= 8
    requires Steady(Rates(states, ops), low, high)
    ensures Rising(Levels(states)) || Falling(Levels(states))
  {
    RunFollows(states, ops);
    FollowsMonotone(Levels(states), Measurements(states, ops), low, high);
  }
}
