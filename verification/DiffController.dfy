/** The difficulty controller: it doubles or halves a miner's difficulty so that the
    number of shares in the window stays near what is expected.

    `Controller` is the value of a controller, with one function per operation; the
    class `DiffController` performs the operations in place.  The clock is a
    parameter, and `real` stands for `double`.
  */
module DiffControl {
  import opened Arithmetic
  import opened Folds
  import opened Powers
  import opened StatsWindows

  const MAX_ALLOWED: nat := 0x4000_0000_0000_0000

  /** 64-bit unsigned arithmetic. */
  function Wrap64(x: int): nat {
    if 0 <= x < TWO_64 then x else x % TWO_64
  }

  // ---- Hash rate levels ----

  /** Lower edge of a level, in T hashes per second. */
  function HashRateDown(level: int): int
    requires 0 <= level <= 8
  {
    [0, 4, 8, 16, 32, 64, 128, 256, 512][level]
  }

  /** Upper edge of a level; the top level has none. */
  function HashRateUp(level: int): int
    requires 0 <= level <= 7
  {
    [4, 8, 16, 32, 64, 128, 256, 512][level]
  }

  /** The edges double from level to level: 2^(k+1) for level k. */
  lemma EdgesAre(k: int)
    requires 0 <= k <= 8
    ensures HashRateDown(k) == if k == 0 then 0 else 2 * Pow2(k)
    ensures k < 8 ==> HashRateUp(k) == HashRateDown(k + 1)
  {
    assert Pow2(1) == 2 && Pow2(2) == 4 && Pow2(3) == 8 && Pow2(4) == 16;
    assert Pow2(5) == 32 && Pow2(6) == 64 && Pow2(7) == 128 && Pow2(8) == 256;
  }

  const RATE_HIGH: real := 1.5
  const RATE_LOW: real := 0.75

  predicate DropsFrom(level: int, rate: real)
    requires 0 <= level <= 8
  {
    level > 0 && rate <= HashRateDown(level) as real * RATE_LOW
  }

  predicate RisesFrom(level: int, rate: real)
    requires 0 <= level <= 8
  {
    level <= 7 && rate >= HashRateUp(level) as real * RATE_HIGH
  }

  function LowerLevel(level: int, rate: real): (r: int)
    requires 0 <= level <= 8
    ensures 0 <= r <= level && !DropsFrom(r, rate)
    ensures forall j | r < j <= level :: DropsFrom(j, rate)
  {
    if DropsFrom(level, rate) then LowerLevel(level - 1, rate) else level
  }

  function RaiseLevel(level: int, rate: real): (r: int)
    requires 0 <= level <= 8
    ensures level <= r <= 8 && !RisesFrom(r, rate)
    ensures forall j | level <= j < r :: RisesFrom(j, rate)
    decreases 8 - level
  {
    if RisesFrom(level, rate) then RaiseLevel(level + 1, rate) else level
  }

  function AdjustLevel(level: int, rate: real): (r: int)
    requires 0 <= level <= 8
    ensures 0 <= r <= 8
  {
    if level > 0 && rate < HashRateDown(level) as real then LowerLevel(level, rate)
    else if level <= 7 && rate > HashRateUp(level) as real then RaiseLevel(level, rate)
    else level
  }

  function Coefficient(level: int): real
    requires 0 <= level <= 8
  {
    [1.0, 1.0, 1.0, 1.2, 1.5, 2.0, 3.0, 4.0, 6.0][level]
  }

  /** One up to level 2, and from there growing with every level up to six. */
  lemma CoefficientGrows(j: int, k: int)
    requires 0 <= j <= k <= 8
    ensures 1.0 <= Coefficient(j) <= Coefficient(k) <= Coefficient(8) == 6.0
    ensures k <= 2 ==> Coefficient(k) == 1.0
    ensures 2 <= j < k ==> Coefficient(j) < Coefficient(k)
  {
  }

  /** A second adjustment by the same rate changes nothing. */
  lemma AdjustIdempotent(level: int, rate: real)
    requires 0 <= level <= 8
    ensures AdjustLevel(AdjustLevel(level, rate), rate) == AdjustLevel(level, rate)
  {
    var next := AdjustLevel(level, rate);
    if next < level {
      assert DropsFrom(next + 1, rate);
    } else if next > level {
      assert RisesFrom(next - 1, rate);
    }
  }

  function AdjustAll(level: int, rates: seq<real>): (r: int)
    requires 0 <= level <= 8
    ensures 0 <= r <= 8
  {
    if rates == [] then level else AdjustLevel(AdjustAll(level, rates[..|rates| - 1]), rates[|rates| - 1])
  }

  /** The same on all integers, so that it can be folded. */
  function AdjustAny(level: int, rate: real): int {
    if 0 <= level <= 8 then AdjustLevel(level, rate) else level
  }

  lemma {:induction false} AdjustAllIs(level: int, rates: seq<real>)
    requires 0 <= level <= 8
    ensures AdjustAll(level, rates) == Fold(AdjustAny, level, rates)
  {
    if rates != [] {
      AdjustAllIs(level, rates[..|rates| - 1]);
    }
  }

  ghost predicate Within(rates: seq<real>, low: real, high: real) {
    forall i | 0 <= i < |rates| :: low <= rates[i] <= high
  }

  /** The range holds both the rate at which level k is left downwards and the one at
      which it is entered from below. */
  ghost predicate Crosses(k: int, low: real, high: real)
    requires 1 <= k <= 8
  {
    low <= HashRateDown(k) as real * RATE_LOW && HashRateDown(k) as real * RATE_HIGH <= high
  }

  ghost predicate Straddles(low: real, high: real) {
    exists k | 1 <= k <= 8 :: Crosses(k, low, high)
  }

  /** All rates lie in a range that does not hold both scaled edges of any level. */
  ghost predicate Steady(rates: seq<real>, low: real, high: real) {
    !Straddles(low, high) && Within(rates, low, high)
  }

  /** A range that spans less than a factor of two is one of those. */
  lemma NarrowIsSteady(low: real, high: real)
    requires high < 2.0 * low
    ensures !Straddles(low, high)
  {
  }

  lemma AdjustStep(level: int, rate: real)
    requires 0 <= level <= 8
    ensures var next := AdjustLevel(level, rate);
            && (next < level ==> rate <= HashRateUp(next) as real * RATE_LOW)
            && (next > level ==> rate >= HashRateDown(next) as real * RATE_HIGH)
            && (next < level ==> rate <= HashRateDown(level) as real * RATE_LOW)
            && (next > level ==> rate >= HashRateUp(level) as real * RATE_HIGH)
  {
    var next := AdjustLevel(level, rate);
    if next < level {
      assert DropsFrom(next + 1, rate) && DropsFrom(level, rate);
    } else if next > level {
      assert RisesFrom(next - 1, rate) && RisesFrom(level, rate);
    }
  }

  /** A level is left upwards at one and a half times its upper edge, and downwards at
      three quarters of its lower edge, exactly. */
  lemma MovesIff(level: int, rate: real)
    requires 0 <= level <= 8
    ensures AdjustLevel(level, rate) > level <==> level < 8 && rate >= 1.5 * HashRateUp(level) as real
    ensures AdjustLevel(level, rate) < level <==> level > 0 && rate <= 0.75 * HashRateDown(level) as real
  {
    EdgesAre(level);
    if level < 8 && RisesFrom(level, rate) {
      assert RaiseLevel(level, rate) == RaiseLevel(level + 1, rate) > level;
    }
    if DropsFrom(level, rate) {
      assert LowerLevel(level, rate) == LowerLevel(level - 1, rate) < level;
    }
  }

  /** How a level that has moved away from where it started is held there: after a rise
      no rate of the range is low enough to drop from it, and after a fall none is high
      enough to rise from it. */
  ghost predicate Held(level: int, next: int, low: real, high: real)
    requires 0 <= level <= 8 && 0 <= next <= 8
  {
    && (next > level ==> HashRateDown(next) as real * RATE_LOW < low)
    && (next < level ==> high < HashRateUp(next) as real * RATE_HIGH)
  }

  lemma HeldStep(level: int, mid: int, rate: real, low: real, high: real)
    requires 0 <= level <= 8 && 0 <= mid <= 8 && Held(level, mid, low, high)
    requires low <= rate <= high && !Straddles(low, high)
    ensures var next := AdjustLevel(mid, rate);
            Held(level, next, low, high) && (mid > level ==> next >= mid) && (mid < level ==> next <= mid)
  {
    AdjustStep(mid, rate);
    var next := AdjustLevel(mid, rate);
    if next > mid {
      assert !Crosses(next, low, high);
    } else if next < mid {
      assert !Crosses(next + 1, low, high);
    }
  }

  lemma {:induction false} AlwaysHeld(level: int, rates: seq<real>, low: real, high: real)
    requires 0 <= level <= 8 && Steady(rates, low, high)
    ensures Held(level, AdjustAll(level, rates), low, high)
  {
    if rates != [] {
      var n := |rates| - 1;
      AlwaysHeld(level, rates[..n], low, high);
      HeldStep(level, AdjustAll(level, rates[..n]), rates[n], low, high);
    }
  }

  lemma OneMore(level: int, rates: seq<real>, low: real, high: real, j: nat)
    requires 0 <= level <= 8 && Steady(rates, low, high) && 0 < j <= |rates|
    ensures var mid, next := AdjustAll(level, rates[..j - 1]), AdjustAll(level, rates[..j]);
            (mid > level ==> next >= mid) && (mid < level ==> next <= mid)
  {
    assert rates[..j][..j - 1] == rates[..j - 1];
    AlwaysHeld(level, rates[..j - 1], low, high);
    HeldStep(level, AdjustAll(level, rates[..j - 1]), rates[j - 1], low, high);
  }

  /** Once risen the level never falls, and once fallen it never rises. */
  lemma {:induction false} NoReturn(level: int, rates: seq<real>, low: real, high: real, i: nat, j: nat)
    requires 0 <= level <= 8 && Steady(rates, low, high) && i <= j <= |rates|
    ensures var li, lj := AdjustAll(level, rates[..i]), AdjustAll(level, rates[..j]);
            (li > level ==> lj >= li) && (li < level ==> lj <= li)
  {
    if i < j {
      NoReturn(level, rates, low, high, i, j - 1);
      OneMore(level, rates, low, high, j);
    }
  }

  ghost predicate Climbs(level: int, rates: seq<real>)
    requires 0 <= level <= 8
  {
    forall i, j | 0 <= i <= j <= |rates| :: AdjustAll(level, rates[..i]) <= AdjustAll(level, rates[..j])
  }

  ghost predicate Drops(level: int, rates: seq<real>)
    requires 0 <= level <= 8
  {
    forall i, j | 0 <= i <= j <= |rates| :: AdjustAll(level, rates[..i]) >= AdjustAll(level, rates[..j])
  }

  /** Levels do not oscillate under steady rates. */
  lemma LevelMonotone(level: int, rates: seq<real>, low: real, high: real)
    requires 0 <= level <= 8 && Steady(rates, low, high)
    ensures Climbs(level, rates) || Drops(level, rates)
  {
    assert rates[..|rates|] == rates;
    forall i, j | 0 <= i <= j <= |rates|
      ensures
        var next, li, lj := AdjustAll(level, rates), AdjustAll(level, rates[..i]), AdjustAll(level, rates[..j]);
        if next >= level then li <= lj else li >= lj
    {
      NoReturn(level, rates, low, high, i, j);
      NoReturn(level, rates, low, high, i, |rates|);
      NoReturn(level, rates, low, high, j, |rates|);
    }
  }

  ghost predicate Rising(levels: seq<int>) {
    forall i, j | 0 <= i <= j < |levels| :: levels[i] <= levels[j]
  }

  ghost predicate Falling(levels: seq<int>) {
    forall i, j | 0 <= i <= j < |levels| :: levels[i] >= levels[j]
  }

  /** The same if the rates come now and then. */
  lemma FollowsMonotone(levels: seq<int>, parts: seq<seq<real>>, low: real, high: real)
    requires Follows(AdjustAny, levels, parts) && 0 <= levels[0] <= 8
    requires Steady(Flat(parts, |parts|), low, high)
    ensures Rising(levels) || Falling(levels)
  {
    var rates := Flat(parts, |parts|);
    LevelMonotone(levels[0], rates, low, high);
    forall i, j | 0 <= i <= j < |levels|
      ensures Climbs(levels[0], rates) ==> levels[i] <= levels[j]
      ensures Drops(levels[0], rates) ==> levels[i] >= levels[j]
    {
      LevelAt(levels, parts, i);
      LevelAt(levels, parts, j);
      FlatGrows(parts, i, j);
    }
  }

  lemma LevelAt(levels: seq<int>, parts: seq<seq<real>>, i: nat)
    requires Follows(AdjustAny, levels, parts) && 0 <= levels[0] <= 8 && i <= |parts|
    ensures var rates, k := Flat(parts, |parts|), |Flat(parts, i)|;
            k <= |rates| && levels[i] == AdjustAll(levels[0], rates[..k])
  {
    ReachedBy(AdjustAny, levels, parts, i);
    AdjustAllIs(levels[0], Flat(parts, |parts|)[..|Flat(parts, i)|]);
  }

  /** At every edge two rates a factor of two apart swing the level. */
  lemma LevelSwings(k: int)
    requires 1 <= k <= 8
    ensures AdjustLevel(k - 1, HashRateDown(k) as real * RATE_HIGH) == k
    ensures AdjustLevel(k, HashRateDown(k) as real * RATE_LOW) == k - 1
  {
    var up, down := HashRateDown(k) as real * RATE_HIGH, HashRateDown(k) as real * RATE_LOW;
    assert RisesFrom(k - 1, up) && !RisesFrom(k, up);
    assert DropsFrom(k, down) && !DropsFrom(k - 1, down);
  }

  function SwingRates(k: int): seq<real>
    requires 1 <= k <= 8
  {
    [HashRateDown(k) as real * RATE_HIGH, HashRateDown(k) as real * RATE_LOW]
  }

  lemma SwingTurnsBack(k: int)
    requires 1 <= k <= 8
    ensures !Climbs(k - 1, SwingRates(k)) && !Drops(k - 1, SwingRates(k))
  {
    LevelSwings(k);
    var rates := SwingRates(k);
    var one := rates[..1];
    assert one[..0] == [] && rates[..0] == [] && rates[..2] == rates && rates[..2][..1] == one;
    assert AdjustAll(k - 1, []) == k - 1;
    assert AdjustAll(k - 1, one) == k;
    assert AdjustAll(k - 1, rates) == k - 1;
  }

  lemma SwingWithin(k: int, low: real, high: real)
    requires 1 <= k <= 8 && Crosses(k, low, high)
    ensures Within(SwingRates(k), low, high)
  {
  }

  /** No sequence of rates from a range makes the level turn back, whatever level it
      starts from, exactly if the range does not hold both scaled edges of a level. */
  lemma LevelMonotoneIff(low: real, high: real)
    ensures (forall level, rates | 0 <= level <= 8 && Within(rates, low, high) ::
               Climbs(level, rates) || Drops(level, rates))
            <==> !Straddles(low, high)
  {
    if Straddles(low, high) {
      var k :| 1 <= k <= 8 && Crosses(k, low, high);
      SwingTurnsBack(k);
      SwingWithin(k, low, high);
    } else {
      forall level, rates | 0 <= level <= 8 && Within(rates, low, high)
        ensures Climbs(level, rates) || Drops(level, rates)
      {
        LevelMonotone(level, rates, low, high);
      }
    }
  }

  /** 2^32 hashes per unit of share difficulty, over so many seconds, in units of 10^12. */
  function TeraRate(shares: real, seconds: nat): real
    requires seconds > 0
  {
    shares * 4294967296.0 / seconds as real / 1000000000000.0
  }

  // ---- Expected number of shares in a window ----

  /** One share per period, rounded to the nearest integer. */
  function BaseCount(window: nat, seconds: nat): real
    requires seconds > 0
  {
    (window as real / seconds as real + 0.5).Floor as real
  }

  function Times(a: real, b: real): real {
    a * b
  }

  /** Big miners get a bigger count once the window is full. */
  function ScaledCount(window: nat, seconds: nat, level: int, full: bool): real
    requires seconds > 0 && 0 <= level <= 8
  {
    if full then Times(BaseCount(window, seconds), Coefficient(level)) else BaseCount(window, seconds)
  }

  /** At most one share per second. */
  function CappedCount(window: nat, count: real): real {
    if count > window as real then window as real else count
  }

  // ---- The controller as a value ----

  datatype Controller = Controller(
    kMaxDiff: nat, kMinDiff: nat,
    kDiffWindow: nat, kRecordSeconds: nat,
    startTime: nat, minDiff: nat, curDiff: nat, level: int,
    sharesNum: Window, shares: Window)
  {
    ghost predicate ValidConfig() {
      && 1 <= kMinDiff <= kMaxDiff <= MAX_ALLOWED
      && 1 <= kRecordSeconds <= kDiffWindow
    }

    ghost predicate Valid() {
      && ValidConfig()
      && kMinDiff <= minDiff <= kMaxDiff
      && kMinDiff <= curDiff <= kMaxDiff
      && 0 <= level <= 8
      && sharesNum.Valid() && |sharesNum.slots| == kDiffWindow / kRecordSeconds
      && shares.Valid() && |shares.slots| == kDiffWindow / kRecordSeconds
    }

    /** A miner's own copy keeps the difficulties and the level but not the shares. */
    function Copied(): Controller
      requires kRecordSeconds > 0
    {
      var size := kDiffWindow / kRecordSeconds;
      this.(startTime := 0, sharesNum := Empty(size), shares := Empty(size))
    }

    function Clamp(diff: nat): nat {
      if diff < kMinDiff then kMinDiff else if diff > kMaxDiff then kMaxDiff else diff
    }

    function SetMinDiff(diff: nat): Controller {
      this.(minDiff := Clamp(diff))
    }

    function SetCurDiff(diff: nat): Controller {
      this.(curDiff := Clamp(diff))
    }

    /** A requested difficulty also forgets the shares seen so far. */
    function ResetCurDiff(diff: nat): Controller {
      SetCurDiff(diff).(sharesNum := sharesNum.Scale(0.0), shares := shares.Scale(0.0))
    }

    function AddShare(share: nat, now: nat): Controller
      requires Valid()
    {
      this.(sharesNum := sharesNum.Insert(now / kRecordSeconds, 1.0),
            shares := shares.Insert(now / kRecordSeconds, share as real))
    }

    /** Shares counted in the window that ends now. */
    function Count(now: nat): real
      requires Valid()
    {
      sharesNum.Sum(now / kRecordSeconds, |sharesNum.slots|)
    }

    predicate IsFullWindow(now: nat) {
      now >= startTime + kDiffWindow
    }

    /** Hash rate estimated from the shares of the window, in T hashes per second. */
    function HashRate(now: nat): real
      requires Valid() && now > startTime
    {
      var window := if IsFullWindow(now) then kDiffWindow else now - startTime;
      TeraRate(LowWord(shares.Sum(now / kRecordSeconds, |shares.slots|)), window)
    }

    /** The first call starts the clock. */
    function Started(now: nat): Controller {
      if startTime == 0 then this.(startTime := now) else this
    }

    /** A full window moves the level. */
    function Levelled(now: nat): Controller
      requires Valid()
    {
      if IsFullWindow(now) then this.(level := AdjustLevel(level, HashRate(now))) else this
    }

    function Prepare(now: nat): Controller
      requires Valid()
    {
      Started(now).Levelled(now)
    }

    /** Shares expected in the window. */
    function Expected(now: nat): real
      requires Valid()
    {
      CappedCount(kDiffWindow, ScaledCount(kDiffWindow, kRecordSeconds, level, IsFullWindow(now)))
    }

    /** Before the window is full: fewer than one share a minute. */
    predicate LowRate(now: nat)
      requires Valid()
    {
      && !IsFullWindow(now)
      && now >= startTime + 60
      && Count(now) <= ((now - startTime) / 60) as real
      && curDiff >= Wrap64(minDiff * 2)
    }

    function Halved(): Controller {
      SetCurDiff(curDiff / 2).(sharesNum := sharesNum.Scale(2.0))
    }

    function Doubled(): Controller {
      SetCurDiff(Wrap64(curDiff * 2)).(sharesNum := sharesNum.Scale(1.0 / 2.0))
    }

    function SpeedUp(now: nat, expected: real): (c: Controller)
      requires Valid()
      ensures c.Valid()
      decreases kMaxDiff - curDiff
    {
      if Count(now) > expected && curDiff < kMaxDiff then Doubled().SpeedUp(now, expected) else this
    }

    function SlowDown(now: nat, expected: real): (c: Controller)
      requires Valid()
      ensures c.Valid()
      decreases curDiff
    {
      if Count(now) < expected * 0.4 && curDiff >= Wrap64(minDiff * 2) then Halved().SlowDown(now, expected) else this
    }

    function Retarget(now: nat, expected: real): (c: Controller)
      requires Valid()
      ensures c.Valid()
    {
      if LowRate(now) then Halved()
      else if Count(now) > expected * 1.4 then SpeedUp(now, expected)
      else if IsFullWindow(now) && curDiff >= Wrap64(minDiff * 2) then SlowDown(now, expected)
      else this
    }

    /** New state of the controller when a job is about to be sent ... */
    function CalcCurDiff(now: nat): (c: Controller)
      requires Valid() && now > 0
      ensures c.Valid()
    {
      var p := Prepare(now);
      p.Retarget(now, p.Expected(now))
    }

    /** ... and the difficulty it answers. */
    function Answer(): nat {
      if curDiff < minDiff then minDiff else curDiff
    }
  }

  /** A controller as configured: no share seen, the clock not started. */
  function NewController(defaultDiff: nat, maxDiff: nat, minDiff: nat, avgSeconds: nat, period: nat): Controller
    requires avgSeconds > 0
  {
    var size := period / avgSeconds;
    Controller(maxDiff, minDiff, period, avgSeconds, 0, minDiff, minDiff, 0, Empty(size), Empty(size))
      .SetMinDiff(minDiff).SetCurDiff(defaultDiff)
  }

  // ---- The controller in place ----

  class DiffController {
    const kMaxDiff: nat
    const kMinDiff: nat
    const kDiffWindow: nat
    const kRecordSeconds: nat
    var startTime: nat
    var minDiff: nat
    var curDiff: nat
    var curHashRateLevel: int
    const sharesNum: StatsWindow
    const shares: StatsWindow

    ghost function Value(): Controller
      reads this, sharesNum, sharesNum.elements, shares, shares.elements
    {
      Controller(kMaxDiff, kMinDiff, kDiffWindow, kRecordSeconds,
                 startTime, minDiff, curDiff, curHashRateLevel, sharesNum.Value(), shares.Value())
    }

    ghost predicate Valid()
      reads this, sharesNum, sharesNum.elements, shares, shares.elements
    {
      && sharesNum != shares && sharesNum.elements != shares.elements
      && Value().Valid()
    }

    constructor (defaultDifficulty: nat, maxDifficulty: nat, minDifficulty: nat,
                 shareAvgSeconds: nat, diffAdjustPeriod: nat)
      requires maxDifficulty <= MAX_ALLOWED
      requires 1 <= minDifficulty <= maxDifficulty
      requires 1 <= shareAvgSeconds <= diffAdjustPeriod
      ensures Valid() && fresh(sharesNum) && fresh(sharesNum.elements) && fresh(shares) && fresh(shares.elements)
      ensures Value() ==
              NewController(defaultDifficulty, maxDifficulty, minDifficulty, shareAvgSeconds, diffAdjustPeriod)
    {
      kMaxDiff, kMinDiff := maxDifficulty, minDifficulty;
      kDiffWindow, kRecordSeconds := diffAdjustPeriod, shareAvgSeconds;
      startTime, curHashRateLevel := 0, 0;
      minDiff, curDiff := minDifficulty, minDifficulty;
      sharesNum := new StatsWindow(diffAdjustPeriod / shareAvgSeconds);
      shares := new StatsWindow(diffAdjustPeriod / shareAvgSeconds);
      new;
      SetMinDiff(minDifficulty);
      ResetCurDiff(defaultDifficulty);
      assert sharesNum.Value() == Empty(kDiffWindow / kRecordSeconds);
    }

    constructor Copy(other: DiffController)
      requires other.Valid()
      ensures Valid() && fresh(sharesNum) && fresh(sharesNum.elements) && fresh(shares) && fresh(shares.elements)
      ensures Value() == other.Value().Copied()
    {
      kMaxDiff, kMinDiff := other.kMaxDiff, other.kMinDiff;
      kDiffWindow, kRecordSeconds := other.kDiffWindow, other.kRecordSeconds;
      startTime, curHashRateLevel := 0, other.curHashRateLevel;
      minDiff, curDiff := other.minDiff, other.curDiff;
      sharesNum := new StatsWindow(other.kDiffWindow / other.kRecordSeconds);
      shares := new StatsWindow(other.kDiffWindow / other.kRecordSeconds);
    }

    method SetMinDiff(diff: nat)
      requires Valid()
      modifies this`minDiff
      ensures Valid() && Value() == old(Value()).SetMinDiff(diff)
    {
      minDiff := if diff < kMinDiff then kMinDiff else if diff > kMaxDiff then kMaxDiff else diff;
    }

    method SetCurDiff(diff: nat)
      requires Valid()
      modifies this`curDiff
      ensures Valid() && Value() == old(Value()).SetCurDiff(diff)
    {
      curDiff := if diff < kMinDiff then kMinDiff else if diff > kMaxDiff then kMaxDiff else diff;
    }

    method ResetCurDiff(diff: nat)
      requires Valid()
      modifies this`curDiff, sharesNum.elements, shares.elements
      ensures Valid() && Value() == old(Value()).ResetCurDiff(diff)
    {
      SetCurDiff(diff);
      sharesNum.MapMultiply(0.0);
      shares.MapMultiply(0.0);
    }

    method AddShare(share: nat, now: nat)
      requires Valid()
      modifies sharesNum, sharesNum.elements, shares, shares.elements
      ensures Valid() && Value() == old(Value()).AddShare(share, now)
    {
      var k := now / kRecordSeconds;
      var _ := sharesNum.Insert(k, 1.0);
      var _ := shares.Insert(k, share as real);
    }

    method AdjustHashRateLevel(hashRateT: real) returns (r: int)
      requires Valid()
      modifies this`curHashRateLevel
      ensures Valid() && r == curHashRateLevel == AdjustLevel(old(curHashRateLevel), hashRateT)
    {
      ghost var level := curHashRateLevel;
      if curHashRateLevel > 0 && hashRateT < HashRateDown(curHashRateLevel) as real {
        while curHashRateLevel > 0 && hashRateT <= HashRateDown(curHashRateLevel) as real * RATE_LOW
          invariant 0 <= curHashRateLevel <= 8
          invariant LowerLevel(curHashRateLevel, hashRateT) == LowerLevel(level, hashRateT)
        {
          curHashRateLevel := curHashRateLevel - 1;
        }
        return curHashRateLevel;
      }
      if curHashRateLevel <= 7 && hashRateT > HashRateUp(curHashRateLevel) as real {
        while curHashRateLevel <= 7 && hashRateT >= HashRateUp(curHashRateLevel) as real * RATE_HIGH
          invariant 0 <= curHashRateLevel <= 8
          invariant RaiseLevel(curHashRateLevel, hashRateT) == RaiseLevel(level, hashRateT)
        {
          curHashRateLevel := curHashRateLevel + 1;
        }
        return curHashRateLevel;
      }
      return curHashRateLevel;
    }

    method MinerCoefficient(now: nat, idx: nat) returns (c: real)
      requires Valid() && idx == now / kRecordSeconds && now >= kDiffWindow
      modifies this`curHashRateLevel
      ensures Valid()
      ensures now <= startTime ==> Value() == old(Value()) && c == 1.0
      ensures now > startTime ==> c == Coefficient(curHashRateLevel)
      ensures now > startTime ==> curHashRateLevel == AdjustLevel(old(curHashRateLevel), old(Value().HashRate(now)))
    {
      if now <= startTime {
        return 1.0;
      }
      DivMonotone(kDiffWindow, now, kRecordSeconds);
      var sum := shares.Sum(idx, shares.elements.Length);
      var shareWindow := if now >= startTime + kDiffWindow then kDiffWindow else now - startTime;
      var hashRateT := TeraRate(LowWord(sum), shareWindow);
      var _ := AdjustHashRateLevel(hashRateT);
      return Coefficient(curHashRateLevel);
    }

    method Halve()
      requires Valid()
      modifies this`curDiff, sharesNum.elements
      ensures Valid() && Value() == old(Value()).Halved()
    {
      SetCurDiff(curDiff / 2);
      sharesNum.MapMultiply(2.0);
    }

    method Double()
      requires Valid()
      modifies this`curDiff, sharesNum.elements
      ensures Valid() && Value() == old(Value()).Doubled()
    {
      SetCurDiff(Wrap64(curDiff * 2));
      sharesNum.MapDivide(2.0);
    }

    method CountShares(now: nat) returns (sum: real)
      requires Valid() && now >= kDiffWindow
      ensures sum == Value().Count(now)
    {
      DivMonotone(kDiffWindow, now, kRecordSeconds);
      sum := sharesNum.Sum(now / kRecordSeconds, sharesNum.elements.Length);
    }

    /** Too many shares: the first loop of the calculation. */
    method SpeedUp(now: nat, expectedCount: real)
      requires Valid() && now >= kDiffWindow
      modifies this`curDiff, sharesNum.elements
      ensures Valid() && Value() == old(Value()).SpeedUp(now, expectedCount)
    {
      ghost var p := Value();
      var sum := CountShares(now);
      while sum > expectedCount && curDiff < kMaxDiff
        invariant Valid() && sum == Value().Count(now)
        invariant p.SpeedUp(now, expectedCount) == Value().SpeedUp(now, expectedCount)
        decreases kMaxDiff - curDiff
      {
        Double();
        sum := CountShares(now);
      }
    }

    /** Too few shares: the second loop. */
    method SlowDown(now: nat, expectedCount: real)
      requires Valid() && now >= kDiffWindow && curDiff >= minDiff * 2
      modifies this`curDiff, sharesNum.elements
      ensures Valid() && Value() == old(Value()).SlowDown(now, expectedCount) && curDiff >= minDiff
    {
      ghost var p := Value();
      var sum := CountShares(now);
      while sum < expectedCount * 0.4 && curDiff >= Wrap64(minDiff * 2)
        invariant Valid() && sum == Value().Count(now) && curDiff >= minDiff
        invariant p.SlowDown(now, expectedCount) == Value().SlowDown(now, expectedCount)
        decreases curDiff
      {
        Halve();
        sum := CountShares(now);
      }
    }

    /** The coefficient when the window is full; the level moves first. */
    method AdjustedCoefficient(now: nat) returns (c: real)
      requires Valid() && now >= kDiffWindow && now >= startTime + kDiffWindow
      modifies this`curHashRateLevel
      ensures Valid() && Value() == old(Value()).Levelled(now) && c == Coefficient(curHashRateLevel)
    {
      c := MinerCoefficient(now, now / kRecordSeconds);
    }

    /** The number of shares expected in the window. */
    method ExpectedCount(now: nat) returns (count: real)
      requires Valid() && now >= kDiffWindow
      modifies this`curHashRateLevel
      ensures Valid() && Value() == old(Value()).Levelled(now) && count == Value().Expected(now)
    {
      count := BaseCount(kDiffWindow, kRecordSeconds);
      var full := now >= startTime + kDiffWindow;
      if full {
        var c := AdjustedCoefficient(now);
        count := Times(count, c);
      }
      count := CappedCount(kDiffWindow, count);
    }

    /** Everything after the expected count is known. */
    method Retarget(now: nat, sharesCount: real, expectedCount: real)
      requires Valid() && now >= kDiffWindow && sharesCount == Value().Count(now)
      modifies this`curDiff, sharesNum.elements
      ensures Valid() && Value() == old(Value()).Retarget(now, expectedCount)
    {
      if !(now >= startTime + kDiffWindow) && now >= startTime + 60 &&
         sharesCount <= ((now - startTime) / 60) as real && curDiff >= Wrap64(minDiff * 2)
      {
        Halve();
      } else if sharesCount > expectedCount * 1.4 {
        SpeedUp(now, expectedCount);
      } else if now >= startTime + kDiffWindow && curDiff >= Wrap64(minDiff * 2) {
        SlowDown(now, expectedCount);
      }
    }

    /** The clock is a Unix time, later than one window after time zero. */
    method CalcCurDiffUnbounded(now: nat) returns (diff: nat)
      requires Valid() && now >= kDiffWindow
      modifies this, sharesNum.elements
      ensures Valid() && Value() == old(Value()).CalcCurDiff(now) && diff == curDiff
    {
      var sharesCount := CountShares(now);
      if startTime == 0 {
        startTime := now;
      }
      assert Value() == old(Value()).Started(now);
      var expectedCount := ExpectedCount(now);
      Retarget(now, sharesCount, expectedCount);
      diff := curDiff;
    }

    method CalcCurDiff(now: nat) returns (diff: nat)
      requires Valid() && now >= kDiffWindow
      modifies this, sharesNum.elements
      ensures Valid() && Value() == old(Value()).CalcCurDiff(now) && diff == Value().Answer()
      ensures diff >= curDiff && diff >= minDiff && (diff == curDiff || diff == minDiff)
    {
      diff := CalcCurDiffUnbounded(now);
      if diff < minDiff {
        diff := minDiff;
      }
    }
  }
}
