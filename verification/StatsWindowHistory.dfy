/** The ring against the unbounded log of everything inserted: which sums are exact. */
module StatsWindowHistory {
  import opened Arithmetic
  import opened StatsWindows

  /** Inserted (period, value) pairs, oldest first. */
  type Log = seq<(nat, real)>

  /** Sum of the values logged for the periods in (lo, hi]. */
  function LogSum(log: Log, lo: int, hi: int): real {
    if log == [] then 0.0 else
    var (k, v) := log[|log| - 1];
    LogSum(log[..|log| - 1], lo, hi) + if lo < k <= hi then v else 0.0
  }

  /** The ring after inserting a whole log, in order. */
  function InsertAll(size: nat, log: Log): (w: Window)
    requires size > 0
    ensures w.Valid() && |w.slots| == size
  {
    if log == [] then Empty(size) else
    var (k, v) := log[|log| - 1];
    InsertAll(size, log[..|log| - 1]).Insert(k, v)
  }

  /** No logged period is beyond the newest one, and every live slot holds exactly
      what the log says about its period. */
  ghost predicate Records(w: Window, log: Log) {
    && w.Valid()
    && (forall e | e in log :: e.0 <= w.max)
    && (forall j | w.max - |w.slots| < j <= w.max :: w.Slot(j) == LogSum(log, j - 1, j))
  }

  /** The insert comes exactly one turn of the ring late: not old enough to be
      dropped, yet its slot already belongs to the newest period. */
  predicate OneTurnLate(w: Window, k: int) {
    k == w.max - |w.slots|
  }

  lemma {:induction false} ResetEffect(slots: seq<real>, lo: int, hi: int, j: int)
    requires |slots| > 0 && Max(lo, hi) - |slots| < j <= Max(lo, hi)
    ensures Reset(slots, lo, hi)[j % |slots|] == if j > lo then 0.0 else slots[j % |slots|]
    decreases hi - lo
  {
    if lo < hi {
      ResetEffect(slots[(lo + 1) % |slots| := 0.0], lo + 1, hi, j);
      if j <= lo {
        ModDistinct(lo + 1, j, |slots|);
      }
    }
  }

  lemma {:induction false} NothingLogged(log: Log, lo: int, hi: int)
    requires forall e | e in log :: !(lo < e.0 <= hi)
    ensures LogSum(log, lo, hi) == 0.0
  {
    if log != [] {
      assert log[|log| - 1] in log;
      NothingLogged(log[..|log| - 1], lo, hi);
    }
  }

  lemma {:induction false} LogSumSplit(log: Log, lo: int, mid: int, hi: int)
    requires lo <= mid <= hi
    ensures LogSum(log, lo, hi) == LogSum(log, lo, mid) + LogSum(log, mid, hi)
  {
    if log != [] {
      LogSumSplit(log[..|log| - 1], lo, mid, hi);
    }
  }

  lemma PreparedSlot(w: Window, log: Log, k: nat, j: int)
    requires Records(w, log) && Max(w.max, k) - |w.slots| < j <= Max(w.max, k)
    ensures w.Prepared(k)[j % |w.slots|] == LogSum(log, j - 1, j)
  {
    if w.max == -1 || k - w.max > |w.slots| {
      NothingLogged(log, j - 1, j);
    } else {
      ResetEffect(w.slots, w.max, k, j);
      if j > w.max {
        NothingLogged(log, j - 1, j);
      } else {
        assert w.Slot(j) == LogSum(log, j - 1, j);
      }
    }
  }

  /** What one insert does to the live slot of period j. */
  lemma InsertedSlot(w: Window, log: Log, k: nat, v: real, j: int)
    requires Records(w, log) && !w.Dropped(k)
    requires Max(w.max, k) - |w.slots| < j <= Max(w.max, k)
    ensures w.Insert(k, v).max == Max(w.max, k) && |w.Insert(k, v).slots| == |w.slots|
    ensures w.Insert(k, v).Slot(j) ==
            LogSum(log, j - 1, j) + if j == (if OneTurnLate(w, k) then w.max else k) then v else 0.0
  {
    var n := |w.slots|;
    PreparedSlot(w, log, k, j);
    if OneTurnLate(w, k) {
      ShiftedMod(k, n);
      if j != w.max { ModDistinct(w.max, j, n); }
    } else if j < k {
      ModDistinct(k, j, n);
    } else if k < j {
      ModDistinct(j, k, n);
    }
  }

  /** An insert is recorded faithfully exactly when it is not one turn late (or adds
      nothing); otherwise its value is credited to the newest period. */
  lemma InsertRecords(w: Window, log: Log, k: nat, v: real)
    requires Records(w, log)
    ensures Records(w.Insert(k, v), log + [(k, v)]) <==> !OneTurnLate(w, k) || v == 0.0
  {
    var log' := log + [(k, v)];
    var w' := w.Insert(k, v);
    assert log'[..|log|] == log;
    if w.Dropped(k) {
      forall j | w.max - |w.slots| < j <= w.max ensures w'.Slot(j) == LogSum(log', j - 1, j) {
      }
    } else {
      InsertedSlot(w, log, k, v, Max(w.max, k));
      forall j | w'.max - |w.slots| < j <= w'.max
        ensures w'.Slot(j) == LogSum(log', j - 1, j) + if OneTurnLate(w, k) && j == w.max then v else 0.0
      {
        InsertedSlot(w, log, k, v, j);
      }
      if OneTurnLate(w, k) && v != 0.0 {
        assert w'.Slot(w.max) != LogSum(log', w.max - 1, w.max);
      }
    }
  }

  /** A value for period 0 after one for period `size`: both end up in the newest period. */
  lemma LateInsertIsMiscredited(size: nat, v: real)
    requires size > 0 && v != 0.0
    ensures var log: Log := [(size, v), (0, v)];
            && !Records(InsertAll(size, log), log)
            && InsertAll(size, log).Slot(size) == v + v && LogSum(log, size - 1, size) == v
  {
    var log: Log, rest: Log := [(size, v), (0, v)], [(size, v)];
    assert log[..1] == rest && rest[..0] == [];
    ClockIsOnTime(size, rest);
    RunIsRecorded(size, rest);
    var w := InsertAll(size, rest);
    assert OneTurnLate(w, 0);
    InsertRecords(w, rest, 0, v);
    InsertedSlot(w, rest, 0, v, size);
    assert rest + [(0, v)] == log;
  }

  lemma {:induction false} LiveSum(w: Window, log: Log, begin: int, end: int)
    requires Records(w, log) && w.max - |w.slots| <= end && begin <= w.max
    ensures w.SumDown(begin, end) == LogSum(log, Min(begin, end), begin)
    decreases begin - end
  {
    if begin > end {
      LiveSum(w, log, begin - 1, end);
      LogSumSplit(log, end, begin - 1, begin);
    } else {
      EmptyRange(log, begin);
    }
  }

  lemma {:induction false} EmptyRange(log: Log, k: int)
    ensures LogSum(log, k, k) == 0.0
  {
    if log != [] {
      EmptyRange(log[..|log| - 1], k);
    }
  }

  /** A sum that starts no earlier than the oldest live period is exact. */
  lemma SumIsExact(w: Window, log: Log, begin: int, len: nat)
    requires Records(w, log)
    requires begin - Min(len, |w.slots|) >= w.max - |w.slots|
    ensures w.Sum(begin, len) == LogSum(log, begin - Min(len, |w.slots|), begin)
  {
    var end := begin - Min(len, |w.slots|);
    if end >= w.max {
      NothingLogged(log, end, begin);
    } else if begin == end {
      EmptyRange(log, begin);
    } else {
      LiveSum(w, log, Min(begin, w.max), end);
      if begin > w.max {
        LogSumSplit(log, end, w.max, begin);
        NothingLogged(log, w.max, begin);
      }
    }
  }

  /** No insert of the log is one turn late. */
  ghost predicate OnTime(size: nat, log: Log)
    requires size > 0
  {
    log == [] ||
    var rest := log[..|log| - 1];
    OnTime(size, rest) && !OneTurnLate(InsertAll(size, rest), log[|log| - 1].0)
  }

  /** Over every run of inserts none of which is one turn late, the live slots are
      what the unbounded log says. */
  lemma {:induction false} RunIsRecorded(size: nat, log: Log)
    requires size > 0 && OnTime(size, log)
    ensures Records(InsertAll(size, log), log)
  {
    if log != [] {
      var rest, last := log[..|log| - 1], log[|log| - 1];
      RunIsRecorded(size, rest);
      InsertRecords(InsertAll(size, rest), rest, last.0, last.1);
      assert rest + [last] == log;
    }
  }

  /** A clock that never runs backwards makes every insert on time. */
  lemma {:induction false} ClockIsOnTime(size: nat, log: Log)
    requires size > 0 && forall i, j | 0 <= i < j < |log| :: log[i].0 <= log[j].0
    ensures OnTime(size, log)
    ensures InsertAll(size, log).max == if log == [] then -1 else log[|log| - 1].0
  {
    if log != [] {
      ClockIsOnTime(size, log[..|log| - 1]);
    }
  }

  /** One unit logged for period `first`, then nothing until the newest period `max`. */
  function TwoInserts(first: nat, max: nat): Log {
    [(first, 1.0), (max, 0.0)]
  }

  /** Reaching further back is never safe: for every such range some history of two
      on-time inserts, ending at the same newest period, gives a wrong sum. */
  lemma OverwrittenPeriodIsLost(size: nat, max: nat, begin: nat, len: nat)
    requires size > 0 && 0 < Min(len, size) <= begin + 1 && begin < max
    requires begin - Min(len, size) < max - size
    ensures var log := TwoInserts(begin + 1 - Min(len, size), max);
            OnTime(size, log) && InsertAll(size, log).max == max &&
            InsertAll(size, log).Sum(begin, len) != LogSum(log, begin - Min(len, size), begin)
  {
    var n := Min(len, size);
    var log := TwoInserts(begin + 1 - n, max);
    AllZero(size, begin + 1 - n, max);
    ZeroSum(InsertAll(size, log), begin, begin - n);
    assert LogSum(log[..1], begin - n, begin) == 1.0;
  }

  lemma AllZero(size: nat, first: nat, max: nat)
    requires size > 0 && first <= max - size
    ensures var log := TwoInserts(first, max);
            && OnTime(size, log)
            && InsertAll(size, log).max == max
            && forall i | 0 <= i < size :: InsertAll(size, log).slots[i] == 0.0
  {
    var log := TwoInserts(first, max);
    var start: Log := log[..1];
    assert start == [(first, 1.0)];
    assert InsertAll(size, start[..0]) == Empty(size) && OnTime(size, start[..0]);
    assert OnTime(size, start);
    var one := InsertAll(size, start);
    assert one == Empty(size).Insert(first, 1.0);
    forall i | 0 <= i < size ensures one.Insert(max, 0.0).slots[i] == 0.0 {
      var j := max - (max - i) % size;
      LiveIndex(max, i, size);
      if max - first == size {
        ResetEffect(one.slots, one.max, max, j);
      }
    }
  }

  lemma LiveIndex(max: int, i: int, n: int)
    requires 0 <= i < n
    ensures (max - (max - i) % n) % n == i
  {
    ModUnique(max - (max - i) % n, n, (max - i) / n, i);
  }
}
