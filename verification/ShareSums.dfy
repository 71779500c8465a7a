/** The window of share difficulties holds 64-bit words, which wrap around.  Counting
    without bound and truncating at the end is the same: that is how module DiffControl
    uses the ring of module StatsWindows for them. */
module ShareSums {
  import opened Arithmetic
  import opened Powers
  import opened StatsWindows

  predicate IsWhole(x: real) {
    x == x.Floor as real
  }

  /** All slots hold integers. */
  ghost predicate Whole(w: Window) {
    w.Valid() && forall i | 0 <= i < |w.slots| :: IsWhole(w.slots[i])
  }

  /** The same ring in 64-bit words. */
  ghost function Words(w: Window): Window {
    Window(w.max, WordsOf(w.slots))
  }

  ghost function WordsOf(slots: seq<real>): seq<real> {
    seq(|slots|, i requires 0 <= i < |slots| => LowWord(slots[i]))
  }

  lemma LowWordOf(a: int)
    ensures IsWhole(a as real) && LowWord(a as real) == (a % TWO_64) as real
  {
  }

  /** Truncating a summand first makes no difference. */
  lemma LowWordAdds(x: real, y: real)
    requires IsWhole(x) && IsWhole(y)
    ensures IsWhole(x + y) && LowWord(LowWord(x) + y) == LowWord(x + y)
  {
    var a, b := x.Floor, y.Floor;
    var low := a % TWO_64;
    LowWordOf(a);
    LowWordOf(a + b);
    LowWordOf(low + b);
    ModAdds(a, b, TWO_64);
    assert x + y == (a + b) as real && LowWord(x) + y == (low + b) as real;
  }

  lemma LowWordTwice(x: real)
    requires IsWhole(x)
    ensures IsWhole(LowWord(x)) && LowWord(LowWord(x)) == LowWord(x)
  {
    LowWordAdds(x, 0.0);
  }

  // ---- Sums ----

  /** The loop of the source on words: the running sum wraps around too. */
  function SumWords(w: Window, begin: int, end: int, sum: real): real
    requires w.Valid()
    decreases begin - end
  {
    if begin <= end then sum else SumWords(w, begin - 1, end, LowWord(sum + w.Slot(begin)))
  }

  lemma {:induction false} SumWordsIs(w: Window, begin: int, end: int, sum: real)
    requires Whole(w) && IsWhole(sum)
    ensures IsWhole(w.SumDown(begin, end))
    ensures SumWords(Words(w), begin, end, LowWord(sum)) == LowWord(sum + w.SumDown(begin, end))
    decreases begin - end
  {
    if begin > end {
      var x := w.Slot(begin);
      LowWordTwice(x);
      LowWordTwice(sum);
      LowWordAdds(sum, LowWord(x));
      LowWordAdds(x, sum);
      assert sum + LowWord(x) == LowWord(x) + sum && sum + x == x + sum;
      SumWordsIs(w, begin - 1, end, sum + x);
      LowWordAdds(x, w.SumDown(begin - 1, end));
      assert sum + x + w.SumDown(begin - 1, end) == sum + w.SumDown(begin, end);
    }
  }

  // ---- Inserts ----

  lemma {:induction false} ResetWords(slots: seq<real>, lo: int, hi: int)
    requires |slots| > 0
    ensures Reset(WordsOf(slots), lo, hi) == WordsOf(Reset(slots, lo, hi))
    decreases hi - lo
  {
    if lo < hi {
      var i := (lo + 1) % |slots|;
      assert WordsOf(slots)[i := 0.0] == WordsOf(slots[i := 0.0]);
      ResetWords(slots[i := 0.0], lo + 1, hi);
    }
  }

  lemma {:induction false} ResetWhole(slots: seq<real>, lo: int, hi: int)
    requires |slots| > 0 && forall i | 0 <= i < |slots| :: IsWhole(slots[i])
    ensures forall i | 0 <= i < |slots| :: IsWhole(Reset(slots, lo, hi)[i])
    decreases hi - lo
  {
    if lo < hi {
      ResetWhole(slots[(lo + 1) % |slots| := 0.0], lo + 1, hi);
    }
  }

  lemma PreparedWords(w: Window, k: nat)
    requires Whole(w)
    ensures Words(w).Prepared(k) == WordsOf(w.Prepared(k))
    ensures forall i | 0 <= i < |w.slots| :: IsWhole(w.Prepared(k)[i])
  {
    if w.max == -1 || k - w.max > |w.slots| {
      assert Empty(|w.slots|).slots == WordsOf(Empty(|w.slots|).slots);
    } else {
      ResetWords(w.slots, w.max, k);
      ResetWhole(w.slots, w.max, k);
    }
  }

  /** An insert into the words, with the addition wrapping around, gives the words of
      the insert without bound. */
  lemma InsertWords(w: Window, k: nat, v: real)
    requires Whole(w) && IsWhole(v)
    ensures Whole(w.Insert(k, v)) && Words(Words(w).Insert(k, v)) == Words(w.Insert(k, v))
  {
    var n := |w.slots|;
    if w.Dropped(k) {
      forall i | 0 <= i < n { LowWordTwice(w.slots[i]); }
      assert WordsOf(WordsOf(w.slots)) == WordsOf(w.slots);
    } else {
      PreparedWords(w, k);
      var ready := w.Prepared(k);
      forall i | 0 <= i < n
        ensures IsWhole(w.Insert(k, v).slots[i])
        ensures LowWord(Words(w).Insert(k, v).slots[i]) == LowWord(w.Insert(k, v).slots[i])
      {
        LowWordTwice(ready[i]);
        LowWordAdds(ready[i], v);
      }
      assert WordsOf(Words(w).Insert(k, v).slots) == WordsOf(w.Insert(k, v).slots);
    }
  }

  /** Whatever is inserted, the words sum up to the low word of the sum without bound. */
  lemma SumIsLowWord(w: Window, begin: int, len: int)
    requires Whole(w)
    ensures var n := Min(len, |w.slots|);
            LowWord(w.Sum(begin, len)) ==
            if n <= 0 || begin - n >= w.max then 0.0 else SumWords(Words(w), Min(begin, w.max), begin - n, 0.0)
  {
    var n := Min(len, |w.slots|);
    if n > 0 && begin - n < w.max {
      SumWordsIs(w, Min(begin, w.max), begin - n, 0.0);
    }
  }

  // ---- Whole runs ----

  /** Forgetting all shares works on the words as well. */
  lemma ScaleWords(w: Window)
    requires Whole(w)
    ensures Whole(w.Scale(0.0)) && Words(Words(w).Scale(0.0)) == Words(w.Scale(0.0))
  {
    forall i | 0 <= i < |w.slots| ensures w.Scale(0.0).slots[i] == 0.0 {
    }
    assert Words(Words(w).Scale(0.0)).slots == Words(w.Scale(0.0)).slots;
  }

  datatype Change = Inserted(k: nat, share: nat) | Zeroed

  function Changed(w: Window, change: Change): (r: Window)
    requires |w.slots| > 0 && w.max >= -1
    ensures |r.slots| == |w.slots| && r.max >= -1
  {
    match change
    case Inserted(k, share) => w.Insert(k, share as real)
    case Zeroed => w.Scale(0.0)
  }

  /** The ring without bound, and the ring of words that wrap around at every change. */
  function Ring(size: nat, changes: seq<Change>): (w: Window)
    requires size > 0
    ensures |w.slots| == size && w.max >= -1
  {
    if changes == [] then Empty(size)
    else Changed(Ring(size, changes[..|changes| - 1]), changes[|changes| - 1])
  }

  ghost function WordRing(size: nat, changes: seq<Change>): (w: Window)
    requires size > 0
    ensures |w.slots| == size && w.max >= -1
  {
    if changes == [] then Empty(size)
    else Words(Changed(WordRing(size, changes[..|changes| - 1]), changes[|changes| - 1]))
  }

  /** After any changes the words are the low words of the ring without bound. */
  lemma {:induction false} WordRingIs(size: nat, changes: seq<Change>)
    requires size > 0
    ensures Whole(Ring(size, changes)) && WordRing(size, changes) == Words(Ring(size, changes))
  {
    if changes == [] {
      assert WordsOf(Empty(size).slots) == Empty(size).slots;
    } else {
      var rest, last := changes[..|changes| - 1], changes[|changes| - 1];
      WordRingIs(size, rest);
      match last
      case Inserted(k, share) => InsertWords(Ring(size, rest), k, share as real);
      case Zeroed => ScaleWords(Ring(size, rest));
    }
  }
}
