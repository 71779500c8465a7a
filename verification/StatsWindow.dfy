/** The ring of per-period counters behind the difficulty controller.

    `Window` is the value of a ring; the class `StatsWindow` updates one in place.
  */
module StatsWindows {
  import opened Powers

  function Min(a: int, b: int): int {
    if a < b then a else b
  }

  function Max(a: int, b: int): int {
    if a < b then b else a
  }

  /** The low 64 bits of a sum. */
  function LowWord(x: real): real {
    (x.Floor % TWO_64) as real
  }

  /** `max` is the newest period inserted (-1: none yet); period j lives in slot j % size. */
  datatype Window = Window(max: int, slots: seq<real>) {

    ghost predicate Valid() {
      |slots| > 0 && max >= -1
    }

    function Slot(j: int): real
      requires |slots| > 0
    {
      slots[j % |slots|]
    }

    /** Sum of the slots of the periods in (end, begin]. */
    function SumDown(begin: int, end: int): real
      requires |slots| > 0
      decreases begin - end
    {
      if begin <= end then 0.0 else Slot(begin) + SumDown(begin - 1, end)
    }

    /** Sum over the `len` periods up to `begin`, at most one turn of the ring. */
    function Sum(begin: int, len: int): real
      requires Valid()
    {
      var n := Min(len, |slots|);
      if n <= 0 || begin - n >= max then 0.0 else SumDown(Min(begin, max), begin - n)
    }

    function Scale(f: real): Window {
      Window(max, seq(|slots|, i requires 0 <= i < |slots| => slots[i] * f))
    }

    /** Too old to be taken at all. */
    predicate Dropped(k: int) {
      max > k + |slots|
    }

    /** The slots ready for a value of period k: everything that has expired by then is zero. */
    function Prepared(k: int): (r: seq<real>)
      requires Valid()
      ensures |r| == |slots|
    {
      if max == -1 || k - max > |slots| then Empty(|slots|).slots else Reset(slots, max, k)
    }

    function Insert(k: int, val: real): Window
      requires Valid() && k >= 0
    {
      if Dropped(k) then this else
      var ready := Prepared(k);
      Window(Max(max, k), ready[k % |slots| := ready[k % |slots|] + val])
    }
  }

  function Empty(size: nat): Window {
    Window(-1, seq(size, _ => 0.0))
  }

  /** Zero the slots of the periods in (lo, hi]. */
  function Reset(slots: seq<real>, lo: int, hi: int): (r: seq<real>)
    requires |slots| > 0
    ensures |r| == |slots|
    decreases hi - lo
  {
    if lo >= hi then slots else Reset(slots[(lo + 1) % |slots| := 0.0], lo + 1, hi)
  }

  class StatsWindow {
    var maxRingIdx: int
    const elements: array<real>

    ghost function Value(): Window
      reads this, elements
    {
      Window(maxRingIdx, elements[..])
    }

    ghost predicate Valid()
      reads this, elements
    {
      Value().Valid()
    }

    constructor (windowSize: nat)
      requires windowSize > 0
      ensures Valid() && fresh(elements) && Value() == Empty(windowSize)
    {
      maxRingIdx := -1;
      elements := new real[windowSize](_ => 0.0);
      new;
      assert elements[..] == Empty(windowSize).slots;
    }

    method Clear()
      requires Valid()
      modifies this, elements
      ensures Value() == Empty(elements.Length)
    {
      maxRingIdx := -1;
      forall i | 0 <= i < elements.Length {
        elements[i] := 0.0;
      }
      assert elements[..] == Empty(elements.Length).slots;
    }

    method MapMultiply(val: real)
      requires Valid()
      modifies elements
      ensures Value() == old(Value()).Scale(val)
    {
      ghost var was := Value();
      for i := 0 to elements.Length
        invariant forall j | 0 <= j < i :: elements[j] == was.Scale(val).slots[j]
        invariant forall j | i <= j < elements.Length :: elements[j] == was.slots[j]
      {
        elements[i] := elements[i] * val;
      }
      assert elements[..] == was.Scale(val).slots;
    }

    method MapDivide(val: real)
      requires Valid() && val != 0.0
      modifies elements
      ensures Value() == old(Value()).Scale(1.0 / val)
    {
      ghost var was := Value();
      for i := 0 to elements.Length
        invariant forall j | 0 <= j < i :: elements[j] == was.Scale(1.0 / val).slots[j]
        invariant forall j | i <= j < elements.Length :: elements[j] == was.slots[j]
      {
        DivideIsScale(elements[i], val);
        elements[i] := elements[i] / val;
      }
      assert elements[..] == was.Scale(1.0 / val).slots;
    }

    method Insert(curRingIdx: int, val: real) returns (taken: bool)
      requires Valid() && curRingIdx >= 0
      modifies this, elements
      ensures Valid() && Value() == old(Value()).Insert(curRingIdx, val)
      ensures taken <==> !old(Value()).Dropped(curRingIdx)
    {
      if maxRingIdx > curRingIdx + elements.Length {
        return false;
      }
      if maxRingIdx == -1 || curRingIdx - maxRingIdx > elements.Length {
        Clear();
        maxRingIdx := curRingIdx;
      }
      ghost var base := Value();
      while maxRingIdx < curRingIdx
        invariant base.max <= maxRingIdx <= Max(base.max, curRingIdx)
        invariant Reset(elements[..], maxRingIdx, curRingIdx) == Reset(base.slots, base.max, curRingIdx)
      {
        maxRingIdx := maxRingIdx + 1;
        ghost var was := elements[..];
        elements[maxRingIdx % elements.Length] := 0.0;
        assert elements[..] == was[maxRingIdx % elements.Length := 0.0];
      }
      ghost var next := elements[..];
      elements[curRingIdx % elements.Length] := elements[curRingIdx % elements.Length] + val;
      assert elements[..] == next[curRingIdx % |next| := next[curRingIdx % |next|] + val];
      return true;
    }

    /** A sum that reaches below period 0 would index the vector with a negative number. */
    method Sum(beginRingIdx: int, len: int) returns (sum: real)
      requires Valid() && beginRingIdx - Min(len, elements.Length) >= -1
      ensures sum == Value().Sum(beginRingIdx, len)
    {
      sum := 0.0;
      var n := Min(len, elements.Length);
      if n <= 0 || beginRingIdx - n >= maxRingIdx {
        return 0.0;
      }
      var endRingIdx := beginRingIdx - n;
      var i := if beginRingIdx > maxRingIdx then maxRingIdx else beginRingIdx;
      ghost var all := Value().SumDown(i, endRingIdx);
      while i > endRingIdx
        invariant i >= endRingIdx && all == sum + Value().SumDown(i, endRingIdx)
      {
        sum := sum + elements[i % elements.Length];
        i := i - 1;
      }
    }
  }

  lemma DivideIsScale(x: real, val: real)
    requires val != 0.0
    ensures x / val == x * (1.0 / val)
  {
  }

  lemma {:induction false} SumDownScaled(w: Window, f: real, begin: int, end: int)
    requires w.Valid()
    ensures w.Scale(f).SumDown(begin, end) == w.SumDown(begin, end) * f
    decreases begin - end
  {
    if begin > end {
      SumDownScaled(w, f, begin - 1, end);
    }
  }

  /** Scaling every slot scales every sum. */
  lemma SumScaled(w: Window, f: real, begin: int, len: int)
    requires w.Valid()
    ensures w.Scale(f).Valid()
    ensures w.Scale(f).Sum(begin, len) == w.Sum(begin, len) * f
  {
    var n := Min(len, |w.slots|);
    if n > 0 && begin - n < w.max {
      SumDownScaled(w, f, Min(begin, w.max), begin - n);
    }
  }

  // ---- Rings that hold nothing ----

  ghost predicate IsZero(w: Window) {
    w.Valid() && forall i | 0 <= i < |w.slots| :: w.slots[i] == 0.0
  }

  lemma {:induction false} ZeroSum(w: Window, begin: int, end: int)
    requires IsZero(w)
    ensures w.SumDown(begin, end) == 0.0
    decreases begin - end
  {
    if begin > end {
      ZeroSum(w, begin - 1, end);
    }
  }
}
