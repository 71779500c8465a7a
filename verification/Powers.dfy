/** Powers of two, and the rounding of a requested difficulty up to one. */
module Powers {

  const TWO_63: nat := 0x8000_0000_0000_0000
  const TWO_64: nat := 0x1_0000_0000_0000_0000

  function Pow2(n: nat): (r: nat)
    ensures r >= 1
  {
    if n == 0 then 1 else 2 * Pow2(n - 1)
  }

  ghost predicate IsPow2(x: int) {
    exists n: nat :: x == Pow2(n)
  }

  lemma {:induction false} Pow2Grows(m: nat, n: nat)
    requires m < n
    ensures 2 * Pow2(m) <= Pow2(n)
  {
    if m < n - 1 {
      Pow2Grows(m, n - 1);
    }
  }

  lemma {:induction false} Pow2Adds(m: nat, n: nat)
    ensures Pow2(m + n) == Pow2(m) * Pow2(n)
  {
    if n > 0 {
      Pow2Adds(m, n - 1);
    }
  }

  /** There is no power of two strictly between one and its double. */
  lemma NextPow2(x: int, y: int)
    requires IsPow2(x) && IsPow2(y) && x < y
    ensures 2 * x <= y
  {
    var m: nat :| x == Pow2(m);
    var n: nat :| y == Pow2(n);
    if n < m {
      Pow2Grows(n, m);
    } else if m < n {
      Pow2Grows(m, n);
    }
  }

  lemma DoublePow2(x: int)
    requires IsPow2(x)
    ensures IsPow2(2 * x)
  {
    var n: nat :| x == Pow2(n);
    assert 2 * x == Pow2(n + 1);
  }

  lemma HalfPow2(x: int)
    requires IsPow2(x) && x >= 2
    ensures IsPow2(x / 2) && 2 * (x / 2) == x
  {
    var n: nat :| x == Pow2(n);
    assert n > 0 && x / 2 == Pow2(n - 1);
  }

  lemma Pow2Plus8(n: nat)
    ensures Pow2(n + 8) == 256 * Pow2(n)
  {
    assert Pow2(n + 4) == 16 * Pow2(n) by {
      assert Pow2(n + 2) == 4 * Pow2(n);
    }
    assert Pow2(n + 6) == 4 * Pow2(n + 4);
  }

  lemma Pow2Plus32(n: nat)
    ensures Pow2(n + 32) == 0x1_0000_0000 * Pow2(n)
  {
    Pow2Plus8(n);
    Pow2Plus8(n + 8);
    Pow2Plus8(n + 16);
    Pow2Plus8(n + 24);
  }

  /** The exponents of some powers of two that matter. */
  lemma Exponent32() returns (n: nat)
    ensures n == 32 && Pow2(n) == 0x1_0000_0000
  {
    n := 0;
    Pow2Plus32(n);
    n := n + 32;
  }

  lemma Exponent64() returns (n: nat)
    ensures n == 64 && Pow2(n) == TWO_64
  {
    n := 0;
    Pow2Plus32(n);
    Pow2Plus32(n + 32);
    n := n + 64;
  }

  lemma Exponent63() returns (n: nat)
    ensures n == 63 && Pow2(n) == TWO_63
  {
    n := Exponent64();
    assert Pow2(n) == 2 * Pow2(n - 1);
    n := n - 1;
  }

  /** The least power of two that is at least the request, capped at 2^63. */
  method FormatDifficulty(diff: nat) returns (r: nat)
    requires diff < TWO_64
    ensures IsPow2(r) && r <= TWO_63
    ensures diff <= r || r == TWO_63
    ensures forall p | IsPow2(p) && diff <= p :: r <= p
  {
    ghost var top := Exponent63();
    if diff >= TWO_63 {
      return TWO_63;
    }
    var newDiff := 1;
    var i := 0;
    while newDiff < diff
      invariant newDiff == Pow2(i) && newDiff <= TWO_63
      invariant forall p | IsPow2(p) && diff <= p :: newDiff <= p
      decreases TWO_63 - newDiff
    {
      forall p | IsPow2(p) && diff <= p ensures 2 * newDiff <= p {
        NextPow2(newDiff, p);
      }
      NextPow2(newDiff, TWO_63);
      newDiff := newDiff * 2;
      i := i + 1;
    }
    assert i <= 63 by {
      if i > top {
        Pow2Grows(top, i);
      }
    }
    return Pow2(i);
  }
}
