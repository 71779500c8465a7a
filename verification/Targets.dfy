/** Difficulties and 256-bit targets.  The target of difficulty one is a parameter;
    256-bit integers are unbounded ones below 2^256. */
module Targets {
  import opened Arithmetic
  import opened Options
  import opened Powers

  const TABLE_SIZE: nat := 64
  const TWO_128: nat := TWO_64 * TWO_64
  const TWO_256: nat := TWO_128 * TWO_128

  /** The table of targets of the powers of two: one more shift per entry. */
  method GenerateDiffToTargetTable(diffOne: nat) returns (table: array<nat>)
    requires diffOne < TWO_256
    ensures fresh(table) && table.Length == TABLE_SIZE
    ensures forall p | 0 <= p < TABLE_SIZE :: table[p] == ShiftRight(diffOne, p)
  {
    table := new nat[TABLE_SIZE](_ => 0);
    var shifts := 0;
    while shifts < TABLE_SIZE
      invariant 0 <= shifts <= TABLE_SIZE
      invariant forall p | 0 <= p < shifts :: table[p] == ShiftRight(diffOne, p)
    {
      table[shifts] := ShiftRight(diffOne, shifts);
      shifts := shifts + 1;
    }
  }

  /** Shift right bit by bit. */
  function ShiftRight(x: nat, n: nat): nat {
    if n == 0 then x else ShiftRight(x, n - 1) / 2
  }

  lemma DivideTwice(x: nat, a: nat, b: nat)
    requires a > 0 && b > 0 && a * b > 0
    ensures x / a / b == x / (a * b)
  {
    var q := x / a;
    var r := a * (q % b) + x % a;
    MulMonotone(a, q % b, b - 1);
    Distribute(a, b * (q / b), q % b);
    assert a * b * (q / b) == a * (b * (q / b));
    ModUnique(x, a * b, q / b, r);
  }

  lemma {:induction false} ShiftIsDivision(x: nat, n: nat)
    ensures ShiftRight(x, n) == x / Pow2(n)
  {
    if n > 0 {
      ShiftIsDivision(x, n - 1);
      DivideTwice(x, Pow2(n - 1), 2);
    }
  }

  /** The target of a difficulty.  `p` is whatever the floating-point logarithm of the
      difficulty was rounded to: the table is only used if 2^p is the difficulty. */
  method DiffToTarget(diffOne: nat, diff: nat, useTable: bool, p: nat) returns (target: nat)
    requires diffOne < TWO_256 && diff < TWO_64
    ensures target == if diff == 0 then TWO_256 - 1 else diffOne / diff
  {
    if diff == 0 {
      return TWO_256 - 1;
    }
    if useTable {
      var table := GenerateDiffToTargetTable(diffOne);
      if p < TABLE_SIZE && diff == Pow2(p) {
        target := table[p];
        assert target == diffOne / diff by { ShiftIsDivision(diffOne, p); }
        return;
      }
    }
    return diffOne / diff;
  }

  /** The difficulty of a target: the low 64 bits of the quotient.  A zero target is an
      error, as division by zero is in the 256-bit arithmetic. */
  function TargetToDiff(diffOne: nat, target: nat): Option<nat> {
    if target == 0 then None else Some(diffOne / target % TWO_64)
  }

  /** Dividing by the quotient gives back the divisor and what fits into the remainder. */
  lemma Requotient(x: nat, d: nat, q: nat, r: nat)
    requires q > 0 && x == q * d + r
    ensures x / q == d + r / q
  {
    Distribute(q, d, r / q);
    ModUnique(x, q, d + r / q, r % q);
  }

  lemma NoWholePart(r: nat, q: nat)
    requires q > 0
    ensures r / q == 0 <==> r < q
  {
    if r < q {
      ModUnique(r, q, 0, r);
    } else {
      DivAtLeastOne(r, q);
    }
  }

  /** From difficulty to target and back.  The division loses the remainder, and the
      difficulty comes back exactly if the remainder is smaller than the target. */
  lemma RoundTripIff(diffOne: nat, diff: nat)
    requires 0 < diff < TWO_64
    ensures TargetToDiff(diffOne, diffOne / diff) == Some(diff) <==> diffOne % diff < diffOne / diff
  {
    RoundTripParts(diffOne, diff, diffOne / diff, diffOne % diff);
  }

  lemma RoundTripParts(diffOne: nat, diff: nat, target: nat, rest: nat)
    requires rest < diff < TWO_64 && diffOne == target * diff + rest
    ensures TargetToDiff(diffOne, target) == Some(diff) <==> rest < target
  {
    if target > 0 {
      Requotient(diffOne, diff, target, rest);
      NoWholePart(rest, target);
      DivSmaller(rest, target);
      BackIff(diffOne, target, diff, rest / target);
    }
  }

  /** The low 64 bits of the quotient are the difficulty exactly if nothing was added to it. */
  lemma BackIff(diffOne: nat, target: nat, diff: nat, extra: nat)
    requires target > 0 && diff < TWO_64 && extra < TWO_64 && diffOne / target == diff + extra
    ensures TargetToDiff(diffOne, target) == Some(diff) <==> extra == 0
  {
    WrapSmall(diff, extra);
  }

  lemma DivSmaller(x: nat, n: nat)
    requires n > 0
    ensures x / n <= x
  {
    MulAtLeastNat(n, x / n);
  }

  lemma MulAtLeastNat(n: nat, d: nat)
    requires n > 0
    ensures n * d >= d
  {
  }

  lemma DivAtLeastOne(x: nat, n: nat)
    requires 0 < n <= x
    ensures x / n >= 1
  {
    DivMonotone(n, x, n);
    ModUnique(n, n, 1, 0);
  }

  /** Adding less than 2^64 to a 64-bit number and truncating gives it back only for zero. */
  lemma WrapSmall(d: nat, e: nat)
    requires d < TWO_64 && e < TWO_64
    ensures (d + e) % TWO_64 == d <==> e == 0
  {
  }

  /** Every difficulty of 64 bits survives the round trip if the target of difficulty one
      is at least 2^128. */
  lemma RoundTrip(diffOne: nat, diff: nat)
    requires 0 < diff < TWO_64 && TWO_128 <= diffOne < TWO_256
    ensures TargetToDiff(diffOne, diffOne / diff) == Some(diff)
  {
    DivMonotone(TWO_128, diffOne, diff);
    assert TWO_128 / diff >= TWO_64 by {
      MulMonotone(TWO_64, diff, TWO_64);
      BigEnough(diff);
    }
    RoundTripIff(diffOne, diff);
  }

  lemma BigEnough(diff: nat)
    requires 0 < diff < TWO_64
    ensures TWO_128 / diff >= TWO_64
  {
    DivMonotone(diff * TWO_64, TWO_128, diff);
    ModUnique(diff * TWO_64, diff, TWO_64, 0);
  }

  /** Below that it can fail: with difficulty one at 10, difficulty 4 comes back as 5. */
  lemma RoundTripCanFail()
    ensures TargetToDiff(10, 10 / 4) == Some(5)
  {
  }
}
