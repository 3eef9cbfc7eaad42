/** The non-restoring divider.

    `Restoring` is schoolbook long division, one quotient bit at a time; `Step` is the
    hardware's: it never undoes a subtraction, keeps a partial remainder that may be
    negative on n+1 wrapping bits, and shares one register between the dividend still to
    come and the quotient so far.  `StepRefines` ties them, `LongDivision` ties the former
    to division. */
module Divider {
  import opened Words

  // ----- Long division -----------------------------------------------------------------

  /** Quotient and remainder of the bits consumed so far, and the bits still to come. */
  datatype Partial = Partial(q: nat, r: nat, low: nat)

  function Consume(d: nat, half: nat, x: Partial): Partial {
    var b := if x.low >= half then 1 else 0;
    var low: nat := if x.low >= half then x.low - half else x.low;
    var r := 2 * x.r + b;
    if r >= d then Partial(2 * x.q + 1, r - d, low) else Partial(2 * x.q, r, low)
  }

  function Restoring(dividend: nat, d: nat, n: nat, i: nat): Partial
    requires i <= n
  {
    if i == 0 then Partial(0, 0, dividend) else Consume(d, Pow2(n - i), Restoring(dividend, d, n, i - 1))
  }

  ghost predicate Bounded(d: nat, n: nat, i: nat, x: Partial)
    requires i <= n
  {
    && x.low < Pow2(n - i) && x.q < Pow2(i) && x.r < Pow2(i)
    && (d > 0 ==> x.r < d) && (d == 0 ==> x.q == Pow2(i) - 1)
  }

  lemma ConsumeBounded(d: nat, n: nat, i: nat, x: Partial)
    requires i < n && Bounded(d, n, i, x)
    ensures Bounded(d, n, i + 1, Consume(d, Pow2(n - i - 1), x))
  {
  }

  lemma ConsumeValue(d: nat, half: nat, x: Partial)
    ensures var y := Consume(d, half, x);
      (y.q * d + y.r) * half + y.low == (x.q * d + x.r) * (2 * half) + x.low
  {
    var (y, t, b) := (Consume(d, half, x), x.q * d + x.r, if x.low >= half then 1 else 0);
    assert y.q * d + y.r == 2 * t + b by {
      assert (2 * x.q) * d == 2 * (x.q * d);
      assert (2 * x.q + 1) * d == 2 * (x.q * d) + d;
    }
    assert (2 * t + b) * half == t * (2 * half) + b * half;
  }

  lemma {:induction false} RestoringInvariant(dividend: nat, d: nat, n: nat, i: nat)
    requires dividend < Pow2(n) && i <= n
    ensures var x := Restoring(dividend, d, n, i);
      Bounded(d, n, i, x) && (x.q * d + x.r) * Pow2(n - i) + x.low == dividend
  {
    if i > 0 {
      RestoringInvariant(dividend, d, n, i - 1);
      var x := Restoring(dividend, d, n, i - 1);
      ConsumeBounded(d, n, i - 1, x);
      ConsumeValue(d, Pow2(n - i), x);
    }
  }

  /** All n bits consumed, long division is division; by zero it gives all ones and the
      dividend. */
  lemma LongDivision(dividend: nat, d: nat, n: nat)
    requires dividend < Pow2(n)
    ensures var x := Restoring(dividend, d, n, n);
      if d == 0 then x.q == Pow2(n) - 1 && x.r == dividend
      else x.q == dividend / d && x.r == dividend % d
  {
    RestoringInvariant(dividend, d, n, n);
    var x := Restoring(dividend, d, n, n);
    assert x.q * d + x.r == dividend;
    if d > 0 { ModIs(dividend, d, x.q, x.r); }
  }

  // ----- The hardware step -------------------------------------------------------------

  function Step(n: nat, d: nat, acc: nat, dividend: nat): (r: (nat, nat))
    requires n > 0
  {
    var end := if dividend >= Pow2(n - 1) then 1 else 0;
    var accShift := Trunc(2 * acc + end, n + 1);
    var accNext := if acc >= Pow2(n) then Trunc(accShift + d, n + 1) else Trunc(accShift - d, n + 1);
    (accNext, Trunc(2 * dividend, n) + (if accNext >= Pow2(n) then 0 else 1))
  }

  function Steps(n: nat, d: nat, acc: nat, dividend: nat, k: nat): (nat, nat)
    requires n > 0
  {
    if k == 0 then (acc, dividend)
    else
      var (a, q) := Steps(n, d, acc, dividend, k - 1);
      Step(n, d, a, q)
  }

  function Above(low: nat, i: nat): nat { low * Pow2(i) }

  /** The registers after i bits: the low bits sit above the quotient, and the accumulator
      holds the remainder, or the remainder less one divisor, on n+1 bits. */
  ghost predicate Represents(n: nat, d: nat, i: nat, x: Partial, acc: nat, dividend: nat)
    requires i <= n
  {
    && Bounded(d, n, i, x) && d < Pow2(n)
    && dividend == Above(x.low, i) + x.q
    && (acc == x.r || (x.r < d && acc == x.r - d + 2 * Pow2(n)))
  }

  lemma TopBitOf(n: nat, i: nat, low: nat, q: nat)
    requires i < n && low < Pow2(n - i) && q < Pow2(i)
    ensures var half := Pow2(n - i - 1);
      var rest: nat := if low >= half then low - half else low;
      && Above(rest, i) + q < Pow2(n - 1) && Above(rest, i + 1) == 2 * Above(rest, i)
      && Above(low, i) == Above(rest, i) + (if low >= half then Pow2(n - 1) else 0)
  {
    var (p, half) := (Pow2(i), Pow2(n - i - 1));
    var rest := if low >= half then low - half else low;
    Pow2Add(n - i - 1, i);
    assert Pow2(n - i) == 2 * half && Pow2(i + 1) == 2 * p;
    hide Pow2;
    MultipleAtLeast(half - rest, p);
    Distribute(half, rest, p);
    Distribute(low, half, p);
    Twice(rest, p);
  }

  lemma Distribute(a: int, b: int, p: int)
    ensures (a - b) * p == a * p - b * p
  {
  }

  lemma Twice(a: int, p: int)
    ensures a * (2 * p) == 2 * (a * p)
  {
  }

  lemma TopBitOut(n: nat, v: nat, rest: nat, top: bool)
    requires n > 0 && rest < Pow2(n - 1) && v == rest + (if top then Pow2(n - 1) else 0)
    ensures (v >= Pow2(n - 1) <==> top) && Trunc(2 * v, n) == 2 * rest
  {
    hide Trunc;
    TruncIs(2 * v, n, if top then 1 else 0, 2 * rest);
  }

  lemma TopBit(n: nat, i: nat, low: nat, q: nat)
    requires i < n && low < Pow2(n - i) && q < Pow2(i)
    ensures var half := Pow2(n - i - 1);
      && (Above(low, i) + q >= Pow2(n - 1) <==> low >= half)
      && Trunc(2 * (Above(low, i) + q), n) == Above(if low >= half then low - half else low, i + 1) + 2 * q
  {
    hide Above, Trunc;
    var half := Pow2(n - i - 1);
    var rest := if low >= half then low - half else low;
    TopBitOf(n, i, low, q);
    TopBitOut(n, Above(low, i) + q, Above(rest, i) + q, low >= half);
  }

  /** Adding back or subtracting, the new accumulator is 2r + bit - D. */
  lemma NextAccumulator(n: nat, d: nat, acc: nat, r: nat, bit: nat)
    requires n > 0 && r < Pow2(n) && d < Pow2(n)
    requires acc == r || (r < d && acc == r - d + 2 * Pow2(n))
    ensures var accShift := Trunc(2 * acc + bit, n + 1);
      (if acc >= Pow2(n) then Trunc(accShift + d, n + 1) else Trunc(accShift - d, n + 1)) ==
          Trunc(2 * r + bit - d, n + 1)
  {
    hide Trunc;
    assert Pow2(n + 1) == 2 * Pow2(n);
    hide Pow2;
    if acc >= Pow2(n) {
      AddsBack(n + 1, 2 * acc + bit, d, 2 * r + bit - d);
    } else {
      TruncAdd(2 * acc + bit, 0 - d, n + 1);
    }
  }

  lemma AddsBack(w: nat, shifted: nat, d: nat, x: int)
    requires shifted + d == x + 2 * Pow2(w)
    ensures Trunc(Trunc(shifted, w) + d, w) == Trunc(x, w)
  {
    hide Trunc, Pow2;
    TruncAdd(shifted, d, w);
    TruncShift(x, w, 2);
  }

  lemma Subtracted(n: nat, d: nat, r: nat)
    requires r < 2 * Pow2(n) && d < Pow2(n)
    ensures Trunc(r - d, n + 1) == if r >= d then r - d else r - d + 2 * Pow2(n)
  {
    hide Trunc;
    if r >= d {
      TruncSmall(r - d, n + 1);
    } else {
      TruncIs(r - d, n + 1, -1, r - d + 2 * Pow2(n));
    }
  }

  lemma StepRefines(n: nat, d: nat, i: nat, x: Partial, acc: nat, dividend: nat)
    requires i < n && Represents(n, d, i, x, acc, dividend)
    ensures var s := Step(n, d, acc, dividend);
      Represents(n, d, i + 1, Consume(d, Pow2(n - i - 1), x), s.0, s.1)
  {
    hide Above, Trunc, Pow2;
    ConsumeBounded(d, n, i, x);
    TopBit(n, i, x.low, x.q);
    Pow2Monotone(i + 1, n);
    var half := Pow2(n - i - 1);
    var bit := if x.low >= half then 1 else 0;
    NextAccumulator(n, d, acc, x.r, bit);
    Subtracted(n, d, 2 * x.r + bit);
  }

  lemma {:induction false} StepsRefine(n: nat, d: nat, dividend: nat, k: nat)
    requires 0 < n && k <= n && d < Pow2(n) && dividend < Pow2(n)
    ensures var s := Steps(n, d, 0, dividend, k);
      Represents(n, d, k, Restoring(dividend, d, n, k), s.0, s.1)
  {
    hide Trunc, Step;
    if k > 0 {
      StepsRefine(n, d, dividend, k - 1);
      var s := Steps(n, d, 0, dividend, k - 1);
      StepRefines(n, d, k - 1, Restoring(dividend, d, n, k - 1), s.0, s.1);
    }
  }

  /** The wrapping accumulator never leaves [-D, D). */
  lemma AccumulatorRange(n: nat, d: nat, dividend: nat, k: nat)
    requires 0 < n && k <= n && 0 < d < Pow2(n) && dividend < Pow2(n)
    ensures var acc := Steps(n, d, 0, dividend, k).0;
      acc < Pow2(n + 1) && 0 - d <= ToSigned(acc, n + 1) < d
  {
    StepsRefine(n, d, dividend, k);
    hide Trunc, Steps, Restoring;
  }
}
