/** The divider around its step: operand signs, cycle counter, final corrections, and the
    32-bit operations that go through the wide unit. */
module DividerUnit {
  import opened Options
  import opened Words
  import opened Divider

  // ----- What a division must give ------------------------------------------------------

  function Sign(x: int): int { if x < 0 then -1 else 1 }

  function SaneDivide(a: int, b: int, bits: nat): int
    requires bits > 0
  {
    if b == 0 then -1
    else if a == 0 - Pow2(bits - 1) && b == -1 then a
    else (Abs(a) / Abs(b)) * (Sign(a) * Sign(b))
  }

  function SaneRem(a: int, b: int, bits: nat): int
    requires bits > 0
  {
    if b == 0 then a
    else if a == 0 - Pow2(bits - 1) && b == -1 then 0
    else (Abs(a) % Abs(b)) * Sign(a)
  }

  /** Section 6.2 of the RISC-V User-Level ISA v2.2: by zero all ones and the dividend, on
      overflow the dividend and zero, else rounding towards zero with a remainder of the
      dividend's sign. */
  lemma SaneIs(a: int, b: int, bits: nat)
    requires bits > 0
    ensures var (q, r) := (SaneDivide(a, b, bits), SaneRem(a, b, bits));
      if b == 0 then q == -1 && r == a
      else if a == 0 - Pow2(bits - 1) && b == -1 then q == a && r == 0
      else a == q * b + r && Abs(r) < Abs(b) && (r == 0 || (r < 0 <==> a < 0))
  {
    if b == 0 || (a == 0 - Pow2(bits - 1) && b == -1) { return; }
    var (p, m) := (Abs(a) / Abs(b), Abs(a) % Abs(b));
    assert Abs(a) == p * Abs(b) + m && 0 <= m < Abs(b);
    hide Pow2;
    SignedParts(a, b, p, m);
  }

  lemma SignedParts(a: int, b: int, p: int, m: int)
    requires b != 0 && Abs(a) == p * Abs(b) + m
    ensures a == (p * (Sign(a) * Sign(b))) * b + m * Sign(a)
  {
    assert Sign(b) * b == Abs(b) && Sign(a) * Abs(a) == a;
    assert (p * (Sign(a) * Sign(b))) * b == Sign(a) * (p * Abs(b));
  }

  // ----- The unit ----------------------------------------------------------------------

  datatype Config = Config(n: nat, ncycles: nat) {
    predicate Ok() { n > 0 && ncycles > 0 && n % ncycles == 0 }

    function Steps(): nat
      requires Ok()
    {
      n / ncycles
    }
  }

  datatype Call = Call(dividend: nat, divisor: nat, signed: bool) {
    predicate Fits(n: nat) { dividend < Pow2(n) && divisor < Pow2(n) }
  }

  datatype Unit = Unit(acc: nat, divisor: nat, dividend: nat, negate: bool, negateRem: bool, counter: nat, busy: bool) {
    predicate ResultReady() { busy && counter == 0 }

    function Quotient(): nat { dividend }

    function Remainder(n: nat): nat { Trunc(acc, n) }
  }

  function FixAcc(n: nat, d: nat, acc: nat, negateRem: bool): nat {
    var a := if acc >= Pow2(n) then Trunc(acc + d, n + 1) else acc;
    if negateRem then Trunc(0 - a, n + 1) else a
  }

  function FixQuotient(n: nat, d: nat, q: nat, negate: bool): nat {
    if negate && d != 0 then Trunc(0 - q, n) else q
  }

  function Load(n: nat, u: Unit, call: Call, ncycles: nat): Unit
    requires n > 0 && call.Fits(n)
  {
    Unit(0, Magnitude(call.divisor, call.signed, n), Magnitude(call.dividend, call.signed, n),
         call.signed && Top(call.divisor, n) != Top(call.dividend, n),
         call.signed && Top(call.dividend, n), ncycles, true)
  }

  function Advance(c: Config, u: Unit): Unit
    requires c.Ok()
  {
    if u.counter == 0 then u
    else
      var (a, q) := Steps(c.n, u.divisor, u.acc, u.dividend, c.Steps());
      if u.counter == 1
      then u.(acc := FixAcc(c.n, u.divisor, a, u.negateRem), dividend := FixQuotient(c.n, u.divisor, q, u.negate),
          counter := 0)
      else u.(acc := a, dividend := q, counter := u.counter - 1)
  }

  /** One clock tick. */
  function Next(c: Config, u: Unit, div: Option<Call>, result: bool, preempt: bool): Unit
    requires c.Ok() && (div.Some? ==> div.value.Fits(c.n))
  {
    if div.Some? then Load(c.n, u, div.value, c.ncycles)
    else Advance(c, u).(busy := u.busy && !result && !preempt)
  }

  class NonRestoringDivider {
    const c: Config
    var acc: nat
    var divisor: nat
    var dividend: nat
    var negate: bool
    var negateRem: bool
    var counter: nat
    var busy: bool

    ghost function Value(): Unit
      reads this
    {
      Unit(acc, divisor, dividend, negate, negateRem, counter, busy)
    }

    constructor (n: nat, ncycles: nat)
      ensures c == Config(n, ncycles) && !busy && counter == 0
    {
      c := Config(n, ncycles);
      acc, divisor, dividend, negate, negateRem, counter, busy := 0, 0, 0, false, false, 0, false;
    }

    /** The combinational chain of steps of one cycle. */
    method Eval() returns (accNext: nat, dividendNext: nat)
      requires c.Ok()
      ensures (accNext, dividendNext) == Steps(c.n, divisor, acc, dividend, c.Steps())
    {
      hide Trunc, Pow2;
      accNext, dividendNext := acc, dividend;
      var n := c.n;
      for i := 0 to c.Steps()
        invariant (accNext, dividendNext) == Steps(n, divisor, acc, dividend, i)
      {
        var end := if dividendNext >= Pow2(n - 1) then 1 else 0;
        var accShift := Trunc(2 * accNext + end, n + 1);
        if accNext >= Pow2(n) {
          accNext := Trunc(accShift + divisor, n + 1);
        } else {
          accNext := Trunc(accShift - divisor, n + 1);
        }
        dividendNext := Trunc(2 * dividendNext, n) + (if accNext >= Pow2(n) then 0 else 1);
      }
    }

    method Tick(div: Option<Call>, result: bool, preempt: bool)
      requires c.Ok() && (div.Some? ==> div.value.Fits(c.n))
      modifies this
      ensures Value() == Next(c, old(Value()), div, result, preempt)
    {
      hide Trunc, Pow2, Steps;
      var n := c.n;
      if div.Some? {
        var call := div.value;
        acc, counter := 0, c.ncycles;
        divisor := if call.signed && Top(call.divisor, n) then Negate(call.divisor, n) else call.divisor;
        dividend := if call.signed && Top(call.dividend, n) then Negate(call.dividend, n) else call.dividend;
        negate := call.signed && Top(call.divisor, n) != Top(call.dividend, n);
        negateRem := call.signed && Top(call.dividend, n);
      } else if counter > 0 {
        var accNext, dividendNext := Eval();
        if counter == 1 {
          if accNext >= Pow2(n) { accNext := Trunc(accNext + divisor, n + 1); }
          if negateRem { accNext := Trunc(-(accNext as int), n + 1); }
          if negate && divisor != 0 { dividendNext := Trunc(-(dividendNext as int), n); }
        }
        acc, dividend, counter := accNext, dividendNext, counter - 1;
      }
      if div.Some? || result || preempt { busy := div.Some?; }
    }
  }

  // ----- Correctness -------------------------------------------------------------------

  lemma {:induction false} StepsCompose(n: nat, d: nat, acc: nat, dividend: nat, j: nat, k: nat)
    requires n > 0
    ensures var s := Steps(n, d, acc, dividend, j);
      Steps(n, d, s.0, s.1, k) == Steps(n, d, acc, dividend, j + k)
  {
    if k > 0 { StepsCompose(n, d, acc, dividend, j, k - 1); }
  }

  /** Corrections turn the last accumulator and quotient register into long division's. */
  lemma Corrected(n: nat, dividend: nat, d: nat, negate: bool, negateRem: bool)
    requires n > 0 && dividend < Pow2(n) && d < Pow2(n)
    ensures var (s, x) := (Steps(n, d, 0, dividend, n), Restoring(dividend, d, n, n));
      && FixQuotient(n, d, s.1, negate) == Trunc(if negate && d != 0 then 0 - x.q else x.q, n)
      && Trunc(FixAcc(n, d, s.0, negateRem), n) == Trunc(if negateRem then 0 - x.r else x.r, n)
  {
    StepsRefine(n, d, dividend, n);
    var (s, x) := (Steps(n, d, 0, dividend, n), Restoring(dividend, d, n, n));
    assert s.1 == x.q by { assert x.low == 0; }
    hide Trunc, Steps, Restoring, Above;
    TruncSmall(x.q, n);
    if s.0 >= Pow2(n) { TruncIs(s.0 + d, n + 1, 1, x.r); }
    if negateRem { TruncTrunc(0 - x.r, n + 1, n); }
  }

  /** Long division of magnitudes with the signs put back is the architectural division. */
  lemma SignsExact(n: nat, a: int, b: int, q: nat, r: nat)
    requires n > 0 && 0 - Pow2(n - 1) <= a < Pow2(n) && Abs(b) < Pow2(n)
    requires if b == 0 then q == Pow2(n) - 1 && r == Abs(a) else q == Abs(a) / Abs(b) && r == Abs(a) % Abs(b)
    ensures Trunc(if (a < 0) != (b < 0) && b != 0 then 0 - q else q, n) == Trunc(SaneDivide(a, b, n), n)
    ensures Trunc(if a < 0 then 0 - r else r, n) == Trunc(SaneRem(a, b, n), n)
  {
    hide Trunc;
    if b == 0 {
      TruncShift(-1, n, 1);
    } else if a == 0 - Pow2(n - 1) && b == -1 {
      ModIs(Abs(a), 1, Abs(a), 0);
      TruncShift(a, n, 1);
    }
  }

  /** k idle ticks into a division. */
  ghost predicate Progress(c: Config, u: Unit, call: Call, k: nat)
    requires c.Ok() && call.Fits(c.n)
  {
    var l := Load(c.n, u, call, c.ncycles);
    && u.divisor == l.divisor && u.negate == l.negate && u.negateRem == l.negateRem
    && if k < c.ncycles
       then u.counter == c.ncycles - k && (u.acc, u.dividend) == Steps(c.n, l.divisor, 0, l.dividend, k * c.Steps())
       else u.counter == 0
            && u.dividend ==
                Trunc(SaneDivide(Operand(call.dividend, call.signed, c.n), Operand(call.divisor, call.signed, c.n),
                    c.n), c.n)
            && Trunc(u.acc, c.n) ==
                Trunc(SaneRem(Operand(call.dividend, call.signed, c.n), Operand(call.divisor, call.signed, c.n), c.n),
                    c.n)
  }

  lemma FinalExact(c: Config, u: Unit, call: Call)
    requires c.Ok() && call.Fits(c.n)
    ensures var l := Load(c.n, u, call, c.ncycles);
      var s := Steps(c.n, l.divisor, 0, l.dividend, c.n);
      var (a, b) := (Operand(call.dividend, call.signed, c.n), Operand(call.divisor, call.signed, c.n));
      && FixQuotient(c.n, l.divisor, s.1, l.negate) == Trunc(SaneDivide(a, b, c.n), c.n)
      && Trunc(FixAcc(c.n, l.divisor, s.0, l.negateRem), c.n) == Trunc(SaneRem(a, b, c.n), c.n)
  {
    var l := Load(c.n, u, call, c.ncycles);
    var (a, b) := (Operand(call.dividend, call.signed, c.n), Operand(call.divisor, call.signed, c.n));
    MagnitudeExact(call.dividend, call.signed, c.n);
    MagnitudeExact(call.divisor, call.signed, c.n);
    Corrected(c.n, l.dividend, l.divisor, l.negate, l.negateRem);
    LongDivision(l.dividend, l.divisor, c.n);
    hide Trunc, Steps, Restoring, FixAcc, FixQuotient, SaneDivide, SaneRem, Magnitude, Negate, Pow2;
    var x := Restoring(l.dividend, l.divisor, c.n, c.n);
    SignsExact(c.n, a, b, x.q, x.r);
  }

  lemma ProgressKept(c: Config, u: Unit, call: Call, k: nat, result: bool, preempt: bool)
    requires c.Ok() && call.Fits(c.n) && Progress(c, u, call, k)
    ensures Progress(c, Next(c, u, None, result, preempt), call, k + 1)
  {
    hide Trunc, Steps, SaneDivide, SaneRem, FixAcc, FixQuotient, Magnitude, Pow2;
    if k < c.ncycles {
      var l := Load(c.n, u, call, c.ncycles);
      StepsCompose(c.n, l.divisor, 0, l.dividend, k * c.Steps(), c.Steps());
      assert k * c.Steps() + c.Steps() == (k + 1) * c.Steps();
      if k + 1 == c.ncycles {
        assert c.ncycles * c.Steps() == c.n;
        FinalExact(c, u, call);
      }
    }
  }

  ghost function Idle(c: Config, u: Unit, ticks: seq<(bool, bool)>): Unit
    requires c.Ok()
  {
    if |ticks| == 0 then u
    else
      var last := ticks[|ticks| - 1];
      Next(c, Idle(c, u, ticks[..|ticks| - 1]), None, last.0, last.1)
  }

  /** From any state, a division runs for exactly ncycles ticks and then holds quotient and
      remainder until the next one starts; it is offered while nobody took or preempted it. */
  lemma {:induction false} DivideExact(c: Config, u: Unit, call: Call, result: bool, preempt: bool,
      ticks: seq<(bool, bool)>)
    requires c.Ok() && call.Fits(c.n)
    ensures var d := Idle(c, Next(c, u, Some(call), result, preempt), ticks);
      var (a, b) := (Operand(call.dividend, call.signed, c.n), Operand(call.divisor, call.signed, c.n));
      && Progress(c, d, call, |ticks|)
      && (d.ResultReady() <==> |ticks| >= c.ncycles && forall i :: 0 <= i < |ticks| ==> ticks[i] == (false, false))
      && (d.busy <==> forall i :: 0 <= i < |ticks| ==> ticks[i] == (false, false))
      && (|ticks| >= c.ncycles ==>
          d.Quotient() == Trunc(SaneDivide(a, b, c.n), c.n) && d.Remainder(c.n) == Trunc(SaneRem(a, b, c.n), c.n))
  {
    hide Trunc, SaneDivide, SaneRem, FixAcc, FixQuotient, Magnitude, Pow2;
    if |ticks| > 0 {
      var (pre, last) := (ticks[..|ticks| - 1], ticks[|ticks| - 1]);
      DivideExact(c, u, call, result, preempt, pre);
      ProgressKept(c, Idle(c, Next(c, u, Some(call), result, preempt), pre), call, |pre|, last.0, last.1);
    }
  }

  // ----- Narrow operations through the wide unit ----------------------------------------

  /** The execution stage's message: `w` is the width of the narrow forms. */
  datatype Op = Op(signed: bool, rem: bool, narrow: bool)

  function Widen(x: nat, op: Op, w: nat, n: nat): (r: nat)
    requires 0 < w <= n && x < Pow2(n)
    ensures r < Pow2(n)
  {
    if !op.narrow then x
    else if op.signed then SignExtend(Trunc(x, w), w, n)
    else Pow2Monotone(w, n); Trunc(x, w)
  }

  function Request(op: Op, rs1: nat, rs2: nat, w: nat, n: nat): (c: Call)
    requires 0 < w <= n && rs1 < Pow2(n) && rs2 < Pow2(n)
    ensures c.Fits(n)
  {
    Call(Widen(rs1, op, w, n), Widen(rs2, op, w, n), op.signed)
  }

  function Output(op: Op, u: Unit, w: nat, n: nat): nat
    requires 0 < w <= n
  {
    var out := if op.rem then u.Remainder(n) else u.Quotient();
    if op.narrow then SignExtend(Trunc(out, w), w, n) else out
  }

  function SaneResult(op: Op, a: int, b: int, bits: nat): int
    requires bits > 0
  {
    if op.rem then SaneRem(a, b, bits) else SaneDivide(a, b, bits)
  }

  /** The instruction's meaning: divide the operands as `bits`-wide numbers, signed or not,
      and sign-extend a narrow result. */
  function Architectural(op: Op, rs1: nat, rs2: nat, w: nat, n: nat): nat
    requires 0 < w <= n && rs1 < Pow2(n) && rs2 < Pow2(n)
  {
    if op.narrow
    then SignExtend(Trunc(SaneResult(op, Operand(Trunc(rs1, w), op.signed, w), Operand(Trunc(rs2, w), op.signed, w), w),
        w), w, n)
    else Trunc(SaneResult(op, Operand(rs1, op.signed, n), Operand(rs2, op.signed, n), n), n)
  }

  lemma WidenKeepsValue(x: nat, op: Op, w: nat, n: nat)
    requires 0 < w <= n && x < Pow2(n) && op.narrow
    ensures Operand(Widen(x, op, w, n), op.signed, n) == Operand(Trunc(x, w), op.signed, w)
  {
    if op.signed { SignExtendExact(Trunc(x, w), w, n); }
  }

  /** Dividing narrow numbers in the wide unit differs only in the overflowing case, and
      there by a multiple of 2^w. */
  lemma NarrowAgrees(op: Op, a: int, b: int, w: nat, n: nat)
    requires 0 < w <= n
    requires if op.signed then 0 - Pow2(w - 1) <= a < Pow2(w - 1) else 0 <= a && 0 <= b
    ensures Trunc(SaneResult(op, a, b, n), w) == Trunc(SaneResult(op, a, b, w), w)
  {
    hide Trunc;
    Pow2Monotone(w - 1, n - 1);
    if b == -1 && a == 0 - Pow2(w - 1) {
      ModIs(Abs(a), 1, Abs(a), 0);
      TruncShift(a, w, 1);
    }
  }

  /** Every division instruction, wide or narrow, signed or unsigned, quotient or
      remainder, by zero and overflowing ones included. */
  lemma InstructionExact(c: Config, u: Unit, op: Op, rs1: nat, rs2: nat, w: nat, ticks: seq<(bool, bool)>)
    requires c.Ok() && 0 < w <= c.n && rs1 < Pow2(c.n) && rs2 < Pow2(c.n) && |ticks| >= c.ncycles
    ensures var d := Idle(c, Next(c, u, Some(Request(op, rs1, rs2, w, c.n)), false, false), ticks);
      Output(op, d, w, c.n) == Architectural(op, rs1, rs2, w, c.n)
  {
    hide Trunc, SaneDivide, SaneRem, Steps, Progress, SignExtend;
    var call := Request(op, rs1, rs2, w, c.n);
    DivideExact(c, u, call, false, false, ticks);
    if op.narrow {
      var (a, b) := (Operand(call.dividend, call.signed, c.n), Operand(call.divisor, call.signed, c.n));
      WidenKeepsValue(rs1, op, w, c.n);
      WidenKeepsValue(rs2, op, w, c.n);
      NarrowAgrees(op, a, b, w, c.n);
      TruncTrunc(SaneResult(op, a, b, c.n), c.n, w);
    }
  }
}
