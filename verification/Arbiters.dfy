/** Priority and round-robin arbiters: word tricks against loops over request bits. */
module Arbiters {
  import opened Options
  import opened Words

  // ----- Bits of naturals -----------------------------------------------------------------

  function Bit(x: nat, i: nat): bool { if i == 0 then x % 2 == 1 else Bit(x / 2, i - 1) }

  function And(a: nat, b: nat): nat
    decreases a
  {
    if a == 0 then 0 else 2 * And(a / 2, b / 2) + (if a % 2 == 1 && b % 2 == 1 then 1 else 0)
  }

  function Or(a: nat, b: nat): nat
    decreases a + b
  {
    if a + b == 0 then 0 else 2 * Or(a / 2, b / 2) + (if a % 2 == 1 || b % 2 == 1 then 1 else 0)
  }

  function Xor(a: nat, b: nat): nat
    decreases a + b
  {
    if a + b == 0 then 0 else 2 * Xor(a / 2, b / 2) + (if a % 2 != b % 2 then 1 else 0)
  }

  /** Complement on n bits. */
  function Not(a: nat, n: nat): nat
    requires a < Pow2(n)
  {
    Pow2(n) - 1 - a
  }

  /** The lowest set bit. */
  function Low(x: nat): (k: nat)
    requires x > 0
    ensures Bit(x, k) && forall j :: 0 <= j < k ==> !Bit(x, j)
  {
    if x % 2 == 1 then 0
    else
      var k := Low(x / 2);
      assert forall j :: 0 <= j < k + 1 ==> !Bit(x, j) by {
        forall j | 0 <= j < k + 1 ensures !Bit(x, j) { if j > 0 { assert !Bit(x / 2, j - 1); } }
      }
      k + 1
  }

  lemma {:induction false} LowFits(x: nat, n: nat)
    requires 0 < x < Pow2(n)
    ensures Low(x) < n
  {
    if x % 2 == 0 { LowFits(x / 2, n - 1); }
  }

  lemma {:induction false} AndBit(a: nat, b: nat, i: nat)
    ensures Bit(And(a, b), i) <==> Bit(a, i) && Bit(b, i)
    decreases i
  {
    if i > 0 {
      AndBit(a / 2, b / 2, i - 1);
      assert a > 0 ==> And(a, b) / 2 == And(a / 2, b / 2);
      if a == 0 { ZeroBit(i - 1); }
    } else {
      assert a > 0 ==> And(a, b) % 2 == (if a % 2 == 1 && b % 2 == 1 then 1 else 0);
    }
  }

  lemma {:induction false} ZeroBit(i: nat)
    ensures !Bit(0, i)
  {
    if i > 0 { ZeroBit(i - 1); }
  }

  lemma {:induction false} BitFits(x: nat, n: nat, i: nat)
    requires x < Pow2(n) && Bit(x, i)
    ensures i < n
    decreases i
  {
    if n == 0 { ZeroBit(i); }
    else if i > 0 { BitFits(x / 2, n - 1, i - 1); }
  }

  // ----- The word tricks ----------------------------------------------------------------------

  /** reqs & -reqs. */
  function PriorityGrant(reqs: nat, n: nat): nat
    requires reqs < Pow2(n)
  {
    And(reqs, Trunc(0 - reqs, n))
  }

  lemma {:induction false} AndNot(x: nat, n: nat)
    requires x < Pow2(n)
    ensures And(x, Not(x, n)) == 0
  {
    if x > 0 {
      assert Not(x, n) / 2 == Not(x / 2, n - 1) && Not(x, n) % 2 == 1 - x % 2;
      AndNot(x / 2, n - 1);
    }
  }

  lemma NegateIs(x: nat, n: nat)
    requires x < Pow2(n)
    ensures Trunc(0 - x, n) == if x == 0 then 0 else Pow2(n) - x
  {
    hide Trunc;
    if x == 0 { TruncSmall(0, n); } else { TruncIs(0 - x, n, -1, Pow2(n) - x); }
  }

  /** The grant is exactly the lowest request. */
  lemma {:induction false} GrantsLowest(reqs: nat, n: nat)
    requires reqs < Pow2(n)
    ensures PriorityGrant(reqs, n) == if reqs == 0 then 0 else Pow2(Low(reqs))
  {
    NegateIs(reqs, n);
    hide Trunc;
    if reqs > 0 {
      var q := reqs / 2;
      if reqs % 2 == 1 {
        assert (Pow2(n) - reqs) / 2 == Not(q, n - 1);
        AndNot(q, n - 1);
      } else {
        GrantsLowest(q, n - 1);
        NegateIs(q, n - 1);
        assert (Pow2(n) - reqs) / 2 == Pow2(n - 1) - q;
      }
    }
  }

  /** All bits from the lowest set one up; all bits of zero. */
  function Thermometer(x: nat, n: nat): nat
    requires x < Pow2(n) && Xor(x, Trunc(x - 1, n)) < Pow2(n)
  {
    var out := Xor(x, Trunc(x - 1, n));
    Or(if x == 0 then out else Not(out, n), x)
  }

  lemma {:induction false} XorSame(x: nat)
    ensures Xor(x, x) == 0
  {
    if x > 0 { XorSame(x / 2); }
  }

  lemma {:induction false} XorPredecessor(x: nat)
    requires x > 0
    ensures Xor(x, x - 1) == Pow2(Low(x) + 1) - 1
  {
    var q := x / 2;
    if x % 2 == 1 {
      assert (x - 1) / 2 == q;
      XorSame(q);
    } else {
      assert (x - 1) / 2 == q - 1;
      XorPredecessor(q);
    }
  }

  lemma {:induction false} XorZero(y: nat)
    ensures Xor(0, y) == y
  {
    if y > 0 { XorZero(y / 2); }
  }

  lemma {:induction false} OrZero(x: nat)
    ensures Or(x, 0) == x
  {
    if x > 0 { OrZero(x / 2); }
  }

  lemma {:induction false} OrOnes(x: nat, n: nat)
    requires x < Pow2(n)
    ensures Or(Pow2(n) - 1, x) == Pow2(n) - 1
  {
    if n > 0 {
      OrOnes(x / 2, n - 1);
      assert (Pow2(n) - 1) / 2 == Pow2(n - 1) - 1;
    }
  }

  lemma {:induction false} OrFill(x: nat, n: nat)
    requires 0 < x < Pow2(n)
    ensures Low(x) < n && Pow2(Low(x) + 1) <= Pow2(n)
    ensures Or(Pow2(n) - Pow2(Low(x) + 1), x) == Pow2(n) - Pow2(Low(x))
  {
    LowFits(x, n);
    Pow2Monotone(Low(x) + 1, n);
    var q := x / 2;
    if x % 2 == 1 {
      assert (Pow2(n) - 2) / 2 == Pow2(n - 1) - 1;
      OrOnes(q, n - 1);
    } else {
      OrFill(q, n - 1);
      assert (Pow2(n) - Pow2(Low(x) + 1)) / 2 == Pow2(n - 1) - Pow2(Low(q) + 1);
    }
  }

  lemma Doubles(k: nat)
    ensures Pow2(k + 1) == 2 * Pow2(k)
  {
  }

  lemma ThermometerExact(x: nat, n: nat)
    requires x < Pow2(n)
    ensures Xor(x, Trunc(x - 1, n)) < Pow2(n)
    ensures Thermometer(x, n) == if x == 0 then Pow2(n) - 1 else Pow2(n) - Pow2(Low(x))
  {
    hide Trunc, Xor, Or, Pow2, Low;
    if x == 0 {
      TruncIs(-1, n, -1, Pow2(n) - 1);
      XorZero(Pow2(n) - 1);
      OrZero(Pow2(n) - 1);
    } else {
      assert Pow2(Low(x) + 1) == 2 * Pow2(Low(x)) by { Doubles(Low(x)); }
      TruncSmall(x - 1, n);
      XorPredecessor(x);
      LowFits(x, n);
      Pow2Monotone(Low(x) + 1, n);
      OrFill(x, n);
    }
  }

  lemma {:induction false} UpperBits(n: nat, k: nat, i: nat)
    requires k <= n
    ensures Pow2(k) <= Pow2(n) && (Bit(Pow2(n) - Pow2(k), i) <==> k <= i < n)
    decreases n
  {
    Pow2Monotone(k, n);
    var x := Pow2(n) - Pow2(k);
    if k == n { ZeroBit(i); }
    else if k == 0 {
      assert x / 2 == Pow2(n - 1) - 1 && x % 2 == 1;
      if i > 0 { UpperBits(n - 1, 0, i - 1); }
    } else {
      UpperBits(n - 1, k - 1, if i > 0 then i - 1 else 0);
      assert x / 2 == Pow2(n - 1) - Pow2(k - 1) && x % 2 == 0;
    }
  }

  // ----- One bit at a time ----------------------------------------------------------------

  /** The first request from position `from` on, below n. */
  function FirstFrom(reqs: nat, from: nat, n: nat): (r: Option<nat>)
    requires from <= n
    ensures r.Some? ==> from <= r.value < n && Bit(reqs, r.value) && forall j :: from <= j < r.value ==> !Bit(reqs, j)
    ensures r.None? ==> forall j :: from <= j < n ==> !Bit(reqs, j)
    decreases n - from
  {
    if from == n then None else if Bit(reqs, from) then Some(from) else FirstFrom(reqs, from + 1, n)
  }

  /** The position after the last grant; the start when there was none. */
  function Resume(last: Option<nat>, n: nat): nat { if last.Some? then last.value + 1 else n }

  /** The first request after the last grant, else the first of all. */
  function Choice(last: Option<nat>, reqs: nat, n: nat): (r: Option<nat>)
    requires last.Some? ==> last.value < n
    ensures r.Some? ==> r.value < n && Bit(reqs, r.value)
  {
    var end := Resume(last, n);
    var later := FirstFrom(reqs, end, n);
    if later.Some? then later else FirstFrom(reqs, 0, end)
  }

  function Word(grant: Option<nat>): nat { if grant.Some? then Pow2(grant.value) else 0 }

  lemma LowIsFirst(reqs: nat, n: nat)
    requires reqs < Pow2(n)
    ensures FirstFrom(reqs, 0, n) == if reqs == 0 then None else Some(Low(reqs))
  {
    if reqs == 0 { forall j: nat ensures !Bit(0, j) { ZeroBit(j); } }
    else { LowFits(reqs, n); }
  }

  class PriorityArbiterFL {
    const n: nat

    constructor (n: nat)
      ensures this.n == n
    {
      this.n := n;
    }

    /** Tests and shifts a copy of the requests. */
    method Grant(reqs: nat) returns (grant: nat)
      ensures grant == Word(FirstFrom(reqs, 0, n))
    {
      var temp, i := reqs, 0;
      while i < n
        invariant 0 <= i <= n && FirstFrom(reqs, 0, n) == FirstFrom(reqs, i, n)
        invariant forall j: nat :: Bit(temp, j) == Bit(reqs, i + j)
      {
        assert Bit(temp, 0) == Bit(reqs, i + 0);
        if temp % 2 == 1 { return Pow2(i); }
        temp := Halve(reqs, temp, i);
        i := i + 1;
      }
      grant := 0;
    }

    method Halve(ghost reqs: nat, temp: nat, ghost i: nat) returns (half: nat)
      requires forall j: nat :: Bit(temp, j) == Bit(reqs, i + j)
      ensures forall j: nat :: Bit(half, j) == Bit(reqs, i + 1 + j)
    {
      half := temp / 2;
      forall j: nat ensures Bit(half, j) == Bit(reqs, i + 1 + j) {
        assert Bit(temp, j + 1) == Bit(half, j);
        assert Bit(temp, j + 1) == Bit(reqs, i + (j + 1));
      }
    }
  }

  /** The word trick grants what the loop grants. */
  lemma PriorityExact(reqs: nat, n: nat)
    requires reqs < Pow2(n)
    ensures PriorityGrant(reqs, n) == Word(FirstFrom(reqs, 0, n))
  {
    GrantsLowest(reqs, n);
    LowIsFirst(reqs, n);
  }

  class RoundRobinArbiterFL {
    const n: nat
    var lastGrant: Option<nat>

    constructor (n: nat)
      ensures this.n == n && lastGrant == None
    {
      this.n := n;
      lastGrant := None;
    }

    method Grant(reqs: nat) returns (grant: nat)
      requires lastGrant.Some? ==> lastGrant.value < n
      modifies this
      ensures lastGrant == Choice(old(lastGrant), reqs, n) && grant == Word(lastGrant)
    {
      hide Bit;
      var end := if lastGrant.Some? then lastGrant.value + 1 else n;
      for i := end to n
        invariant FirstFrom(reqs, end, n) == FirstFrom(reqs, i, n) && lastGrant == old(lastGrant)
      {
        if Bit(reqs, i) {
          lastGrant := Some(i);
          return Pow2(i);
        }
      }
      for i := 0 to end
        invariant FirstFrom(reqs, 0, end) == FirstFrom(reqs, i, end) && lastGrant == old(lastGrant)
      {
        if Bit(reqs, i) {
          lastGrant := Some(i);
          return Pow2(i);
        }
      }
      lastGrant := None;
      grant := 0;
    }
  }

  // ----- Round robin in words -------------------------------------------------------------

  /** The mask register after a grant: the bit above it, if it fits. */
  function MaskAfter(grant: nat, n: nat): nat { Trunc(2 * grant, n) }

  function RoundRobinGrant(mask: nat, reqs: nat, n: nat): nat
    requires mask < Pow2(n) && reqs < Pow2(n)
  {
    ThermometerExact(mask, n);
    AndFits(reqs, Thermometer(mask, n), n);
    var masked := PriorityGrant(And(reqs, Thermometer(mask, n)), n);
    if masked == 0 then PriorityGrant(reqs, n) else masked
  }

  lemma {:induction false} AndFits(a: nat, b: nat, n: nat)
    requires a < Pow2(n)
    ensures And(a, b) < Pow2(n)
  {
    if a > 0 { AndFits(a / 2, b / 2, n - 1); }
  }

  ghost predicate Remembers(mask: nat, last: Option<nat>, n: nat) {
    && (last.Some? ==> last.value < n)
    && mask == if last.Some? && last.value + 1 < n then Pow2(last.value + 1) else 0
  }

  lemma {:induction false} LowOfPow2(k: nat)
    ensures Low(Pow2(k)) == k
  {
    if k > 0 { LowOfPow2(k - 1); }
  }

  /** Masked requests are those from the remembered position on. */
  lemma MaskedFirst(mask: nat, last: Option<nat>, reqs: nat, n: nat)
    requires Remembers(mask, last, n) && reqs < Pow2(n) && mask < Pow2(n)
    ensures Xor(mask, Trunc(mask - 1, n)) < Pow2(n)
    ensures var m := And(reqs, Thermometer(mask, n));
      m < Pow2(n) && FirstFrom(m, 0, n) == FirstFrom(reqs, if mask == 0 then 0 else last.value + 1, n)
  {
    ThermometerExact(mask, n);
    var from := if mask == 0 then 0 else last.value + 1;
    var t := Thermometer(mask, n);
    if mask > 0 { LowOfPow2(from); }
    assert t == Pow2(n) - Pow2(from);
    var m := And(reqs, t);
    AndFits(reqs, t, n);
    hide Thermometer, And, Bit;
    forall j: nat | j < n ensures Bit(m, j) <==> Bit(reqs, j) && from <= j {
      AndBit(reqs, t, j);
      UpperBits(n, from, j);
    }
    FirstSame(m, reqs, from, n);
  }

  lemma FirstSame(m: nat, reqs: nat, from: nat, n: nat)
    requires from <= n && forall j :: 0 <= j < n ==> (Bit(m, j) <==> Bit(reqs, j) && from <= j)
    ensures FirstFrom(m, 0, n) == FirstFrom(reqs, from, n)
  {
    hide Bit;
    var (a, b) := (FirstFrom(m, 0, n), FirstFrom(reqs, from, n));
    assert a.Some? ==> Bit(m, a.value) && Bit(reqs, a.value);
    assert b.Some? ==> Bit(m, b.value) && Bit(reqs, b.value);
  }

  /** One cycle of the hardware grants the method's choice and remembers the same. */
  lemma RoundRobinExact(mask: nat, last: Option<nat>, reqs: nat, n: nat)
    requires Remembers(mask, last, n) && reqs < Pow2(n) && mask < Pow2(n)
    ensures var grant := RoundRobinGrant(mask, reqs, n);
      && grant == Word(Choice(last, reqs, n))
      && Remembers(MaskAfter(grant, n), Choice(last, reqs, n), n)
  {
    MaskedFirst(mask, last, reqs, n);
    ThermometerExact(mask, n);
    hide Thermometer, Trunc, Bit, Xor, And;
    PriorityExact(reqs, n);
    PriorityExact(And(reqs, Thermometer(mask, n)), n);
    hide PriorityGrant;
    ChoiceIs(mask, last, reqs, n);
    var c := Choice(last, reqs, n);
    MaskOf(c, n);
  }

  lemma ChoiceIs(mask: nat, last: Option<nat>, reqs: nat, n: nat)
    requires Remembers(mask, last, n)
    ensures var masked := FirstFrom(reqs, if mask == 0 then 0 else last.value + 1, n);
      Choice(last, reqs, n) == if masked.Some? then masked else FirstFrom(reqs, 0, n)
  {
    hide Bit;
    var end := Resume(last, n);
    if mask > 0 && FirstFrom(reqs, end, n).None? { FirstSplit(reqs, end, n); }
  }

  lemma FirstSplit(reqs: nat, end: nat, n: nat)
    requires end <= n && FirstFrom(reqs, end, n).None?
    ensures FirstFrom(reqs, 0, n) == FirstFrom(reqs, 0, end)
  {
    hide Bit;
    var (a, b) := (FirstFrom(reqs, 0, n), FirstFrom(reqs, 0, end));
    assert a.Some? ==> Bit(reqs, a.value);
    assert b.Some? ==> Bit(reqs, b.value);
  }

  lemma MaskOf(c: Option<nat>, n: nat)
    requires c.Some? ==> c.value < n
    ensures MaskAfter(Word(c), n) == if c.Some? && c.value + 1 < n then Pow2(c.value + 1) else 0
  {
    hide Trunc;
    if c.None? { TruncSmall(0, n); }
    else if c.value + 1 < n {
      Pow2Monotone(c.value + 2, n);
      TruncSmall(Pow2(c.value + 1), n);
    } else {
      TruncIs(Pow2(n), n, 1, 0);
    }
  }

  class RoundRobinArbiter {
    const n: nat
    var mask: nat

    constructor (n: nat)
      ensures this.n == n && Remembers(mask, None, n)
    {
      this.n := n;
      mask := 0;
    }

    method Grant(reqs: nat, ghost last: Option<nat>) returns (grant: nat)
      requires Remembers(mask, last, n) && reqs < Pow2(n) && mask < Pow2(n)
      modifies this
      ensures grant == Word(Choice(last, reqs, n)) && Remembers(mask, Choice(last, reqs, n), n) && mask < Pow2(n)
    {
      RoundRobinExact(mask, last, reqs, n);
      hide Choice, Remembers, Trunc;
      grant := RoundRobinGrant(mask, reqs, n);
      mask := MaskAfter(grant, n);
    }
  }

  // ----- Fairness -------------------------------------------------------------------------

  /** How many positions the arbiter looks at before it comes to i. */
  function Distance(last: Option<nat>, i: nat, n: nat): nat
    requires i < n && (last.Some? ==> last.value < n)
  {
    var from := if Resume(last, n) == n then 0 else Resume(last, n);
    if i >= from then i - from else i + n - from
  }

  lemma GrantComesCloser(last: Option<nat>, reqs: nat, i: nat, n: nat)
    requires i < n && (last.Some? ==> last.value < n) && Bit(reqs, i)
    ensures var c := Choice(last, reqs, n);
      c.Some? && (c.value == i || Distance(c, i, n) < Distance(last, i, n))
  {
    hide Bit;
  }

  /** Grants over a sequence of request words. */
  function Grants(last: Option<nat>, reqs: seq<nat>, n: nat): (r: seq<Option<nat>>)
    requires last.Some? ==> last.value < n
    ensures |r| == |reqs|
    decreases |reqs|
  {
    if |reqs| == 0 then []
    else
      var c := Choice(last, reqs[0], n);
      [c] + Grants(c, reqs[1..], n)
  }

  lemma {:induction false} FairWithin(last: Option<nat>, reqs: seq<nat>, i: nat, held: nat, n: nat) returns (t: nat)
    requires i < n && (last.Some? ==> last.value < n) && Distance(last, i, n) < held <= |reqs|
    requires forall t :: 0 <= t < held ==> Bit(reqs[t], i)
    ensures t < held && Grants(last, reqs, n)[t] == Some(i)
    decreases held
  {
    GrantComesCloser(last, reqs[0], i, n);
    var c := Choice(last, reqs[0], n);
    hide Bit, Choice;
    if c == Some(i) {
      t := 0;
    } else {
      var u := FairWithin(c, reqs[1..], i, held - 1, n);
      t := u + 1;
    }
  }

  /** The grant words of the hardware over a sequence of request words. */
  function HardwareGrants(mask: nat, reqs: seq<nat>, n: nat): (r: seq<nat>)
    requires mask < Pow2(n) && forall t :: 0 <= t < |reqs| ==> reqs[t] < Pow2(n)
    ensures |r| == |reqs|
    decreases |reqs|
  {
    if |reqs| == 0 then []
    else
      var grant := RoundRobinGrant(mask, reqs[0], n);
      [grant] + HardwareGrants(MaskAfter(grant, n), reqs[1..], n)
  }

  /** The hardware fed with requests does what the loops do, cycle by cycle. */
  lemma {:induction false} HardwareGrantsExact(mask: nat, last: Option<nat>, reqs: seq<nat>, n: nat, t: nat)
    requires Remembers(mask, last, n) && mask < Pow2(n) && forall t :: 0 <= t < |reqs| ==> reqs[t] < Pow2(n)
    requires t < |reqs|
    ensures HardwareGrants(mask, reqs, n)[t] == Word(Grants(last, reqs, n)[t])
    decreases |reqs|
  {
    RoundRobinExact(mask, last, reqs[0], n);
    var (grant, c) := (RoundRobinGrant(mask, reqs[0], n), Choice(last, reqs[0], n));
    hide Remembers, RoundRobinGrant, Choice, MaskAfter, Pow2;
    if t > 0 { HardwareGrantsExact(MaskAfter(grant, n), c, reqs[1..], n, t - 1); }
  }

  /** Over every run of the hardware from reset, a request held for n cycles, from any
      cycle on, is granted within them, whoever else asks. */
  lemma Fair(reqs: seq<nat>, start: nat, i: nat, n: nat) returns (t: nat)
    requires i < n && start + n <= |reqs| && forall t :: 0 <= t < |reqs| ==> reqs[t] < Pow2(n)
    requires forall t :: start <= t < start + n ==> Bit(reqs[t], i)
    ensures start <= t < start + n && HardwareGrants(0, reqs, n)[t] == Pow2(i)
  {
    t := FairFrom(None, reqs, start, i, n);
    HardwareGrantsExact(0, None, reqs, n, t);
  }

  lemma {:induction false} FairFrom(last: Option<nat>, reqs: seq<nat>, start: nat, i: nat, n: nat) returns (t: nat)
    requires i < n && start + n <= |reqs| && (last.Some? ==> last.value < n)
    requires forall t :: start <= t < start + n ==> Bit(reqs[t], i)
    ensures start <= t < start + n && Grants(last, reqs, n)[t] == Some(i)
    decreases start
  {
    hide Bit, Choice;
    if start == 0 {
      t := FairWithin(last, reqs, i, n, n);
    } else {
      var u := FairFrom(Choice(last, reqs[0], n), reqs[1..], start - 1, i, n);
      t := u + 1;
    }
  }
}
