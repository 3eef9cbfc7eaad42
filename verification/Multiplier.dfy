/** The pipelined multiplier's arithmetic: magnitudes multiplied k bits at a time, one
    partial product a stage, the sign put back at the end. */
module Multiplier {
  import opened Words

  datatype Config = Config(m: nat, nstages: nat, keepUpper: bool, useMul: bool) {
    predicate Ok() { m > 0 && nstages > 0 && m % nstages == 0 }

    /** Bits of the second operand a stage consumes. */
    function K(): nat
      requires Ok()
    {
      m / nstages
    }

    /** Width of the product registers. */
    function Plen(): nat { if keepUpper then 2 * m else m }
  }

  datatype Call = Call(src1: nat, src2: nat, signed1: bool, signed2: bool) {
    predicate Fits(m: nat) { src1 < Pow2(m) && src2 < Pow2(m) }
  }

  datatype Work = Work(val: nat, src1: nat, src2: nat, sign: bool)

  // ----- The combinational unit -----------------------------------------------------------

  /** The shift-add chain after j bits of b. */
  function ShiftAdd(a: nat, b: nat, resLen: nat, plen: nat, j: nat): nat {
    if j == 0 then 0
    else
      var t := ShiftAdd(a, b, resLen, plen, j - 1);
      if (b / Pow2(j - 1)) % 2 == 1 then Trunc(t + Trunc(Trunc(a, plen) * Pow2(j - 1), plen), resLen) else t
  }

  function Unit(useMul: bool, m: nat, k: nat, plen: nat, a: nat, b: nat): nat {
    Trunc(if useMul then Trunc(a * b, m + k) else ShiftAdd(a, b, m + k, plen, k), plen)
  }

  /** Cutting a word in two. */
  lemma SplitWord(b: nat, p: nat, q: nat)
    requires p > 0 && q > 0
    ensures p * q > 0 && b % (p * q) == b % p + ((b / p) % q) * p && b / (p * q) == (b / p) / q
  {
    var (x, lo) := (b / p, b % p);
    var (y, z) := (x / q, x % q);
    assert b == x * p + lo && x == y * q + z && 0 <= lo < p && 0 <= z < q;
    SplitParts(b, p, q, x, lo, y, z);
    ModIs(b, p * q, y, z * p + lo);
  }

  lemma SplitParts(b: nat, p: nat, q: nat, x: int, lo: int, y: int, z: int)
    requires p > 0 && q > 0 && b == x * p + lo && x == y * q + z && 0 <= lo < p && 0 <= z < q
    ensures p * q > 0 && 0 <= z * p + lo < p * q && b == y * (p * q) + (z * p + lo)
  {
    Regrouped(y, q, z, p);
    MultipleAtLeast(q, p);
    MultipleAtLeast(q - z, p);
    DistributeMinus(p, q, z);
    if z > 0 { MultipleAtLeast(z, p); }
  }

  lemma Regrouped(y: int, q: int, z: int, p: int)
    ensures (y * q + z) * p == y * (p * q) + z * p
  {
  }

  lemma {:induction false} ShiftAddExact(a: nat, b: nat, resLen: nat, plen: nat, len: nat, j: nat)
    requires len <= plen && len <= resLen
    ensures Trunc(ShiftAdd(a, b, resLen, plen, j), len) == Trunc(a * (b % Pow2(j)), len)
  {
    if j == 0 {
      assert b % 1 == 0 && a * 0 == 0;
    } else {
      var (p, t, lo) := (Pow2(j - 1), ShiftAdd(a, b, resLen, plen, j - 1), b % Pow2(j - 1));
      ShiftAddExact(a, b, resLen, plen, len, j - 1);
      SplitWord(b, p, 2);
      assert b % Pow2(j) == lo + ((b / p) % 2) * p;
      if (b / p) % 2 == 1 { ShiftAddBit(a, p, t, lo, resLen, plen, len); }
    }
  }

  lemma ShiftAddBit(a: nat, p: nat, t: nat, lo: nat, resLen: nat, plen: nat, len: nat)
    requires len <= plen && len <= resLen && Trunc(t, len) == Trunc(a * lo, len)
    ensures Trunc(Trunc(t + Trunc(Trunc(a, plen) * p, plen), resLen), len) == Trunc(a * (lo + 1 * p), len)
  {
    hide Trunc;
    var x := Trunc(Trunc(a, plen) * p, plen);
    TruncTrunc(t + x, resLen, len);
    TruncTrunc(Trunc(a, plen) * p, plen, len);
    TruncTrunc(a, plen, len);
    TruncProduct(Trunc(a, plen), a, p, len);
    TruncSum(t, a * lo, x, a * p, len);
    Distribute(a, lo, p);
  }

  lemma Distribute(a: int, x: int, y: int)
    ensures a * (x + 1 * y) == a * x + a * y
  {
  }

  lemma ProductFits(a: nat, b: nat, m: nat, k: nat)
    requires a < Pow2(m) && b < Pow2(k)
    ensures a * b < Pow2(m + k)
  {
    Pow2Add(m, k);
    var (p, q) := (Pow2(m), Pow2(k));
    hide *;
    ProductBelow(a, b, p, q);
  }

  lemma ProductBelow(a: nat, b: nat, p: nat, q: nat)
    requires a < p && b < q
    ensures a * b < p * q
  {
    DistributeMinus(a, q, b);
    MultipleAtLeast(q - b, a);
    DistributeMinus(q, p, a);
    MultipleAtLeast(p - a, q);
  }

  lemma DistributeMinus(a: int, x: int, y: int)
    ensures (x - y) * a == a * x - a * y
  {
  }

  /** Either unit multiplies, on the width of the product registers. */
  lemma UnitExact(useMul: bool, m: nat, k: nat, plen: nat, a: nat, b: nat)
    requires a < Pow2(m) && b < Pow2(k) && (plen == m || plen >= m + k)
    ensures Unit(useMul, m, k, plen, a, b) == Trunc(a * b, plen)
  {
    hide Trunc, ShiftAdd, Pow2;
    var t := ShiftAdd(a, b, m + k, plen, k);
    ProductFits(a, b, m, k);
    TruncSmall(a * b, m + k);
    if !useMul {
      ShiftAddAll(a, b, k, m + k, plen, if plen <= m + k then plen else m + k);
      ShiftAddSmall(a, b, m + k, plen, k);
      TruncSmall(t, m + k);
    }
  }

  lemma ShiftAddAll(a: nat, b: nat, k: nat, resLen: nat, plen: nat, len: nat)
    requires b < Pow2(k) && len <= plen && len <= resLen
    ensures Trunc(ShiftAdd(a, b, resLen, plen, k), len) == Trunc(a * b, len)
  {
    hide Trunc, ShiftAdd;
    ModIs(b, Pow2(k), 0, b);
    ShiftAddExact(a, b, resLen, plen, len, k);
  }

  lemma {:induction false} ShiftAddSmall(a: nat, b: nat, resLen: nat, plen: nat, j: nat)
    ensures ShiftAdd(a, b, resLen, plen, j) < Pow2(resLen)
  {
    if j > 0 { ShiftAddSmall(a, b, resLen, plen, j - 1); }
  }

  // ----- Stages -------------------------------------------------------------------------

  function A(c: Config, call: Call): nat
    requires c.Ok() && call.Fits(c.m)
  {
    Magnitude(call.src1, call.signed1, c.m)
  }

  function B(c: Config, call: Call): nat
    requires c.Ok() && call.Fits(c.m)
  {
    Magnitude(call.src2, call.signed2, c.m)
  }

  function SignIn(c: Config, call: Call): bool
    requires c.Ok()
  {
    (call.signed1 && Top(call.src1, c.m)) != (call.signed2 && Top(call.src2, c.m))
  }

  function Signed(c: Config, i: nat, val: nat, sign: bool): nat {
    if i + 1 == c.nstages && sign then Trunc(0 - val, c.Plen()) else val
  }

  /** What the first stage registers of a call. */
  function First(c: Config, call: Call): Work
    requires c.Ok() && call.Fits(c.m)
  {
    var (a, b, k) := (A(c, call), B(c, call), c.K());
    var val := Unit(c.useMul, c.m, k, c.Plen(), a, Trunc(b, k));
    Work(Signed(c, 0, val, SignIn(c, call)), a, Shr(b, k), SignIn(c, call))
  }

  /** What stage i registers of stage i - 1. */
  function Advance(c: Config, i: nat, w: Work): Work
    requires c.Ok()
  {
    var k := c.K();
    var part := Trunc(Unit(c.useMul, c.m, k, c.Plen(), w.src1, Trunc(w.src2, k)) * Pow2(k * i), c.Plen());
    Work(Signed(c, i, Trunc(w.val + part, c.Plen()), w.sign), w.src1, Shr(w.src2, k), w.sign)
  }

  function WorkAt(c: Config, call: Call, i: nat): Work
    requires c.Ok() && call.Fits(c.m)
  {
    if i == 0 then First(c, call) else Advance(c, i, WorkAt(c, call, i - 1))
  }

  /** After stage i: the product with the low k(i+1) bits of the second magnitude. */
  ghost predicate Exact(c: Config, call: Call, i: nat, w: Work)
    requires c.Ok() && call.Fits(c.m)
  {
    var (a, b, s) := (A(c, call), B(c, call), c.K() * (i + 1));
    && w.src1 == a && w.src2 == Shr(b, s) && w.sign == SignIn(c, call)
    && w.val == Signed(c, i, Trunc(a * Trunc(b, s), c.Plen()), w.sign)
  }

  lemma Widths(c: Config)
    requires c.Ok()
    ensures 0 < c.K() <= c.m && c.K() * c.nstages == c.m && (c.Plen() == c.m || c.Plen() >= c.m + c.K())
  {
    var (m, n) := (c.m, c.nstages);
    assert m == (m / n) * n;
    assert c.K() != 0;
    MultipleAtLeast(n, c.K());
  }

  lemma FirstExact(c: Config, call: Call)
    requires c.Ok() && call.Fits(c.m)
    ensures Exact(c, call, 0, First(c, call))
  {
    Widths(c);
    var (a, b, k) := (A(c, call), B(c, call), c.K());
    hide Trunc, Magnitude, Pow2, Shr, Unit;
    UnitExact(c.useMul, c.m, k, c.Plen(), a, Trunc(b, k));
  }

  /** One more partial product: a * (lo + d * p) from a * lo and a * d. */
  lemma PartialSum(a: nat, lo: nat, d: nat, p: nat, plen: nat)
    ensures Trunc(Trunc(a * lo, plen) + Trunc(Trunc(a * d, plen) * p, plen), plen) == Trunc(a * (lo + d * p), plen)
  {
    hide Trunc;
    var x := Trunc(a * d, plen) * p;
    TruncTrunc(x, plen, plen);
    TruncTrunc(a * lo, plen, plen);
    TruncMul(a * d, p, plen);
    TruncSum(Trunc(a * lo, plen), a * lo, Trunc(x, plen), (a * d) * p, plen);
    assert a * (lo + d * p) == a * lo + (a * d) * p by { Spread(a, lo, d, p); }
  }

  lemma Spread(a: int, x: int, d: int, p: int)
    ensures a * (x + d * p) == a * x + (a * d) * p
  {
    assert a * (d * p) == (a * d) * p;
  }

  lemma AdvanceExact(c: Config, call: Call, i: nat, w: Work)
    requires c.Ok() && call.Fits(c.m) && 0 < i < c.nstages && Exact(c, call, i - 1, w)
    ensures Exact(c, call, i, Advance(c, i, w))
  {
    Widths(c);
    var (a, b, k) := (A(c, call), B(c, call), c.K());
    assert k * i + k == k * (i + 1);
    NextSlice(b, k * i, k);
    hide Trunc, Magnitude, Pow2, Shr, Unit;
    var d := Trunc(Shr(b, k * i), k);
    UnitExact(c.useMul, c.m, k, c.Plen(), a, d);
    PartialSum(a, Trunc(b, k * i), d, Pow2(k * i), c.Plen());
  }

  /** The next k bits of b. */
  lemma NextSlice(b: nat, s: nat, k: nat)
    ensures Trunc(b, s + k) == Trunc(b, s) + Trunc(Shr(b, s), k) * Pow2(s)
    ensures Shr(b, s + k) == Shr(Shr(b, s), k)
  {
    Pow2Add(s, k);
    SplitWord(b, Pow2(s), Pow2(k));
  }

  lemma {:induction false} WorkExact(c: Config, call: Call, i: nat)
    requires c.Ok() && call.Fits(c.m) && i < c.nstages
    ensures Exact(c, call, i, WorkAt(c, call, i))
  {
    hide Exact, First, Advance;
    if i == 0 {
      FirstExact(c, call);
    } else {
      WorkExact(c, call, i - 1);
      AdvanceExact(c, call, i, WorkAt(c, call, i - 1));
    }
  }

  function Product(c: Config, call: Call): int
    requires c.Ok() && call.Fits(c.m)
  {
    Operand(call.src1, call.signed1, c.m) * Operand(call.src2, call.signed2, c.m)
  }

  lemma SignedProduct(x: int, y: int)
    ensures (if (x < 0) != (y < 0) then 0 - Abs(x) * Abs(y) else Abs(x) * Abs(y)) == x * y
  {
    assert (0 - x) * y == 0 - x * y && x * (0 - y) == 0 - x * y && (0 - x) * (0 - y) == x * y;
  }

  /** The last stage holds the exact product, on the width kept, for every sign mode. */
  lemma ProductExact(c: Config, call: Call)
    requires c.Ok() && call.Fits(c.m)
    ensures WorkAt(c, call, c.nstages - 1).val == Trunc(Product(c, call), c.Plen())
  {
    var (a, b, last) := (A(c, call), B(c, call), c.nstages - 1);
    var (x, y) := (Operand(call.src1, call.signed1, c.m), Operand(call.src2, call.signed2, c.m));
    WorkExact(c, call, last);
    Widths(c);
    TruncSmall(b, c.m);
    MagnitudeExact(call.src1, call.signed1, c.m);
    MagnitudeExact(call.src2, call.signed2, c.m);
    SignedProduct(x, y);
    hide Trunc, WorkAt, Magnitude, Operand, Pow2;
    NegateTrunc(a * b, c.Plen());
  }

  lemma NegateTrunc(x: int, n: nat)
    ensures Trunc(0 - Trunc(x, n), n) == Trunc(0 - x, n)
  {
    hide Trunc;
    TruncMul(x, -1, n);
    assert Trunc(x, n) * -1 == 0 - Trunc(x, n) && x * -1 == 0 - x;
  }
}
