/** Machine words as naturals below a power of two. */
module Words {

  function Pow2(n: nat): (p: nat)
    ensures p > 0
  {
    if n == 0 then 1 else 2 * Pow2(n - 1)
  }

  lemma {:induction false} Pow2Add(a: nat, b: nat)
    ensures Pow2(a + b) == Pow2(a) * Pow2(b)
  {
    if a > 0 {
      Pow2Add(a - 1, b);
      var (x, y) := (Pow2(a - 1), Pow2(b));
      assert Pow2(a) == 2 * x && Pow2(a + b) == 2 * (x * y);
      hide *;
      Doubled(x, y);
    }
  }

  lemma Doubled(x: int, y: int)
    ensures 2 * (x * y) == (2 * x) * y
  {
  }

  lemma Pow2Monotone(a: nat, b: nat)
    requires a <= b
    ensures Pow2(a) <= Pow2(b)
    decreases b - a
  {
    if a < b { Pow2Monotone(a + 1, b); }
  }

  /** What a register of 2^n values keeps of an integer. */
  function Trunc(x: int, n: nat): (r: nat)
    ensures r < Pow2(n)
  {
    x % Pow2(n)
  }

  /** Logical shift right. */
  function Shr(x: nat, n: nat): (r: nat)
    ensures r == x / Pow2(n)
  {
    QuotientNat(x, Pow2(n));
    x / Pow2(n)
  }

  lemma QuotientNat(x: nat, m: nat)
    requires m > 0
    ensures x / m >= 0
  {
    if x / m < 0 { MultipleAtLeast(x / m, m); }
  }

  lemma MultipleAtLeast(d: int, m: nat)
    ensures d >= 1 ==> d * m >= m
    ensures d <= -1 ==> d * m <= 0 - m
  {
    if d >= 1 { assert (d - 1) * m >= 0; }
    if d <= -1 { assert (d + 1) * m <= 0; }
  }

  lemma ModIs(x: int, m: nat, k: int, r: nat)
    requires m > 0 && x == k * m + r && r < m
    ensures x % m == r && x / m == k
  {
    var (q, e) := (x / m, x % m);
    assert q * m + e == x && 0 <= e < m;
    assert (q - k) * m == q * m - k * m;
    MultipleAtLeast(q - k, m);
  }

  lemma TruncIs(x: int, n: nat, k: int, r: nat)
    requires x == k * Pow2(n) + r && r < Pow2(n)
    ensures Trunc(x, n) == r
  {
    ModIs(x, Pow2(n), k, r);
  }

  lemma TruncSmall(x: nat, n: nat)
    requires x < Pow2(n)
    ensures Trunc(x, n) == x
  {
    TruncIs(x, n, 0, x);
  }

  /** Truncation only depends on the value up to multiples of 2^n. */
  lemma TruncShift(x: int, n: nat, k: int)
    ensures Trunc(x + k * Pow2(n), n) == Trunc(x, n)
  {
    var (m, q) := (Pow2(n), x / Pow2(n));
    assert x == q * m + Trunc(x, n);
    assert (q + k) * m == q * m + k * m;
    TruncIs(x + k * m, n, q + k, Trunc(x, n));
  }

  /** Truncating early changes nothing. */
  lemma TruncAdd(x: int, y: int, n: nat)
    ensures Trunc(Trunc(x, n) + y, n) == Trunc(x + y, n)
  {
    TruncShift(Trunc(x, n) + y, n, x / Pow2(n));
  }

  /** Truncating through a wider register changes nothing. */
  lemma TruncTrunc(x: int, n: nat, w: nat)
    requires w <= n
    ensures Trunc(Trunc(x, n), w) == Trunc(x, w)
  {
    var k := x / Pow2(n);
    Pow2Add(n - w, w);
    assert x == k * Pow2(n) + Trunc(x, n);
    assert k * (Pow2(n - w) * Pow2(w)) == (k * Pow2(n - w)) * Pow2(w);
    TruncShift(Trunc(x, n), w, k * Pow2(n - w));
  }

  /** Two's complement reading of an n-bit word. */
  function ToSigned(x: nat, n: nat): (v: int)
    requires n > 0 && x < Pow2(n)
    ensures 0 - Pow2(n - 1) <= v < Pow2(n - 1) && Trunc(v, n) == x
  {
    if x < Pow2(n - 1) then TruncSmall(x, n); x
    else TruncIs(x - Pow2(n), n, -1, x); x - Pow2(n)
  }

  /** `~x + 1` on n bits. */
  function Negate(x: nat, n: nat): (r: nat)
    requires x < Pow2(n)
    ensures r < Pow2(n) && r == Trunc(0 - x, n)
  {
    var r := Trunc(Pow2(n) - 1 - x + 1, n);
    TruncShift(0 - x, n, 1);
    r
  }

  /** Copying the top bit of a w-bit word upward. */
  function SignExtend(x: nat, w: nat, n: nat): (r: nat)
    requires 0 < w <= n && x < Pow2(w)
    ensures r < Pow2(n) && r == Trunc(ToSigned(x, w), n)
  {
    Pow2Monotone(w, n);
    if x < Pow2(w - 1) then TruncSmall(x, n); x
    else
      TruncIs(x - Pow2(w), n, -1, Pow2(n) - Pow2(w) + x);
      Pow2(n) - Pow2(w) + x
  }

  lemma SignExtendExact(x: nat, w: nat, n: nat)
    requires 0 < w <= n && x < Pow2(w)
    ensures ToSigned(SignExtend(x, w, n), n) == ToSigned(x, w)
  {
    Pow2Monotone(w - 1, n - 1);
  }

  // ----- Operands by magnitude ------------------------------------------------------------

  function Abs(x: int): nat { if x < 0 then 0 - x else x }

  function Top(x: nat, n: nat): bool
    requires n > 0
  {
    x >= Pow2(n - 1)
  }

  function Magnitude(x: nat, signed: bool, n: nat): (r: nat)
    requires n > 0 && x < Pow2(n)
    ensures r < Pow2(n)
  {
    if signed && Top(x, n) then Negate(x, n) else x
  }

  function Operand(x: nat, signed: bool, n: nat): int
    requires n > 0 && x < Pow2(n)
  {
    if signed then ToSigned(x, n) else x
  }

  lemma MagnitudeExact(x: nat, signed: bool, n: nat)
    requires n > 0 && x < Pow2(n)
    ensures Magnitude(x, signed, n) == Abs(Operand(x, signed, n))
    ensures signed && Top(x, n) <==> Operand(x, signed, n) < 0
  {
    if signed && Top(x, n) {
      hide Trunc;
      TruncIs(0 - x, n, -1, Pow2(n) - x);
    }
  }

  lemma TruncMul(x: int, y: int, n: nat)
    ensures Trunc(Trunc(x, n) * y, n) == Trunc(x * y, n)
  {
    var (m, q) := (Pow2(n), x / Pow2(n));
    assert x == q * m + Trunc(x, n);
    assert (q * m + Trunc(x, n)) * y == (q * y) * m + Trunc(x, n) * y;
    TruncShift(Trunc(x, n) * y, n, q * y);
  }

  lemma TruncSum(x: int, x': int, y: int, y': int, n: nat)
    requires Trunc(x, n) == Trunc(x', n) && Trunc(y, n) == Trunc(y', n)
    ensures Trunc(x + y, n) == Trunc(x' + y', n)
  {
    hide Trunc;
    TruncAdd(x, y, n);
    TruncAdd(x', y, n);
    TruncAdd(y, x', n);
    TruncAdd(y', x', n);
  }

  lemma TruncProduct(x: int, x': int, y: int, n: nat)
    requires Trunc(x, n) == Trunc(x', n)
    ensures Trunc(x * y, n) == Trunc(x' * y, n)
  {
    hide Trunc;
    TruncMul(x, y, n);
    TruncMul(x', y, n);
  }
}
