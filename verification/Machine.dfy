/** Fixed-width integers, Go's integer operators, and an option type. */
module Machine {

  type u8 = x: int | 0 <= x < 0x100
  type u16 = x: int | 0 <= x < 0x1_0000
  type u32 = x: int | 0 <= x < 0x1_0000_0000
  type u64 = x: int | 0 <= x < 0x1_0000_0000_0000_0000
  type i64 = x: int | -0x8000_0000_0000_0000 <= x < 0x8000_0000_0000_0000

  /** What buckets are numbered by: a span count since the epoch. */
  type BucketID = x: int | true

  datatype Option<+T> = None | Some(value: T)

  /** Go's integer division, which truncates toward zero. */
  function GoDiv(a: int, b: int): (q: int)
    requires b > 0
    ensures q >= 0 <==> a > -b
    ensures a >= 0 ==> q == a / b <= a
    ensures a < 0 ==> a <= q <= 0
  {
    QuotientAtMost(a, b);
    QuotientAtMost(-a, b);
    if a >= 0 then a / b else -((-a) / b)
  }

  function Abs(a: int): (n: nat) { if a < 0 then -a else a }

  /** Truncation: the quotient never overshoots, misses by less than one divisor, and keeps the sign. */
  lemma GoDivTruncates(a: int, b: int)
    requires b > 0
    ensures Abs(GoDiv(a, b)) * b <= Abs(a) < (Abs(GoDiv(a, b)) + 1) * b
    ensures (a >= 0 ==> GoDiv(a, b) >= 0) && (a <= 0 ==> GoDiv(a, b) <= 0)
  {
    var n := Abs(a);
    var q := n / b;
    QuotientAtMost(n, b);
    assert Abs(GoDiv(a, b)) == q;
    assert n == q * b + n % b;
    assert (q + 1) * b == q * b + b;
  }

  lemma QuotientAtMost(a: int, b: int)
    requires b > 0
    ensures a >= 0 ==> 0 <= a / b <= a
  {
    var q := a / b;
    assert a == q * b + a % b;
    MulGap(0, q, b);
    if q > 0 { MulAtLeast(b, q); }
  }

  /** A 64-bit two's complement result. */
  function WrapI64(n: int): (r: i64)
    ensures -0x8000_0000_0000_0000 <= n < 0x8000_0000_0000_0000 ==> r == n
  {
    (n + 0x8000_0000_0000_0000) % 0x1_0000_0000_0000_0000 - 0x8000_0000_0000_0000
  }

  /** The result differs by a multiple of 2^64; there is one such value in range. */
  lemma WrapI64Congruent(n: int)
    ensures (n - WrapI64(n)) % 0x1_0000_0000_0000_0000 == 0
  {
  }

  /** Wrapping twice on the way is the same as wrapping once at the end. */
  lemma WrapI64Add(a: int, b: int)
    ensures WrapI64(WrapI64(a) + b) == WrapI64(a + b)
  {
    var k := (a + 0x8000_0000_0000_0000) / 0x1_0000_0000_0000_0000;
    assert WrapI64(a) == a - k * 0x1_0000_0000_0000_0000;
  }

  /** The remainder after adding one. */
  lemma ModSucc(n: nat, p: nat)
    requires p > 0
    ensures (n + 1) / p == (if n % p == p - 1 then n / p + 1 else n / p)
    ensures (n + 1) % p == (if n % p == p - 1 then 0 else n % p + 1)
  {
    var q, r := n / p, n % p;
    assert n == q * p + r;
    if r == p - 1 {
      assert n + 1 == (q + 1) * p + 0 by { assert (q + 1) * p == q * p + p; }
      DivModUnique(n + 1, p, q + 1, 0);
    } else {
      DivModUnique(n + 1, p, q, r + 1);
    }
  }

  /** Quotient and remainder are determined by the division equation. */
  lemma DivModUnique(n: int, p: int, q: int, r: int)
    requires p > 0 && 0 <= r < p && n == q * p + r
    ensures n / p == q && n % p == r
  {
    var q', r' := n / p, n % p;
    assert n == q' * p + r';
    var d := q - q';
    assert d * p == r' - r by { assert d * p == q * p - q' * p; }
    if d != 0 {
      MulAtLeast(if d > 0 then d else -d, p);
      assert false;
    }
  }

  /** Two values agree modulo `m` when both lie in one period: the walk from i meets j after d. */
  lemma CongruentHits(i: int, j: int, n: int, m: int)
    requires m > 0 && 0 <= j < m
    ensures (i + n) % m == j <==> n % m == (j - i) % m
  {
    var k, e, f := (j - i) / m, n / m, (i + n) / m;
    var d := (j - i) % m;
    assert j - i == k * m + d && n == e * m + n % m && i + n == f * m + (i + n) % m;
    if n % m == d {
      assert i + n == (e - k) * m + j by { assert (e - k) * m == e * m - k * m; }
      DivModUnique(i + n, m, e - k, j);
    }
    if (i + n) % m == j {
      assert n == (f + k) * m + d by { assert (f + k) * m == f * m + k * m; }
      DivModUnique(n, m, f + k, d);
    }
  }

  lemma MulAtLeast(k: int, p: int)
    requires k >= 1 && p > 0
    ensures k * p >= p
  {
    assert k * p == (k - 1) * p + p;
  }

  /** How a floor-or-ceiling count grows by one exactly when the walk is at distance `d`. */
  lemma CountStep(n: nat, m: int, d: int)
    requires m > 0 && 0 <= d < m
    ensures (n + 1) / m + (if d < (n + 1) % m then 1 else 0)
         == n / m + (if d < n % m then 1 else 0) + (if n % m == d then 1 else 0)
  {
    ModSucc(n, m);
  }

  /** A larger factor gives a product larger by at least the other factor. */
  lemma MulGap(q: int, r: int, p: int)
    requires p > 0
    ensures q > r ==> q * p >= r * p + p
  {
    if q > r {
      MulAtLeast(q - r, p);
      assert (q - r) * p == q * p - r * p;
    }
  }

  lemma DivMonotone(a: int, b: int, p: int)
    requires a <= b && p > 0
    ensures a / p <= b / p
  {
    var q, r := a / p, b / p;
    assert a == q * p + a % p && b == r * p + b % p;
    MulGap(q, r, p);
  }

  /** Any element of a non-empty set. */
  lemma Pick<T>(s: set<T>) returns (x: T)
    requires s != {}
    ensures x in s
  {
    x :| x in s;
  }

  /** One more, before or after taking the remainder. */
  lemma ModPlusOne(x: nat, m: nat)
    requires m > 0
    ensures (x % m + 1) % m == (x + 1) % m
  {
    ModSucc(x, m);
    if x % m == m - 1 { DivModUnique(m, m, 1, 0); } else { DivModUnique(x % m + 1, m, 0, x % m + 1); }
  }
}
