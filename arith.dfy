/** Machine integer widths, powers of two, wrap-around addition and prefix
    sums, shared by the sequential and the OpenCL radix sort models. */
module Arith {

  const U32_LIMIT: nat := 0x1_0000_0000
  const U64_LIMIT: nat := 0x1_0000_0000_0000_0000

  /** `uint32_t` */
  type u32 = x: nat | x < U32_LIMIT

  /** `uint64_t` and `size_t` */
  type u64 = x: nat | x < U64_LIMIT

  /** 2^k; `x >> k` on an unsigned key is `x / Pow2(k)`. */
  function Pow2(k: nat): (p: nat)
    ensures p >= 1
  {
    if k == 0 then 1 else 2 * Pow2(k - 1)
  }

  lemma {:induction false} Pow2Add(a: nat, b: nat)
    ensures Pow2(a + b) == Pow2(a) * Pow2(b)
  {
    if b > 0 {
      Pow2Add(a, b - 1);
      calc {
        Pow2(a + b);
        2 * Pow2(a + b - 1);
        2 * (Pow2(a) * Pow2(b - 1));
        Pow2(a) * (2 * Pow2(b - 1));
        Pow2(a) * Pow2(b);
      }
    }
  }

  /** 2^64 bounds every `uint64_t`. */
  lemma Pow2Of64()
    ensures Pow2(64) == U64_LIMIT
  {
    assert Pow2(8) == 0x100;
    Pow2Add(8, 8);
    assert Pow2(16) == 0x1_0000;
    Pow2Add(16, 16);
    assert Pow2(32) == 0x1_0000_0000;
    Pow2Add(32, 32);
  }

  lemma {:induction false} Pow2Monotone(a: nat, b: nat)
    requires a <= b
    ensures Pow2(a) <= Pow2(b)
  {
    if a < b {
      Pow2Monotone(a, b - 1);
    }
  }

  lemma MulMonotone(a: int, b: int, m: nat)
    requires a <= b
    ensures a * m <= b * m
  {
    assert b * m - a * m == (b - a) * m;
  }

  /** One more copy of `x`. */
  lemma MulSucc(p: int, x: int)
    ensures p * x + x == (p + 1) * x
  {
  }

  /** A smaller high digit in base `m` gives a smaller number, whatever the
      digits below. */
  lemma PlaceOrder(a: nat, b: nat, r: nat, t: nat, m: nat)
    requires a < b && r < m
    ensures a * m + r < b * m + t
  {
    MulMonotone(a + 1, b, m);
    assert (a + 1) * m == a * m + m;
  }

  /** The quotient and remainder of Euclidean division are unique. */
  lemma DivModUnique(x: int, m: int, q: int, r: int)
    requires m > 0 && 0 <= r < m && x == q * m + r
    ensures x / m == q && x % m == r
  {
    var q0, r0 := x / m, x % m;
    assert x == q0 * m + r0;
    if q0 < q {
      MulMonotone(q0 + 1, q, m);
      assert false;
    } else if q < q0 {
      MulMonotone(q + 1, q0, m);
      assert false;
    }
  }

  /** Splitting the low bits of `x` below `a * b` into a digit in base `b`
      above `a` and the bits below `a`. */
  lemma ModSplit(x: nat, a: nat, b: nat)
    requires a > 0 && b > 0
    ensures x % (a * b) == ((x / a) % b) * a + x % a
  {
    var q, r := x / a, x % a;
    var q2, r2 := q / b, q % b;
    assert x == q * a + r;
    assert q == q2 * b + r2;
    var low := r2 * a + r;
    calc {
      x;
      (q2 * b + r2) * a + r;
      q2 * (a * b) + low;
    }
    MulMonotone(r2, b - 1, a);
    assert (b - 1) * a == a * b - a;
    assert 0 <= low < a * b;
    DivModUnique(x, a * b, q2, low);
  }

  /** Reducing a partial sum modulo `m` before adding the next term does not
      change the result modulo `m`. */
  lemma AddModLeft(a: int, b: int, m: int)
    requires m > 0
    ensures (a % m + b) % m == (a + b) % m
  {
    var q := a / m;
    assert a == q * m + a % m;
    var c := a % m + b;
    DivModUnique(a + b, m, q + c / m, c % m);
  }

  lemma ModSmall(x: int, m: int)
    requires 0 <= x < m
    ensures x % m == x
  {
    DivModUnique(x, m, 0, x);
  }

  /** A running sum that agrees modulo `m` with another keeps agreeing when
      both add the same term, one of them reduced modulo `m` first. */
  lemma AddModStep(p: int, s: int, t: int, m: int)
    requires m > 0 && p % m == s % m
    ensures (p + t % m) % m == (s + t) % m
  {
    AddModLeft(t, p, m);
    AddModLeft(p, t, m);
    AddModLeft(s, t, m);
  }

  /** Addition of two `uint32_t` values, which wraps modulo 2^32. */
  function Add32(a: u32, b: u32): (r: u32)
    ensures a + b < U32_LIMIT ==> r == a + b
    ensures a + b >= U32_LIMIT ==> r == a + b - U32_LIMIT
  {
    (a + b) % U32_LIMIT
  }

  /** The sum h[0] + ... + h[b-1]. */
  function PrefixSum(h: seq<nat>, b: nat): nat
    requires b <= |h|
  {
    if b == 0 then 0 else PrefixSum(h, b - 1) + h[b - 1]
  }

  lemma {:induction false} PrefixSumMonotone(h: seq<nat>, a: nat, b: nat)
    requires a <= b <= |h|
    ensures PrefixSum(h, a) <= PrefixSum(h, b)
  {
    if a < b {
      PrefixSumMonotone(h, a, b - 1);
    }
  }

  /** A prefix sum of values below `bound` stays below `b * bound`. */
  lemma {:induction false} PrefixSumBound(h: seq<nat>, b: nat, bound: nat)
    requires b <= |h|
    requires forall k :: 0 <= k < |h| ==> h[k] < bound
    ensures PrefixSum(h, b) <= b * (bound - 1)
  {
    if b > 0 {
      PrefixSumBound(h, b - 1, bound);
    }
  }
}
