/** Bit-level arithmetic on non-negative integers that the ring channel relies on:
    the `&` of a cursor with the slot mask, `Integer.bitCount`, and powers of two. */
module Bits {

  /** 2 to the power k. */
  function Pow2(k: nat): (r: nat)
    ensures r >= 1
  {
    if k == 0 then 1 else 2 * Pow2(k - 1)
  }

  /** n is 2^k for some k. */
  ghost predicate IsPowerOfTwo(n: nat)
  {
    exists k: nat :: Pow2(k) == n
  }

  /** Bitwise AND of two non-negative integers, bit by bit from the least significant one.
      The result never exceeds either operand. */
  function BitAnd(a: nat, b: nat): (r: nat)
    ensures r <= a && r <= b
    decreases a
  {
    if a == 0 || b == 0 then 0
    else 2 * BitAnd(a / 2, b / 2) + (if a % 2 == 1 && b % 2 == 1 then 1 else 0)
  }

  /** Number of one bits of n, as Java's `Integer.bitCount` computes it for n >= 0. */
  function BitCount(n: nat): (r: nat)
    ensures r <= n
    ensures r == 0 <==> n == 0
  {
    if n == 0 then 0 else n % 2 + BitCount(n / 2)
  }

  /** A power of two has exactly one bit set. */
  lemma {:induction false} BitCountOfPow2(k: nat)
    ensures BitCount(Pow2(k)) == 1
  {
    if k > 0 {
      BitCountOfPow2(k - 1);
      assert Pow2(k) / 2 == Pow2(k - 1);
    }
  }

  /** A number with exactly one bit set is a power of two. */
  lemma {:induction false} OneBitIsPow2(n: nat)
    requires BitCount(n) == 1
    ensures IsPowerOfTwo(n)
  {
    if n % 2 == 1 {
      assert BitCount(n / 2) == 0;
      assert n == 1 && Pow2(0) == n;
    } else {
      OneBitIsPow2(n / 2);
      var k: nat :| Pow2(k) == n / 2;
      assert Pow2(k + 1) == n;
    }
  }

  /** `Integer.bitCount(n) == 1` holds exactly when n is a power of two. */
  lemma BitCountOneIffPowerOfTwo(n: nat)
    ensures BitCount(n) == 1 <==> IsPowerOfTwo(n)
  {
    if BitCount(n) == 1 {
      OneBitIsPow2(n);
    }
    if IsPowerOfTwo(n) {
      var k: nat :| Pow2(k) == n;
      BitCountOfPow2(k);
    }
  }

  /** x % d is the r of any decomposition x == d * q + r with 0 <= r < d. */
  lemma ModOfDecomposition(x: nat, d: nat, q: nat, r: nat)
    requires d > 0 && r < d && x == d * q + r
    ensures x % d == r
  {
    var q', r' := x / d, x % d;
    assert x == d * q' + r';
    if q' < q {
      MulSucc(d, q');
      MulMonotone(d, q' + 1, q);
    } else if q' > q {
      MulSucc(d, q);
      MulMonotone(d, q + 1, q');
    }
  }

  lemma MulSucc(d: nat, a: nat)
    ensures d * (a + 1) == d * a + d
  {
  }

  lemma MulMonotone(d: nat, a: nat, b: nat)
    requires a <= b
    ensures d * a <= d * b
  {
    assert d * b == d * a + d * (b - a);
  }

  /** The quotient-remainder decomposition Dafny's `/` and `%` satisfy. */
  lemma DivMod(x: nat, d: nat)
    requires d > 0
    ensures x == d * (x / d) + x % d && x % d < d
  {
  }

  /** Two numbers less than d apart differ modulo d. */
  lemma ModDistinct(p: nat, q: nat, d: nat)
    requires p < q < p + d
    ensures p % d != q % d
  {
    var a, x := p / d, p % d;
    var y := x + (q - p);
    assert q == d * a + y by {
      DivMod(p, d);
    }
    if y < d {
      ModOfDecomposition(q, d, a, y);
    } else {
      ModWrap(q, d, a, y - d);
    }
  }

  /** x % d == r when x == d * q + (d + r) and r < d. */
  lemma ModWrap(x: nat, d: nat, q: nat, r: nat)
    requires r < d && x == d * q + (d + r)
    ensures x % d == r
  {
    MulSucc(d, q);
    ModOfDecomposition(x, d, q + 1, r);
  }

  /** Dropping the low bit of x, reducing modulo m and putting the bit back reduces modulo 2m. */
  lemma ModOfHalf(x: nat, m: nat, n: nat)
    requires m > 0 && n == 2 * m
    ensures 2 * ((x / 2) % m) + x % 2 == x % n
  {
    var h := x / 2;
    var t, u := h / m, h % m;
    DivMod(h, m);
    MulAssoc2(m, t);
    ModOfDecomposition(x, n, t, 2 * u + x % 2);
  }

  lemma MulAssoc2(m: nat, t: nat)
    ensures 2 * (m * t) == (2 * m) * t
  {
  }

  /** The low bit of an odd mask lets the low bit of a through. */
  lemma BitAndOddMask(a: nat, b: nat)
    requires a > 0 && b % 2 == 1
    ensures BitAnd(a, b) == 2 * BitAnd(a / 2, b / 2) + a % 2
  {
  }

  /** 2h - 1 is odd and halves to h - 1. */
  lemma OddHalves(h: nat)
    requires h >= 1
    ensures (2 * h - 1) % 2 == 1 && (2 * h - 1) / 2 == h - 1
  {
  }

  /** One induction step of the mask property: from the higher bits to all of them. */
  lemma MaskStep(c: nat, half: nat, full: nat)
    requires c > 0 && half >= 1 && full == 2 * half
    requires BitAnd(c / 2, half - 1) == (c / 2) % half
    ensures BitAnd(c, full - 1) == c % full
  {
    OddHalves(half);
    BitAndOddMask(c, full - 1);
    ModOfHalf(c, half, full);
  }

  /** Masking with 2^k - 1 keeps the k low bits: `c & (2^k - 1) == c % 2^k`. */
  lemma {:induction false} MaskIsMod(c: nat, k: nat)
    ensures BitAnd(c, Pow2(k) - 1) == c % Pow2(k)
  {
    if k > 0 && c > 0 {
      MaskIsMod(c / 2, k - 1);
      MaskStep(c, Pow2(k - 1), Pow2(k));
    } else if c == 0 {
      ModOfDecomposition(0, Pow2(k), 0, 0);
    } else {
      ModOfDecomposition(c, 1, c, 0);
    }
  }

  /** The mask property for any power of two n. */
  lemma MaskIsModPowerOfTwo(c: nat, n: nat)
    requires IsPowerOfTwo(n)
    ensures n >= 1 && BitAnd(c, n - 1) == c % n
  {
    var k: nat :| Pow2(k) == n;
    MaskIsMod(c, k);
  }
}
