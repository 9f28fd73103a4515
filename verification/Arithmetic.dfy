/** Division facts that the solver does not find by itself. */
module Arithmetic {

  lemma ProductAtLeast(k: int, d: int)
    requires d > 0
    ensures k >= 1 ==> k * d >= d
    ensures k <= -1 ==> k * d <= -d
  { }

  lemma Scale(x: int, y: int, k: nat)
    requires x <= y
    ensures x * k <= y * k
  { }

  lemma SplitUnique(d: int, q: int, r: int, q': int, r': int)
    requires 0 <= r < d && 0 <= r' < d && q * d + r == q' * d + r'
    ensures q == q' && r == r'
  {
    assert (q - q') * d == r' - r;
    ProductAtLeast(q - q', d);
  }

  /** Quotient and remainder are determined by n == q * d + r with 0 <= r < d. */
  lemma DivModUnique(n: int, d: int, q: int, r: int)
    requires d > 0 && 0 <= r < d && n == q * d + r
    ensures n / d == q && n % d == r
  {
    assert n == (n / d) * d + n % d;
    SplitUnique(d, q, r, n / d, n % d);
  }

  lemma Quotient(n: int, d: int)
    requires d > 0
    ensures n == n / d * d + n % d && (n >= 0 ==> n / d >= 0)
  {
    ProductAtLeast(n / d, d);
  }

  lemma TwoDigits(q: nat, r: nat, q': nat, r': nat, a: nat, b: nat)
    requires q == q' * b + r' && r < a && r' < b
    ensures a * b > 0 && q * a + r == q' * (a * b) + (r' * a + r) && r' * a + r < a * b
  {
    assert q * a == q' * b * a + r' * a;
    Associative(q', b, a);
    ProductAtLeast(b - r', a);
    assert (b - r') * a == b * a - r' * a;
  }

  /** floor(floor(n / a) / b) == floor(n / (a * b)). */
  lemma DivDiv(n: nat, a: nat, b: nat)
    requires a > 0 && b > 0
    ensures a * b > 0 && n / a / b == n / (a * b)
  {
    var q, r := n / a, n % a;
    assert n == q * a + r;
    TwoDigits(q, r, q / b, q % b, a, b) by { assert q == (q / b) * b + q % b; }
    DivModUnique(n, a * b, q / b, q % b * a + r);
  }

  /** Adding a multiple of the divisor adds to the quotient and leaves the remainder. */
  lemma DivAddMultiple(n: int, d: int, k: int)
    requires d > 0
    ensures (k * d + n) / d == k + n / d && (k * d + n) % d == n % d
  {
    assert n == (n / d) * d + n % d;
    assert k * d + (n / d) * d == (k + n / d) * d;
    DivModUnique(k * d + n, d, k + n / d, n % d);
  }

  lemma Associative(x: int, y: int, z: int)
    ensures x * y * z == x * (y * z)
  { }

  /** Dividing block count and offset by a divisor of the block size. */
  lemma FineDivision(i: nat, off: nat, m: nat, d: nat)
    requires m > 0 && d > 0
    ensures i * (m * d) / d + off / d == (i * (m * d) + off) / d && i * (m * d) % d == 0
  {
    Associative(i, m, d);
    DivAddMultiple(off, d, i * m);
    DivAddMultiple(0, d, i * m);
  }

  /** Dividing block count and offset by a multiple of the block size. */
  lemma CoarseDivision(i: nat, off: nat, block: nat, b: nat)
    requires block > 0 && b > 0 && off < block
    ensures block * b > 0 && i * block / (block * b) == (i * block + off) / (block * b) && off / (block * b) == 0
  {
    DivDiv(i * block + off, block, b);
    DivDiv(i * block, block, b);
    DivDiv(off, block, b);
    DivModUnique(i * block + off, block, i, off);
    DivModUnique(i * block, block, i, 0);
    DivModUnique(off, block, 0, off);
    DivModUnique(0, b, 0, 0);
  }

  // ----- Powers of two and shifts

  function Pow2(n: nat): (p: nat)
    ensures p > 0
  {
    if n == 0 then 1 else 2 * Pow2(n - 1)
  }

  /** Right shift. Dafny's division by a positive number rounds down, as an arithmetic shift does. */
  function Shr(x: int, a: nat): (r: int)
    ensures x >= 0 ==> r >= 0
  {
    Quotient(x, Pow2(a));
    x / Pow2(a)
  }

  lemma {:induction false} Pow2Sum(a: nat, b: nat)
    ensures Pow2(a + b) == Pow2(a) * Pow2(b)
  {
    if a > 0 { Pow2Sum(a - 1, b); }
  }
}
