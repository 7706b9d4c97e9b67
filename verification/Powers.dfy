/** Powers of two and the few facts about division that several modules share. */
module Powers {

  function Pow2(n: nat): (r: nat)
    ensures r > 0
  {
    if n == 0 then 1 else 2 * Pow2(n - 1)
  }

  lemma {:induction false} Pow2Add(m: nat, n: nat)
    ensures Pow2(m + n) == Pow2(m) * Pow2(n)
  {
    if n > 0 {
      Pow2Add(m, n - 1);
      assert Pow2(m) * Pow2(n) == 2 * (Pow2(m) * Pow2(n - 1));
    }
  }

  lemma Pow2Monotone(m: nat, n: nat)
    requires m <= n
    ensures Pow2(m) <= Pow2(n)
  {
  }

  ghost predicate IsPow2(x: nat) {
    exists n: nat :: x == Pow2(n)
  }

  /** Adding a multiple of the divisor changes neither remainder. */
  lemma ModMultiple(x: int, k: int, d: int)
    requires d > 0
    ensures (x + k * d) % d == x % d
  {
    var q, r := x / d, x % d;
    assert x + k * d == (q + k) * d + r;
    ModUnique(x + k * d, q + k, r, d);
  }

  lemma ModUnique(x: int, q: int, r: int, d: int)
    requires 0 <= r < d
    requires x == q * d + r
    ensures x % d == r && x / d == q
  {
    DivStep(x, x / d, q, x % d, r, d);
    DivStep(x, q, x / d, r, x % d, d);
  }

  lemma DivStep(x: int, p: int, q: int, r: int, s: int, d: int)
    requires 0 <= r < d && 0 <= s < d
    requires x == p * d + r == q * d + s
    ensures p <= q
  {
    if p > q {
      assert p * d == q * d + (p - q) * d;
      MulAtLeast(p - q, d);
    }
  }

  lemma MulAtLeast(k: int, d: int)
    requires k >= 1 && d >= 0
    ensures k * d >= d
  {
  }

  /** Products of larger numbers are larger, by at least one factor. */
  lemma Exceeds(x: nat, y: nat, p: nat)
    requires x > y
    ensures x * p >= y * p + p
  {
    assert x * p == y * p + (x - y) * p;
    MulAtLeast(x - y, p);
  }

  lemma AtLeast(x: nat, y: nat, p: nat)
    requires x >= y
    ensures x * p >= y * p
  {
  }

  lemma Shrinks(a: nat, n: nat)
    requires n > 0
    ensures 0 <= a / n <= a
  {
    if a / n > a { MulAtLeast(n, a / n); }
  }

  lemma Regroup(x: int, y: int, z: int)
    ensures x * (y * z) == (x * y) * z
  {
  }

  /** A remainder by a multiple of d has the same remainder by d. */
  lemma ModMod(x: int, m: int, d: int)
    requires d > 0 && m * d > 0
    ensures x % (m * d) % d == x % d
  {
    var k := x / (m * d);
    MulAssoc(k, m, d);
    ModMultiple(x, -(k * m), d);
  }

  lemma MulAssoc(k: int, m: int, d: int)
    ensures k * (m * d) == (k * m) * d == -(-(k * m) * d)
  {
  }

  /** fls(): one more than the position of the most significant set bit. */
  function Fls(x: nat): nat {
    if x == 0 then 0 else 1 + Fls(x / 2)
  }

  lemma {:induction false} FlsCovers(x: nat)
    ensures x < Pow2(Fls(x))
    ensures x > 0 ==> Pow2(Fls(x) - 1) <= x
  {
    if x > 0 { FlsCovers(x / 2); }
  }

  lemma FlsUnique(x: nat, n: nat)
    requires n > 0 && Pow2(n - 1) <= x < Pow2(n)
    ensures Fls(x) == n
  {
    FlsCovers(x);
    if Fls(x) < n { Pow2Monotone(Fls(x), n - 1); }
    if Fls(x) > n { Pow2Monotone(n, Fls(x) - 1); }
  }
}
