/** profile.c: why the products of the two deltas add up to the variance, and how close the scaled products are. */
module ProfileDeltas {
  import opened ProfileVariance
  import opened ProfileMean

  // ---------------------------------------------------------------------
  // With exact means
  // ---------------------------------------------------------------------

  /** One more sample x after k others with sum s: both sides of the step, multiplied by k * (k + 1). */
  lemma ProductStep(k: real, s: real, x: real, m: real, m': real)
    requires k > 0.0 && k * m == s && (k + 1.0) * m' == s + x
    ensures k * (k + 1.0) * ((x - m) * (x - m')) == (k * x - s) * (k * x - s)
  {
    assert k * (x - m) == k * x - s;
    assert (k + 1.0) * (x - m') == k * x - s;
    Group(k, k + 1.0, x - m, x - m');
  }

  lemma Group(a: real, b: real, p: real, q: real)
    ensures a * b * (p * q) == (a * p) * (b * q)
  {
  }

  lemma SquareStep(k: real, s: real, x: real, d: real, d': real, q: real)
    requires k > 0.0 && k * d == k * q - s * s && k * (k + 1.0) * d' == (k * x - s) * (k * x - s)
    ensures k * ((k + 1.0) * (d + d')) == k * ((k + 1.0) * (q + x * x) - (s + x) * (s + x))
  {
    Left(k, d, d');
    assert (k + 1.0) * (k * d) == (k + 1.0) * (k * q) - (k + 1.0) * (s * s);
    Expand(k, s, x, q);
  }

  lemma Left(k: real, d: real, d': real)
    ensures k * ((k + 1.0) * (d + d')) == (k + 1.0) * (k * d) + k * (k + 1.0) * d'
  {
  }

  lemma Expand(k: real, s: real, x: real, q: real)
    ensures (k + 1.0) * (k * q) - (k + 1.0) * (s * s) + (k * x - s) * (k * x - s) ==
            k * ((k + 1.0) * (q + x * x) - (s + x) * (s + x))
  {
    assert (k * x - s) * (k * x - s) == k * k * (x * x) - 2.0 * (k * (x * s)) + s * s;
    assert (s + x) * (s + x) == s * s + 2.0 * (x * s) + x * x;
  }

  lemma Cancel(k: real, a: real, b: real)
    requires k > 0.0 && k * a == k * b
    ensures a == b
  {
  }

  lemma VarianceStep(k: real, s: real, x: real, d: real, q: real, m: real, m': real)
    requires k > 0.0 && k * d == k * q - s * s && k * m == s && (k + 1.0) * m' == s + x
    ensures (k + 1.0) * (d + (x - m) * (x - m')) == (k + 1.0) * (q + x * x) - (s + x) * (s + x)
  {
    ProductStep(k, s, x, m, m');
    var d' := (x - m) * (x - m');
    SquareStep(k, s, x, d, d', q);
    Cancel(k, (k + 1.0) * (d + d'), (k + 1.0) * (q + x * x) - (s + x) * (s + x));
  }

  /**
  The number of samples, and three sums over them: of the samples, of their squares, and of the distance of each
  from the mean before it times its distance from the mean after it.
  */
  datatype Sums = Sums(n: real, sum: real, squares: real, products: real)

  const NOTHING := Sums(0.0, 0.0, 0.0, 0.0)

  /** One more sample x; m and m' are the means before and after it, of which that of no samples is arbitrary. */
  predicate Next(t: Sums, x: real, m: real, m': real, t': Sums) {
    && t' == Sums(t.n + 1.0, t.sum + x, t.squares + x * x, t.products + (x - m) * (x - m'))
    && t.n >= 0.0 && (t.n > 0.0 ==> t.n * m == t.sum) && t'.n * m' == t'.sum
  }

  /** n times the sum of the products is n times the sum of the squares, less the square of the sum. */
  predicate Holds(t: Sums) {
    t.n * t.products == t.n * t.squares - t.sum * t.sum
  }

  lemma HoldsMore(t: Sums, x: real, m: real, m': real, t': Sums)
    requires Holds(t) && Next(t, x, m, m', t') && (t.n == 0.0 ==> t == NOTHING)
    ensures Holds(t')
  {
    MeanAfter(t'.n, t.n + 1.0, m', t'.sum, t.sum + x);
    if t.n > 0.0 {
      VarianceStep(t.n, t.sum, x, t.products, t.squares, m, m');
    } else {
      FirstSample(x, m, m');
    }
  }

  lemma MeanAfter(n: real, k: real, m: real, a: real, b: real)
    requires n * m == a && n == k && a == b
    ensures k * m == b
  {
  }

  lemma FirstSample(x: real, m: real, m': real)
    requires 1.0 * m' == x
    ensures Holds(Sums(1.0, x, x * x, (x - m) * (x - m')))
  {
    assert (x - m) * (x - m') == 0.0;
  }

  /** Samples, the means along the way, and the sums. */
  predicate Run(xs: seq<real>, ms: seq<real>, ts: seq<Sums>) {
    && |ms| == |ts| == |xs| + 1 && ts[0] == NOTHING
    && forall k :: 0 <= k < |xs| ==> Next(ts[k], xs[k], ms[k], ms[k + 1], ts[k + 1])
  }

  lemma {:induction false} ProductsAreVariance(xs: seq<real>, ms: seq<real>, ts: seq<Sums>, k: nat)
    requires Run(xs, ms, ts) && k <= |xs|
    ensures Holds(ts[k]) && (ts[k].n == 0.0 ==> ts[k] == NOTHING)
  {
    if k > 0 {
      ProductsAreVariance(xs, ms, ts, k - 1);
      assert Next(ts[k - 1], xs[k - 1], ms[k - 1], ms[k - 1 + 1], ts[k - 1 + 1]);
      HoldsMore(ts[k - 1], xs[k - 1], ms[k - 1], ms[k], ts[k]);
    }
  }

  // ---------------------------------------------------------------------
  // In 32 bits
  // ---------------------------------------------------------------------

  function Abs(x: int): nat {
    if x >= 0 then x else -x
  }

  lemma MulSmall(x: int, c: int, u: nat, bound: nat)
    requires Abs(x) <= bound && 0 <= c <= u
    ensures Within(x * c, 0, bound * u)
  {
    MulUp(Abs(x), bound, c);
    MulUp(c, u, bound);
    assert x * c == Abs(x) * c || x * c == -(Abs(x) * c);
  }

  lemma MulUp(a: nat, b: nat, c: nat)
    requires a <= b
    ensures a * c <= b * c && c * a <= c * b
  {
  }

  lemma Parts(p: int, a: int, q: int, c: int, u: int)
    ensures (p * u + a) * (q * u + c) == (p * q) * (u * u) + (p * u) * c + (q * u) * a + a * c
  {
  }

  /** The product of the scaled deltas, scaled back, is that of the deltas up to 2^32 times their size. */
  lemma DeltaNear(pre: int, post: int)
    ensures Within(Delta(pre, post) * (UINT * UINT), pre * post,
                   (Abs(pre) + UINT) * UINT + (Abs(post) + UINT) * UINT + UINT * UINT)
  {
    var p, a, q, c := pre / UINT, pre % UINT, post / UINT, post % UINT;
    Parts(p, a, q, c, UINT);
    MulSmall(p * UINT, c, UINT, Abs(pre) + UINT);
    MulSmall(q * UINT, a, UINT, Abs(post) + UINT);
    MulSmall(a, c, UINT, UINT);
  }
}
