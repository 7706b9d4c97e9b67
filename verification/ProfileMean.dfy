/** profile.c: how far the running mean is from the mean of the samples. */
module ProfileMean {
  import opened Powers
  import opened Profile

  function Total(xs: seq<nat>): nat {
    if xs == [] then 0 else Total(xs[..|xs| - 1]) + xs[|xs| - 1]
  }

  lemma TotalMore(xs: seq<nat>, x: nat)
    ensures Total(xs + [x]) == Total(xs) + x
  {
    assert (xs + [x])[..|xs|] == xs;
  }

  /** 0 + 1 + ... + (n - 1) */
  function Triangle(n: nat): nat {
    if n == 0 then 0 else Triangle(n - 1) + n - 1
  }

  /** What divisions can have lost: less than k at sample k, and less than n at each of at most msb changes of scale. */
  function Slack(n: nat, msb: nat): nat {
    Triangle(n) + msb * n
  }

  predicate Within(x: int, y: int, slack: int) {
    y - slack <= x <= y + slack
  }

  /** n times the mean is about the sum of the samples, at the scale of the mean. */
  predicate Near(n: nat, mean: int, total: nat, msb: nat)
    requires msb <= TOP
  {
    Within(n * mean, total * Pow2(TOP - msb), Slack(n, msb))
  }

  // ---------------------------------------------------------------------
  // A change of scale
  // ---------------------------------------------------------------------

  lemma SlackMore(n: nat, msb: nat, msb': nat)
    requires msb < msb'
    ensures Slack(n, msb') >= Slack(n, msb) + n
  {
    Exceeds(msb', msb, n);
  }

  /** A difference e of multiples, and what is left of it after division by q. */
  lemma Divided(n: nat, mean: int, mean': int, rem: int, t: int, q: nat, slack: nat)
    requires q > 0 && mean == mean' * q + rem && 0 <= rem < q && Within(n * mean, t * q, slack)
    ensures Within(n * mean', t, slack + n)
  {
    var e := n * mean' - t;
    assert n * mean == (n * mean') * q + n * rem by { Spread(n, mean', q, rem); }
    assert e * q == n * mean - n * rem - t * q;
    MulBetween(n, rem, q);
    if e > slack + n { MulAtLeast(q, e); }
    if e < 0 - slack - n { Lower(-e, slack + n, q); Lower(slack + n, slack, 1); MulBoth(slack, n, q); }
  }

  lemma Spread(n: int, m: int, q: int, r: int)
    ensures n * (m * q + r) == (n * m) * q + n * r
  {
  }

  lemma MulBetween(n: nat, rem: int, q: int)
    requires 0 <= rem <= q
    ensures 0 <= n * rem <= n * q
  {
  }

  lemma Lower(a: int, b: int, q: nat)
    requires a > b && q > 0
    ensures a * q > b * q
  {
    assert a * q == b * q + (a - b) * q;
    MulAtLeast(a - b, q);
  }

  lemma MulBoth(a: nat, b: nat, q: nat)
    requires q > 0
    ensures (a + b) * q >= a + b * q
  {
    assert (a + b) * q == a * q + b * q;
    MulAtLeast(q, a);
  }

  lemma CoarserNear(a: Average, sample: nat, total: nat)
    requires a.msb < TOP && Coarser(a, sample).msb < TOP && Near(a.count, a.mean, total, a.msb)
    ensures var b := Coarser(a, sample); b.count == a.count && Near(b.count, b.mean, total, b.msb)
  {
    var b := Coarser(a, sample);
    if b.msb != a.msb {
      var d := b.msb - a.msb;
      var q := Pow2(d);
      Pow2Add(TOP - b.msb, d);
      Rescaled(a.count, a.mean, total, Pow2(TOP - b.msb), q, Slack(a.count, a.msb));
      SlackMore(a.count, a.msb, b.msb);
    }
  }

  lemma Rescaled(n: nat, mean: int, total: nat, p: nat, q: nat, slack: nat)
    requires q > 0 && Within(n * mean, total * (p * q), slack)
    ensures Within(n * (mean / q), total * p, slack + n)
  {
    Regroup(total, p, q);
    assert mean == mean / q * q + mean % q;
    Divided(n, mean, mean / q, mean % q, total * p, q, slack);
  }

  // ---------------------------------------------------------------------
  // One more sample
  // ---------------------------------------------------------------------

  lemma QuotientLoss(a: int, n: nat)
    requires n > 0
    ensures Within(n * Quotient(a, n), a, n - 1)
  {
    var b := if a >= 0 then a else -a;
    assert b == n * (b / n) + b % n;
  }

  lemma MeanMoves(n: nat, mean: int, x: int, q: int, t: int, slack: nat)
    requires n > 0 && Within((n - 1) * mean, t, slack) && Within(n * q, x - mean, n - 1)
    ensures Within(n * (mean + q), t + x, slack + n - 1)
  {
    assert n * (mean + q) == (n - 1) * mean + mean + n * q;
  }

  lemma CountedNear(a: Average, sample: nat, total: nat)
    requires a.msb <= TOP && a.count < INT_MAX && Near(a.count, a.mean, total, a.msb)
    ensures var b := Counted(a, sample);
            b.count == a.count + 1 && b.msb == a.msb && Near(b.count, b.mean, total + sample, b.msb)
  {
    var n, s := a.count + 1, ScaleUp(sample, TOP - a.msb);
    var q := Quotient(s - a.mean, n);
    QuotientLoss(s - a.mean, n);
    MeanMoves(n, a.mean, s, q, total * Pow2(TOP - a.msb), Slack(a.count, a.msb));
    SumScaled(total, sample, Pow2(TOP - a.msb));
    SlackNext(a.count, a.msb);
  }

  lemma SumScaled(a: nat, b: nat, p: nat)
    ensures (a + b) * p == a * p + b * p
  {
  }

  lemma SlackNext(n: nat, msb: nat)
    ensures Slack(n + 1, msb) >= Slack(n, msb) + n
  {
    AtLeast(n + 1, n, msb);
  }

  // ---------------------------------------------------------------------
  // Every run
  // ---------------------------------------------------------------------

  /** n times m is the sum of the samples, up to half a unit for each and the slack, all at the scale of the mean. */
  predicate IsMean(n: nat, m: nat, total: nat, msb: nat)
    requires msb <= TOP
  {
    var p := Pow2(TOP - msb);
    Within(2 * (n * m * p), 2 * (total * p), n * p + 2 * Slack(n, msb))
  }

  lemma NoSamples()
    ensures Near(0, 0, Total([]), 0)
  {
  }

  lemma NearestMean(n: nat, mean: nat, total: nat, msb: nat)
    requires msb < TOP && Near(n, mean, total, msb)
    ensures IsMean(n, Nearest(mean, TOP - msb), total, msb)
  {
    var p, h := Pow2(TOP - msb), Pow2(TOP - msb - 1);
    var m := Nearest(mean, TOP - msb);
    NearestIs(mean, TOP - msb);
    assert p == 2 * h && Within(2 * (m * p), 2 * mean, p);
    Times(n, m * p, mean, p);
    Regroup(n, m, p);
  }

  lemma Times(n: nat, a: int, b: int, p: int)
    requires Within(2 * a, 2 * b, p)
    ensures Within(2 * (n * a), 2 * (n * b), n * p)
  {
    MulOrder(n, 2 * b - p, 2 * a);
    MulOrder(n, 2 * a, 2 * b + p);
    assert n * (2 * a) == 2 * (n * a) && n * (2 * b - p) == 2 * (n * b) - n * p &&
           n * (2 * b + p) == 2 * (n * b) + n * p;
  }

  lemma MulOrder(n: nat, a: int, b: int)
    requires a <= b
    ensures n * a <= n * b
  {
  }

  /** The scale is that of the largest sample. */
  ghost predicate ScaleOf(xs: seq<nat>, msb: nat) {
    && (forall k :: 0 <= k < |xs| ==> xs[k] < Pow2(msb + 1))
    && (msb > 0 ==> exists k :: 0 <= k < |xs| && Pow2(msb) <= xs[k])
  }

  lemma ScaleNext(xs: seq<nat>, a: Average, x: nat)
    requires ScaleOf(xs, a.msb) && x < Pow2(TOP)
    ensures ScaleOf(xs + [x], Coarser(a, x).msb)
  {
    var msb, ys := Coarser(a, x).msb, xs + [x];
    FlsCovers(x);
    if Fls(x) <= msb + 1 { Pow2Monotone(Fls(x), msb + 1); }
    forall k | 0 <= k < |ys| ensures ys[k] < Pow2(msb + 1) {
      if k < |xs| { Pow2Monotone(a.msb + 1, msb + 1); }
    }
    if msb > 0 {
      if msb == a.msb {
        var k :| 0 <= k < |xs| && Pow2(msb) <= xs[k];
        assert ys[k] == xs[k];
      } else {
        assert ys[|xs|] == x;
      }
    }
  }

  /** The profiler has been given these samples. */
  ghost predicate Averages(p: Profiler, xs: seq<nat>)
    reads p
  {
    p.Valid() && p.count == |xs| && Near(|xs|, p.mean, Total(xs), p.meanMsb) && ScaleOf(xs, p.meanMsb)
  }

  method Start() returns (p: Profiler)
    ensures fresh(p) && Averages(p, [])
  {
    p := new Profiler();
    NoSamples();
  }

  method Next(p: Profiler, x: nat, ghost xs: seq<nat>)
    requires Averages(p, xs) && |xs| < INT_MAX && x < Pow2(TOP)
    modifies p
    ensures Averages(p, xs + [x])
  {
    ghost var a := p.Value();
    ghost var pre, post;
    pre, post := p.Update(x);
    CoarserScale(a, x);
    CoarserNear(a, x, Total(xs));
    CountedNear(Coarser(a, x), x, Total(xs));
    TotalMore(xs, x);
    ScaleNext(xs, a, x);
  }

  lemma CoarserScale(a: Average, x: nat)
    requires a.msb < TOP && x < Pow2(TOP)
    ensures Coarser(a, x).msb < TOP
  {
    MsbFacts(x, a.msb);
  }

  method Report(p: Profiler, ghost xs: seq<nat>) returns (m: nat)
    requires Averages(p, xs)
    ensures IsMean(|xs|, m, Total(xs), p.meanMsb)
  {
    m := p.Mean();
    NearestMean(|xs|, p.mean, Total(xs), p.meanMsb);
  }

  /**
  The mean of any number of samples below 2^62, up to the number at which the count saturates, is off by at most
  half a unit and what divisions can have lost at the scale of the largest sample.
  */
  method MeanOf(xs: seq<nat>) returns (p: Profiler, m: nat)
    requires |xs| <= INT_MAX && forall k :: 0 <= k < |xs| ==> xs[k] < Pow2(TOP)
    ensures Averages(p, xs) && IsMean(|xs|, m, Total(xs), p.meanMsb)
  {
    p := Start();
    var k := 0;
    assert xs[..k] == [];
    while k < |xs|
      invariant 0 <= k <= |xs| && fresh(p) && Averages(p, xs[..k])
    {
      assert xs[..k + 1] == xs[..k] + [xs[k]];
      Next(p, xs[k], xs[..k]);
      k := k + 1;
    }
    assert xs[..k] == xs;
    m := Report(p, xs);
  }
}
