/** profile.c: a running mean in fixed point whose scale adapts to the largest sample, and the variance. */
module Profile {
  import opened Powers
  import opened ProfileVariance

  const INT_MAX: nat := 0x7fff_ffff
  /** Bits of an unsigned long, less the sign bit and the one below it. */
  const TOP: nat := 62

  /** The first value that a signed long cannot hold. */
  const LONG: nat := 0x8000_0000_0000_0000

  lemma Pow2Long()
    ensures Pow2(63) == LONG
  {
    assert Pow2(9) == 512;
    Pow2Add(9, 9);
    Pow2Add(18, 9);
    Pow2Add(27, 36);
    Pow2Add(18, 18);
  }

  /** Signed division as C does it, toward zero. */
  function Quotient(a: int, n: int): int
    requires n > 0
  {
    if a >= 0 then a / n else -((-a) / n)
  }

  lemma QuotientBetween(a: int, n: int)
    requires n > 0
    ensures if a >= 0 then 0 <= Quotient(a, n) <= a else a <= Quotient(a, n) <= 0
  {
    Shrinks(if a >= 0 then a else -a, n);
  }

  /** lo and hi, scaled up by 2^shift, bound x. */
  predicate Between(lo: nat, x: nat, hi: nat, shift: nat) {
    lo * Pow2(shift) <= x <= hi * Pow2(shift)
  }

  /** Scaling down keeps the bounds. */
  lemma ScaleDown(lo: nat, x: nat, hi: nat, shift: nat, d: nat)
    requires Between(lo, x, hi, shift) && d <= shift
    ensures Between(lo, x / Pow2(d), hi, shift - d)
  {
    var p, q := Pow2(shift - d), Pow2(d);
    Pow2Add(shift - d, d);
    Regroup(lo, p, q);
    Regroup(hi, p, q);
    DivBounds(lo * p, x, hi * p, q);
  }

  lemma DivBounds(a: nat, x: nat, b: nat, q: nat)
    requires q > 0 && a * q <= x <= b * q
    ensures a <= x / q <= b
  {
    var k := x / q;
    assert x == k * q + x % q;
    if k < a { Exceeds(a, k, q); }
    if k > b { Exceeds(k, b, q); }
  }

  lemma Widen(lo: nat, x: nat, hi: nat, lower: nat, higher: nat, shift: nat)
    requires Between(lo, x, hi, shift) && lower <= lo && hi <= higher
    ensures Between(lower, x, higher, shift)
  {
  }

  /** A scaled sample fits in a signed long. */
  lemma ScaledFits(sample: nat, msb: nat)
    requires msb <= TOP && sample < Pow2(msb + 1)
    ensures sample * Pow2(TOP - msb) < LONG
  {
    Pow2Long();
    Pow2Add(msb + 1, TOP - msb);
    Exceeds(Pow2(msb + 1), sample, Pow2(TOP - msb));
  }

  lemma MeanFits(lo: nat, mean: nat, hi: nat, msb: nat)
    requires msb <= TOP && hi < Pow2(msb + 1) && Between(lo, mean, hi, TOP - msb)
    ensures mean < LONG
  {
    ScaledFits(hi, msb);
  }

  /** The most significant bit of a sample, and what it means that it is not above another. */
  lemma MsbFacts(sample: nat, msb: nat)
    requires sample < Pow2(TOP)
    ensures Fls(sample) <= TOP && sample < Pow2(Fls(sample)) && (Fls(sample) <= msb + 1 ==> sample < Pow2(msb + 1))
  {
    FlsCovers(sample);
    if Fls(sample) > TOP { Pow2Monotone(TOP, Fls(sample) - 1); }
    if Fls(sample) <= msb + 1 { Pow2Monotone(Fls(sample), msb + 1); }
  }

  function ScaleUp(x: nat, shift: nat): nat {
    x * Pow2(shift)
  }

  lemma IncludeFacts(first: bool, lo: nat, mean: nat, hi: nat, sample: nat, low: nat, high: nat, msb: nat)
    requires msb < TOP && sample < Pow2(msb + 1)
    requires if first then mean == 0 && low == high == sample
             else
               && hi < Pow2(msb + 1) && Between(lo, mean, hi, TOP - msb)
               && low == Min(lo, sample) && high == Max(hi, sample)
    ensures mean < LONG && ScaleUp(sample, TOP - msb) < LONG
    ensures Between(low, ScaleUp(sample, TOP - msb), high, TOP - msb) &&
            (!first ==> Between(low, mean, high, TOP - msb))
  {
    ScaledFits(sample, msb);
    Widen(sample, ScaleUp(sample, TOP - msb), sample, low, high, TOP - msb);
    if !first {
      MeanFits(lo, mean, hi, msb);
      Widen(lo, mean, hi, low, high, TOP - msb);
    }
  }

  lemma Included(first: bool, before: nat, sample: nat, mean: nat, low: nat, high: nat, shift: nat)
    requires var s := ScaleUp(sample, shift);
             && Between(low, s, high, shift) && (!first ==> Between(low, before, high, shift))
             && (if before <= s then before <= mean <= s else s <= mean <= before) && (first ==> mean == s)
    ensures Between(low, mean, high, shift)
  {
  }

  /** Round to nearest and scale down. */
  function Nearest(x: nat, shift: nat): nat
    requires shift > 0
  {
    (x + Pow2(shift - 1)) / Pow2(shift)
  }

  function Min(a: nat, b: nat): nat { if a < b then a else b }
  function Max(a: nat, b: nat): nat { if a < b then b else a }

  /** Number of samples, their mean, and its scale. */
  datatype Average = Average(count: nat, mean: int, msb: nat)

  /** The scale that has room for a sample, never a finer one. */
  function Coarser(a: Average, sample: nat): Average {
    var msb := if sample > 0 && a.msb < Fls(sample) - 1 then Fls(sample) - 1 else a.msb;
    if msb == a.msb then a else a.(mean := a.mean / Pow2(msb - a.msb), msb := msb)
  }

  /** One more sample, which moves the mean by its share of the distance; the count saturates. */
  function Counted(a: Average, sample: nat): Average {
    var n := if a.count < INT_MAX then a.count + 1 else a.count;
    if n == 0 then a else Average(n, a.mean + Quotient(ScaleUp(sample, Shift(a.msb)) - a.mean, n), a.msb)
  }

  function Shift(msb: nat): nat {
    if msb <= TOP then TOP - msb else 0
  }

  /** The new mean lies between the smallest and the largest sample. */
  lemma CountedWithin(a: Average, lo: nat, hi: nat, sample: nat, low: nat, high: nat)
    requires a.mean >= 0 && a.msb < TOP && sample < Pow2(a.msb + 1)
    requires if a.count == 0 then a.mean == 0 && low == high == sample
             else
               && hi < Pow2(a.msb + 1) && Between(lo, a.mean, hi, TOP - a.msb)
               && low == Min(lo, sample) && high == Max(hi, sample)
    ensures a.mean < LONG && ScaleUp(sample, TOP - a.msb) < LONG
    ensures var b := Counted(a, sample); b.mean >= 0 && Between(low, b.mean, high, TOP - a.msb)
  {
    var n := if a.count < INT_MAX then a.count + 1 else a.count;
    var s, b := ScaleUp(sample, TOP - a.msb), Counted(a, sample);
    IncludeFacts(a.count == 0, lo, a.mean, hi, sample, low, high, a.msb);
    QuotientBetween(s - a.mean, n);
    Included(a.count == 0, a.mean, sample, b.mean, low, high, TOP - a.msb);
  }

  function PreDelta(a: Average, sample: nat): int {
    var b := Coarser(a, sample);
    ScaleUp(sample, Shift(b.msb)) - b.mean
  }

  function PostDelta(a: Average, sample: nat): int {
    var b := Counted(Coarser(a, sample), sample);
    ScaleUp(sample, Shift(b.msb)) - b.mean
  }

  predicate Deltas(pre: int, post: int) {
    Toward(pre, post) && 0 - LONG < pre < LONG
  }

  lemma HalfLong()
    ensures 0x8000_0000 * UINT == LONG && 0x8000_0000 * 0x8000_0000 == Pow2(TOP)
  {
    Pow2Long();
  }

  lemma DeltaFits(pre: int, post: int)
    requires Deltas(pre, post)
    ensures 0 <= Delta(pre, post) <= Pow2(TOP) && (Delta(pre, post) == 0 <==> pre / UINT == 0 || post / UINT == 0)
  {
    HalfLong();
    DeltaBounds(pre, post, 0x8000_0000);
  }

  /**
  The scale of the mean is that of the largest sample, and the accumulated variance of n samples is bounded,
  and zero as long as they are all the same.
  */
  ghost predicate Bounded(msb: nat, hi: nat, same: bool, v: Spread, n: nat, c: nat, t: nat) {
    && msb + c <= t && (msb > 0 ==> Pow2(msb) <= hi)
    && Normal(v, t) && Amount(v) <= n * Pow2(2 * msb + 2 + t) && (same ==> v == Spread(0, 0))
  }

  /** The scale changes only to that of a larger sample. */
  predicate Follows(msb: nat, msb': nat, sample: nat, c: nat, t: nat) {
    msb <= msb' && msb' + c <= t && (msb < msb' ==> Pow2(msb') <= sample)
  }

  lemma CoarserMsb(a: Average, sample: nat, c: nat, t: nat)
    requires a.msb + c <= t && sample < Pow2(t + 1 - c)
    ensures Follows(a.msb, Counted(Coarser(a, sample), sample).msb, sample, c, t)
  {
    FlsCovers(sample);
    if Fls(sample) > t + 1 - c { Pow2Monotone(t + 1 - c, Fls(sample) - 1); }
  }

  lemma BoundedStep(msb: nat, msb': nat, hi: nat, hi': nat, same: bool, same': bool, v: Spread, w: Spread, n: nat,
                    c: nat, t: nat)
    requires Bounded(msb, hi, same, v, n, c, t) && Follows(msb, msb', hi', c, t) && hi <= hi' &&
             (same' ==> same && w == v)
    requires Normal(w, t) && Amount(w) <= Amount(v) + Pow2(2 * msb' + 2 + t)
    ensures Bounded(msb', hi', same', w, n + 1, c, t)
  {
    BoundStep(Amount(v), Amount(w), n, 2 * msb + 2 + t, 2 * msb' + 2 + t);
  }

  lemma VariedFits(v: Spread, pre: int, post: int, msb: nat, c: nat, t: nat)
    requires Normal(v, t) && msb + c <= t && t + 2 == 2 * c && Delta(pre, post) <= Pow2(t)
    ensures var w := Varied(v, pre, post, Below(msb + c, t), t);
            Normal(w, t) && Amount(w) <= Amount(v) + Pow2(2 * msb + 2 + t) && (post == 0 ==> w == v)
  {
    VariedAmount(v, pre, post, t - (msb + c), t);
    assert t + (t - 2 * (t - (msb + c))) == 2 * msb + 2 + t;
  }

  /** One more sample, with the given deltas. */
  lemma VariedBounded(msb: nat, msb': nat, hi: nat, hi': nat, same: bool, same': bool, v: Spread, n: nat, pre: int,
                      post: int, c: nat, t: nat)
    requires Bounded(msb, hi, same, v, n, c, t) && Follows(msb, msb', hi', c, t) && hi <= hi'
    requires t + 2 == 2 * c && Delta(pre, post) <= Pow2(t) && (same' ==> same && post == 0)
    ensures Bounded(msb', hi', same', Varied(v, pre, post, Below(msb' + c, t), t), n + 1, c, t)
  {
    VariedFits(v, pre, post, msb', c, t);
    BoundedStep(msb, msb', hi, hi', same, same', v, Varied(v, pre, post, Below(msb' + c, t), t), n, c, t);
  }

  /** The extremes of the samples so far, with another one. */
  predicate Extremes(first: bool, lo: nat, hi: nat, sample: nat, lo': nat, hi': nat) {
    if first then lo' == hi' == sample else lo' == Min(lo, sample) && hi' == Max(hi, sample)
  }

  /** n samples below 2^b leave at least one bit below the point. */
  lemma FewSamples(msb: nat, hi: nat, same: bool, v: Spread, n: nat, b: nat, c: nat, t: nat)
    requires t > 0 && b > 0 && Bounded(msb, hi, same, v, n, c, t) && hi < Pow2(b) && n * Pow2(2 * b) < Pow2(t)
    ensures v.msb < t
  {
    if msb >= b { Pow2Monotone(b, msb); }
    BoundGrows(n, 2 * msb + 2 + t, 2 * b + t);
    ScaleBound(v, n, 2 * b, t);
  }

  lemma BoundGrows(n: nat, bits: nat, bits': nat)
    requires bits <= bits'
    ensures n * Pow2(bits) <= n * Pow2(bits')
  {
    Pow2Monotone(bits, bits');
    AtLeast(Pow2(bits'), Pow2(bits), n);
  }

  class Profiler {
    var count: nat
    var mean: nat
    var meanMsb: nat
    // The smallest and the largest sample so far
    ghost var lo: nat
    ghost var hi: nat
    var accvar: nat
    var accvarMsb: nat
    // The number of samples, not saturated
    ghost var samples: nat

    function MeanShift(): nat
      requires meanMsb <= TOP
      reads `meanMsb
    {
      TOP - meanMsb
    }

    ghost function Value(): Average
      reads `count, `mean, `meanMsb
    {
      Average(count, mean, meanMsb)
    }

    ghost predicate Valid()
      reads `count, `mean, `meanMsb, `lo, `hi
    {
      && count <= INT_MAX && meanMsb < TOP
      && (if count == 0 then mean == 0 && meanMsb == 0
          else lo <= hi < Pow2(meanMsb + 1) && Between(lo, mean, hi, TOP - meanMsb))
    }

    ghost function Variation(): Spread
      reads `accvar, `accvarMsb
    {
      Spread(accvar, accvarMsb)
    }

    ghost predicate Steady()
      reads this
    {
      Bounded(meanMsb, if count == 0 then 0 else hi, count == 0 || lo == hi, Variation(), samples, 32, TOP)
    }

    /** The samples so far, with room for the variance. */
    ghost predicate Holds(xs: seq<nat>)
      reads this
    {
      && Valid() && Steady() && samples == |xs| && accvarMsb < TOP && (count == 0 <==> xs == [])
      && (xs != [] ==> AreExtremes(xs, lo, hi))
    }

    constructor ()
      ensures Valid() && Steady() && count == samples == accvarMsb == 0
    {
      count, mean, meanMsb := 0, 0, 0;
      accvar, accvarMsb, samples := 0, 0, 0;
    }

    /** Change to a coarser scale. */
    method Coarsen(msb: nat)
      requires Valid() && meanMsb < msb < TOP
      modifies `mean, `meanMsb
      ensures meanMsb == msb && mean == old(mean) / Pow2(msb - old(meanMsb))
      ensures (count > 0 ==> Valid()) && (count == 0 ==> mean == 0)
    {
      ghost var d := msb - meanMsb;
      if count > 0 { ScaleDown(lo, mean, hi, TOP - meanMsb, d); }
      Pow2Monotone(meanMsb + 1, msb + 1);
      mean := mean / Pow2(msb - meanMsb);
      meanMsb := msb;
    }

    /** Adjust the scale to the most significant bit of a sample. */
    method Rescale(sample: nat)
      requires Valid() && sample < Pow2(TOP)
      modifies `mean, `meanMsb
      ensures Value() == Coarser(old(Value()), sample)
      ensures meanMsb < TOP && sample < Pow2(meanMsb + 1) && (count > 0 ==> Valid()) && (count == 0 ==> mean == 0)
    {
      var bits := Fls(sample);
      MsbFacts(sample, meanMsb);
      if sample > 0 && meanMsb < bits - 1 {
        Coarsen(bits - 1);
      }
    }

    /** Move the mean toward a scaled sample by a fraction of the distance. */
    method Approach(scaled: nat, n: nat) returns (pre: int, post: int)
      requires n > 0 && scaled < LONG && mean < LONG
      modifies `mean
      ensures if old(mean) <= scaled then old(mean) <= mean <= scaled else scaled <= mean <= old(mean)
      ensures mean == old(mean) + Quotient(scaled - old(mean), n) && (n == 1 ==> mean == scaled)
      ensures pre == scaled - old(mean) && post == scaled - mean && Deltas(pre, post)
    {
      pre := scaled - mean;
      QuotientBetween(pre, n);
      mean := mean + Quotient(pre, n);
      post := scaled - mean;
    }

    /** Count a sample that fits the scale, and update the mean. */
    method Include(sample: nat) returns (pre: int, post: int)
      requires count <= INT_MAX && meanMsb < TOP && sample < Pow2(meanMsb + 1) && (count > 0 ==> Valid()) &&
               (count == 0 ==> mean == 0)
      modifies `count, `mean, `lo, `hi
      ensures Valid() && count > 0 && Value() == Counted(old(Value()), sample)
      ensures Deltas(pre, post) && (lo == hi ==> post == 0)
      ensures pre == ScaleUp(sample, Shift(meanMsb)) - old(mean) && post == ScaleUp(sample, Shift(meanMsb)) - mean
      ensures Extremes(old(count) == 0, old(lo), old(hi), sample, lo, hi)
    {
      ghost var a, first := Value(), count == 0;
      ghost var low, high := if first then sample else Min(lo, sample), if first then sample else Max(hi, sample);
      CountedWithin(a, lo, hi, sample, low, high);
      if count < INT_MAX { count := count + 1; }
      pre, post := Approach(ScaleUp(sample, MeanShift()), count);
      assert Value() == Counted(a, sample);
      lo, hi := low, high;
    }

    /** profile_update(), as far as the mean is concerned, for samples below 2^62. */
    method Update(sample: nat) returns (pre: int, post: int)
      requires Valid() && sample < Pow2(TOP)
      modifies `count, `mean, `meanMsb, `lo, `hi
      ensures Valid() && count > 0 && Value() == Counted(Coarser(old(Value()), sample), sample)
      ensures Extremes(old(count) == 0, old(lo), old(hi), sample, lo, hi)
      ensures Deltas(pre, post) && (lo == hi ==> post == 0)
      ensures pre == PreDelta(old(Value()), sample) && post == PostDelta(old(Value()), sample)
    {
      Rescale(sample);
      pre, post := Include(sample);
    }

    /** Adjust the scale to a product of deltas, which is scaled by 2^shift, or the product to the scale. */
    method Align(d: nat, shift: nat, top: nat) returns (x: nat)
      requires d > 0 && shift + DeltaMsb(d, shift) <= top < UINT && accvarMsb < 64
      modifies `accvar, `accvarMsb
      ensures Variation() == Rescaled(old(Variation()), DeltaMsb(d, shift)) &&
              x == Scaled(old(Variation()), d, shift, top)
    {
      var msb, k := Fls(d) - 1, 0;
      if msb > shift { msb := msb - shift; } else { msb := 0; }
      x := d;
      if accvarMsb < msb {
        accvar, accvarMsb := Shr(accvar, msb - accvarMsb), msb;
      } else {
        k := accvarMsb - msb;
        x := Shr(x, k);
      }
      x := ScaleDelta(x, shift, k, top, top - shift - msb);
    }

    /** Scale a delta to internal units, with unsigned shift counts, after k bits of it have been dropped. */
    method ScaleDelta(x: nat, shift: nat, k: nat, top: nat, ghost n: nat) returns (y: nat)
      requires top - accvarMsb - shift == n - k && n < UINT
      ensures y == ScaleUp(x, n)
    {
      var deltaShift, accvarShift := (shift - k) % UINT, (top - accvarMsb) % UINT;
      ShiftCount(top - accvarMsb, shift, k, n);
      y := ScaleUp(x, (accvarShift - deltaShift) % UINT);
    }

    /** Accumulate the variance. */
    method Add(x: nat)
      modifies `accvar, `accvarMsb
      ensures Variation() == Added(old(Variation()), x, TOP)
    {
      Pow2Long();
      accvar := accvar + x;
      if accvar >= LONG {
        accvar, accvarMsb := accvar / 2, accvarMsb + 1;
      }
    }

    /** Scale both deltas to half of a long long, and add their product if neither is zero. */
    method Vary(pre: int, post: int)
      requires Deltas(pre, post) && meanMsb + 32 <= TOP && Normal(Variation(), TOP) && accvarMsb < 64
      modifies `accvar, `accvarMsb
      ensures Variation() == Varied(old(Variation()), pre, post, Below(meanMsb + 32, TOP), TOP)
    {
      var p, q := pre / UINT, post / UINT;
      DeltaFits(pre, post);
      if p != 0 && q != 0 {
        var d, shift := p * q, 2 * (MeanShift() - 32);
        MsbBounds(d, shift, TOP);
        var x := Align(d, shift, TOP);
        Add(x);
      }
    }

    /** The accumulated variance after the mean has been updated from a state with another scale. */
    method Extend(pre: int, post: int, ghost msb: nat, ghost most: nat, ghost same: bool)
      requires Deltas(pre, post) && accvarMsb < 64 && Bounded(msb, most, same, Variation(), samples, 32, TOP)
      requires count > 0 && Follows(msb, meanMsb, hi, 32, TOP) && most <= hi && (lo == hi ==> same && post == 0)
      modifies `accvar, `accvarMsb, `samples
      ensures Variation() == Varied(old(Variation()), pre, post, Below(meanMsb + 32, TOP), TOP)
      ensures Steady() && samples == old(samples) + 1
    {
      DeltaFits(pre, post);
      VariedBounded(msb, meanMsb, most, hi, same, lo == hi, Variation(), samples, pre, post, 32, TOP);
      Vary(pre, post);
      samples := samples + 1;
    }

    /** The mean, for samples below 2^31. */
    method Move(sample: nat) returns (pre: int, post: int)
      requires Valid() && sample < Pow2(31) && meanMsb + 32 <= TOP
      modifies `count, `mean, `meanMsb, `lo, `hi
      ensures Valid() && count > 0 && Value() == Counted(Coarser(old(Value()), sample), sample)
      ensures Extremes(old(count) == 0, old(lo), old(hi), sample, lo, hi) && Follows(old(meanMsb), meanMsb, hi, 32, TOP)
      ensures Deltas(pre, post) && (lo == hi ==> post == 0)
      ensures pre == PreDelta(old(Value()), sample) && post == PostDelta(old(Value()), sample)
    {
      Pow2Monotone(31, TOP);
      CoarserMsb(Value(), sample, 32, TOP);
      pre, post := Update(sample);
    }

    /** profile_update(), for samples below 2^31. */
    method Record(sample: nat) returns (ghost pre: int, ghost post: int)
      requires Valid() && Steady() && sample < Pow2(31) && accvarMsb < 64
      modifies this
      ensures Valid() && count > 0 && Value() == Counted(Coarser(old(Value()), sample), sample)
      ensures Extremes(old(count) == 0, old(lo), old(hi), sample, lo, hi)
      ensures pre == PreDelta(old(Value()), sample) && post == PostDelta(old(Value()), sample)
      ensures Variation() == Varied(old(Variation()), pre, post, Below(meanMsb + 32, TOP), TOP)
      ensures Steady() && samples == old(samples) + 1
    {
      ghost var most, same := if count == 0 then 0 else hi, count == 0 || lo == hi;
      var p, q := Move(sample);
      Extend(p, q, old(meanMsb), most, same);
      pre, post := p, q;
    }

    /** What a caller needs to know of it. */
    method Observe(sample: nat)
      requires Valid() && Steady() && sample < Pow2(31) && accvarMsb < 64
      modifies this
      ensures Valid() && Steady() && count > 0 && samples == old(samples) + 1
      ensures Extremes(old(count) == 0, old(lo), old(hi), sample, lo, hi)
    {
      ghost var pre, post;
      pre, post := Record(sample);
    }

    /**
    profile_variance(), to the nearest unit; zero for fewer than two samples and for samples that are all the same.
    */
    method Variance() returns (r: nat)
      requires Valid() && Steady() && (count >= 2 ==> accvarMsb < TOP)
      ensures count < 2 || lo == hi ==> r == 0
      ensures count >= 2 ==> IsNearest(r, Share(accvar, count - 1), TOP - accvarMsb)
    {
      if count < 2 { return 0; }
      var share, shift := Share(accvar, count - 1), TOP - accvarMsb;
      r := Nearest(share, shift);
      NearestIs(share, shift);
      if lo == hi { NearestZero(shift); }
    }

    /**
    With n samples below 2^b so far, and n * 4^b below 2^62, the variance can be computed and another sample
    recorded.
    */
    lemma Defined(b: nat)
      requires Steady() && b > 0 && (count > 0 ==> hi < Pow2(b)) && Few(samples, b)
      ensures accvarMsb < TOP
    {
      FewSamples(meanMsb, if count == 0 then 0 else hi, count == 0 || lo == hi, Variation(), samples, b, 32, TOP);
    }

    /** profile_mean(): between the smallest and the largest sample. */
    method Mean() returns (m: nat)
      requires Valid()
      ensures m == Nearest(mean, MeanShift()) && (count > 0 ==> lo <= m <= hi)
    {
      var shift := MeanShift();
      m := Nearest(mean, shift);
      if count > 0 { Rounded(lo, mean, hi, shift); }
    }
  }

  /** An equal share of x, rounded down. */
  function Share(x: nat, n: nat): (r: nat)
    requires n > 0
    ensures r * n <= x < r * n + n
  {
    ShareBounds(x, n);
    x / n
  }

  lemma ShareBounds(x: nat, n: nat)
    requires n > 0
    ensures 0 <= x / n && x / n * n <= x < x / n * n + n
  {
    assert x == x / n * n + x % n;
  }

  /** Within half a unit of x / 2^shift. */
  predicate IsNearest(r: nat, x: nat, shift: nat)
    requires shift > 0
  {
    r * Pow2(shift) <= x + Pow2(shift - 1) < r * Pow2(shift) + Pow2(shift)
  }

  lemma NearestIs(x: nat, shift: nat)
    requires shift > 0
    ensures IsNearest(Nearest(x, shift), x, shift)
  {
    var p, y := Pow2(shift), x + Pow2(shift - 1);
    assert y == y / p * p + y % p;
  }

  lemma NearestZero(shift: nat)
    requires shift > 0
    ensures Nearest(0, shift) == 0
  {
    ModUnique(Pow2(shift - 1), 0, Pow2(shift - 1), Pow2(shift));
  }

  /** Smallest and largest of the samples. */
  predicate AreExtremes(xs: seq<nat>, lo: nat, hi: nat) {
    lo in xs && hi in xs && forall x :: x in xs ==> lo <= x <= hi
  }

  lemma ExtremesMore(xs: seq<nat>, x: nat, lo: nat, hi: nat, lo': nat, hi': nat)
    requires xs != [] ==> AreExtremes(xs, lo, hi)
    requires Extremes(xs == [], lo, hi, x, lo', hi')
    ensures AreExtremes(xs + [x], lo', hi')
  {
  }

  /** The sum of n squares of numbers below 2^b is below 2^62. */
  predicate Few(n: nat, b: nat) {
    n * Pow2(2 * b) < Pow2(TOP)
  }

  lemma Fewer(n: nat, k: nat, b: nat)
    requires k <= n && Few(n, b)
    ensures Few(k, b)
  {
    AtLeast(n, k, Pow2(2 * b));
  }

  /** Record a sample below 2^b, given that there is room for it. */
  method RecordNext(p: Profiler, x: nat, b: nat, ghost xs: seq<nat>)
    requires p.Holds(xs) && 0 < b <= 31 && x < Pow2(b) && Few(|xs| + 1, b)
    requires forall k :: 0 <= k < |xs| ==> xs[k] < Pow2(b)
    modifies p
    ensures p.Holds(xs + [x])
  {
    Pow2Monotone(b, 31);
    ghost var lo, hi := p.lo, p.hi;
    p.Observe(x);
    ExtremesMore(xs, x, lo, hi, p.lo, p.hi);
    p.Defined(b);
  }

  /** Every run over samples below 2^b: the variance can be computed if there are not too many of them. */
  method RecordAll(xs: seq<nat>, b: nat) returns (p: Profiler)
    requires 0 < b <= 31 && Few(|xs|, b) && forall k :: 0 <= k < |xs| ==> xs[k] < Pow2(b)
    ensures p.Holds(xs)
  {
    p := new Profiler();
    var k := 0;
    while k < |xs|
      invariant 0 <= k <= |xs| && fresh(p) && p.Holds(xs[..k])
    {
      assert xs[..k + 1] == xs[..k] + [xs[k]];
      Fewer(|xs|, k + 1, b);
      RecordNext(p, xs[k], b, xs[..k]);
      k := k + 1;
    }
    assert xs[..k] == xs;
  }

  /** Rounding to nearest stays within the bounds. */
  lemma Rounded(lo: nat, x: nat, hi: nat, shift: nat)
    requires Between(lo, x, hi, shift) && shift > 0
    ensures lo <= Nearest(x, shift) <= hi
  {
    var p, h := Pow2(shift), Pow2(shift - 1);
    var m := (x + h) / p;
    assert x + h == m * p + (x + h) % p;
    if m < lo { Exceeds(lo, m, p); }
    if m > hi { Exceeds(m, hi, p); }
  }
}
