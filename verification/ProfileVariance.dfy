/** profile.c: the accumulated variance, in fixed point with a scale of its own. */
module ProfileVariance {
  import opened Powers

  const UINT := 0x1_0000_0000

  /** Right shift. */
  function Shr(x: nat, k: nat): nat
    decreases k
  {
    if k == 0 then x else Shr(x / 2, k - 1)
  }

  /** An accumulated variance, and the most significant bit of its value in original units. */
  datatype Spread = Spread(accvar: nat, msb: nat)

  /** Bit t is the highest one in use, and it is in use unless the scale is still the initial one. */
  predicate Normal(v: Spread, t: nat) {
    v.accvar < 2 * Pow2(t) && (v.msb > 0 ==> Pow2(t) <= v.accvar)
  }

  /** The value in units of 2^-t. */
  function Amount(v: Spread): nat {
    v.accvar * Pow2(v.msb)
  }

  /** The most significant bit of d / 2^shift, or zero. */
  function DeltaMsb(d: nat, shift: nat): nat {
    if Fls(d) > shift + 1 then Fls(d) - 1 - shift else 0
  }

  /** The accumulated variance at a scale that has room for a delta. */
  function Rescaled(v: Spread, msb: nat): Spread {
    if v.msb < msb then Spread(Shr(v.accvar, msb - v.msb), msb) else v
  }

  /** How far bit n is below bit t. */
  function Below(n: nat, t: nat): nat {
    if n <= t then t - n else 0
  }

  /** A delta of d / 2^shift at the scale of v. */
  function Scaled(v: Spread, d: nat, shift: nat, t: nat): nat {
    var msb := DeltaMsb(d, shift);
    Shr(d, Below(msb, v.msb)) * Pow2(Below(shift + msb, t))
  }

  /** The sum; the scale changes when bit t + 1 is reached. */
  function Added(v: Spread, x: nat, t: nat): Spread {
    if v.accvar + x < 2 * Pow2(t) then Spread(v.accvar + x, v.msb) else Spread((v.accvar + x) / 2, v.msb + 1)
  }

  function Accumulated(v: Spread, d: nat, shift: nat, t: nat): Spread {
    Added(Rescaled(v, DeltaMsb(d, shift)), Scaled(v, d, shift, t), t)
  }

  lemma MsbBounds(d: nat, shift: nat, t: nat)
    requires 0 < d <= Pow2(t) && shift <= t
    ensures shift + DeltaMsb(d, shift) <= t && d < Pow2(shift + DeltaMsb(d, shift) + 1)
    ensures DeltaMsb(d, shift) > 0 ==> Pow2(shift + DeltaMsb(d, shift)) <= d
  {
    FlsCovers(d);
    if Fls(d) > t + 1 { Pow2Monotone(t + 1, Fls(d) - 1); }
    Pow2Monotone(Fls(d), shift + DeltaMsb(d, shift) + 1);
  }

  /** What a right shift loses. */
  lemma {:induction false} ShiftLoss(x: nat, k: nat)
    ensures Shr(x, k) * Pow2(k) <= x < Shr(x, k) * Pow2(k) + Pow2(k) && Shr(x, k) <= x
    decreases k
  {
    if k > 0 {
      ShiftLoss(x / 2, k - 1);
      Regroup(Shr(x, k), 2, Pow2(k - 1));
      Regroup(2, Shr(x, k), Pow2(k - 1));
    }
  }

  /** If x is y * q, up to q, then x * p is y * q * p, up to q * p. */
  lemma Stretch(x: nat, y: nat, q: nat, p: nat, qp: nat)
    requires y * q <= x < y * q + q && p > 0 && qp == q * p
    ensures y * qp <= x * p < y * qp + qp
  {
    AtLeast(x, y * q, p);
    Exceeds(y * q + q, x, p);
    Regroup(y, q, p);
    assert (y * q + q) * p == (y * q) * p + q * p;
  }

  lemma RescaledAmount(v: Spread, msb: nat)
    ensures var w := Rescaled(v, msb); w.accvar <= v.accvar && Amount(w) <= Amount(v) < Amount(w) + Pow2(w.msb)
  {
    if v.msb < msb {
      var k := msb - v.msb;
      ShiftLoss(v.accvar, k);
      Pow2Add(k, v.msb);
      Stretch(v.accvar, Shr(v.accvar, k), Pow2(k), Pow2(v.msb), Pow2(msb));
    }
  }

  /** With k bits dropped and b bits added, at a scale that differs by k from the delta's own. */
  lemma ScaledAmount(d: nat, k: nat, b: nat, msb: nat)
    ensures var x := Shr(d, k) * Pow2(b); x * Pow2(k + msb) <= d * Pow2(b + msb) < x * Pow2(k + msb) + Pow2(k + msb + b)
  {
    ShiftLoss(d, k);
    Pow2Add(b, k + msb);
    Pow2Add(k, b + msb);
    assert k + (b + msb) == b + (k + msb) == k + msb + b;
    Stretch(d, Shr(d, k), Pow2(k), Pow2(b + msb), Pow2(k + msb + b));
    Regroup(Shr(d, k), Pow2(b), Pow2(k + msb));
  }

  lemma ScaledBelow(d: nat, k: nat, msb: nat, shift: nat, t: nat)
    requires shift + msb <= t && d < Pow2(shift + msb + 1)
    ensures Shr(d, k) * Pow2(t - shift - msb) < 2 * Pow2(t)
  {
    var b := t - shift - msb;
    ShiftLoss(d, k);
    Exceeds(Pow2(shift + msb + 1), Shr(d, k), Pow2(b));
    Pow2Add(shift + msb + 1, b);
    assert shift + msb + 1 + b == t + 1;
  }

  lemma ScaledAbove(d: nat, msb: nat, shift: nat, t: nat)
    requires shift + msb <= t && Pow2(shift + msb) <= d
    ensures d * Pow2(t - shift - msb) >= Pow2(t)
  {
    var b := t - shift - msb;
    AtLeast(d, Pow2(shift + msb), Pow2(b));
    Pow2Add(shift + msb, b);
    assert shift + msb + b == t;
  }

  /** The sum does not overflow, and it loses at most half a unit when its scale changes. */
  lemma AddedAmount(v: Spread, x: nat, t: nat)
    requires v.accvar < 2 * Pow2(t) && x < 2 * Pow2(t) && (v.msb > 0 ==> Pow2(t) <= v.accvar + x)
    ensures var w := Added(v, x, t);
            Normal(w, t) && v.msb <= w.msb && Amount(w) <= (v.accvar + x) * Pow2(v.msb) <= Amount(w) + Pow2(v.msb)
  {
    var s, p := v.accvar + x, Pow2(v.msb);
    if s >= 2 * Pow2(t) { HalfAmount(s, p); }
  }

  lemma HalfAmount(s: nat, p: nat)
    ensures s / 2 * (2 * p) <= s * p <= s / 2 * (2 * p) + p
  {
    var h := s / 2;
    Regroup(h, 2, p);
    if s == 2 * h + 1 { assert s * p == (h * 2) * p + p; }
  }

  lemma DeltaAmount(v: Spread, d: nat, shift: nat, t: nat)
    requires 0 < d <= Pow2(t) && shift <= t
    ensures shift + DeltaMsb(d, shift) <= t
    ensures var u, x := Rescaled(v, DeltaMsb(d, shift)), Scaled(v, d, shift, t);
            && x < 2 * Pow2(t) && (v.msb < DeltaMsb(d, shift) ==> Pow2(t) <= x)
            && x * Pow2(u.msb) <= d * Pow2(t - shift) < x * Pow2(u.msb) + Pow2(u.msb + t - shift - DeltaMsb(d, shift))
  {
    MsbBounds(d, shift, t);
    var msb := DeltaMsb(d, shift);
    var k := if v.msb < msb then 0 else v.msb - msb;
    ScaledAmount(d, k, t - shift - msb, msb);
    ScaledBelow(d, k, msb, shift, t);
    if v.msb < msb { ScaledAbove(d, msb, shift, t); }
  }

  lemma Distribute(a: nat, b: nat, p: nat)
    ensures (a + b) * p == a * p + b * p
  {
  }

  /**
  The new value is the old one plus d / 2^shift, rounded down by at most three units of what the last bit
  of the delta counts for at the new scale.
  */
  lemma AccumulatedAmount(v: Spread, d: nat, shift: nat, t: nat)
    requires Normal(v, t) && 0 < d <= Pow2(t) && shift <= t
    ensures shift + DeltaMsb(d, shift) <= t
    ensures var w := Accumulated(v, d, shift, t);
            && Normal(w, t) && v.msb <= w.msb && DeltaMsb(d, shift) <= w.msb
            && Amount(w) <= Amount(v) + d * Pow2(t - shift)
            && Amount(v) + d * Pow2(t - shift) <= Amount(w) + 3 * Pow2(w.msb + t - shift - DeltaMsb(d, shift))
  {
    DeltaAmount(v, d, shift, t);
    var msb := DeltaMsb(d, shift);
    var u, x := Rescaled(v, msb), Scaled(v, d, shift, t);
    RescaledAmount(v, msb);
    AddedAmount(u, x, t);
    Distribute(u.accvar, x, Pow2(u.msb));
    var w := Added(u, x, t);
    Losses(u.msb, w.msb, t - shift - msb);
  }

  /** What is lost by rescaling, by dropping bits of the delta, and by halving. */
  lemma Losses(m: nat, n: nat, b: nat)
    requires m <= n
    ensures Pow2(m) + Pow2(m + b) + Pow2(m) <= 3 * Pow2(n + b)
  {
    Pow2Monotone(m, n + b);
    Pow2Monotone(m + b, n + b);
  }

  /** The unsigned subtractions of shift counts come out right, even where one of them wraps around. */
  lemma ShiftCount(top: int, shift: int, k: int, count: nat)
    requires top - shift == count - k && count < UINT
    ensures (top % UINT - (shift - k) % UINT) % UINT == count
  {
    var a, b := top / UINT, (shift - k) / UINT;
    assert top % UINT - (shift - k) % UINT == (b - a) * UINT + count;
    ModUnique(top % UINT - (shift - k) % UINT, b - a, count, UINT);
  }

  /** Both deltas, scaled to half of a long long, and multiplied; zero if either of them is. */
  function Delta(pre: int, post: int): int {
    (pre / UINT) * (post / UINT)
  }

  /** The second is between zero and the first. */
  predicate Toward(pre: int, post: int) {
    if pre >= 0 then 0 <= post <= pre else pre <= post <= 0
  }

  lemma HalfBounds(x: int, h: int)
    requires 0 < h && -(h * UINT) < x < h * UINT
    ensures -h <= x / UINT < h && (x >= 0 <==> x / UINT >= 0)
  {
    assert x == x / UINT * UINT + x % UINT;
  }

  lemma ProductBounds(p: int, q: int, h: int)
    requires -h <= p <= h && -h <= q <= h && (p >= 0 <==> q >= 0)
    ensures 0 <= p * q <= h * h
  {
    if p >= 0 { Product(p, q, h); } else { Product(-p, -q, h); assert p * q == (-p) * (-q); }
  }

  lemma Product(p: nat, q: nat, h: nat)
    requires p <= h && q <= h
    ensures 0 <= p * q <= h * h
  {
    AtLeast(h, p, q);
    AtLeast(h, q, h);
  }

  /** The product of the deltas is never negative, and it is positive unless one of them is zero. */
  lemma DeltaBounds(pre: int, post: int, h: int)
    requires h > 0 && Toward(pre, post) && -(h * UINT) < pre < h * UINT
    ensures 0 <= Delta(pre, post) <= h * h && (Delta(pre, post) == 0 <==> pre / UINT == 0 || post / UINT == 0)
  {
    HalfBounds(pre, h);
    HalfBounds(post, h);
    if pre / UINT != 0 && post / UINT != 0 { ProductBounds(pre / UINT, post / UINT, h); }
  }

  /** The variance after a sample with the given deltas, which are scaled by 2^(shift + 32). */
  function Varied(v: Spread, pre: int, post: int, shift: nat, t: nat): Spread {
    var d := Delta(pre, post);
    if d <= 0 then v else Accumulated(v, d, 2 * shift, t)
  }

  lemma VariedAmount(v: Spread, pre: int, post: int, shift: nat, t: nat)
    requires Normal(v, t) && Delta(pre, post) <= Pow2(t) && 2 * shift <= t
    ensures var w := Varied(v, pre, post, shift, t);
            Normal(w, t) && Amount(w) <= Amount(v) + Pow2(t + (t - 2 * shift)) && (post == 0 ==> w == v)
  {
    var d := Delta(pre, post);
    if d > 0 {
      AccumulatedAmount(v, d, 2 * shift, t);
      AtLeast(Pow2(t), d, Pow2(t - 2 * shift));
      Pow2Add(t, t - 2 * shift);
    }
  }

  /** One more sample, with a scale that has not become finer. */
  lemma BoundStep(before: nat, after: nat, n: nat, bits: nat, bits': nat)
    requires before <= n * Pow2(bits) && bits <= bits' && after <= before + Pow2(bits')
    ensures after <= (n + 1) * Pow2(bits')
  {
    Pow2Monotone(bits, bits');
    AtLeast(Pow2(bits'), Pow2(bits), n);
    Distribute(n, 1, Pow2(bits'));
  }

  /** So few and small deltas have been accumulated that the scale leaves a bit below the point. */
  lemma ScaleBound(v: Spread, n: nat, bits: nat, t: nat)
    requires t > 0 && Normal(v, t) && Amount(v) <= n * Pow2(bits + t) && n * Pow2(bits) < Pow2(t)
    ensures v.msb < t
  {
    if v.msb >= t {
      AtLeast(v.accvar, Pow2(t), Pow2(v.msb));
      Pow2Monotone(t, v.msb);
      AtLeast(Pow2(v.msb), Pow2(t), Pow2(t));
      Pow2Add(bits, t);
      Regroup(n, Pow2(bits), Pow2(t));
      Exceeds(Pow2(t), n * Pow2(bits), Pow2(t));
    }
  }
}
