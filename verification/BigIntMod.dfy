/** Modular multiplication by shift and subtract, and modular exponentiation by squaring. */
module BigIntMod {
  import opened Powers
  import opened BigInt

  /** bigint_grow() */
  method Grow(source: array<Word>, dest: array<Word>)
    requires source.Length <= dest.Length && source != dest
    modifies dest
    ensures Val(dest[..]) == Val(source[..])
  {
    var n := source.Length;
    var i := 0;
    while i < n
      invariant 0 <= i <= n && forall j :: 0 <= j < i ==> dest[j] == source[j]
    {
      dest[i] := source[i];
      i := i + 1;
    }
    while i < dest.Length
      invariant n <= i <= dest.Length && forall j :: 0 <= j < n ==> dest[j] == source[j]
      invariant forall j :: n <= j < i ==> dest[j] == 0
    {
      dest[i] := 0;
      i := i + 1;
    }
    ghost var s := dest[..];
    assert s[..n] == source[..];
    ValZero(s[n..]);
    ValSplit(s, n);
  }

  /** bigint_shrink() */
  method Shrink(source: array<Word>, dest: array<Word>)
    requires dest.Length <= source.Length && source != dest && Val(source[..]) < BPow(dest.Length)
    modifies dest
    ensures Val(dest[..]) == Val(source[..])
  {
    var n := dest.Length;
    var i := 0;
    while i < n
      invariant 0 <= i <= n && forall j :: 0 <= j < i ==> dest[j] == source[j]
    {
      dest[i] := source[i];
      i := i + 1;
    }
    ghost var s := source[..];
    assert dest[..] == s[..n];
    ValSplit(s, n);
    SmallTail(Val(s[..n]), Val(s[n..]), BPow(n));
  }

  lemma SmallTail(low: nat, high: nat, p: nat)
    requires low + p * high < p
    ensures high == 0
  {
  }

  // ---------------------------------------------------------------------
  // Rescaling the modulus
  // ---------------------------------------------------------------------

  /** A number with as many bits as another is less than twice as large. */
  lemma SameBits(x: nat, y: nat)
    requires y > 0 && Fls(x) <= Fls(y)
    ensures x < 2 * y
  {
  }

  lemma FewerBits(x: nat, y: nat)
    requires Fls(x) < Fls(y)
    ensures x < y
  {
  }

  lemma ScaledBits(m: nat, k: nat)
    requires m > 0
    ensures Fls(m * Pow2(k)) == Fls(m) + k && m * Pow2(k) > 0
  {
    FlsCovers(m);
    var n := Fls(m);
    Pow2Add(n, k);
    Pow2Add(n - 1, k);
    Exceeds(Pow2(n), m, Pow2(k));
    AtLeast(m, Pow2(n - 1), Pow2(k));
    FlsUnique(m * Pow2(k), n + k);
  }

  lemma BitsFit(x: nat, y: nat, n: nat)
    requires Fls(x) <= Fls(y) && y < Pow2(n)
    ensures x < Pow2(n)
  {
  }

  /** The rescaled modulus has no more bits than the buffer. */
  lemma ScaledFits(m: nat, k: nat, product: nat, size: nat)
    requires m > 0 && Fls(m) + k <= Fls(product) && product < BPow(size)
    ensures m * Pow2(k) < BPow(size)
  {
    ScaledBits(m, k);
    BPowIsPow2(size);
    BitsFit(m * Pow2(k), product, 32 * size);
  }

  lemma NoCarry(v: nat, carry: nat, p: nat, total: nat)
    requires v + carry * p == total < p
    ensures carry == 0
  {
  }

  lemma DoubleScale(m: nat, k: nat)
    ensures 2 * (m * Pow2(k)) == m * Pow2(k + 1)
  {
  }

  /** The rescaling loop: the modulus shifted left as far as the product reaches, without overflow. */
  method Rescale(tm: array<Word>, rotation: nat, ghost m: nat, ghost product: nat)
    requires m > 0 && Val(tm[..]) == m && Fls(m) + rotation <= Fls(product) && product < BPow(tm.Length)
    modifies tm
    ensures Val(tm[..]) == m * Pow2(rotation)
  {
    var i := 0;
    while i < rotation
      invariant 0 <= i <= rotation && Val(tm[..]) == m * Pow2(i)
    {
      ghost var v := Val(tm[..]);
      ghost var carry := Rol(tm);
      DoubleScale(m, i);
      ScaledFits(m, i + 1, product, tm.Length);
      NoCarry(Val(tm[..]), carry, BPow(tm.Length), 2 * v);
      i := i + 1;
    }
  }

  // ---------------------------------------------------------------------
  // Subtracting multiples of the modulus
  // ---------------------------------------------------------------------

  lemma SubtractMultiple(r: int, m: int, p: int)
    requires m > 0
    ensures (r - m * p) % m == r % m
  {
    ModMultiple(r, -p, m);
    assert r + (-p) * m == r - m * p;
  }

  lemma Halve(m: nat, k: nat)
    requires k > 0
    ensures m * Pow2(k) / 2 == m * Pow2(k - 1)
  {
  }

  /** One iteration: subtract the scaled modulus if possible, then scale it down. */
  method ReduceStep(tr: array<Word>, tm: array<Word>, ghost m: nat, ghost k: nat)
    requires tr.Length == tm.Length && tr != tm && m > 0
    requires Val(tm[..]) == m * Pow2(k) && Val(tr[..]) < 2 * Val(tm[..])
    modifies tr, tm
    ensures Val(tr[..]) % m == old(Val(tr[..])) % m && Val(tr[..]) < m * Pow2(k)
    ensures k > 0 ==> Val(tm[..]) == m * Pow2(k - 1) && Val(tr[..]) < 2 * Val(tm[..])
  {
    ghost var p, r := m * Pow2(k), Val(tr[..]);
    var geq := IsGeq(tr, tm);
    if geq {
      ghost var borrow := Subtract(tm, tr);
      ValBound(tr[..]);
      NoBorrow(Val(tr[..]), p, r, borrow, BPow(tr.Length));
      SubtractMultiple(r, m, Pow2(k));
    }
    Ror(tm);
    if k > 0 {
      Halve(m, k);
      DoubleScale(m, k - 1);
    }
  }

  /** The loop from the highest multiple of the modulus down to the modulus itself. */
  method Reduce(tr: array<Word>, tm: array<Word>, rotation: nat, ghost m: nat)
    requires tr.Length == tm.Length && tr != tm && m > 0
    requires Val(tm[..]) == m * Pow2(rotation) && Val(tr[..]) < 2 * Val(tm[..])
    modifies tr, tm
    ensures Val(tr[..]) == old(Val(tr[..])) % m
  {
    var i := 0;
    while i <= rotation
      invariant 0 <= i <= rotation + 1 && Val(tr[..]) % m == old(Val(tr[..])) % m
      invariant if i <= rotation then Val(tm[..]) == m * Pow2(rotation - i) && Val(tr[..]) < 2 * Val(tm[..])
                else Val(tr[..]) < m
    {
      ReduceStep(tr, tm, m, rotation - i);
      assert i == rotation ==> m * Pow2(0) == m;
      i := i + 1;
    }
    SmallMod(Val(tr[..]), m);
  }

  lemma SmallMod(x: nat, m: nat)
    requires x < m
    ensures x % m == x
  {
  }

  /** Rescale the modulus to match the product, then subtract its multiples. */
  method ReduceProduct(tr: array<Word>, tm: array<Word>, ghost m: nat)
    requires tr.Length == tm.Length && tr != tm && m > 0 && Val(tm[..]) == m
    modifies tr, tm
    ensures Val(tr[..]) == old(Val(tr[..])) % m
  {
    ghost var product := Val(tr[..]);
    var top := MaxSetBit(tr);
    var bits := MaxSetBit(tm);
    if top >= bits {
      ValBound(tr[..]);
      Rescale(tm, top - bits, m, product);
      ScaledBits(m, top - bits);
      SameBits(product, m * Pow2(top - bits));
      Reduce(tr, tm, top - bits, m);
    } else {
      FewerBits(product, m);
      SmallMod(product, m);
    }
  }

  /** bigint_mod_multiply() */
  method ModMultiply(a: array<Word>, b: array<Word>, modulus: array<Word>, result: array<Word>)
    requires a.Length == b.Length == modulus.Length == result.Length && Val(modulus[..]) > 0
    modifies result
    ensures Val(result[..]) == old(Val(a[..]) * Val(b[..]) % Val(modulus[..]))
  {
    var n := modulus.Length;
    ghost var m, product := Val(modulus[..]), Val(a[..]) * Val(b[..]);
    var tr := new Word[2 * n](i => 0);
    var tm := new Word[2 * n](i => 0);
    Multiply(a, b, tr);
    Grow(modulus, tm);
    ReduceProduct(tr, tm, m);
    ValBound(modulus[..]);
    Shrink(tr, result);
    assert Val(result[..]) == product % m;
  }

  // ---------------------------------------------------------------------
  // Exponentiation
  // ---------------------------------------------------------------------

  function Exp(x: nat, k: nat): nat {
    if k == 0 then 1 else x * Exp(x, k - 1)
  }

  lemma {:induction false} ExpSquare(x: nat, k: nat)
    ensures Exp(x, 2 * k) == Exp(x * x, k)
  {
    if k > 0 {
      ExpSquare(x, k - 1);
      Regroup(x, x, Exp(x, 2 * (k - 1)));
      assert Exp(x, 2 * k) == x * Exp(x, 2 * k - 1);
      assert Exp(x, 2 * k - 1) == x * Exp(x, 2 * k - 2);
    }
  }

  ghost predicate Congruent(x: nat, y: nat, m: nat)
    requires m > 0
  {
    x % m == y % m
  }

  /** Congruence is kept by multiplication. */
  lemma CongruentMul(x: nat, y: nat, z: nat, m: nat)
    requires m > 0 && Congruent(x, y, m)
    ensures Congruent(x * z, y * z, m)
  {
    var p, q, r := x / m, y / m, x % m;
    assert x == p * m + r && y == q * m + r;
    Expand(p, m, r, z);
    Expand(q, m, r, z);
    ModMultiple(r * z, p * z, m);
    ModMultiple(r * z, q * z, m);
  }

  lemma Expand(p: int, m: int, r: int, z: int)
    ensures (p * m + r) * z == r * z + (p * z) * m
  {
  }

  lemma CongruentMod(x: nat, m: nat)
    requires m > 0
    ensures Congruent(x % m, x, m)
  {
  }

  lemma {:induction false} CongruentExp(x: nat, y: nat, k: nat, m: nat)
    requires m > 0 && Congruent(x, y, m)
    ensures Congruent(Exp(x, k), Exp(y, k), m)
  {
    if k > 0 {
      CongruentExp(x, y, k - 1, m);
      CongruentMul(x, y, Exp(x, k - 1), m);
      CongruentMul(Exp(x, k - 1), Exp(y, k - 1), y, m);
    }
  }

  /** What is still to be multiplied, after one step of square and multiply. */
  lemma ExpStep(r: nat, b: nat, e: nat, m: nat, r': nat, b': nat)
    requires m > 0 && e > 0 && b' == b * b % m && r' == if e % 2 == 1 then r * b % m else r
    ensures Congruent(r' * Exp(b', e / 2), r * Exp(b, e), m)
  {
    var k := e / 2;
    ExpSquare(b, k);
    CongruentMod(b * b, m);
    CongruentExp(b', b * b, k, m);
    CongruentMul(Exp(b', k), Exp(b * b, k), r', m);
    if e % 2 == 1 {
      assert Exp(b, e) == b * Exp(b, 2 * k);
      CongruentMod(r * b, m);
      CongruentMul(r', r * b, Exp(b * b, k), m);
      Regroup(r, b, Exp(b * b, k));
    }
  }

  method Copy(source: array<Word>, dest: array<Word>)
    requires source.Length == dest.Length
    modifies dest
    ensures dest[..] == old(source[..])
  {
    var i := 0;
    while i < dest.Length
      invariant 0 <= i <= dest.Length && forall j :: 0 <= j < i ==> dest[j] == old(source[j])
      invariant forall j :: i <= j < dest.Length ==> source[j] == old(source[j])
    {
      dest[i] := source[i];
      i := i + 1;
    }
  }

  /** bigint_init() with the value one. */
  method SetOne(v: array<Word>)
    requires v.Length > 0
    modifies v
    ensures Val(v[..]) == 1
  {
    Clear(v);
    ghost var s := v[..];
    ValUpdate(s, 0, 1);
    ValZero(s);
    v[0] := 1;
    assert v[..] == s[0 := 1];
  }

  lemma LowBit(s: seq<Word>)
    requires s != []
    ensures Val(s) % 2 == s[0] % 2
  {
  }

  /** bigint_bit_is_set() for the lowest bit. */
  method LowBitSet(v: array<Word>) returns (odd: bool)
    requires v.Length > 0
    ensures odd == (Val(v[..]) % 2 == 1)
  {
    LowBit(v[..]);
    odd := v[0] % 2 == 1;
  }

  /** The result of square and multiply: an unreduced one if there was nothing to multiply. */
  function PowerMod(b: nat, e: nat, m: nat): nat
    requires m > 0
  {
    if e == 0 then 1 else Exp(b, e) % m
  }

  /** It is the power modulo m, except for modulus one with exponent zero. */
  lemma PowerModIff(b: nat, e: nat, m: nat)
    requires m > 0
    ensures PowerMod(b, e, m) == Exp(b, e) % m <==> !(m == 1 && e == 0)
  {
  }

  /** The loop invariant of square and multiply: r and b^e are what is left of the power. */
  ghost predicate Powering(r: nat, b: nat, e: nat, m: nat, b0: nat, e0: nat)
    requires m > 0
  {
    && Congruent(r * Exp(b, e), Exp(b0, e0), m)
    && (r < m || (r == 1 && (e0 > 0 ==> e > 0)))
  }

  lemma PoweringStep(r: nat, b: nat, e: nat, m: nat, b0: nat, e0: nat, r': nat, b': nat)
    requires m > 0 && e > 0 && Powering(r, b, e, m, b0, e0)
    requires b' == b * b % m && r' == if e % 2 == 1 then r * b % m else r
    ensures Powering(r', b', e / 2, m, b0, e0)
  {
    ExpStep(r, b, e, m, r', b');
  }

  lemma PoweringDone(r: nat, b: nat, m: nat, b0: nat, e0: nat)
    requires m > 0 && Powering(r, b, 0, m, b0, e0) && (e0 == 0 ==> r == 1)
    ensures r == PowerMod(b0, e0, m)
  {
  }

  /** One iteration of bigint_mod_exp(). */
  method ExpIteration(result: array<Word>, tb: array<Word>, te: array<Word>, modulus: array<Word>)
    requires result.Length == tb.Length == modulus.Length && Val(modulus[..]) > 0
    requires result != tb && result != te && tb != te && modulus != result && modulus != tb && modulus != te
    requires Val(te[..]) > 0
    modifies result, tb, te
    ensures Val(te[..]) == old(Val(te[..])) / 2 && Val(tb[..]) == old(Val(tb[..]) * Val(tb[..])) % Val(modulus[..])
    ensures Val(result[..]) == old(if Val(te[..]) % 2 == 1 then Val(result[..]) * Val(tb[..]) % Val(modulus[..])
            else Val(result[..]))
  {
    var odd := LowBitSet(te);
    if odd {
      ModMultiply(result, tb, modulus, result);
    }
    Ror(te);
    ModMultiply(tb, tb, modulus, tb);
  }

  /** bigint_mod_exp() */
  method ModExp(base: array<Word>, modulus: array<Word>, exponent: array<Word>, result: array<Word>)
    requires base.Length == modulus.Length == result.Length > 0 && Val(modulus[..]) > 0
    requires result != modulus
    modifies result
    ensures Val(result[..]) == old(PowerMod(Val(base[..]), Val(exponent[..]), Val(modulus[..])))
  {
    ghost var b0, e0, m := Val(base[..]), Val(exponent[..]), Val(modulus[..]);
    var tb := new Word[base.Length](i => 0);
    var te := new Word[exponent.Length](i => 0);
    Copy(base, tb);
    Copy(exponent, te);
    SetOne(result);
    var zero := IsZero(te);
    while !zero
      invariant zero == (Val(te[..]) == 0) && Val(modulus[..]) == m && (e0 == 0 ==> zero && Val(result[..]) == 1)
      invariant Powering(Val(result[..]), Val(tb[..]), Val(te[..]), m, b0, e0)
      decreases Val(te[..])
    {
      ghost var r, b, e := Val(result[..]), Val(tb[..]), Val(te[..]);
      ExpIteration(result, tb, te, modulus);
      PoweringStep(r, b, e, m, b0, e0, Val(result[..]), Val(tb[..]));
      zero := IsZero(te);
    }
    PoweringDone(Val(result[..]), Val(tb[..]), m, b0, e0);
  }
}
