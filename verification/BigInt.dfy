/** Big integers as arrays of 32-bit elements, least significant first. */
module BigInt {
  import opened Powers

  const B: nat := 0x1_0000_0000

  type Word = x: nat | x < 0x1_0000_0000

  function BPow(n: nat): (r: nat)
    ensures r > 0
  {
    if n == 0 then 1 else B * BPow(n - 1)
  }

  /** The value of a big integer. */
  function Val(s: seq<Word>): nat {
    if s == [] then 0 else s[0] + B * Val(s[1..])
  }

  lemma {:induction false} ValBound(s: seq<Word>)
    ensures Val(s) < BPow(|s|)
  {
    if s != [] { ValBound(s[1..]); }
  }

  /** One more element at the top. */
  lemma {:induction false} ValSnoc(s: seq<Word>, x: Word)
    ensures Val(s + [x]) == Val(s) + x * BPow(|s|)
  {
    if s == [] {
      assert [x][1..] == [];
    } else {
      assert (s + [x])[1..] == s[1..] + [x];
      ValSnoc(s[1..], x);
      Shift(x, BPow(|s| - 1));
    }
  }

  lemma Shift(x: nat, p: nat)
    ensures B * (x * p) == x * (B * p)
  {
  }

  lemma {:induction false} ValSplit(s: seq<Word>, i: nat)
    requires i <= |s|
    ensures Val(s) == Val(s[..i]) + BPow(i) * Val(s[i..])
    decreases i
  {
    if i == 0 {
      assert s[0..] == s && s[..0] == [];
    } else {
      ValSplit(s[1..], i - 1);
      assert s[1..][..i - 1] == s[..i][1..] && s[1..][i - 1..] == s[i..];
      Spread(Val(s[1..][..i - 1]), BPow(i - 1), Val(s[i..]));
    }
  }

  lemma Spread(a: nat, p: nat, v: nat)
    ensures B * (a + p * v) == B * a + (B * p) * v
  {
  }

  /** The next element of a prefix. */
  lemma ValNext(s: seq<Word>, i: nat)
    requires i < |s|
    ensures Val(s[..i + 1]) == Val(s[..i]) + s[i] * BPow(i)
  {
    assert s[..i + 1] == s[..i] + [s[i]];
    ValSnoc(s[..i], s[i]);
  }

  lemma ValTail(s: seq<Word>, i: nat)
    requires i < |s|
    ensures Val(s[i..]) == s[i] + B * Val(s[i + 1..])
  {
  }

  // ---------------------------------------------------------------------
  // Shifting
  // ---------------------------------------------------------------------

  lemma RolStep(done: nat, was: nat, c: nat, p: nat, x: nat, y: nat, c': nat)
    requires done + c * p == 2 * was && y + c' * B == 2 * x + c
    ensures done + y * p + c' * (B * p) == 2 * (was + x * p)
  {
  }

  /** Two buffers agree from an index on. */
  predicate SameFrom(s: seq<Word>, t: seq<Word>, i: nat) {
    |s| == |t| && forall j :: i <= j < |s| ==> s[j] == t[j]
  }

  /** Overwriting the next element extends the prefix. */
  lemma ValStore(s: seq<Word>, i: nat, y: Word)
    requires i < |s|
    ensures Val(s[i := y][..i + 1]) == Val(s[..i]) + y * BPow(i)
  {
    assert s[i := y][..i + 1] == s[..i] + [y];
    ValSnoc(s[..i], y);
  }

  lemma Whole(s: seq<Word>)
    ensures s[..|s|] == s
  {
  }

  /** bigint_rol(): a left shift that loses the top bit. */
  method Rol(v: array<Word>) returns (ghost carry: nat)
    modifies v
    ensures carry <= 1 && Val(v[..]) + carry * BPow(v.Length) == 2 * old(Val(v[..]))
  {
    ghost var s, b := v[..], v[..];
    var c, i := 0, 0;
    while i < v.Length
      invariant 0 <= i <= v.Length && c <= 1 && v[..] == b && SameFrom(b, s, i)
      invariant Val(b[..i]) + c * BPow(i) == 2 * Val(s[..i])
    {
      var d := 2 * v[i] + c;
      var y, c' := if d >= B then d - B else d, if d >= B then 1 else 0;
      RolStep(Val(b[..i]), Val(s[..i]), c, BPow(i), v[i], y, c');
      ValNext(s, i);
      ValStore(b, i, y);
      v[i] := y;
      b := b[i := y];
      c, i := c', i + 1;
    }
    Whole(b);
    Whole(s);
    carry := c;
  }

  lemma RorStep(done: nat, was: nat, c: nat, x: nat, y: nat, c': nat)
    requires 2 * done + c == was && x + c * B == 2 * y + c'
    ensures 2 * (y + B * done) + c' == x + B * was
  {
  }

  lemma ValStoreTail(s: seq<Word>, i: nat, y: Word)
    requires i < |s|
    ensures Val(s[i := y][i..]) == y + B * Val(s[i + 1..])
  {
  }

  predicate SameBelow(s: seq<Word>, t: seq<Word>, i: nat) {
    |s| == |t| && forall j :: 0 <= j < i && j < |s| ==> s[j] == t[j]
  }

  /** An element shifted right, with the carry coming in at the top. */
  function HalveWord(x: Word, c: nat): (y: Word)
    requires c <= 1
    ensures x + c * B == 2 * y + x % 2
  {
    x / 2 + (if c == 1 then 0x8000_0000 else 0)
  }

  /** bigint_ror(): a right shift that loses the bottom bit. */
  method Ror(v: array<Word>)
    modifies v
    ensures Val(v[..]) == old(Val(v[..])) / 2
  {
    ghost var s, b := v[..], v[..];
    var c, i := 0, v.Length;
    while i > 0
      invariant 0 <= i <= v.Length && 0 <= c <= 1 && v[..] == b && SameBelow(b, s, i)
      invariant 2 * Val(b[i..]) + c == Val(s[i..])
    {
      var x := v[i - 1];
      var y, c' := HalveWord(x, c), x % 2;
      RorStep(Val(b[i..]), Val(s[i..]), c, x, y, c');
      ValTail(s, i - 1);
      ValStoreTail(b, i - 1, y);
      v[i - 1] := y;
      b := b[i - 1 := y];
      c, i := c', i - 1;
    }
    assert b[0..] == b && s[0..] == s;
  }

  // ---------------------------------------------------------------------
  // Subtraction and comparison
  // ---------------------------------------------------------------------

  lemma SubStep(done: int, sub: int, was: int, c: int, p: int, x: int, z: int, y: int, c': int)
    requires done + sub == was + c * p && y + z + c == x + c' * B
    ensures done + y * p + (sub + z * p) == was + x * p + c' * (B * p)
  {
  }

  lemma Join(y: int, z: int, c: int, p: int)
    ensures c * p + (y * p + z * p) == (y + z + c) * p
  {
  }

  /** bigint_subtract(): subtraction with borrow, modulo the size of the buffer. */
  method Subtract(subtrahend: array<Word>, v: array<Word>) returns (ghost borrow: nat)
    requires subtrahend.Length == v.Length && subtrahend != v
    modifies v
    ensures borrow <= 1 && Val(v[..]) + Val(subtrahend[..]) == old(Val(v[..])) + borrow * BPow(v.Length)
  {
    ghost var s, b, u := v[..], v[..], subtrahend[..];
    var c, i := 0, 0;
    while i < v.Length
      invariant 0 <= i <= v.Length && 0 <= c <= 1 && v[..] == b && SameFrom(b, s, i)
      invariant Val(b[..i]) + Val(u[..i]) == Val(s[..i]) + c * BPow(i)
    {
      var d := v[i] - subtrahend[i] - c;
      var y, c' := if d < 0 then d + B else d, if d < 0 then 1 else 0;
      SubStep(Val(b[..i]), Val(u[..i]), Val(s[..i]), c, BPow(i), v[i], subtrahend[i], y, c');
      ValNext(s, i);
      ValNext(u, i);
      ValStore(b, i, y);
      v[i] := y;
      b := b[i := y];
      c, i := c', i + 1;
    }
    Whole(b);
    Whole(s);
    Whole(u);
    borrow := c;
  }

  /** Without a borrow, subtraction is exact; that is when the value is at least the subtrahend. */
  lemma NoBorrow(after: nat, sub: nat, before: nat, borrow: nat, p: nat)
    requires borrow <= 1 && after + sub == before + borrow * p && after < p && sub <= before
    ensures after == before - sub
  {
  }

  /** More significant elements decide a comparison. */
  lemma {:induction false} HigherDecides(s: seq<Word>, t: seq<Word>, i: nat)
    requires |s| == |t| && i < |s| && s[i + 1..] == t[i + 1..] && s[i] > t[i]
    ensures Val(s) > Val(t)
  {
    ValSplit(s, i + 1);
    ValSplit(t, i + 1);
    ValNext(s, i);
    ValNext(t, i);
    ValBound(t[..i]);
    Exceeds(s[i], t[i], BPow(i));
  }

  /** bigint_is_geq() */
  method IsGeq(v: array<Word>, reference: array<Word>) returns (geq: bool)
    requires v.Length == reference.Length
    ensures geq == (Val(v[..]) >= Val(reference[..]))
  {
    ghost var s, t := v[..], reference[..];
    var i := v.Length;
    while i > 0
      invariant 0 <= i <= v.Length && s[i..] == t[i..]
    {
      i := i - 1;
      if v[i] != reference[i] {
        if v[i] > reference[i] { HigherDecides(s, t, i); } else { HigherDecides(t, s, i); }
        return v[i] > reference[i];
      }
      assert s[i..] == [s[i]] + s[i + 1..] && t[i..] == [t[i]] + t[i + 1..];
    }
    assert s[0..] == s && t[0..] == t;
    geq := true;
  }

  lemma {:induction false} ValZero(s: seq<Word>)
    ensures Val(s) == 0 <==> forall i :: 0 <= i < |s| ==> s[i] == 0
  {
    if s != [] {
      ValZero(s[1..]);
      if forall i :: 0 <= i < |s| ==> s[i] == 0 { assert forall i :: 0 <= i < |s[1..]| ==> s[1..][i] == s[i + 1]; }
      if Val(s) == 0 { assert forall i :: 0 < i < |s| ==> s[i] == s[1..][i - 1]; }
    }
  }

  /** bigint_is_zero() */
  method IsZero(v: array<Word>) returns (zero: bool)
    ensures zero == (Val(v[..]) == 0)
  {
    ValZero(v[..]);
    var i := 0;
    while i < v.Length
      invariant 0 <= i <= v.Length && forall j :: 0 <= j < i ==> v[..][j] == 0
    {
      if v[i] != 0 {
        assert v[..][i] != 0;
        return false;
      }
      i := i + 1;
    }
    zero := true;
  }

  // ---------------------------------------------------------------------
  // The highest set bit
  // ---------------------------------------------------------------------

  lemma {:induction false} BPowIsPow2(n: nat)
    ensures BPow(n) == Pow2(32 * n)
  {
    if n > 0 {
      BPowIsPow2(n - 1);
      Pow2Add(32, 32 * (n - 1));
      Pow2ThirtyTwo();
    }
  }

  lemma Pow2ThirtyTwo()
    ensures Pow2(32) == B
  {
    assert Pow2(8) == 256;
    Pow2Add(8, 8);
    Pow2Add(16, 16);
  }

  /** The top element decides how many bits there are. */
  lemma TopBits(low: nat, w: nat, k: nat)
    requires w > 0 && low < BPow(k)
    ensures Fls(low + w * BPow(k)) == 32 * k + Fls(w)
  {
    FlsCovers(w);
    BPowIsPow2(k);
    var p, n := Pow2(32 * k), Fls(w);
    Pow2Add(n, 32 * k);
    Pow2Add(n - 1, 32 * k);
    Exceeds(Pow2(n), w, p);
    AtLeast(w, Pow2(n - 1), p);
    FlsUnique(low + w * p, 32 * k + n);
  }

  lemma ValTop(s: seq<Word>, i: nat)
    requires i < |s| && Val(s[i + 1..]) == 0
    ensures Val(s) == Val(s[..i]) + s[i] * BPow(i)
  {
    ValSplit(s, i + 1);
    ValNext(s, i);
  }

  /** bigint_max_set_bit(): one more than the position of the highest set bit, or zero. */
  method MaxSetBit(v: array<Word>) returns (r: nat)
    ensures r == Fls(Val(v[..]))
  {
    ghost var s := v[..];
    var i := v.Length;
    while i > 0 && v[i - 1] == 0
      invariant 0 <= i <= v.Length && Val(s[i..]) == 0
    {
      ValTail(s, i - 1);
      i := i - 1;
    }
    if i == 0 {
      assert s[0..] == s;
      return 0;
    }
    r := 32 * (i - 1) + Fls(v[i - 1]);
    TopElement(s, i - 1);
  }

  /** Nothing is set above element i. */
  lemma TopElement(s: seq<Word>, i: nat)
    requires i < |s| && s[i] > 0 && Val(s[i + 1..]) == 0
    ensures Fls(Val(s)) == 32 * i + Fls(s[i])
  {
    ValTop(s, i);
    ValBound(s[..i]);
    TopBits(Val(s[..i]), s[i], i);
  }

  // ---------------------------------------------------------------------
  // Multiplication
  // ---------------------------------------------------------------------

  /** Adding to one element. */
  lemma ValUpdate(s: seq<Word>, i: nat, y: Word)
    requires i < |s|
    ensures Val(s[i := y]) + s[i] * BPow(i) == Val(s) + y * BPow(i)
  {
    var t := s[i := y];
    ValSplit(s, i + 1);
    ValSplit(t, i + 1);
    ValNext(s, i);
    ValNext(t, i);
    assert t[..i] == s[..i] && t[i + 1..] == s[i + 1..];
  }

  lemma CarryStep(after: nat, before: nat, x: nat, y: nat, d: nat, c: nat, p: nat)
    requires after + x * p == before + y * p && x + d == y + c * B
    ensures after + c * (B * p) == before + d * p
  {
  }

  /** Add d to element k, and return the carry into the next one. */
  method AddElement(r: array<Word>, k: nat, d: nat) returns (c: nat)
    requires k < r.Length && d <= B
    modifies r
    ensures Val(r[..]) + c * BPow(k + 1) == old(Val(r[..])) + d * BPow(k) && c <= 1
  {
    ghost var s := r[..];
    var x := r[k] + d;
    var y;
    if x >= B { y, c := x - B, 1; } else { y, c := x, 0; }
    ValUpdate(s, k, y);
    CarryStep(Val(s[k := y]), Val(s), s[k], y, d, c, BPow(k));
    r[k] := y;
    assert r[..] == s[k := y];
  }

  /** A carry that fits has an element to go to. */
  lemma CarryFits(v: nat, c: nat, i: nat, n: nat)
    requires v + c * BPow(i) < BPow(n) && c > 0 && i <= n
    ensures i < n
  {
    MulAtLeast(c, BPow(i));
  }

  /** Propagate a carry into element k and beyond; there is none beyond the end. */
  method Propagate(r: array<Word>, k: nat, c: nat)
    requires k <= r.Length && c <= 1 && Val(r[..]) + c * BPow(k) < BPow(r.Length)
    modifies r
    ensures Val(r[..]) == old(Val(r[..])) + c * BPow(k)
  {
    var carry: nat, i: nat := c, k;
    while carry != 0
      invariant k <= i <= r.Length && carry <= 1 && Val(r[..]) + carry * BPow(i) == old(Val(r[..])) + c * BPow(k)
      decreases r.Length - i
    {
      CarryFits(Val(r[..]), carry, i, r.Length);
      carry := AddElement(r, i, carry);
      i := i + 1;
    }
  }

  lemma Double(lo: nat, hi: nat, p: nat)
    ensures (lo + hi * B) * p == lo * p + hi * (B * p)
  {
  }

  /** Add a double element at position k, carrying as necessary. */
  method AddProduct(r: array<Word>, k: nat, product: nat)
    requires k + 1 < r.Length && product < B * B && Val(r[..]) + product * BPow(k) < BPow(r.Length)
    modifies r
    ensures Val(r[..]) == old(Val(r[..])) + product * BPow(k)
  {
    var lo, hi := product % B, product / B;
    Double(lo, hi, BPow(k));
    var c := AddElement(r, k, lo);
    ghost var v := Val(r[..]);
    Join(hi, 0, c, BPow(k + 1));
    c := AddElement(r, k + 1, hi + c);
    Propagate(r, k + 2, c);
  }

  lemma {:induction false} BPowAdd(i: nat, j: nat)
    ensures BPow(i + j) == BPow(i) * BPow(j)
  {
    if i > 0 {
      BPowAdd(i - 1, j);
      Regroup(B, BPow(i - 1), BPow(j));
    }
  }

  /** The product after i elements of s and j elements of t for the next one. */
  function Partial(s: seq<Word>, t: seq<Word>, i: nat, j: nat): nat
    requires i < |s| && j <= |t|
  {
    Val(s[..i]) * Val(t) + s[i] * Val(t[..j]) * BPow(i)
  }

  lemma PartialNext(s: seq<Word>, t: seq<Word>, i: nat, j: nat)
    requires i < |s| && j < |t|
    ensures Partial(s, t, i, j + 1) == Partial(s, t, i, j) + s[i] * t[j] * BPow(i + j)
  {
    ValNext(t, j);
    BPowAdd(i, j);
    Products(s[i], Val(t[..j]), t[j], BPow(i), BPow(j));
  }

  lemma Products(x: nat, v: nat, y: nat, p: nat, q: nat)
    ensures x * (v + y * q) * p == x * v * p + x * y * (p * q)
  {
  }

  lemma PartialRow(s: seq<Word>, t: seq<Word>, i: nat)
    requires i < |s|
    ensures Partial(s, t, i, |t|) == Val(s[..i + 1]) * Val(t)
  {
    ValNext(s, i);
    Whole(t);
    Swap(s[i], Val(t), BPow(i));
    SpreadLeft(Val(s[..i]), s[i] * BPow(i), Val(t));
  }

  lemma SpreadLeft(a: nat, b: nat, v: nat)
    ensures (a + b) * v == a * v + b * v
  {
  }

  lemma Swap(x: nat, v: nat, p: nat)
    ensures x * v * p == x * p * v
  {
  }

  lemma PrefixLe(s: seq<Word>, i: nat)
    requires i <= |s|
    ensures Val(s[..i]) <= Val(s)
  {
    ValSplit(s, i);
  }

  lemma MulMonotone(a: nat, b: nat, c: nat, d: nat)
    requires a <= c && b <= d
    ensures a * b <= c * d
  {
  }

  lemma {:induction false} MulStrict(a: nat, b: nat, p: nat)
    requires a < p && b < p
    ensures a * b < p * p
  {
  }

  lemma MulThree(x: nat, a: nat, b: nat, p: nat)
    requires a <= b
    ensures 0 <= x * a * p <= x * b * p
  {
    MulMonotone(x, a, x, b);
    MulMonotone(x * a, p, x * b, p);
  }

  lemma PartialLe(s: seq<Word>, t: seq<Word>, i: nat, j: nat)
    requires i < |s| && j <= |t|
    ensures Partial(s, t, i, j) <= Partial(s, t, i, |t|)
  {
    PrefixLe(t, j);
    Whole(t);
    MulThree(s[i], Val(t[..j]), Val(t), BPow(i));
  }

  /** No partial product exceeds the double-size buffer. */
  lemma PartialBound(s: seq<Word>, t: seq<Word>, i: nat, j: nat)
    requires |s| == |t| && i < |s| && j <= |t|
    ensures Partial(s, t, i, j) < BPow(2 * |s|)
  {
    PartialLe(s, t, i, j);
    PartialRow(s, t, i);
    PrefixLe(s, i + 1);
    MulMonotone(Val(s[..i + 1]), Val(t), Val(s), Val(t));
    ValBound(s);
    ValBound(t);
    MulStrict(Val(s), Val(t), BPow(|s|));
    BPowAdd(|s|, |s|);
  }

  lemma ProductFits(x: Word, y: Word)
    ensures x * y < B * B
  {
    MulStrict(x, y, B);
  }

  method Clear(r: array<Word>)
    modifies r
    ensures Val(r[..]) == 0
  {
    var i := 0;
    while i < r.Length
      invariant 0 <= i <= r.Length && forall j :: 0 <= j < i ==> r[j] == 0
    {
      r[i] := 0;
      i := i + 1;
    }
    ValZero(r[..]);
  }

  /** bigint_multiply() */
  method Multiply(a: array<Word>, b: array<Word>, r: array<Word>)
    requires a.Length == b.Length && r.Length == 2 * a.Length && r != a && r != b
    modifies r
    ensures Val(r[..]) == Val(a[..]) * Val(b[..])
  {
    ghost var s, t := a[..], b[..];
    Clear(r);
    var i := 0;
    assert s[..0] == [];
    while i < a.Length
      invariant 0 <= i <= a.Length && Val(r[..]) == Val(s[..i]) * Val(t)
    {
      MultiplyRow(a, b, r, i);
      i := i + 1;
    }
    Whole(s);
  }

  /** The inner loop: add one element times the other number. */
  method MultiplyRow(a: array<Word>, b: array<Word>, r: array<Word>, i: nat)
    requires a.Length == b.Length && r.Length == 2 * a.Length && r != a && r != b && i < a.Length
    requires Val(r[..]) == Val(a[..][..i]) * Val(b[..])
    modifies r
    ensures Val(r[..]) == Val(a[..][..i + 1]) * Val(b[..])
  {
    ghost var s, t := a[..], b[..];
    var j := 0;
    assert t[..0] == [];
    while j < b.Length
      invariant 0 <= j <= b.Length && Val(r[..]) == Partial(s, t, i, j)
    {
      PartialNext(s, t, i, j);
      PartialBound(s, t, i, j + 1);
      assert s[i] == a[i] && t[j] == b[j];
      ProductFits(a[i], b[j]);
      var x: nat, y: nat := a[i], b[j];
      AddProduct(r, i + j, x * y);
      j := j + 1;
    }
    PartialRow(s, t, i);
  }
}
