/** aes_wrap.c keeps one byte of its step counter; for how much data that is the wrapping of RFC 3394. */
module AesWrapCounter {
  import opened Field
  import opened AesWrap
  import Powers

  /** A cipher that does nothing, which leaves only the counters in the register. */
  function Plain(count: (Half, nat) -> Half): Block {
    Block((x, y) => (x, y), (x, y) => (x, y), count)
  }

  lemma PlainPermutation()
    ensures Permutation(Plain(CountByte))
  {
  }

  /** The register after k more counters. */
  function Counted(count: (Half, nat) -> Half, h: Half, from: nat, k: nat): Half {
    if k == 0 then h else count(Counted(count, h, from, k - 1), from + k)
  }

  lemma {:induction false} CountedAdd(count: (Half, nat) -> Half, h: Half, m: nat, k: nat)
    ensures Counted(count, Counted(count, h, 0, m), m, k) == Counted(count, h, 0, m + k)
  {
    if k > 0 { CountedAdd(count, h, m, k - 1); }
  }

  lemma {:induction false} PlainPass(count: (Half, nat) -> Half, s: seq<Half>, n: nat, j: nat, i: nat)
    requires i <= n < |s|
    ensures WrapPass(Plain(count), s, n, j, i) == s[0 := Counted(count, s[0], n * j, i)]
  {
    if i > 0 { PlainPass(count, s, n, j, i - 1); }
  }

  lemma {:induction false} PlainPasses(count: (Half, nat) -> Half, s: seq<Half>, n: nat, j: nat)
    requires n < |s|
    ensures WrapPasses(Plain(count), s, n, j) == s[0 := Counted(count, s[0], 0, n * j)]
  {
    if j > 0 {
      PlainPasses(count, s, n, j - 1);
      PlainPass(count, WrapPasses(Plain(count), s, n, j - 1), n, j - 1, n);
      CountedAdd(count, s[0], n * (j - 1), n);
      assert n * (j - 1) + n == n * j;
    }
  }

  // ---------------------------------------------------------------------
  // The bytes above the lowest one
  // ---------------------------------------------------------------------

  /** 256^k for the bytes of the register other than the lowest. */
  function Unit(k: nat): (u: nat)
    requires 1 <= k <= 7
    ensures u > 0
  {
    if k == 1 then 0x100 else if k == 2 then 0x1_0000 else if k == 3 then 0x100_0000 else if k == 4 then 0x1_0000_0000
    else if k == 5 then 0x100_0000_0000 else if k == 6 then 0x1_0000_0000_0000 else 0x100_0000_0000_0000
  }

  function Byte(h: Half, k: nat): bv8
    requires 1 <= k <= 7
  {
    if k == 1 then h.r.c else if k == 2 then h.r.b else if k == 3 then h.r.a else if k == 4 then h.l.d
    else if k == 5 then h.l.c else if k == 6 then h.l.b else h.l.a
  }

  lemma {:induction false} BytesStay(h: Half, m: nat, k: nat)
    requires 1 <= k <= 7
    ensures Byte(Counted(CountByte, h, 0, m), k) == Byte(h, k)
  {
    if m > 0 { BytesStay(h, m - 1, k); }
  }

  lemma WordByte(h: Half, t: nat, k: nat)
    requires 1 <= k <= 7
    ensures Byte(CountWord(h, t), k) == Xor(Byte(h, k), Digit(t, Unit(k)))
  {
  }

  /** An even number and its successor differ in the lowest byte only. */
  lemma SameDigit(p: nat, u: nat, half: nat)
    requires u == 2 * half && half > 0
    ensures Digit(2 * p, u) == Digit(2 * p + 1, u)
  {
    var q, r := p / half, p % half;
    assert p == q * half + r;
    Twice(q, half, u);
    Powers.ModUnique(2 * p, q, 2 * r, u);
    Powers.ModUnique(2 * p + 1, q, 2 * r + 1, u);
  }

  lemma Twice(q: nat, half: nat, u: nat)
    requires u == 2 * half
    ensures q * u == 2 * (q * half)
  {
  }

  lemma XorTwice(x: bv8, d: bv8, e: bv8)
    ensures Xor(Xor(Xor(x, d), d), e) == Xor(x, e)
  {
  }

  /** Byte k of the register is combined with a digit of the counter. */
  ghost predicate Mixes(count: (Half, nat) -> Half, k: nat, u: nat, h: Half, t: nat)
    requires 1 <= k <= 7 && u > 0
  {
    Byte(count(h, t), k) == Xor(Byte(h, k), Digit(t, u))
  }

  lemma CountedTwo(count: (Half, nat) -> Half, h: Half, m: nat)
    ensures Counted(count, h, 0, m + 2) == count(count(Counted(count, h, 0, m), m + 1), m + 2)
  {
  }

  lemma ZeroDigit(x: bv8, u: nat)
    requires u > 0
    ensures Xor(x, Digit(0, u)) == x
  {
  }

  /** Counters up to an even number cancel in pairs, except for the last. */
  lemma {:induction false} PairsCancel(count: (Half, nat) -> Half, h: Half, p: nat, k: nat, u: nat, half: nat)
    requires 1 <= k <= 7 && u == 2 * half && half > 0 && forall x, t: nat :: Mixes(count, k, u, x, t)
    ensures Byte(Counted(count, h, 0, 2 * p), k) == Xor(Byte(h, k), Digit(2 * p, u))
  {
    if p == 0 {
      ZeroDigit(Byte(h, k), u);
    } else {
      var m := 2 * (p - 1);
      var x := Counted(count, h, 0, m);
      PairsCancel(count, h, p - 1, k, u, half);
      CountedTwo(count, h, m);
      assert Mixes(count, k, u, x, m + 1) && Mixes(count, k, u, count(x, m + 1), m + 2);
      SameDigit(p - 1, u, half);
      XorTwice(Byte(h, k), Digit(m, u), Digit(m + 2, u));
    }
  }

  lemma WordsCancel(h: Half, p: nat, k: nat)
    requires 1 <= k <= 7
    ensures Byte(Counted(CountWord, h, 0, 2 * p), k) == Xor(Byte(h, k), Digit(2 * p, Unit(k)))
  {
    forall x, t: nat ensures Mixes(CountWord, k, Unit(k), x, t) { WordByte(x, t, k); }
    PairsCancel(CountWord, h, p, k, Unit(k), Unit(k) / 2);
  }

  /** The highest byte that a counter beyond 255 reaches. */
  lemma TopDigit(t: nat) returns (k: nat)
    requires 256 <= t < 0x1_0000_0000_0000_0000
    ensures 1 <= k <= 7 && Digit(t, Unit(k)) != 0
  {
    k := if t < 0x1_0000 then 1 else if t < 0x100_0000 then 2
      else if t < 0x1_0000_0000 then 3 else if t < 0x100_0000_0000 then 4
         else if t < 0x1_0000_0000_0000 then 5 else if t < 0x100_0000_0000_0000 then 6 else 7;
    LeadingDigit(t, Unit(k));
  }

  lemma LeadingDigit(t: nat, u: nat)
    requires 0 < u <= t < 256 * u
    ensures Digit(t, u) != 0
  {
  }

  lemma XorChanges(x: bv8, d: bv8)
    requires d != 0
    ensures Xor(x, d) != x
  {
  }

  /** With more than 42 blocks there is a cipher for which the code and RFC 3394 disagree. */
  lemma PlainDiffers(data: seq<Half>)
    requires 255 < 6 * |data| < 0x1_0000_0000_0000_0000
    ensures Wrapped(Plain(CountByte), data) != Wrapped(Plain(CountWord), data)
  {
    var n := 6 * |data|;
    PlainPasses(CountByte, [IV] + data, |data|, 6);
    PlainPasses(CountWord, [IV] + data, |data|, 6);
    var k := TopDigit(n);
    BytesStay(IV, n, k);
    WordsCancel(IV, 3 * |data|, k);
    XorChanges(Byte(IV, k), Digit(n, Unit(k)));
    assert Wrapped(Plain(CountByte), data)[0] == Counted(CountByte, IV, 0, n);
    assert Wrapped(Plain(CountWord), data)[0] == Counted(CountWord, IV, 0, n);
  }

  ghost predicate AsRfc3394(b: Block, data: seq<Half>) {
    Wrapped(b, data) == Wrapped(b.(count := CountWord), data)
  }

  /** Whatever the cipher, the wrapping is that of section 2.2.1 of RFC 3394 exactly when the counter fits in a byte. */
  lemma WrapIsRfc3394Iff(data: seq<Half>)
    requires 6 * |data| < 0x1_0000_0000_0000_0000
    ensures (forall b :: Permutation(b) && b.count == CountByte ==> AsRfc3394(b, data)) <==> 6 * |data| <= 255
  {
    if 6 * |data| <= 255 {
      forall b | Permutation(b) && b.count == CountByte ensures AsRfc3394(b, data) { WrapIsRfc3394(b, data); }
    } else {
      PlainPermutation();
      PlainDiffers(data);
      var b := Plain(CountByte);
      assert b.(count := CountWord) == Plain(CountWord);
      assert !AsRfc3394(b, data);
    }
  }
}
