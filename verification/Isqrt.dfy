/** isqrt.c: integer square root, bit by bit. */
module Isqrt {
  import opened Powers

  const ULONG: nat := 0x1_0000_0000_0000_0000

  /** The bit under test when the root is known down to 2^j: 4^(j-1), or zero at the end. */
  function BitAt(j: nat): nat {
    if j == 0 then 0 else Pow2(j - 1) * Pow2(j - 1)
  }

  /** The root so far, and what is left of the value; the true root is less than 2^j further on. */
  ghost predicate Searching(x: nat, root: nat, j: nat, value: nat, result: nat) {
    var p := Pow2(j);
    && root * root + value == x && x < (root + p) * (root + p) && result == root * p
    && j <= 32 && root + p <= Pow2(32)
  }

  lemma BitShift(j: nat)
    requires j > 0
    ensures BitAt(j) / 4 == BitAt(j - 1) && BitAt(j) > 0
  {
  }

  lemma Square(root: nat, q: nat)
    ensures (root + q) * (root + q) == root * root + (root * (2 * q) + q * q)
  {
  }

  lemma Half(root: nat, q: nat)
    ensures root * (2 * q) / 2 == root * q
  {
  }

  lemma Spread(root: nat, q: nat)
    ensures (root + q) * q == root * q + q * q
  {
  }

  /** The next bit belongs to the root. */
  lemma TakeBit(x: nat, root: nat, j: nat, value: nat, result: nat)
    requires j > 0 && Searching(x, root, j, value, result) && value >= result + BitAt(j)
    ensures Searching(x, root + Pow2(j - 1), j - 1, value - (result + BitAt(j)), result / 2 + BitAt(j))
  {
    var q := Pow2(j - 1);
    Square(root, q);
    Half(root, q);
    Spread(root, q);
    assert root + q + q == root + Pow2(j);
  }

  /** It does not. */
  lemma SkipBit(x: nat, root: nat, j: nat, value: nat, result: nat)
    requires j > 0 && Searching(x, root, j, value, result) && value < result + BitAt(j)
    ensures Searching(x, root, j - 1, value, result / 2)
  {
    Square(root, Pow2(j - 1));
    Half(root, Pow2(j - 1));
  }

  lemma NoOverflow(x: nat, root: nat, j: nat, value: nat, result: nat)
    requires j > 0 && Searching(x, root, j, value, result)
    ensures result + BitAt(j) < ULONG
  {
    var q := Pow2(j - 1);
    Square(root, q);
    Pow2Word();
    assert root + q < Pow2(32);
    Below(root + q, Pow2(32));
  }

  lemma Below(a: nat, b: nat)
    requires a < b
    ensures a * a < b * b
  {
  }

  lemma Pow2Word()
    ensures Pow2(32) == 0x1_0000_0000 && Pow2(31) == 0x8000_0000
  {
    assert Pow2(8) == 256;
    Pow2Add(8, 8);
    Pow2Add(16, 16);
    assert Pow2(32) == 2 * Pow2(31);
  }

  /** The first loop: start at the highest power of four that is not above the value. */
  method Highest(x: nat) returns (bit: nat, ghost j: nat)
    requires x < ULONG
    ensures bit == BitAt(j) && Searching(x, 0, j, x, 0)
  {
    Pow2Word();
    bit, j := 0x4000_0000_0000_0000, 32;
    while bit > x
      invariant bit == BitAt(j) && Searching(x, 0, j, x, 0)
      decreases bit
    {
      BitShift(j);
      SkipBit(x, 0, j, x, 0);
      bit, j := bit / 4, j - 1;
    }
  }

  /** One bit of the root. */
  method TestBit(value: nat, result: nat, bit: nat, ghost x: nat, ghost root: nat, ghost j: nat)
    returns (value': nat, result': nat, ghost root': nat)
    requires j > 0 && bit == BitAt(j) && Searching(x, root, j, value, result)
    ensures Searching(x, root', j - 1, value', result')
  {
    NoOverflow(x, root, j, value, result);
    if value >= result + bit {
      TakeBit(x, root, j, value, result);
      value', result', root' := value - (result + bit), result / 2 + bit, root + Pow2(j - 1);
    } else {
      SkipBit(x, root, j, value, result);
      value', result', root' := value, result / 2, root;
    }
  }

  lemma BitZero(j: nat)
    ensures BitAt(j) == 0 <==> j == 0
  {
  }

  /** isqrt() */
  method Root(x: nat) returns (result: nat)
    requires x < ULONG
    ensures result * result <= x < (result + 1) * (result + 1)
  {
    var value: nat, bit: nat := x, 0;
    ghost var j: nat, root: nat := 0, 0;
    bit, j := Highest(x);
    result := 0;
    while bit > 0
      invariant bit == BitAt(j) && Searching(x, root, j, value, result)
      decreases bit
    {
      BitZero(j);
      BitShift(j);
      value, result, root := TestBit(value, result, bit, x, root, j);
      bit, j := bit / 4, j - 1;
    }
    BitZero(j);
  }
}
