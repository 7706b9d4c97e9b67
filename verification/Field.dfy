/** The field GF(2^8) of AES: bytes under XOR and multiplication modulo x^8 + x^4 + x^3 + x + 1. */
module Field {
  import opened Algebra

  /** aes_double(): multiply by x.  The rotation puts the x^8 coefficient in the lowest bit. */
  function Double(poly: bv8): bv8 {
    var p := poly.RotateLeft(1);
    if p & 0x01 != 0 then p ^ 0x01 ^ 0x1b else p
  }

  /** Multiply by (x + 1), the generator used to enumerate the field. */
  function Triple(poly: bv8): bv8 {
    poly ^ Double(poly)
  }

  /** Divide by (x + 1), as aes_generate() does it with shifts. */
  function Third(poly: bv8): bv8 {
    var a := poly ^ (poly << 1);
    var b := a ^ (a << 2);
    var c := b ^ (b << 4);
    if c & 0x80 != 0 then c ^ 0x09 else c
  }

  lemma TripleThird(x: bv8)
    ensures Third(Triple(x)) == x && Triple(Third(x)) == x
  {
  }

  function Xor(x: bv8, y: bv8): bv8 {
    x ^ y
  }

  const BYTES: Space<bv8> := Space(0, Xor, Double)

  function Carry(y: bv8): bv8 {
    if y & 0x80 != 0 then 0x1b else 0
  }

  lemma DoubleParts(y: bv8)
    ensures Double(y) == (y << 1) ^ Carry(y)
  {
  }

  lemma Interchange(p: bv8, q: bv8, r: bv8, s: bv8)
    ensures (p ^ q) ^ (r ^ s) == (p ^ r) ^ (q ^ s)
  {
  }

  lemma DoubleXorBothLow(x: bv8, y: bv8)
    requires x & 0x80 == 0 && y & 0x80 == 0
    ensures Double(x ^ y) == Double(x) ^ Double(y)
  {
  }

  lemma DoubleXorFirstHigh(x: bv8, y: bv8)
    requires x & 0x80 != 0 && y & 0x80 == 0
    ensures Double(x ^ y) == Double(x) ^ Double(y)
  {
  }

  lemma DoubleXorSecondHigh(x: bv8, y: bv8)
    requires x & 0x80 == 0 && y & 0x80 != 0
    ensures Double(x ^ y) == Double(x) ^ Double(y)
  {
  }

  lemma DoubleXorBothHigh(x: bv8, y: bv8)
    requires x & 0x80 != 0 && y & 0x80 != 0
    ensures Double(x ^ y) == Double(x) ^ Double(y)
  {
  }

  lemma DoubleXor(x: bv8, y: bv8)
    ensures Double(x ^ y) == Double(x) ^ Double(y)
  {
    if x & 0x80 == 0 && y & 0x80 == 0 {
      DoubleXorBothLow(x, y);
    } else if x & 0x80 != 0 && y & 0x80 == 0 {
      DoubleXorFirstHigh(x, y);
    } else if x & 0x80 == 0 {
      DoubleXorSecondHigh(x, y);
    } else {
      DoubleXorBothHigh(x, y);
    }
  }

  lemma XorInterchange(p: bv8, q: bv8, r: bv8, s: bv8)
    ensures BYTES.Interchange(p, q, r, s)
  {
    calc {
      BYTES.add(BYTES.add(p, q), BYTES.add(r, s));
      (p ^ q) ^ (r ^ s);
      { Interchange(p, q, r, s); }
      (p ^ r) ^ (q ^ s);
      BYTES.add(BYTES.add(p, r), BYTES.add(q, s));
    }
  }

  lemma XorUnit(x: bv8)
    ensures BYTES.Unit(x) && BYTES.Cancels(x)
  {
  }

  lemma AddIsXor(x: bv8, y: bv8)
    ensures BYTES.add(x, y) == x ^ y
  {
  }

  lemma DoubleAdd(x: bv8, y: bv8)
    ensures Double(x ^ y) == BYTES.add(Double(x), Double(y))
  {
    DoubleXor(x, y);
    AddIsXor(Double(x), Double(y));
  }

  lemma XorLinear(x: bv8, y: bv8)
    ensures BYTES.Linear(x, y)
  {
    DoubleAdd(x, y);
    AddIsXor(x, y);
  }

  lemma BytesLaws()
    ensures Laws(BYTES)
  {
    forall p, q, r, s ensures BYTES.Interchange(p, q, r, s) { XorInterchange(p, q, r, s); }
    forall x ensures BYTES.Unit(x) && BYTES.Cancels(x) { XorUnit(x); }
    forall x, y ensures BYTES.Linear(x, y) { XorLinear(x, y); }
  }

  // ---------------------------------------------------------------------
  // Multiplication
  // ---------------------------------------------------------------------

  function Mask(i: nat): bv8 {
    match i case 0 => 1 case 1 => 2 case 2 => 4 case 3 => 8 case 4 => 16 case 5 => 32 case 6 => 64 case _ => 128
  }

  predicate Bit(y: bv8, i: nat) {
    y & Mask(i) != 0
  }

  function Bits(y: bv8): (bs: seq<bool>)
    ensures |bs| == 8 && forall i :: 0 <= i < 8 ==> bs[i] == Bit(y, i)
  {
    seq(8, i requires i >= 0 => Bit(y, i))
  }

  /** The product in GF(2^8): y as a polynomial, applied to x. */
  function Mul(x: bv8, y: bv8): bv8 {
    Times(BYTES, Bits(y), x)
  }

  /** A mask selects one bit. */
  lemma OneBit(y: bv8, i: nat)
    ensures y & Mask(i) == 0 || y & Mask(i) == Mask(i)
  {
  }

  lemma MaskXor(y: bv8, z: bv8, m: bv8)
    ensures (y ^ z) & m == (y & m) ^ (z & m)
  {
  }

  lemma BitXor(y: bv8, z: bv8, i: nat)
    ensures Bit(y ^ z, i) == (Bit(y, i) != Bit(z, i))
  {
    OneBit(y, i);
    OneBit(z, i);
    MaskXor(y, z, Mask(i));
  }

  lemma BitsXor(y: bv8, z: bv8)
    ensures IsSum(Bits(y ^ z), Bits(y), Bits(z))
  {
    forall i: nat | i < 8 ensures Bits(y ^ z)[i] == (Bits(y)[i] != Bits(z)[i]) {
      BitXor(y, z, i);
    }
  }

  lemma BitShift(y: bv8, i: nat)
    requires i < 7
    ensures Bit(y << 1, i + 1) == Bit(y, i) && !Bit(y << 1, 0)
  {
  }

  lemma BitsShift(y: bv8)
    ensures Bits(y << 1) == [false] + Bits(y)[..7]
    ensures Bits(y) == Bits(y)[..7] + [Bit(y, 7)]
  {
    forall i: nat | i < 7 ensures Bits(y << 1)[i + 1] == Bits(y)[..7][i] {
      BitShift(y, i);
    }
    assert !Bits(y << 1)[0] by { BitShift(y, 0); }
  }

  /** x^8 = x^4 + x^3 + x + 1 */
  lemma Reduction(x: bv8)
    ensures Iterate(BYTES, 8, x) == Times(BYTES, Bits(0x1b), x)
  {
  }

  lemma MulDouble(x: bv8, y: bv8)
    ensures Mul(x, Double(y)) == Mul(Double(x), y)
  {
    BytesLaws();
    DoubleParts(y);
    BitsXor(y << 1, Carry(y));
    BitsShift(y);
    Reduction(x);
    TimesMove(BYTES, Bits(0x1b), Bits(y)[..7], Bit(y, 7), Bits(Double(y)), Bits(Carry(y)), x);
  }

  lemma MulTriple(x: bv8, y: bv8)
    ensures Mul(x, Triple(y)) == Mul(Triple(x), y)
  {
    BytesLaws();
    TimesAdd(BYTES, Bits(y), x, Double(x));
    MulDouble(x, y);
    BitsXor(y, Double(y));
    TimesSum(BYTES, Bits(Triple(y)), Bits(y), Bits(Double(y)), x);
  }

  // ---------------------------------------------------------------------
  // The generator
  // ---------------------------------------------------------------------

  /** A property handed on by multiplication by the generator. */
  ghost predicate Step(p: bv8 -> bool, x: bv8) {
    p(x) ==> p(Triple(x))
  }

  function TripleFour(x: bv8): bv8 {
    Triple(Triple(Triple(Triple(x))))
  }

  function ThirdFour(x: bv8): bv8 {
    Third(Third(Third(Third(x))))
  }

  lemma StepFour(p: bv8 -> bool, x: bv8)
    requires p(x) && forall y :: Step(p, y)
    ensures p(TripleFour(x))
  {
    assert Step(p, x) && Step(p, Triple(x)) && Step(p, Triple(Triple(x))) && Step(p, Triple(Triple(Triple(x))));
  }

  function TripleSeventeen(x: bv8): bv8 {
    TripleFour(TripleFour(TripleFour(TripleFour(Triple(x)))))
  }

  lemma StepSeventeen(p: bv8 -> bool, x: bv8)
    requires p(x) && forall y :: Step(p, y)
    ensures p(TripleSeventeen(x))
  {
    assert Step(p, x);
    StepFour(p, Triple(x));
    StepFour(p, TripleFour(Triple(x)));
    StepFour(p, TripleFour(TripleFour(Triple(x))));
    StepFour(p, TripleFour(TripleFour(TripleFour(Triple(x)))));
  }

  /** The powers of (x + 1)^17: the nonzero elements of the subfield with sixteen elements. */
  predicate InSubfield(x: bv8) {
    x in {0x01, 0xe1, 0x5c, 0x0c, 0xe0, 0xbd, 0x50, 0xec, 0x5d, 0xed, 0xbc, 0xb1, 0xb0, 0x51, 0x0d}
  }

  lemma SubfieldHopsA(p: bv8 -> bool)
    requires p(0x01) && forall y :: Step(p, y)
    ensures p(0xe1) && p(0x5c) && p(0x0c)
  {
    StepSeventeen(p, 0x01);
    assert TripleSeventeen(0x01) == 0xe1;
    StepSeventeen(p, 0xe1);
    assert TripleSeventeen(0xe1) == 0x5c;
    StepSeventeen(p, 0x5c);
    assert TripleSeventeen(0x5c) == 0x0c;
  }

  lemma SubfieldHopsB(p: bv8 -> bool)
    requires p(0x0c) && forall y :: Step(p, y)
    ensures p(0xe0) && p(0xbd) && p(0x50)
  {
    StepSeventeen(p, 0x0c);
    assert TripleSeventeen(0x0c) == 0xe0;
    StepSeventeen(p, 0xe0);
    assert TripleSeventeen(0xe0) == 0xbd;
    StepSeventeen(p, 0xbd);
    assert TripleSeventeen(0xbd) == 0x50;
  }

  lemma SubfieldHopsC(p: bv8 -> bool)
    requires p(0x50) && forall y :: Step(p, y)
    ensures p(0xec) && p(0x5d) && p(0xed)
  {
    StepSeventeen(p, 0x50);
    assert TripleSeventeen(0x50) == 0xec;
    StepSeventeen(p, 0xec);
    assert TripleSeventeen(0xec) == 0x5d;
    StepSeventeen(p, 0x5d);
    assert TripleSeventeen(0x5d) == 0xed;
  }

  lemma SubfieldHopsD(p: bv8 -> bool)
    requires p(0xed) && forall y :: Step(p, y)
    ensures p(0xbc) && p(0xb1) && p(0xb0)
  {
    StepSeventeen(p, 0xed);
    assert TripleSeventeen(0xed) == 0xbc;
    StepSeventeen(p, 0xbc);
    assert TripleSeventeen(0xbc) == 0xb1;
    StepSeventeen(p, 0xb1);
    assert TripleSeventeen(0xb1) == 0xb0;
  }

  lemma SubfieldHopsE(p: bv8 -> bool)
    requires p(0xb0) && forall y :: Step(p, y)
    ensures p(0x51) && p(0x0d)
  {
    StepSeventeen(p, 0xb0);
    assert TripleSeventeen(0xb0) == 0x51;
    StepSeventeen(p, 0x51);
    assert TripleSeventeen(0x51) == 0x0d;
  }

  lemma SubfieldHolds(p: bv8 -> bool)
    requires p(1) && forall y :: Step(p, y)
    ensures forall x :: InSubfield(x) ==> p(x)
  {
    SubfieldHopsA(p);
    SubfieldHopsB(p);
    SubfieldHopsC(p);
    SubfieldHopsD(p);
    SubfieldHopsE(p);
  }

  predicate SubfieldWithinFour(x: bv8) {
    InSubfield(Third(x)) || InSubfield(Third(Third(x))) || InSubfield(Third(Third(Third(x)))) ||
      InSubfield(ThirdFour(x))
  }

  lemma BackFour(p: bv8 -> bool, x: bv8)
    requires !p(x) && forall y :: Step(p, y)
    requires forall y :: InSubfield(y) ==> p(y)
    ensures !InSubfield(x) && !SubfieldWithinFour(x) && !p(ThirdFour(x))
  {
    TripleThird(x);
    TripleThird(Third(x));
    TripleThird(Third(Third(x)));
    TripleThird(Third(Third(Third(x))));
    assert Step(p, Third(x)) && Step(p, Third(Third(x))) && Step(p, Third(Third(Third(x)))) && Step(p, ThirdFour(x));
  }

  /** Dividing by the generator at most sixteen times leads from any nonzero element into the subfield. */
  lemma ReachSubfield(x: bv8)
    requires x != 0
    ensures InSubfield(x) || SubfieldWithinFour(x) || SubfieldWithinFour(ThirdFour(x)) ||
            SubfieldWithinFour(ThirdFour(ThirdFour(x))) || SubfieldWithinFour(ThirdFour(ThirdFour(ThirdFour(x))))
  {
  }

  /** (x + 1) generates the field: what holds of 1 and is handed on holds of every nonzero element. */
  lemma Generator(p: bv8 -> bool, x: bv8)
    requires p(1) && forall y :: Step(p, y)
    requires x != 0
    ensures p(x)
  {
    SubfieldHolds(p);
    if !p(x) {
      BackFour(p, x);
      BackFour(p, ThirdFour(x));
      BackFour(p, ThirdFour(ThirdFour(x)));
      BackFour(p, ThirdFour(ThirdFour(ThirdFour(x))));
      ReachSubfield(x);
    }
  }

  // ---------------------------------------------------------------------
  // Inverses and the S-box
  // ---------------------------------------------------------------------

  lemma MulOne(x: bv8)
    ensures Mul(x, 1) == x
  {
    BytesLaws();
    assert Bits(1) == [true] + [false, false, false, false, false, false, false];
    assert Bits(1)[1..] == [false, false, false, false, false, false, false];
    TimesZero(BYTES, Bits(1)[1..], Double(x));
    assert BYTES.Unit(x);
  }

  lemma MulZero(x: bv8)
    ensures Mul(x, 0) == 0
  {
    forall i | 0 <= i < 8 ensures !Bits(0)[i] { }
    TimesZero(BYTES, Bits(0), x);
  }

  lemma InverseExists(x: bv8)
    requires x != 0
    ensures exists y :: Mul(x, y) == 1
  {
    var p := (z: bv8) => exists y :: Mul(z, y) == 1;
    MulOne(1);
    forall z ensures Step(p, z) {
      if p(z) {
        var y :| Mul(z, y) == 1;
        MulTriple(z, Third(y));
        TripleThird(y);
        assert Mul(Triple(z), Third(y)) == 1;
      }
    }
    Generator(p, x);
  }

  ghost predicate NotZeroDivisor(y: bv8) {
    forall x :: x != 0 ==> Mul(x, y) != 0
  }

  lemma NoZeroDivisors(y: bv8)
    requires y != 0
    ensures NotZeroDivisor(y)
  {
    var p := (z: bv8) => NotZeroDivisor(z);
    forall x ensures Mul(x, 1) == x { MulOne(x); }
    forall z ensures Step(p, z) {
      if p(z) {
        forall x | x != 0 ensures Mul(x, Triple(z)) != 0 {
          MulTriple(x, z);
          TripleThird(x);
          TripleThird(0);
        }
      }
    }
    Generator(p, y);
  }

  lemma MulAddLeft(x: bv8, z: bv8, y: bv8)
    ensures Mul(x ^ z, y) == BYTES.add(Mul(x, y), Mul(z, y))
  {
    BytesLaws();
    TimesAdd(BYTES, Bits(y), x, z);
    AddIsXor(x, z);
  }

  lemma MulAddRight(x: bv8, y: bv8, z: bv8)
    ensures Mul(x, y ^ z) == BYTES.add(Mul(x, y), Mul(x, z))
  {
    BytesLaws();
    BitsXor(y, z);
    TimesSum(BYTES, Bits(y ^ z), Bits(y), Bits(z), x);
  }

  lemma XorZero(x: bv8, y: bv8)
    requires x ^ y == 0
    ensures x == y
  {
  }

  lemma InverseOfOne(x: bv8, z: bv8, y: bv8)
    requires Mul(x, y) == 1 && Mul(z, y) == 1
    ensures x == z
  {
    MulAddLeft(x, z, y);
    XorUnit(1);
    MulZero(x);
    NoZeroDivisors(y);
    XorZero(x, z);
  }

  lemma InverseUnique(x: bv8, y: bv8, z: bv8)
    requires Mul(x, y) == 1 && Mul(x, z) == 1
    ensures y == z
  {
    MulAddRight(x, y, z);
    XorUnit(1);
    BytesLaws();
    TimesOfZero(BYTES, Bits(y));
    if y ^ z != 0 { NoZeroDivisors(y ^ z); }
    XorZero(y, z);
  }

  /** The multiplicative inverse, with zero mapped to itself. */
  ghost function Inverse(x: bv8): bv8 {
    if x == 0 then 0 else
      InverseExists(x);
      var y :| Mul(x, y) == 1;
      y
  }

  /** The affine transformation of section 5.1.1 of FIPS 197. */
  function Affine(x: bv8): bv8 {
    0x63 ^ x ^ x.RotateLeft(1) ^ x.RotateLeft(2) ^ x.RotateLeft(3) ^ x.RotateLeft(4)
  }

  lemma AffineInjective(x: bv8, y: bv8)
    requires Affine(x) == Affine(y)
    ensures x == y
  {
  }

  ghost function Sbox(x: bv8): bv8 {
    Affine(Inverse(x))
  }

  lemma SboxInjective(x: bv8, z: bv8)
    requires Sbox(x) == Sbox(z)
    ensures x == z
  {
    AffineInjective(Inverse(x), Inverse(z));
    MulZero(x);
    MulZero(z);
    if x != 0 && z != 0 {
      InverseOfOne(x, z, Inverse(x));
    }
  }

  lemma LeftInverseExists(y: bv8)
    requires y != 0
    ensures exists x :: Mul(x, y) == 1
  {
    var p := (z: bv8) => exists x :: Mul(x, z) == 1;
    MulOne(1);
    forall z ensures Step(p, z) {
      if p(z) {
        var x :| Mul(x, z) == 1;
        MulTriple(Third(x), z);
        TripleThird(x);
        assert Mul(Third(x), Triple(z)) == 1;
      }
    }
    Generator(p, y);
  }

  /** The inverse of the affine transformation, section 5.3.2 of FIPS 197. */
  function InvAffine(y: bv8): bv8 {
    0x05 ^ y.RotateLeft(1) ^ y.RotateLeft(3) ^ y.RotateLeft(6)
  }

  lemma AffineInverse(y: bv8)
    ensures Affine(InvAffine(y)) == y
  {
  }

  lemma SboxSurjective(y: bv8)
    ensures exists x :: Sbox(x) == y
  {
    var i := InvAffine(y);
    AffineInverse(y);
    if i == 0 {
      assert Sbox(0) == y;
    } else {
      LeftInverseExists(i);
      var x :| Mul(x, i) == 1;
      BytesLaws();
      TimesOfZero(BYTES, Bits(i));
      InverseUnique(x, Inverse(x), i);
      assert Sbox(x) == y;
    }
  }

  ghost function InvSbox(y: bv8): bv8 {
    SboxSurjective(y);
    var x :| Sbox(x) == y;
    x
  }

  lemma InvSboxUndoes(x: bv8)
    ensures InvSbox(Sbox(x)) == x && Sbox(InvSbox(x)) == x
  {
    SboxInjective(InvSbox(Sbox(x)), x);
  }
}
