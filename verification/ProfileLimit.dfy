/** profile.c: samples for which the scale of the accumulated variance leaves no bit below the point. */
module ProfileLimit {
  import opened Powers
  import opened ProfileVariance
  import opened Profile

  // ---------------------------------------------------------------------
  // Shifts are defined for counts below 64
  // ---------------------------------------------------------------------

  const BITS: nat := 64

  /** The shift that the product of the deltas is scaled by, as an unsigned int. */
  function ProductShift(meanMsb: nat): nat {
    (2 * ((TOP - meanMsb - 32) % UINT)) % UINT
  }

  /** The shift to the left that brings such a product to the scale of the accumulated variance. */
  function LeftShift(d: nat, shift: nat, accvarMsb: nat): nat {
    var msb := DeltaMsb(d, shift);
    if accvarMsb < msb then ((TOP - msb) % UINT - shift % UINT) % UINT
    else ((TOP - accvarMsb) % UINT - (shift - (accvarMsb - msb)) % UINT) % UINT
  }

  lemma ProductShiftIs(meanMsb: nat)
    requires meanMsb < TOP
    ensures ProductShift(meanMsb) == if meanMsb + 32 <= TOP then 2 * (TOP - 32 - meanMsb)
            else UINT - 2 * (meanMsb + 32 - TOP)
  {
    if meanMsb + 32 > TOP {
      var k := meanMsb + 32 - TOP;
      ModUnique(-k, -1, UINT - k, UINT);
      ModUnique(2 * (UINT - k), 1, UINT - 2 * k, UINT);
    }
  }

  lemma LeftShiftIs(d: nat, shift: nat, accvarMsb: nat)
    requires shift + DeltaMsb(d, shift) <= TOP
    ensures LeftShift(d, shift, accvarMsb) == TOP - shift - DeltaMsb(d, shift)
  {
    var msb := DeltaMsb(d, shift);
    if accvarMsb < msb {
      ShiftCount(TOP - msb, shift, 0, TOP - shift - msb);
    } else {
      ShiftCount(TOP - accvarMsb, shift, accvarMsb - msb, TOP - shift - msb);
    }
  }

  lemma LeftShiftWraps(d: nat, shift: nat, accvarMsb: nat)
    requires 0 < d <= Pow2(TOP) && 2 * TOP < shift <= UINT
    ensures LeftShift(d, shift, accvarMsb) == TOP + UINT - shift
  {
    NoMsb(d, shift);
    WrappedCount(TOP - accvarMsb, shift, accvarMsb, TOP + UINT - shift);
  }

  /** For every product of deltas, the shift is defined exactly while all samples have been below 2^31. */
  lemma LeftShiftIff(d: nat, meanMsb: nat, accvarMsb: nat)
    requires 0 < d <= Pow2(TOP) && meanMsb < TOP
    ensures LeftShift(d, ProductShift(meanMsb), accvarMsb) < BITS <==> meanMsb + 32 <= TOP
  {
    var shift := ProductShift(meanMsb);
    ProductShiftIs(meanMsb);
    if meanMsb + 32 <= TOP {
      MsbBounds(d, shift, TOP);
      LeftShiftIs(d, shift, accvarMsb);
    } else {
      LeftShiftWraps(d, shift, accvarMsb);
    }
  }

  lemma NoMsb(d: nat, shift: nat)
    requires 0 < d <= Pow2(TOP) && shift > TOP
    ensures DeltaMsb(d, shift) == 0
  {
    FlsCovers(d);
    if Fls(d) > TOP + 1 { Pow2Monotone(TOP + 1, Fls(d) - 1); }
  }

  lemma WrappedCount(top: int, shift: int, k: int, count: nat)
    requires top - shift == count - k - UINT && count < UINT
    ensures (top % UINT - (shift - k) % UINT) % UINT == count
  {
    ModMultiple(shift - k, -1, UINT);
    assert shift - k + -1 * UINT == shift - UINT - k;
    ShiftCount(top, shift - UINT, k, count);
  }

  /** The two shifts of profile_variance() are defined exactly while the scale is below 62. */
  lemma VarianceShiftsIff(accvarMsb: nat)
    requires accvarMsb <= BITS
    ensures var shift := (TOP - accvarMsb) % UINT; shift < BITS && (shift - 1) % UINT < BITS <==> accvarMsb < TOP
  {
    if accvarMsb > TOP { ModUnique(TOP - accvarMsb, -1, TOP - accvarMsb + UINT, UINT); }
  }

  // ---------------------------------------------------------------------
  // Samples for which they are not
  // ---------------------------------------------------------------------

  /** profile_update(), on values. */
  function Recorded(s: (Average, Spread), sample: nat): (Average, Spread) {
    var a := Counted(Coarser(s.0, sample), sample);
    (a, Varied(s.1, PreDelta(s.0, sample), PostDelta(s.0, sample), Below(a.msb + 32, TOP), TOP))
  }

  function RecordedAll(s: (Average, Spread), xs: seq<nat>): (Average, Spread) {
    if xs == [] then s else Recorded(RecordedAll(s, xs[..|xs| - 1]), xs[|xs| - 1])
  }

  /** The largest sample that the scaling of the deltas has room for. */
  const LARGEST: nat := 0x7fff_ffff

  const INITIAL := (Average(0, 0, 0), Spread(0, 0))
  const AFTER_1 := (Average(1, 9223372032559808512, 30), Spread(0, 0))
  const AFTER_2 := (Average(2, 4611686016279904256, 30), Spread(9223372032559808512, 60))
  const AFTER_3 := (Average(3, 6148914688373205674, 30), Spread(6148914686225722028, 61))
  const AFTER_4 := (Average(4, 4611686016279904256, 30), Spread(9223372031128152748, 61))
  const AFTER_5 := (Average(5, 5534023219535885107, 30), Spread(5534023217102070306, 62))

  lemma PowerValues()
    ensures Pow2(30) == 0x4000_0000 && Pow2(31) == 0x8000_0000 && Pow2(32) == 0x1_0000_0000
    ensures Pow2(59) == 0x800_0000_0000_0000 && Pow2(60) == 0x1000_0000_0000_0000 && Pow2(61) == 0x2000_0000_0000_0000
  {
    assert Pow2(10) == 1024;
    Pow2Add(10, 10);
    Pow2Add(20, 10);
    Pow2Add(30, 30);
    Pow2Add(30, 29);
  }

  /** One more than the largest. */
  const TOO_LARGE: nat := 0x8000_0000

  /**
  Two samples, of which one is 2^31, with a product of deltas for which LeftShiftIff() says that the shift is
  undefined.
  */
  lemma TwoSamples()
    ensures var a := Counted(Coarser(INITIAL.0, TOO_LARGE), TOO_LARGE);
            && a == Average(1, 0x4000_0000_0000_0000, 31)
            && Delta(PreDelta(a, 0), PostDelta(a, 0)) == 0x800_0000_0000_0000
            && a.msb + 32 > TOP
  {
    PowerValues();
    FlsUnique(TOO_LARGE, 32);
    var a := Average(1, 0x4000_0000_0000_0000, 31);
    assert Coarser(INITIAL.0, TOO_LARGE) == Average(0, 0, 31) && Shift(31) == 31;
    assert Counted(a, 0) == Average(2, 0x2000_0000_0000_0000, 31);
    assert PreDelta(a, 0) == -0x4000_0000_0000_0000 && PostDelta(a, 0) == -0x2000_0000_0000_0000;
  }

  lemma LargestMsb()
    ensures Fls(LARGEST) == 31 && LARGEST < Pow2(31)
  {
    PowerValues();
    FlsUnique(LARGEST, 31);
  }

  lemma First()
    ensures Recorded(INITIAL, LARGEST) == AFTER_1
  {
    PowerValues();
    LargestMsb();
    assert Shift(30) == 32;
    assert Coarser(INITIAL.0, LARGEST) == Average(0, 0, 30);
    assert Counted(Average(0, 0, 30), LARGEST) == AFTER_1.0;
    assert PostDelta(INITIAL.0, LARGEST) == 0;
  }

  /** A delta in original units, with msb as its most significant bit. */
  lemma AccumulatedIs(v: Spread, d: nat, msb: nat, x: nat)
    requires 0 < msb <= TOP && Pow2(msb) <= d < Pow2(msb + 1)
    requires x == Shr(d, Below(msb, v.msb)) * Pow2(TOP - msb)
    ensures Accumulated(v, d, 0, TOP) == Added(Rescaled(v, msb), x, TOP)
  {
    FlsUnique(d, msb + 1);
  }

  lemma Second()
    ensures Recorded(AFTER_1, 0) == AFTER_2
  {
    SecondVaries();
    assert Counted(AFTER_1.0, 0) == Average(2, 4611686016279904256, 30);
    assert PreDelta(AFTER_1.0, 0) == -9223372032559808512 && PostDelta(AFTER_1.0, 0) == -4611686016279904256;
  }

  lemma SecondVaries()
    ensures Accumulated(AFTER_1.1, 2305843008139952128, 0, TOP) == AFTER_2.1
  {
    PowerValues();
    ShiftLoss(0, 60);
    AccumulatedIs(AFTER_1.1, 2305843008139952128, 60, 9223372032559808512);
  }

  lemma Third()
    ensures Recorded(AFTER_2, LARGEST) == AFTER_3
  {
    ThirdVaries();
    PowerValues();
    LargestMsb();
    assert Counted(AFTER_2.0, LARGEST) == Average(3, 6148914688373205674, 30);
    assert PreDelta(AFTER_2.0, LARGEST) == 4611686016279904256 && PostDelta(AFTER_2.0, LARGEST) == 3074457344186602838;
  }

  lemma ThirdVaries()
    ensures Accumulated(AFTER_2.1, 768614334972908886, 0, TOP) == AFTER_3.1
  {
    PowerValues();
    AccumulatedIs(AFTER_2.1, 768614334972908886, 59, 3074457339891635544);
  }

  lemma Fourth()
    ensures Recorded(AFTER_3, 0) == AFTER_4
  {
    FourthVaries();
    assert Counted(AFTER_3.0, 0) == Average(4, 4611686016279904256, 30);
    assert PreDelta(AFTER_3.0, 0) == -6148914688373205674 && PostDelta(AFTER_3.0, 0) == -4611686016279904256;
  }

  lemma FourthVaries()
    ensures Accumulated(AFTER_3.1, 1537228672451215360, 0, TOP) == AFTER_4.1
  {
    PowerValues();
    AccumulatedIs(AFTER_3.1, 1537228672451215360, 60, 3074457344902430720);
  }

  lemma Fifth()
    ensures Recorded(AFTER_4, LARGEST) == AFTER_5
  {
    FifthVaries();
    PowerValues();
    LargestMsb();
    assert Counted(AFTER_4.0, LARGEST) == Average(5, 5534023219535885107, 30);
    assert PreDelta(AFTER_4.0, LARGEST) == 4611686016279904256 && PostDelta(AFTER_4.0, LARGEST) == 3689348813023923405;
  }

  lemma FifthVaries()
    ensures Accumulated(AFTER_4.1, 922337201537993934, 0, TOP) == AFTER_5.1
  {
    PowerValues();
    AccumulatedIs(AFTER_4.1, 922337201537993934, 59, 1844674403075987864);
  }

  lemma RecordedMore(s: (Average, Spread), xs: seq<nat>, x: nat)
    ensures RecordedAll(s, xs + [x]) == Recorded(RecordedAll(s, xs), x)
  {
    assert (xs + [x])[..|xs|] == xs;
  }

  lemma RunOf1()
    ensures RecordedAll(INITIAL, [LARGEST]) == AFTER_1
  {
    First();
    assert [] + [LARGEST] == [LARGEST];
    RecordedMore(INITIAL, [], LARGEST);
  }

  lemma RunOf2()
    ensures RecordedAll(INITIAL, [LARGEST, 0]) == AFTER_2
  {
    RunOf1();
    Second();
    assert [LARGEST] + [0] == [LARGEST, 0];
    RecordedMore(INITIAL, [LARGEST], 0);
  }

  lemma RunOf3()
    ensures RecordedAll(INITIAL, [LARGEST, 0, LARGEST]) == AFTER_3
  {
    RunOf2();
    Third();
    assert [LARGEST, 0] + [LARGEST] == [LARGEST, 0, LARGEST];
    RecordedMore(INITIAL, [LARGEST, 0], LARGEST);
  }

  lemma RunOf4()
    ensures RecordedAll(INITIAL, [LARGEST, 0, LARGEST, 0]) == AFTER_4
  {
    RunOf3();
    Fourth();
    assert [LARGEST, 0, LARGEST] + [0] == [LARGEST, 0, LARGEST, 0];
    RecordedMore(INITIAL, [LARGEST, 0, LARGEST], 0);
  }

  /**
  Five samples below 2^31 after which profile_variance() would shift by one bit less than none, so that a bound
  on the number of samples as in RecordAll is needed.
  */
  lemma FiveSamples()
    ensures RecordedAll(INITIAL, [LARGEST, 0, LARGEST, 0, LARGEST]).1.msb == TOP && LARGEST < Pow2(31)
  {
    RunOf4();
    Fifth();
    LargestMsb();
    assert [LARGEST, 0, LARGEST, 0] + [LARGEST] == [LARGEST, 0, LARGEST, 0, LARGEST];
    RecordedMore(INITIAL, [LARGEST, 0, LARGEST, 0], LARGEST);
  }
}
