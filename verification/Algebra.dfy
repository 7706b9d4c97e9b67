/**
Vector spaces over GF(2) with a linear map "times x", and the polynomials that
act on them.  Byte arithmetic in AES is an instance; working with an abstract
addition keeps the proofs free of bit-vectors.
*/
module Algebra {

  datatype Space<!T> = Space(zero: T, add: (T, T) -> T, timesX: T -> T) {

    ghost predicate Interchange(p: T, q: T, r: T, s: T) {
      add(add(p, q), add(r, s)) == add(add(p, r), add(q, s))
    }

    ghost predicate Unit(x: T) {
      add(zero, x) == x && add(x, zero) == x
    }

    ghost predicate Cancels(x: T) {
      add(x, x) == zero
    }

    ghost predicate Linear(x: T, y: T) {
      timesX(add(x, y)) == add(timesX(x), timesX(y))
    }
  }

  ghost predicate Laws<T(!new)>(v: Space<T>) {
    && (forall p, q, r, s :: v.Interchange(p, q, r, s))
    && (forall x :: v.Unit(x))
    && (forall x :: v.Cancels(x))
    && (forall x, y :: v.Linear(x, y))
  }

  /** A polynomial, lowest coefficient first. */
  type Poly = seq<bool>

  function Plus<T>(v: Space<T>, b: bool, x: T, p: T): T {
    if b then v.add(x, p) else p
  }

  /** The polynomial `a` applied to x. */
  function Times<T>(v: Space<T>, a: Poly, x: T): T
    decreases |a|
  {
    if a == [] then v.zero else Plus(v, a[0], x, Times(v, a[1..], v.timesX(x)))
  }

  lemma TimesXZero<T(!new)>(v: Space<T>)
    requires Laws(v)
    ensures v.timesX(v.zero) == v.zero
  {
    var z := v.timesX(v.zero);
    assert v.Linear(v.zero, v.zero) && v.Unit(v.zero) && v.Cancels(z);
  }

  lemma {:induction false} TimesAdd<T(!new)>(v: Space<T>, a: Poly, x: T, y: T)
    requires Laws(v)
    ensures Times(v, a, v.add(x, y)) == v.add(Times(v, a, x), Times(v, a, y))
    decreases |a|
  {
    if a == [] {
      assert v.Unit(v.zero);
    } else {
      assert v.Linear(x, y);
      TimesAdd(v, a[1..], v.timesX(x), v.timesX(y));
      assert v.Interchange(x, y, Times(v, a[1..], v.timesX(x)), Times(v, a[1..], v.timesX(y)));
    }
  }

  ghost predicate IsSum(a: Poly, b: Poly, c: Poly) {
    |a| == |b| == |c| && forall i :: 0 <= i < |a| ==> a[i] == (b[i] != c[i])
  }

  lemma {:induction false} TimesSum<T(!new)>(v: Space<T>, a: Poly, b: Poly, c: Poly, x: T)
    requires Laws(v) && IsSum(a, b, c)
    ensures Times(v, a, x) == v.add(Times(v, b, x), Times(v, c, x))
    decreases |a|
  {
    if a == [] {
      assert v.Unit(v.zero);
    } else {
      TimesSum(v, a[1..], b[1..], c[1..], v.timesX(x));
      PlusSum(v, b[0], c[0], x, Times(v, b[1..], v.timesX(x)), Times(v, c[1..], v.timesX(x)));
    }
  }

  lemma PlusSum<T(!new)>(v: Space<T>, b: bool, c: bool, x: T, p: T, q: T)
    requires Laws(v)
    ensures Plus(v, b != c, x, v.add(p, q)) == v.add(Plus(v, b, x, p), Plus(v, c, x, q))
  {
    assert v.Interchange(x, p, x, q) && v.Cancels(x) && v.Unit(v.add(p, q));
    assert v.Interchange(x, v.zero, p, q) && v.Interchange(v.zero, x, p, q) && v.Unit(x) && v.Unit(p) && v.Unit(q);
  }

  lemma {:induction false} TimesShift<T(!new)>(v: Space<T>, a: Poly, x: T)
    requires Laws(v)
    ensures Times(v, a, v.timesX(x)) == v.timesX(Times(v, a, x))
    ensures Times(v, [false] + a, x) == Times(v, a, v.timesX(x))
    decreases |a|
  {
    assert ([false] + a)[1..] == a;
    if a == [] {
      TimesXZero(v);
    } else {
      TimesShift(v, a[1..], v.timesX(x));
      assert v.Linear(x, Times(v, a[1..], v.timesX(x)));
    }
  }

  function Iterate<T>(v: Space<T>, n: nat, x: T): T
    decreases n
  {
    if n == 0 then x else Iterate(v, n - 1, v.timesX(x))
  }

  lemma {:induction false} TimesLast<T(!new)>(v: Space<T>, a: Poly, b: bool, x: T)
    requires Laws(v)
    ensures Times(v, a + [b], x) == v.add(Times(v, a, x), Plus(v, b, Iterate(v, |a|, x), v.zero))
    decreases |a|
  {
    var last := Plus(v, b, Iterate(v, |a|, x), v.zero);
    if a == [] {
      assert [b][1..] == [] && v.Unit(last);
    } else {
      assert (a + [b])[1..] == a[1..] + [b];
      TimesLast(v, a[1..], b, v.timesX(x));
      var p := Times(v, a[1..], v.timesX(x));
      assert v.Interchange(x, v.zero, p, last) && v.Unit(x) && v.Unit(last);
    }
  }

  lemma {:induction false} TimesZero<T>(v: Space<T>, a: Poly, x: T)
    requires forall i :: 0 <= i < |a| ==> !a[i]
    ensures Times(v, a, x) == v.zero
    decreases |a|
  {
    if a != [] { TimesZero(v, a[1..], v.timesX(x)); }
  }

  /**
  In a space where x^n acts as the polynomial r, a factor x may move from the
  vector to the polynomial: "times x" of low + [top] is [0] + low, plus r if top is set.
  */
  lemma TimesMove<T(!new)>(v: Space<T>, r: Poly, low: Poly, top: bool, y: Poly, carry: Poly, x: T)
    requires Laws(v) && Iterate(v, |low| + 1, x) == Times(v, r, x)
    requires if top then carry == r else forall i :: 0 <= i < |carry| ==> !carry[i]
    requires IsSum(y, [false] + low, carry)
    ensures Times(v, y, x) == Times(v, low + [top], v.timesX(x))
  {
    TimesSum(v, y, [false] + low, carry, x);
    TimesShift(v, low, x);
    TimesLast(v, low, top, v.timesX(x));
    assert v.Unit(Times(v, r, x));
    if !top { TimesZero(v, carry, x); }
  }

  // ---------------------------------------------------------------------
  // Circulant 4x4 matrices of polynomials
  // ---------------------------------------------------------------------

  datatype Vec<T> = Vec(a: T, b: T, c: T, d: T)

  function Sum<T>(v: Space<T>, w: Vec<T>): T {
    v.add(v.add(w.a, w.b), v.add(w.c, w.d))
  }

  function Turn<T>(w: Vec<T>): Vec<T> {
    Vec(w.b, w.c, w.d, w.a)
  }

  function AddVec<T>(v: Space<T>, w: Vec<T>, z: Vec<T>): Vec<T> {
    Vec(v.add(w.a, z.a), v.add(w.b, z.b), v.add(w.c, z.c), v.add(w.d, z.d))
  }

  lemma SumAdd<T(!new)>(v: Space<T>, w: Vec<T>, z: Vec<T>)
    requires Laws(v)
    ensures Sum(v, AddVec(v, w, z)) == v.add(Sum(v, w), Sum(v, z))
  {
    assert v.Interchange(w.a, z.a, w.b, z.b) && v.Interchange(w.c, z.c, w.d, z.d);
    assert v.Interchange(v.add(w.a, w.b), v.add(z.a, z.b), v.add(w.c, w.d), v.add(z.c, z.d));
  }

  lemma AddSwap<T(!new)>(v: Space<T>, x: T, y: T)
    requires Laws(v)
    ensures v.add(x, y) == v.add(y, x)
  {
    assert v.Interchange(v.zero, x, y, v.zero) && v.Unit(x) && v.Unit(y);
  }

  lemma SumTurn<T(!new)>(v: Space<T>, w: Vec<T>)
    requires Laws(v)
    ensures Sum(v, Turn(w)) == Sum(v, w)
  {
    assert v.Interchange(w.b, w.c, w.a, w.d);
    AddSwap(v, w.d, w.a);
    AddSwap(v, w.b, w.a);
  }

  lemma TimesSumVec<T(!new)>(v: Space<T>, a: Poly, w: Vec<T>)
    requires Laws(v)
    ensures Times(v, a, Sum(v, w)) == Sum(v,
            Vec(Times(v, a, w.a), Times(v, a, w.b), Times(v, a, w.c), Times(v, a, w.d)))
  {
    TimesAdd(v, a, v.add(w.a, w.b), v.add(w.c, w.d));
    TimesAdd(v, a, w.a, w.b);
    TimesAdd(v, a, w.c, w.d);
  }

  /** Coefficients applied component by component. */
  function Scale<T>(v: Space<T>, k: Vec<Poly>, w: Vec<T>): Vec<T> {
    Vec(Times(v, k.a, w.a), Times(v, k.b, w.b), Times(v, k.c, w.c), Times(v, k.d, w.d))
  }

  /** The circulant matrix whose first row is k: each output is the first row against a turned input. */
  function Circulant<T>(v: Space<T>, k: Vec<Poly>, w: Vec<T>): Vec<T> {
    Vec(Sum(v, Scale(v, k, w)), Sum(v, Scale(v, k, Turn(w))),
        Sum(v, Scale(v, k, Turn(Turn(w)))), Sum(v, Scale(v, k, Turn(Turn(Turn(w))))))
  }

  lemma CirculantAdd<T(!new)>(v: Space<T>, k: Vec<Poly>, w: Vec<T>, z: Vec<T>)
    requires Laws(v)
    ensures Circulant(v, k, AddVec(v, w, z)) == AddVec(v, Circulant(v, k, w), Circulant(v, k, z))
  {
    RowAdd(v, k, w, z);
    RowAdd(v, k, Turn(w), Turn(z));
    RowAdd(v, k, Turn(Turn(w)), Turn(Turn(z)));
    RowAdd(v, k, Turn(Turn(Turn(w))), Turn(Turn(Turn(z))));
  }

  lemma RowAdd<T(!new)>(v: Space<T>, k: Vec<Poly>, w: Vec<T>, z: Vec<T>)
    requires Laws(v)
    ensures Sum(v, Scale(v, k, AddVec(v, w, z))) == v.add(Sum(v, Scale(v, k, w)), Sum(v, Scale(v, k, z)))
  {
    TimesAdd(v, k.a, w.a, z.a);
    TimesAdd(v, k.b, w.b, z.b);
    TimesAdd(v, k.c, w.c, z.c);
    TimesAdd(v, k.d, w.d, z.d);
    SumAdd(v, Scale(v, k, w), Scale(v, k, z));
  }

  lemma CirculantTurn<T(!new)>(v: Space<T>, k: Vec<Poly>, w: Vec<T>)
    ensures Circulant(v, k, Turn(w)) == Turn(Circulant(v, k, w))
  {
  }

  // ---------------------------------------------------------------------
  // MixColumns and its inverse
  // ---------------------------------------------------------------------

  /** First row of MixColumns: {02}, {03}, {01}, {01}. */
  const MIX: Vec<Poly> := Vec([false, true], [true, true], [true, false], [true, false])

  /** First row of InvMixColumns: {0e}, {0b}, {0d}, {09}. */
  const INV_MIX: Vec<Poly> :=
    Vec([false, true, true, true], [true, true, false, true], [true, false, true, true], [true, false, false, true])

  /** The product of a polynomial of degree 3 and one of degree 1. */
  function Compose(a: Poly, k: Poly): Poly
    requires |a| == 4 && |k| == 2
  {
    [k[0] && a[0], (k[0] && a[1]) != (k[1] && a[0]), (k[0] && a[2]) != (k[1] && a[1]),
     (k[0] && a[3]) != (k[1] && a[2]), k[1] && a[3]]
  }

  function Select(b: bool, a: Poly): Poly {
    if b then a else [false, false, false, false, false]
  }

  lemma TimesSelect<T(!new)>(v: Space<T>, b: bool, a: Poly, x: T)
    requires Laws(v)
    ensures Times(v, Select(b, a), x) == if b then Times(v, a, x) else v.zero
  {
    if !b { TimesZero(v, Select(b, a), x); }
  }

  lemma TimesTwice<T(!new)>(v: Space<T>, a: Poly, k: Poly, x: T)
    requires Laws(v) && |a| == 4 && |k| == 2
    ensures Times(v, a, Times(v, k, x)) == Times(v, Compose(a, k), x)
  {
    var x1 := v.timesX(x);
    assert k[1..] == [k[1]] && k[1..][1..] == [];
    var inner := Plus(v, k[1], x1, v.zero);
    assert Times(v, [], v.timesX(x1)) == v.zero && Times(v, k[1..], x1) == inner;
    assert Times(v, k, x) == Plus(v, k[0], x, inner);
    assert v.Unit(x1) && v.Unit(x);
    TimesLast(v, a, false, x);
    TimesShift(v, a, x);
    TimesSelect(v, k[0], a + [false], x);
    TimesSelect(v, k[1], [false] + a, x);
    TimesSum(v, Compose(a, k), Select(k[0], a + [false]), Select(k[1], [false] + a), x);
    TimesAdd(v, a, x, x1);
    assert v.Unit(Times(v, a, x)) && v.Unit(Times(v, a, x1)) && v.Unit(v.zero);
    TimesOfZero(v, a);
  }

  lemma {:induction false} TimesOfZero<T(!new)>(v: Space<T>, a: Poly)
    requires Laws(v)
    ensures Times(v, a, v.zero) == v.zero
    decreases |a|
  {
    TimesXZero(v);
    assert v.Unit(v.zero);
    if a != [] { TimesOfZero(v, a[1..]); }
  }

  function XorPoly(a: Poly, b: Poly): Poly
    requires |a| == |b| == 5
  {
    [a[0] != b[0], a[1] != b[1], a[2] != b[2], a[3] != b[3], a[4] != b[4]]
  }

  lemma XorPolySum(a: Poly, b: Poly)
    requires |a| == |b| == 5
    ensures |XorPoly(a, b)| == 5 && IsSum(XorPoly(a, b), a, b)
  {
  }

  lemma TimesSumFour<T(!new)>(v: Space<T>, p: Vec<Poly>, x: T)
    requires Laws(v) && |p.a| == |p.b| == |p.c| == |p.d| == 5
    ensures Sum(v, Scale(v, p, Vec(x, x, x, x))) == Times(v, XorPoly(XorPoly(p.a, p.b), XorPoly(p.c, p.d)), x)
  {
    XorPolySum(p.a, p.b);
    XorPolySum(p.c, p.d);
    var ab, cd := XorPoly(p.a, p.b), XorPoly(p.c, p.d);
    XorPolySum(ab, cd);
    TimesSum(v, ab, p.a, p.b, x);
    TimesSum(v, cd, p.c, p.d, x);
    TimesSum(v, XorPoly(ab, cd), ab, cd, x);
  }

  predicate Sized(k: Vec<Poly>, n: nat) {
    |k.a| == |k.b| == |k.c| == |k.d| == n
  }

  function ComposeAll(i: Vec<Poly>, k: Vec<Poly>): Vec<Poly>
    requires Sized(i, 4) && Sized(k, 2)
  {
    Vec(Compose(i.a, k.a), Compose(i.b, k.b), Compose(i.c, k.c), Compose(i.d, k.d))
  }

  /** One column of a matrix product: four products of coefficients applied to the same element. */
  lemma ColumnSum<T(!new)>(v: Space<T>, i: Vec<Poly>, k: Vec<Poly>, x: T)
    requires Laws(v) && Sized(i, 4) && Sized(k, 2)
    ensures var p := ComposeAll(i, k);
            Sum(v, Scale(v, i, Scale(v, k, Vec(x, x, x, x)))) ==
              Times(v, XorPoly(XorPoly(p.a, p.b), XorPoly(p.c, p.d)), x)
  {
    TimesTwice(v, i.a, k.a, x);
    TimesTwice(v, i.b, k.b, x);
    TimesTwice(v, i.c, k.c, x);
    TimesTwice(v, i.d, k.d, x);
    TimesSumFour(v, ComposeAll(i, k), x);
  }

  lemma ColumnPolys()
    ensures XorPoly(XorPoly(Compose(INV_MIX.a, MIX.a), Compose(INV_MIX.b, MIX.d)),
                    XorPoly(Compose(INV_MIX.c, MIX.c), Compose(INV_MIX.d, MIX.b))) == [true, false, false, false, false]
    ensures XorPoly(XorPoly(Compose(INV_MIX.a, MIX.b), Compose(INV_MIX.b, MIX.a)),
                    XorPoly(Compose(INV_MIX.c, MIX.d), Compose(INV_MIX.d, MIX.c))) ==
                      [false, false, false, false, false]
    ensures XorPoly(XorPoly(Compose(INV_MIX.a, MIX.c), Compose(INV_MIX.b, MIX.b)),
                    XorPoly(Compose(INV_MIX.c, MIX.a), Compose(INV_MIX.d, MIX.d))) ==
                      [false, false, false, false, false]
    ensures XorPoly(XorPoly(Compose(INV_MIX.a, MIX.d), Compose(INV_MIX.b, MIX.c)),
                    XorPoly(Compose(INV_MIX.c, MIX.b), Compose(INV_MIX.d, MIX.a))) ==
                      [false, false, false, false, false]
  {
  }

  /** The first row of a product of circulants, with the terms gathered by input component. */
  lemma GatherRow<T(!new)>(v: Space<T>, i: Vec<Poly>, k: Vec<Poly>, w: Vec<T>)
    requires Laws(v)
    ensures Sum(v, Scale(v, i, Circulant(v, k, w))) ==
            Sum(v, Vec(Sum(v, Scale(v, i, Scale(v, Vec(k.a, k.d, k.c, k.b), Vec(w.a, w.a, w.a, w.a)))),
                       Sum(v, Scale(v, i, Scale(v, Vec(k.b, k.a, k.d, k.c), Vec(w.b, w.b, w.b, w.b)))),
                       Sum(v, Scale(v, i, Scale(v, Vec(k.c, k.b, k.a, k.d), Vec(w.c, w.c, w.c, w.c)))),
                       Sum(v, Scale(v, i, Scale(v, Vec(k.d, k.c, k.b, k.a), Vec(w.d, w.d, w.d, w.d))))))
  {
    var a := ScaleBy(v, i.a, Scale(v, k, w));
    var b := ScaleBy(v, i.b, Scale(v, Vec(k.d, k.a, k.b, k.c), w));
    var c := ScaleBy(v, i.c, Scale(v, Vec(k.c, k.d, k.a, k.b), w));
    var d := ScaleBy(v, i.d, Scale(v, Vec(k.b, k.c, k.d, k.a), w));
    TimesSumVec(v, i.a, Scale(v, k, w));
    TimesSumVec(v, i.b, Scale(v, k, Turn(w)));
    SumTurn(v, b);
    TimesSumVec(v, i.c, Scale(v, k, Turn(Turn(w))));
    SumTurn(v, c);
    SumTurn(v, Turn(c));
    TimesSumVec(v, i.d, Scale(v, k, Turn(Turn(Turn(w)))));
    SumTurn(v, d);
    SumTurn(v, Turn(d));
    SumTurn(v, Turn(Turn(d)));
    SumAdd(v, a, b);
    SumAdd(v, c, d);
    SumAdd(v, AddVec(v, a, b), AddVec(v, c, d));
  }

  function ScaleBy<T>(v: Space<T>, a: Poly, w: Vec<T>): Vec<T> {
    Vec(Times(v, a, w.a), Times(v, a, w.b), Times(v, a, w.c), Times(v, a, w.d))
  }

  lemma InverseRow<T(!new)>(v: Space<T>, w: Vec<T>)
    requires Laws(v)
    ensures Sum(v, Scale(v, INV_MIX, Circulant(v, MIX, w))) == w.a
  {
    GatherRow(v, INV_MIX, MIX, w);
    ColumnPolys();
    ColumnSum(v, INV_MIX, Vec(MIX.a, MIX.d, MIX.c, MIX.b), w.a);
    ColumnSum(v, INV_MIX, Vec(MIX.b, MIX.a, MIX.d, MIX.c), w.b);
    ColumnSum(v, INV_MIX, Vec(MIX.c, MIX.b, MIX.a, MIX.d), w.c);
    ColumnSum(v, INV_MIX, Vec(MIX.d, MIX.c, MIX.b, MIX.a), w.d);
    TimesOne(v, w.a);
    TimesZero(v, [false, false, false, false, false], w.b);
    TimesZero(v, [false, false, false, false, false], w.c);
    TimesZero(v, [false, false, false, false, false], w.d);
    assert v.Unit(v.zero) && v.Unit(w.a);
  }

  lemma TimesOne<T(!new)>(v: Space<T>, x: T)
    requires Laws(v)
    ensures Times(v, [true, false, false, false, false], x) == x
  {
    assert [true, false, false, false, false][1..] == [false, false, false, false];
    TimesZero(v, [false, false, false, false], v.timesX(x));
    assert v.Unit(x);
  }

  /** InvMixColumns undoes MixColumns. */
  lemma MixInverse<T(!new)>(v: Space<T>, w: Vec<T>)
    requires Laws(v)
    ensures Circulant(v, INV_MIX, Circulant(v, MIX, w)) == w
  {
    InverseRow(v, w);
    InverseRow(v, Turn(w));
    InverseRow(v, Turn(Turn(w)));
    InverseRow(v, Turn(Turn(Turn(w))));
    CirculantTurn(v, MIX, w);
    CirculantTurn(v, MIX, Turn(w));
    CirculantTurn(v, MIX, Turn(Turn(w)));
  }

  lemma {:induction false} TimesCommute<T(!new)>(v: Space<T>, a: Poly, k: Poly, x: T)
    requires Laws(v)
    ensures Times(v, a, Times(v, k, x)) == Times(v, k, Times(v, a, x))
    decreases |a|
  {
    if a == [] {
      TimesOfZero(v, k);
    } else {
      TimesShift(v, k, x);
      TimesCommute(v, a[1..], k, v.timesX(x));
      TimesAdd(v, k, x, Times(v, a[1..], v.timesX(x)));
    }
  }

  /** One gathered column of a product of circulants does not depend on the order of the factors. */
  lemma ColumnCommute<T(!new)>(v: Space<T>, i: Vec<Poly>, k: Vec<Poly>, x: T)
    requires Laws(v)
    ensures Sum(v, Scale(v, i, Scale(v, k, Vec(x, x, x, x)))) == Sum(v, Scale(v, k, Scale(v, i, Vec(x, x, x, x))))
  {
    TimesCommute(v, i.a, k.a, x);
    TimesCommute(v, i.b, k.b, x);
    TimesCommute(v, i.c, k.c, x);
    TimesCommute(v, i.d, k.d, x);
  }

  function Flip<T>(w: Vec<T>): Vec<T> {
    Vec(w.a, w.d, w.c, w.b)
  }

  /** A sum does not change when the second and fourth terms trade places. */
  lemma SumFlip<T(!new)>(v: Space<T>, w: Vec<T>)
    requires Laws(v)
    ensures Sum(v, w) == Sum(v, Flip(w))
  {
    AddSwap(v, w.c, w.d);
    assert v.Interchange(w.a, w.b, w.d, w.c);
    AddSwap(v, w.b, w.c);
  }

  lemma FlippedColumn<T(!new)>(v: Space<T>, i: Vec<Poly>, k: Vec<Poly>, x: T)
    requires Laws(v)
    ensures Sum(v, Scale(v, i, Scale(v, Flip(k), Vec(x, x, x, x)))) ==
            Sum(v, Scale(v, k, Scale(v, Flip(i), Vec(x, x, x, x))))
  {
    ColumnCommute(v, i, Flip(k), x);
    SumFlip(v, Scale(v, Flip(k), Scale(v, i, Vec(x, x, x, x))));
  }

  lemma RowCommute<T(!new)>(v: Space<T>, i: Vec<Poly>, k: Vec<Poly>, w: Vec<T>)
    requires Laws(v)
    ensures Sum(v, Scale(v, i, Circulant(v, k, w))) == Sum(v, Scale(v, k, Circulant(v, i, w)))
  {
    GatherRow(v, i, k, w);
    GatherRow(v, k, i, w);
    FlippedColumn(v, i, k, w.a);
    GatheredColumn(v, i, k, w.b);
    GatheredColumnTwo(v, i, k, w.c);
    GatheredColumnThree(v, i, k, w.d);
  }

  lemma GatheredColumn<T(!new)>(v: Space<T>, i: Vec<Poly>, k: Vec<Poly>, x: T)
    requires Laws(v)
    ensures Sum(v, Scale(v, i, Scale(v, Vec(k.b, k.a, k.d, k.c), Vec(x, x, x, x)))) ==
            Sum(v, Scale(v, k, Scale(v, Vec(i.b, i.a, i.d, i.c), Vec(x, x, x, x))))
  {
    ColumnCommute(v, i, Vec(k.b, k.a, k.d, k.c), x);
    var t := Scale(v, k, Scale(v, Vec(i.b, i.a, i.d, i.c), Vec(x, x, x, x)));
    AddSwap(v, t.a, t.b);
    AddSwap(v, t.c, t.d);
  }

  lemma GatheredColumnTwo<T(!new)>(v: Space<T>, i: Vec<Poly>, k: Vec<Poly>, x: T)
    requires Laws(v)
    ensures Sum(v, Scale(v, i, Scale(v, Vec(k.c, k.b, k.a, k.d), Vec(x, x, x, x)))) ==
            Sum(v, Scale(v, k, Scale(v, Vec(i.c, i.b, i.a, i.d), Vec(x, x, x, x))))
  {
    ColumnCommute(v, i, Vec(k.c, k.b, k.a, k.d), x);
    var t := Scale(v, k, Scale(v, Vec(i.c, i.b, i.a, i.d), Vec(x, x, x, x)));
    SumTurn(v, t);
    SumFlip(v, Turn(t));
    SumTurn(v, Vec(t.c, t.b, t.a, t.d));
    SumTurn(v, Turn(Vec(t.c, t.b, t.a, t.d)));
  }

  lemma GatheredColumnThree<T(!new)>(v: Space<T>, i: Vec<Poly>, k: Vec<Poly>, x: T)
    requires Laws(v)
    ensures Sum(v, Scale(v, i, Scale(v, Vec(k.d, k.c, k.b, k.a), Vec(x, x, x, x)))) ==
            Sum(v, Scale(v, k, Scale(v, Vec(i.d, i.c, i.b, i.a), Vec(x, x, x, x))))
  {
    ColumnCommute(v, i, Vec(k.d, k.c, k.b, k.a), x);
    var t := Scale(v, k, Scale(v, Vec(i.d, i.c, i.b, i.a), Vec(x, x, x, x)));
    AddSwap(v, v.add(t.a, t.b), v.add(t.c, t.d));
    AddSwap(v, t.a, t.b);
    AddSwap(v, t.c, t.d);
  }

  /** Circulant matrices commute. */
  lemma CirculantCommute<T(!new)>(v: Space<T>, i: Vec<Poly>, k: Vec<Poly>, w: Vec<T>)
    requires Laws(v)
    ensures Circulant(v, i, Circulant(v, k, w)) == Circulant(v, k, Circulant(v, i, w))
  {
    RowCommute(v, i, k, w);
    RowCommute(v, i, k, Turn(w));
    RowCommute(v, i, k, Turn(Turn(w)));
    RowCommute(v, i, k, Turn(Turn(Turn(w))));
    CirculantTurn(v, k, w);
    CirculantTurn(v, k, Turn(w));
    CirculantTurn(v, k, Turn(Turn(w)));
    CirculantTurn(v, i, w);
    CirculantTurn(v, i, Turn(w));
    CirculantTurn(v, i, Turn(Turn(w)));
  }

}
