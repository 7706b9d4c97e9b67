/** Generation of the AES lookup tables. */
module AesGenerate {
  import opened Algebra
  import opened Field
  import opened AesTables

  // ---------------------------------------------------------------------
  // Table entries
  // ---------------------------------------------------------------------

  lemma Assoc<T(!new)>(v: Space<T>, p: T, q: T, r: T)
    requires Laws(v)
    ensures v.add(v.add(p, q), r) == v.add(p, v.add(q, r))
  {
    assert v.Interchange(p, q, v.zero, r) && v.Unit(r) && v.Unit(p);
  }

  /** Two-term polynomials. */
  lemma TimesPair<T(!new)>(v: Space<T>, s: T)
    requires Laws(v)
    ensures Times(v, [false, true], s) == v.timesX(s)
    ensures Times(v, [true, false], s) == s
    ensures Times(v, [true, true], s) == v.add(v.timesX(s), s)
  {
    var x := v.timesX(s);
    assert [false, true][1..] == [true] && [true, true][1..] == [true] && [true, false][1..] == [false];
    assert Times(v, [true], x) == v.add(x, v.zero) && v.Unit(x) && Times(v, [false], x) == v.zero && v.Unit(s);
    AddSwap(v, s, x);
  }

  lemma TimesThree<T(!new)>(v: Space<T>, a: bool, b: bool, s: T)
    requires Laws(v)
    ensures Times(v, [a, b, true], s) == Plus(v, a, s, Plus(v, b, v.timesX(s), v.timesX(v.timesX(s))))
  {
    var x := v.timesX(s);
    assert [a, b, true][1..] == [b, true] && [b, true][1..] == [true];
    assert Times(v, [true], v.timesX(x)) == v.add(v.timesX(x), v.zero) && v.Unit(v.timesX(x));
  }

  lemma TimesFour<T(!new)>(v: Space<T>, a: bool, b: bool, c: bool, s: T)
    requires Laws(v)
    ensures var x := v.timesX(s); var x2 := v.timesX(x);
            Times(v, [a, b, c, true], s) == Plus(v, a, s, Plus(v, b, x, Plus(v, c, x2, v.timesX(x2))))
  {
    assert [a, b, c, true][1..] == [b, c, true];
    TimesThree(v, b, c, v.timesX(s));
  }

  /** The multiples 9, 11, 13 and 14, added up in the order of the code. */
  lemma TimesInverse<T(!new)>(v: Space<T>, s: T)
    requires Laws(v)
    ensures var x := v.timesX(s); var x2 := v.timesX(x); var x3 := v.timesX(x2);
            && Times(v, INV_MIX.d, s) == v.add(x3, s)
            && Times(v, INV_MIX.b, s) == v.add(v.add(x3, s), x)
            && Times(v, INV_MIX.c, s) == v.add(v.add(x3, x2), s)
            && Times(v, INV_MIX.a, s) == v.add(v.add(x3, x2), x)
  {
    var x := v.timesX(s); var x2 := v.timesX(x); var x3 := v.timesX(x2);
    TimesFour(v, true, false, false, s);
    TimesFour(v, true, true, false, s);
    TimesFour(v, true, false, true, s);
    TimesFour(v, false, true, true, s);
    AddSwap(v, s, x3);
    AddSwap(v, x2, x3);
    AddSwap(v, x, v.add(x3, x2));
    AddSwap(v, s, v.add(x3, x2));
    Assoc(v, s, x3, x);
    AddSwap(v, x, x3);
  }

  /** aes_mixcolumns_entry() */
  method MixEntry(t: array2<bv8>, i: nat)
    requires Shape(t) && i < 256
    modifies t
    ensures EntryIs(t, i, MIX, old(t[i, 0]))
    ensures forall j, b | 0 <= j < 256 && 0 <= b < 8 && j != i :: t[j, b] == old(t[j, b])
  {
    var scalar := t[i, 0];
    BytesLaws();
    TimesPair(BYTES, scalar);
    t[i, 1] := scalar;
    t[i, 2] := scalar;
    t[i, 5] := scalar;
    t[i, 6] := scalar;
    var scalarX := Double(scalar);
    t[i, 4] := scalarX;
    var scalarX1 := Xor(scalarX, scalar);
    t[i, 3] := scalarX1;
    t[i, 7] := scalarX1;
  }

  /** aes_invmixcolumns_entry() */
  method InvMixEntry(t: array2<bv8>, i: nat)
    requires Shape(t) && i < 256
    modifies t
    ensures EntryIs(t, i, INV_MIX, old(t[i, 0]))
    ensures forall j, b | 0 <= j < 256 && 0 <= b < 8 && j != i :: t[j, b] == old(t[j, b])
  {
    var scalar := t[i, 0];
    BytesLaws();
    TimesInverse(BYTES, scalar);
    var x := Double(scalar);
    var x2 := Double(x);
    var x3 := Double(x2);
    var x3And1 := Xor(x3, scalar);
    t[i, 1] := x3And1;
    t[i, 5] := x3And1;
    var x3AndXAnd1 := Xor(x3And1, x);
    t[i, 3] := x3AndXAnd1;
    t[i, 7] := x3AndXAnd1;
    var x3AndX2 := Xor(x3, x2);
    var x3AndX2And1 := Xor(x3AndX2, scalar);
    t[i, 2] := x3AndX2And1;
    t[i, 6] := x3AndX2And1;
    t[i, 4] := Xor(x3AndX2, x);
  }

  // ---------------------------------------------------------------------
  // The S-box
  // ---------------------------------------------------------------------

  /** The powers of the generator visited so far, the last of which is `poly`. */
  ghost predicate Walk(visited: set<bv8>, poly: bv8) {
    && poly != 0
    && (if visited == {} then poly == 1 else poly in visited && 3 in visited)
    && (forall w :: w in visited ==> w != 0)
    && (forall w :: w in visited && w != poly ==> Triple(w) in visited)
    && (forall w :: w in visited && w != 3 ==> Third(w) in visited && Third(w) != poly)
  }

  lemma WalkNew(visited: set<bv8>, poly: bv8)
    requires Walk(visited, poly) && (visited == {} || poly != 1)
    ensures Triple(poly) !in visited && Triple(poly) != 0
  {
  }

  lemma WalkStep(visited: set<bv8>, poly: bv8)
    requires Walk(visited, poly) && (visited == {} || poly != 1)
    ensures Walk(visited + {Triple(poly)}, Triple(poly))
  {
    WalkNew(visited, poly);
    TripleThird(poly);
    assert Triple(1) == 3;
    var next := Triple(poly);
    var all := visited + {next};
    forall w | w in all && w != next ensures Triple(w) in all { }
    forall w | w in all && w != 3 ensures Third(w) in all && Third(w) != next { }
  }

  /** A walk that has come back to 1 has visited every nonzero byte. */
  lemma WalkComplete(visited: set<bv8>, x: bv8)
    requires Walk(visited, 1) && visited != {} && x != 0
    ensures x in visited
  {
    var p := (y: bv8) => y in visited;
    assert Triple(1) == 3;
    forall y ensures Step(p, y) { }
    Generator(p, x);
  }

  lemma InverseIs(x: bv8, y: bv8)
    requires x != 0 && Mul(x, y) == 1
    ensures Inverse(x) == y
  {
    InverseUnique(x, Inverse(x), y);
  }

  lemma InverseStep(poly: bv8, invpoly: bv8)
    requires Mul(poly, invpoly) == 1
    ensures Mul(Triple(poly), Third(invpoly)) == 1
  {
    MulTriple(poly, Third(invpoly));
    TripleThird(invpoly);
  }

  /** The first byte of entry x is S(x), for each x of a set. */
  ghost predicate SboxOn(t: array2<bv8>, xs: set<bv8>)
    requires Shape(t)
    reads t
  {
    forall x :: x in xs ==> t[x as int, 0] == Sbox(x)
  }

  lemma Increment(b: bv8)
    requires b as int < 255
    ensures (b + 1) as int == b as int + 1
  {
  }

  /** The byte with a given value. */
  function ByteOf(i: nat): (b: bv8)
    requires i < 256
    ensures b as int == i
  {
    if i == 0 then 0 else Increment(ByteOf(i - 1)); ByteOf(i - 1) + 1
  }

  ghost function AllBytes(): set<bv8> {
    set i: nat | i < 256 :: ByteOf(i)
  }

  lemma SameByte(x: bv8, y: bv8)
    requires x as int == y as int
    ensures x == y
  {
  }

  lemma InAllBytes(x: bv8)
    ensures x in AllBytes()
  {
    SameByte(ByteOf(x as int), x);
  }

  /** The loop body: one more entry of the S-box. */
  method FillNext(t: array2<bv8>, poly: bv8, invpoly: bv8, ghost visited: set<bv8>)
    requires Shape(t) && SboxOn(t, visited) && poly != 0 && Mul(poly, invpoly) == 1
    modifies t
    ensures SboxOn(t, visited + {poly})
  {
    InverseIs(poly, invpoly);
    t[poly as int, 0] := Affine(invpoly);
    forall x | x in visited + {poly} ensures t[x as int, 0] == Sbox(x) {
      if x as int == poly as int { SameByte(x, poly); }
    }
  }

  /** The first loop of aes_generate(): walk through the nonzero bytes by their powers of the generator. */
  method FillSbox(t: array2<bv8>)
    requires Shape(t)
    modifies t
    ensures forall x: bv8 :: t[x as int, 0] == Sbox(x)
  {
    var poly: bv8, invpoly: bv8, done := 1, 1, false;
    ghost var visited: set<bv8> := {};
    MulOne(1);
    while !done
      invariant Walk(visited, poly) && Mul(poly, invpoly) == 1 && done == (visited != {} && poly == 1)
      invariant SboxOn(t, visited)
      decreases AllBytes() - visited
    {
      WalkNew(visited, poly);
      WalkStep(visited, poly);
      InverseStep(poly, invpoly);
      InAllBytes(Triple(poly));
      poly := Triple(poly);
      invpoly := Third(invpoly);
      FillNext(t, poly, invpoly, visited);
      visited := visited + {poly};
      done := poly == 1;
    }
    FillZero(t, visited);
  }

  /** The zeroth entry, which has no inverse. */
  method FillZero(t: array2<bv8>, ghost visited: set<bv8>)
    requires Shape(t) && SboxOn(t, visited) && Walk(visited, 1) && visited != {}
    modifies t
    ensures forall x: bv8 :: t[x as int, 0] == Sbox(x)
  {
    forall x: bv8 | x != 0 ensures t[x as int, 0] == Sbox(x) { WalkComplete(visited, x); }
    SboxZero();
    t[0, 0] := 0x63;
    forall x: bv8 ensures t[x as int, 0] == Sbox(x) {
      if x as int == 0 { SameByte(x, 0); }
    }
  }

  lemma SboxZero()
    ensures Sbox(0) == 0x63
  {
  }

  /** Every entry starts with S(x), and those below i are complete. */
  ghost predicate MixFilled(mix: array2<bv8>, i: nat)
    requires Shape(mix)
    reads mix
  {
    forall x: bv8 :: MixEntryFilled(mix, i, x)
  }

  ghost predicate MixEntryFilled(mix: array2<bv8>, i: nat, x: bv8)
    requires Shape(mix)
    reads mix
  {
    if x as int < i then EntryIs(mix, x as int, MIX, Sbox(x)) else mix[x as int, 0] == Sbox(x)
  }

  /** The entries S(x) for x below i are complete. */
  ghost predicate InvFilled(inv: array2<bv8>, i: nat)
    requires Shape(inv)
    reads inv
  {
    forall x: bv8 :: x as int < i ==> EntryIs(inv, Sbox(x) as int, INV_MIX, x)
  }

  lemma Distinct(x: bv8, y: bv8)
    requires x as int != y as int
    ensures Sbox(x) as int != Sbox(y) as int
  {
    if Sbox(x) as int == Sbox(y) as int {
      SameByte(Sbox(x), Sbox(y));
      SboxInjective(x, y);
    }
  }

  method FillMix(mix: array2<bv8>, i: nat)
    requires Shape(mix) && i < 256 && MixFilled(mix, i)
    modifies mix
    ensures MixFilled(mix, i + 1) && mix[i, 0] == Sbox(ByteOf(i))
  {
    ghost var b := ByteOf(i);
    assert MixEntryFilled(mix, i, b);
    MixEntry(mix, i);
    ghost var next := i + 1;
    forall x: bv8 ensures MixEntryFilled(mix, next, x) {
      assert old(MixEntryFilled(mix, i, x));
      if x as int == i { SameByte(x, b); }
    }
  }

  method FillInv(inv: array2<bv8>, entry: bv8, i: nat)
    requires Shape(inv) && i < 256 && InvFilled(inv, i) && entry == Sbox(ByteOf(i))
    modifies inv
    ensures InvFilled(inv, i + 1)
  {
    ghost var b := ByteOf(i);
    inv[entry as int, 0] := ByteOf(i);
    InvMixEntry(inv, entry as int);
    forall x: bv8 | x as int < i + 1 ensures EntryIs(inv, Sbox(x) as int, INV_MIX, x) {
      if x as int == i { SameByte(x, b); } else { Distinct(x, b); }
    }
  }

  /** aes_generate() */
  method Generate(mix: array2<bv8>, inv: array2<bv8>)
    requires Shape(mix) && Shape(inv) && mix != inv
    modifies mix, inv
    ensures Holds(mix, MIX, Sbox) && Holds(inv, INV_MIX, InvSbox)
  {
    FillSbox(mix);
    forall x: bv8 ensures MixEntryFilled(mix, 0, x) { }
    var i := 0;
    while i < 256
      invariant 0 <= i <= 256 && MixFilled(mix, i) && InvFilled(inv, i)
    {
      FillMix(mix, i);
      var entry := mix[i, 0];
      FillInv(inv, entry, i);
      i := i + 1;
    }
    forall x: bv8 ensures EntryIs(mix, x as int, MIX, Sbox(x)) {
      assert MixEntryFilled(mix, 256, x);
    }
    forall y: bv8 ensures EntryIs(inv, y as int, INV_MIX, InvSbox(y)) {
      InvSboxUndoes(y);
    }
  }
}
