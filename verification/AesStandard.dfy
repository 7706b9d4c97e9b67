/** FIPS 197 byte by byte: what the steps of the cipher and the key schedule do to each byte. */
module AesStandard {
  import opened Algebra
  import opened Field
  import opened Aes

  /** Row r of a column. */
  function Row<T>(w: Vec<T>, r: nat): T
    requires r < 4
  {
    [w.a, w.b, w.c, w.d][r]
  }

  /** The byte in row r and column c of a state. */
  function Byte(m: Matrix, r: nat, c: nat): bv8
    requires r < 4 && c < 4
  {
    Row([m.a, m.b, m.c, m.d][c], r)
  }

  /** Multiplication by x, section 4.2.1. */
  lemma DoubleIs(b: bv8)
    ensures Double(b) == (b << 1) ^ (if b >= 0x80 then 0x1b else 0)
  {
  }

  /** Section 5.1.2. */
  lemma ShiftRowsBytes(m: Matrix, r: nat, c: nat)
    requires r < 4 && c < 4
    ensures Byte(ShiftRows(m), r, c) == Byte(m, r, (c + r) % 4)
  {
  }

  /** One byte of a column, section 5.1.3. */
  function Mixed(x: bv8, y: bv8, z: bv8, t: bv8): bv8 {
    Double(x) ^ (Double(y) ^ y) ^ z ^ t
  }

  /** The same in any space. */
  function MixedIn<T>(v: Space<T>, x: T, y: T, z: T, t: T): T {
    v.add(v.add(v.timesX(x), v.add(y, v.timesX(y))), v.add(z, t))
  }

  lemma TimesMix<T(!new)>(v: Space<T>, x: T)
    requires Laws(v)
    ensures Times(v, MIX.a, x) == v.timesX(x) && Times(v, MIX.b, x) == v.add(x, v.timesX(x))
    ensures Times(v, MIX.c, x) == x && Times(v, MIX.d, x) == x
  {
    assert v.Unit(x) && v.Unit(v.timesX(x));
    assert [true][1..] == [] && [false][1..] == [] && [false, true][1..] == [true];
    assert [true, true][1..] == [true] && [true, false][1..] == [false];
    assert Times(v, [true], v.timesX(x)) == v.timesX(x) && Times(v, [false], v.timesX(x)) == v.zero;
  }

  lemma MixRow<T(!new)>(v: Space<T>, x: T, y: T, z: T, t: T)
    requires Laws(v)
    ensures Sum(v, Scale(v, MIX, Vec(x, y, z, t))) == MixedIn(v, x, y, z, t)
  {
    TimesMix(v, x);
    TimesMix(v, y);
    TimesMix(v, z);
    TimesMix(v, t);
  }

  lemma MixRows<T(!new)>(v: Space<T>, w: Vec<T>, r: nat)
    requires Laws(v) && r < 4
    ensures Row(Circulant(v, MIX, w), r) ==
            MixedIn(v, Row(w, r), Row(w, (r + 1) % 4), Row(w, (r + 2) % 4), Row(w, (r + 3) % 4))
  {
    MixRow(v, w.a, w.b, w.c, w.d);
    MixRow(v, w.b, w.c, w.d, w.a);
    MixRow(v, w.c, w.d, w.a, w.b);
    MixRow(v, w.d, w.a, w.b, w.c);
  }

  lemma MixRowsBytes(w: Column, r: nat)
    requires r < 4
    ensures Row(Circulant(BYTES, MIX, w), r) ==
            MixedIn(BYTES, Row(w, r), Row(w, (r + 1) % 4), Row(w, (r + 2) % 4), Row(w, (r + 3) % 4))
  {
    BytesLaws();
    MixRows(BYTES, w, r);
  }

  lemma XorShape(a: bv8, b: bv8, y: bv8, z: bv8, t: bv8)
    ensures Xor(Xor(a, Xor(y, b)), Xor(z, t)) == a ^ (b ^ y) ^ z ^ t
  {
  }

  lemma MixedBytes(x: bv8, y: bv8, z: bv8, t: bv8)
    ensures MixedIn(BYTES, x, y, z, t) == Mixed(x, y, z, t)
  {
    XorShape(Double(x), Double(y), y, z, t);
  }

  lemma MixColumn(w: Column, r: nat)
    requires r < 4
    ensures Row(Circulant(BYTES, MIX, w), r) ==
            Mixed(Row(w, r), Row(w, (r + 1) % 4), Row(w, (r + 2) % 4), Row(w, (r + 3) % 4))
  {
    MixRowsBytes(w, r);
    MixedBytes(Row(w, r), Row(w, (r + 1) % 4), Row(w, (r + 2) % 4), Row(w, (r + 3) % 4));
  }

  lemma MixColumnsBytes(m: Matrix, r: nat, c: nat)
    requires r < 4 && c < 4
    ensures Byte(MixColumns(m), r, c) ==
            Mixed(Byte(m, r, c), Byte(m, (r + 1) % 4, c), Byte(m, (r + 2) % 4, c), Byte(m, (r + 3) % 4, c))
  {
    MixColumn([m.a, m.b, m.c, m.d][c], r);
  }

  /** One bit of the affine transformation: a sum of five bits, and one of {63}. */
  predicate AffineBit(b: bv8, i: nat)
    requires i < 8
  {
    (Bit(b, i) != Bit(b, (i + 4) % 8)) != (Bit(b,
      (i + 5) % 8) != (Bit(b, (i + 6) % 8) != (Bit(b, (i + 7) % 8) != Bit(0x63, i))))
  }

  lemma AffineBit0(b: bv8)
    ensures Bit(Affine(b), 0) <==> AffineBit(b, 0)
  {
  }

  lemma AffineBit1(b: bv8)
    ensures Bit(Affine(b), 1) <==> AffineBit(b, 1)
  {
  }

  lemma AffineBit2(b: bv8)
    ensures Bit(Affine(b), 2) <==> AffineBit(b, 2)
  {
  }

  lemma AffineBit3(b: bv8)
    ensures Bit(Affine(b), 3) <==> AffineBit(b, 3)
  {
  }

  lemma AffineBit4(b: bv8)
    ensures Bit(Affine(b), 4) <==> AffineBit(b, 4)
  {
  }

  lemma AffineBit5(b: bv8)
    ensures Bit(Affine(b), 5) <==> AffineBit(b, 5)
  {
  }

  lemma AffineBit6(b: bv8)
    ensures Bit(Affine(b), 6) <==> AffineBit(b, 6)
  {
  }

  lemma AffineBit7(b: bv8)
    ensures Bit(Affine(b), 7) <==> AffineBit(b, 7)
  {
  }

  lemma AffineBits(b: bv8, i: nat)
    requires i < 8
    ensures Bit(Affine(b), i) <==> AffineBit(b, i)
  {
    match i
    case 0 => AffineBit0(b);
    case 1 => AffineBit1(b);
    case 2 => AffineBit2(b);
    case 3 => AffineBit3(b);
    case 4 => AffineBit4(b);
    case 5 => AffineBit5(b);
    case 6 => AffineBit6(b);
    case 7 => AffineBit7(b);
  }

  /** Section 5.1.1: the multiplicative inverse, and then the affine transformation. */
  lemma SboxBits(x: bv8, i: nat)
    requires i < 8
    ensures if x == 0 then Inverse(x) == 0 else Mul(x, Inverse(x)) == 1
    ensures Bit(Sbox(x), i) <==> AffineBit(Inverse(x), i)
  {
    AffineBits(Inverse(x), i);
  }

  // ---------------------------------------------------------------------
  // Key expansion, section 5.2
  // ---------------------------------------------------------------------

  const RCON: seq<bv8> := [0x01, 0x02, 0x04, 0x08, 0x10, 0x20, 0x40, 0x80, 0x1b, 0x36]

  lemma RconIs(j: nat)
    requires 1 <= j <= 10
    ensures RconByte(j) == RCON[j - 1]
  {
    assert RconByte(1) == 0x01 && RconByte(2) == 0x02 && RconByte(3) == 0x04 && RconByte(4) == 0x08;
    assert RconByte(5) == 0x10 && RconByte(6) == 0x20 && RconByte(7) == 0x40 && RconByte(8) == 0x80;
    assert RconByte(9) == 0x1b && RconByte(10) == 0x36;
  }

  /** What is added to byte r of word i - nk to make byte r of word i, given word i - 1. */
  ghost function Change(last: Column, nk: nat, i: nat, r: nat): bv8
    requires nk > 0 && r < 4 && 1 <= i / nk <= 10
  {
    if i % nk == 0 then Sbox(Row(last, (r + 1) % 4)) ^ (if r == 0 then RCON[i / nk - 1] else 0)
    else if nk == 8 && i % 8 == 4 then Sbox(Row(last, r))
    else Row(last, r)
  }

  /** The words of a key schedule: as many as there are columns in all round keys. */
  predicate Block(nk: nat, i: nat) {
    KeyLength(nk) && nk <= i < 4 * (nk + 7)
  }

  lemma BlockNumber(nk: nat, i: nat)
    requires Block(nk, i)
    ensures 1 <= i / nk <= 10
  {
  }

  /** Byte r of word i. */
  ghost predicate Follows(w: seq<Column>, nk: nat, i: nat, r: nat)
    requires Block(nk, i) && i < |w| && r < 4
  {
    BlockNumber(nk, i);
    Row(w[i], r) == Row(w[i - nk], r) ^ Change(w[i - 1], nk, i, r)
  }

  /** The key itself, and then every byte of every further word. */
  ghost predicate Schedule(k: seq<bv8>, w: seq<Column>, nk: nat) {
    && KeyLength(nk) && |k| == 4 * nk && |w| == 4 * (nk + 7)
    && (forall i, r :: 0 <= i < nk && 0 <= r < 4 ==> Row(w[i], r) == k[4 * i + r])
    && forall i: nat, r: nat :: Block(nk, i) && r < 4 ==> Follows(w, nk, i, r)
  }

  lemma AddVecRow<T>(v: Space<T>, w: Vec<T>, z: Vec<T>, r: nat)
    requires r < 4
    ensures Row(AddVec(v, w, z), r) == v.add(Row(w, r), Row(z, r))
  {
  }

  lemma AddedRow(w: Column, z: Column, r: nat)
    requires r < 4
    ensures Row(AddColumn(w, z), r) == Row(w, r) ^ Row(z, r)
  {
    AddVecRow(BYTES, w, z, r);
  }

  lemma SubWordRow(w: Column, r: nat)
    requires r < 4
    ensures Row(SubWord(w), r) == Sbox(Row(w, r)) && Row(SubWord(Turn(w)), r) == Sbox(Row(w, (r + 1) % 4))
  {
  }

  lemma RconRow(j: nat, r: nat)
    requires 1 <= j <= 10 && r < 4
    ensures Row(Rcon(j), r) == if r == 0 then RCON[j - 1] else 0
  {
    RconIs(j);
  }

  lemma ScheduledRow(last: Column, nk: nat, i: nat, r: nat)
    requires Block(nk, i) && r < 4
    ensures 1 <= i / nk <= 10 && Row(Scheduled(last, nk, i % nk, i / nk), r) == Change(last, nk, i, r)
  {
    BlockNumber(nk, i);
    if i % nk == 0 {
      FirstRow(last, i / nk, r);
    } else if nk == 8 && i % 8 == 4 {
      SubWordRow(last, r);
    }
  }

  lemma FirstRow(last: Column, q: nat, r: nat)
    requires 1 <= q <= 10 && r < 4
    ensures Row(AddColumn(SubWord(Turn(last)), Rcon(q)), r) ==
            Sbox(Row(last, (r + 1) % 4)) ^ (if r == 0 then RCON[q - 1] else 0)
  {
    SubWordRow(last, r);
    RconRow(q, r);
    AddedRow(SubWord(Turn(last)), Rcon(q), r);
  }

  lemma WordFollows(key: seq<Column>, w: seq<Column>, i: nat, r: nat)
    requires Block(|key|, i) && i < |w| && r < 4 && forall j: nat :: j < |w| ==> w[j] == Word(key, j)
    ensures Follows(w, |key|, i, r)
  {
    var nk := |key|;
    BlockNumber(nk, i);
    ScheduledRow(w[i - 1], nk, i, r);
    AddedRow(w[i - nk], Scheduled(w[i - 1], nk, i % nk, i / nk), r);
  }
}
