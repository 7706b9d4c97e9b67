/**
The AES cipher of FIPS 197 on a state of four columns, and the facts that make
its inverse work.  Byte i of a state in memory is row i % 4 of column i / 4.
*/
module Aes {
  import opened Algebra
  import opened Field
  import Rounds

  type Column = Vec<bv8>
  type Matrix = Vec<Column>

  const ZERO_COLUMN: Column := Vec(0, 0, 0, 0)
  const ZERO: Matrix := Vec(ZERO_COLUMN, ZERO_COLUMN, ZERO_COLUMN, ZERO_COLUMN)

  /** Element i of a vector. */
  function At<T>(w: Vec<T>, i: nat): T
    requires i < 4
  {
    match i case 0 => w.a case 1 => w.b case 2 => w.c case _ => w.d
  }

  function MapVec<T, U>(f: T -> U, w: Vec<T>): Vec<U> {
    Vec(f(w.a), f(w.b), f(w.c), f(w.d))
  }

  /** A byte substitution applied to a whole state. */
  function MapBytes(f: bv8 -> bv8, m: Matrix): Matrix {
    Vec(MapVec(f, m.a), MapVec(f, m.b), MapVec(f, m.c), MapVec(f, m.d))
  }

  ghost function SubBytes(m: Matrix): Matrix {
    MapBytes(Sbox, m)
  }

  ghost function InvSubBytes(m: Matrix): Matrix {
    MapBytes(InvSbox, m)
  }

  /** Row r moves left by r columns. */
  function ShiftRows(m: Matrix): Matrix {
    Vec(Vec(m.a.a, m.b.b, m.c.c, m.d.d), Vec(m.b.a, m.c.b, m.d.c, m.a.d),
        Vec(m.c.a, m.d.b, m.a.c, m.b.d), Vec(m.d.a, m.a.b, m.b.c, m.c.d))
  }

  /** Row r moves right by r columns. */
  function InvShiftRows(m: Matrix): Matrix {
    Vec(Vec(m.a.a, m.d.b, m.c.c, m.b.d), Vec(m.b.a, m.a.b, m.d.c, m.c.d),
        Vec(m.c.a, m.b.b, m.a.c, m.d.d), Vec(m.d.a, m.c.b, m.b.c, m.a.d))
  }

  /** A column transformation given by a circulant matrix. */
  function Mix(k: Vec<Poly>, m: Matrix): Matrix {
    Vec(Circulant(BYTES, k, m.a), Circulant(BYTES, k, m.b), Circulant(BYTES, k, m.c), Circulant(BYTES, k, m.d))
  }

  function MixColumns(m: Matrix): Matrix {
    Mix(MIX, m)
  }

  function InvMixColumns(m: Matrix): Matrix {
    Mix(INV_MIX, m)
  }

  function AddColumn(w: Column, z: Column): Column {
    AddVec(BYTES, w, z)
  }

  function AddRoundKey(m: Matrix, k: Matrix): Matrix {
    Vec(AddColumn(m.a, k.a), AddColumn(m.b, k.b), AddColumn(m.c, k.c), AddColumn(m.d, k.d))
  }

  ghost function SubShift(m: Matrix): Matrix {
    ShiftRows(SubBytes(m))
  }

  ghost function InvShiftSub(m: Matrix): Matrix {
    InvSubBytes(InvShiftRows(m))
  }

  /** The steps in the order of sections 5.1 and 5.3 of FIPS 197. */
  ghost const STEPS: Rounds.Steps<Matrix> := Rounds.Steps(SubShift, InvShiftSub, MixColumns, InvMixColumns, AddRoundKey)

  // ---------------------------------------------------------------------
  // The laws
  // ---------------------------------------------------------------------

  lemma SubColumnUndone(w: Column)
    ensures MapVec(InvSbox, MapVec(Sbox, w)) == w && MapVec(Sbox, MapVec(InvSbox, w)) == w
  {
    InvSboxUndoes(w.a);
    InvSboxUndoes(w.b);
    InvSboxUndoes(w.c);
    InvSboxUndoes(w.d);
  }

  lemma SubShiftUndone(m: Matrix)
    ensures InvShiftSub(SubShift(m)) == m
  {
    assert InvShiftRows(SubShift(m)) == SubBytes(m);
    SubColumnUndone(m.a);
    SubColumnUndone(m.b);
    SubColumnUndone(m.c);
    SubColumnUndone(m.d);
  }

  lemma InvShiftSubUndone(m: Matrix)
    ensures SubShift(InvShiftSub(m)) == m
  {
  }

  lemma MixInverseToo(w: Column)
    ensures Circulant(BYTES, MIX, Circulant(BYTES, INV_MIX, w)) == w
  {
    BytesLaws();
    CirculantCommute(BYTES, MIX, INV_MIX, w);
    MixInverse(BYTES, w);
  }

  lemma InvMixColumnsUndone(m: Matrix)
    ensures MixColumns(InvMixColumns(m)) == m
  {
    MixInverseToo(m.a);
    MixInverseToo(m.b);
    MixInverseToo(m.c);
    MixInverseToo(m.d);
  }

  lemma MixColumnsUndone(m: Matrix)
    ensures InvMixColumns(MixColumns(m)) == m
  {
    BytesLaws();
    MixInverse(BYTES, m.a);
    MixInverse(BYTES, m.b);
    MixInverse(BYTES, m.c);
    MixInverse(BYTES, m.d);
  }

  lemma InvMixColumnsAdds(m: Matrix, k: Matrix)
    ensures InvMixColumns(AddRoundKey(m, k)) == AddRoundKey(InvMixColumns(m), InvMixColumns(k))
  {
    BytesLaws();
    CirculantAdd(BYTES, INV_MIX, m.a, k.a);
    CirculantAdd(BYTES, INV_MIX, m.b, k.b);
    CirculantAdd(BYTES, INV_MIX, m.c, k.c);
    CirculantAdd(BYTES, INV_MIX, m.d, k.d);
  }

  lemma AddColumnTwice(w: Column, k: Column)
    ensures AddColumn(AddColumn(w, k), k) == w
  {
  }

  lemma AddRoundKeyUndone(m: Matrix, k: Matrix)
    ensures AddRoundKey(AddRoundKey(m, k), k) == m
  {
    AddColumnTwice(m.a, k.a);
    AddColumnTwice(m.b, k.b);
    AddColumnTwice(m.c, k.c);
    AddColumnTwice(m.d, k.d);
  }

  lemma StepsLaws()
    ensures Rounds.Laws(STEPS)
  {
    forall s ensures STEPS.UnsubUndoes(s) { SubShiftUndone(s); }
    forall s ensures STEPS.UnmixUndoes(s) { MixColumnsUndone(s); }
    forall s ensures STEPS.Undone(s) { InvShiftSubUndone(s); InvMixColumnsUndone(s); }
    forall s, t ensures STEPS.UnmixLinear(s, t) { InvMixColumnsAdds(s, t); }
    forall s, k ensures STEPS.AddUndoes(s, k) { AddRoundKeyUndone(s, k); }
  }

  lemma AddZero(m: Matrix)
    ensures AddRoundKey(m, ZERO) == m
  {
  }

  // ---------------------------------------------------------------------
  // Key expansion, section 5.2 of FIPS 197
  // ---------------------------------------------------------------------

  ghost function SubWord(w: Column): Column {
    MapVec(Sbox, w)
  }

  /** The round constant [x^(j-1), 0, 0, 0]. */
  function Rcon(j: nat): Column
    requires j >= 1
  {
    Vec(RconByte(j), 0, 0, 0)
  }

  function RconByte(j: nat): bv8
    requires j >= 1
  {
    if j == 1 then 1 else Double(RconByte(j - 1))
  }

  /** What is added to word i - nk, given word i - 1, where i = q * nk + r. */
  ghost function Scheduled(temp: Column, nk: nat, r: nat, q: nat): Column {
    if r == 0 && q >= 1 then AddColumn(SubWord(Turn(temp)), Rcon(q))
    else if nk > 6 && r == 4 then SubWord(temp)
    else temp
  }

  /** Word i of the key schedule for a key of |key| words. */
  ghost function Word(key: seq<Column>, i: nat): Column
    requires |key| >= 4
  {
    var nk := |key|;
    if i < nk then key[i]
    else AddColumn(Word(key, i - nk), Scheduled(Word(key, i - 1), nk, i % nk, i / nk))
  }

  /** Round key r: four consecutive words. */
  ghost function RoundKey(key: seq<Column>, r: nat): Matrix
    requires |key| >= 4
  {
    Vec(Word(key, 4 * r), Word(key, 4 * r + 1), Word(key, 4 * r + 2), Word(key, 4 * r + 3))
  }

  /** Number of round keys: 11, 13 or 15. */
  function KeyCount(nk: nat): nat {
    nk + 7
  }

  ghost function RoundKeys(key: seq<Column>): (ks: seq<Matrix>)
    requires |key| >= 4
    ensures |ks| == KeyCount(|key|)
  {
    seq(KeyCount(|key|), r requires 0 <= r => RoundKey(key, r))
  }

  predicate KeyLength(nk: nat) {
    nk == 4 || nk == 6 || nk == 8
  }

  /** The cipher of section 5.1. */
  ghost function Cipher(key: seq<Column>, m: Matrix): Matrix
    requires KeyLength(|key|)
  {
    Rounds.Encrypt(STEPS, m, RoundKeys(key))
  }

  /** The inverse cipher of section 5.3. */
  ghost function InvCipher(key: seq<Column>, m: Matrix): Matrix
    requires KeyLength(|key|)
  {
    Rounds.InverseCipher(STEPS, m, RoundKeys(key))
  }

  /** Cipher and inverse cipher undo each other; decryption with the transformed round keys is the inverse cipher. */
  lemma InvCipherCorrect(key: seq<Column>, m: Matrix)
    requires KeyLength(|key|)
    ensures InvCipher(key, Cipher(key, m)) == m && Cipher(key, InvCipher(key, m)) == m
    ensures Rounds.Decrypt(STEPS, m, Rounds.InverseKeys(STEPS, RoundKeys(key))) == InvCipher(key, m)
  {
    StepsLaws();
    var ks := RoundKeys(key);
    Rounds.DecryptUndoesEncrypt(STEPS, m, ks);
    Rounds.EquivalentInverse(STEPS, Cipher(key, m), ks);
    Rounds.EquivalentInverse(STEPS, m, ks);
    Rounds.EncryptUndoesInverse(STEPS, m, ks);
  }
}
