/** The AES implementation: rounds, key setup, encryption and decryption. */
module AesCipher {
  import opened Algebra
  import opened Field
  import opened Aes
  import opened AesTables
  import Rounds

  /** A state in memory. */
  class State {
    var m: Matrix

    constructor (m: Matrix)
      ensures this.m == m
    {
      this.m := m;
    }
  }

  /** A direction of the cipher: matrix, substitution and row shift, and the round functions they make. */
  datatype Direction = Direction(k: Vec<Poly>, f: bv8 -> bv8, stride: int,
                                 round: (Matrix, Matrix) -> Matrix, final: (Matrix, Matrix) -> Matrix) {

    ghost predicate RoundIs(m: Matrix, key: Matrix) {
      round(m, key) == AddRoundKey(Mix(k, MapBytes(f, Shift(stride, m))), key)
    }

    ghost predicate FinalIs(m: Matrix, key: Matrix) {
      final(m, key) == AddRoundKey(MapBytes(f, Shift(stride, m)), key)
    }

    ghost predicate Valid() {
      && Stride(stride)
      && (forall m, key :: RoundIs(m, key))
      && (forall m, key :: FinalIs(m, key))
    }
  }

  ghost predicate Ready(t: array2<bv8>, d: Direction)
    reads t
  {
    Holds(t, d.k, d.f) && d.Valid()
  }

  lemma OutputsRound(t: array2<bv8>, d: Direction, m: Matrix, key: Matrix)
    requires Ready(t, d)
    ensures Vec(Output(t, d.stride, m, key, 0), Output(t, d.stride, m, key, 1), Output(t, d.stride, m, key, 2),
                Output(t, d.stride, m, key, 3)) == d.round(m, key)
  {
    var s := Shift(d.stride, m);
    OutputMix(t, d.k, d.f, d.stride, m, key, 0, s.a);
    OutputMix(t, d.k, d.f, d.stride, m, key, 1, s.b);
    OutputMix(t, d.k, d.f, d.stride, m, key, 2, s.c);
    OutputMix(t, d.k, d.f, d.stride, m, key, 3, s.d);
    assert d.RoundIs(m, key);
  }

  /** aes_round() */
  method Round(t: array2<bv8>, stride: int, ghost d: Direction, input: State, output: State, key: Matrix)
    requires Ready(t, d) && stride == d.stride && input != output
    modifies output
    ensures output.m == d.round(input.m, key)
  {
    OutputsRound(t, d, input.m, key);
    output.m := Vec(Output(t, stride, input.m, key, 0), Output(t, stride, input.m, key, 1),
                    Output(t, stride, input.m, key, 2), Output(t, stride, input.m, key, 3));
  }

  /** aes_addroundkey() */
  method AddKey(state: State, key: Matrix)
    modifies state
    ensures state.m == AddRoundKey(old(state.m), key)
  {
    state.m := Vec(AddColumn(state.m.a, key.a), AddColumn(state.m.b, key.b),
                   AddColumn(state.m.c, key.c), AddColumn(state.m.d, key.d));
  }

  lemma MapBytesAt(f: bv8 -> bv8, m: Matrix, i: nat)
    requires i < 16
    ensures ByteAt(MapBytes(f, m), i) == f(ByteAt(m, i))
  {
  }

  lemma StoredByte(t: array2<bv8>, d: Direction, m: Matrix, o: nat)
    requires Ready(t, d) && o < 16
    ensures t[ByteAt(m, Source(d.stride, o)) as int, 0] == ByteAt(MapBytes(d.f, Shift(d.stride, m)), o)
  {
    ShiftAt(d.stride, m, o);
    MapBytesAt(d.f, Shift(d.stride, m), o);
    var b := ByteAt(m, Source(d.stride, o));
    assert EntryIs(t, b as int, d.k, d.f(b));
  }

  /** aes_final() */
  method Final(t: array2<bv8>, stride: int, ghost d: Direction, input: State, output: State, key: Matrix)
    requires Ready(t, d) && stride == d.stride && input != output
    modifies output
    ensures output.m == d.final(input.m, key)
  {
    ghost var target := MapBytes(d.f, Shift(stride, input.m));
    var outOffset, inOffset := 0, 0;
    while outOffset < 16
      invariant 0 <= outOffset <= 16 && inOffset == Source(stride, outOffset)
      invariant forall i: nat | i < outOffset :: ByteAt(output.m, i) == ByteAt(target, i)
    {
      var byte := ByteAt(input.m, inOffset);
      ghost var was := output.m;
      var stored := t[byte as int, 0];
      StoredByte(t, d, input.m, outOffset);
      output.m := SetByte(output.m, outOffset, stored);
      forall i: nat | i <= outOffset ensures ByteAt(output.m, i) == ByteAt(target, i) {
        SetByteAt(was, outOffset, stored, i);
      }
      SourceStep(stride, outOffset);
      outOffset, inOffset := outOffset + 1, (inOffset + stride) % 16;
    }
    SameBytes(output.m, target);
    assert d.FinalIs(input.m, key);
    AddKey(output, key);
  }

  /** Rounds one after the other. */
  function Repeat(round: (Matrix, Matrix) -> Matrix, m: Matrix, keys: seq<Matrix>): Matrix {
    if keys == [] then m else round(Repeat(round, m, keys[..|keys| - 1]), keys[|keys| - 1])
  }

  lemma RepeatNext(round: (Matrix, Matrix) -> Matrix, m: Matrix, keys: seq<Matrix>, n: nat)
    requires n < |keys|
    ensures Repeat(round, m, keys[..n + 1]) == round(Repeat(round, m, keys[..n]), keys[n])
  {
    assert keys[..n + 1][..n] == keys[..n];
  }

  /** aes_encrypt_rounds() and aes_decrypt_rounds(): an odd number of rounds, so the result ends up in `output`. */
  method IntermediateRounds(t: array2<bv8>, stride: int, ghost d: Direction, input: State, output: State,
                            keys: seq<Matrix>)
    requires Ready(t, d) && stride == d.stride && input != output && |keys| % 2 == 1
    modifies input, output
    ensures output.m == Repeat(d.round, old(input.m), keys)
  {
    var i, o, n := input, output, 0;
    while n < |keys|
      invariant 0 <= n <= |keys|
      invariant if n % 2 == 0 then i == input && o == output else i == output && o == input
      invariant i.m == Repeat(d.round, old(input.m), keys[..n])
    {
      RepeatNext(d.round, old(input.m), keys, n);
      Round(t, stride, d, i, o, keys[n]);
      i, o, n := o, i, n + 1;
    }
    assert keys[..n] == keys;
  }

  // ---------------------------------------------------------------------
  // The two directions
  // ---------------------------------------------------------------------

  ghost function EncryptRound(m: Matrix, key: Matrix): Matrix {
    Rounds.EncryptRound(STEPS, m, key)
  }

  ghost function EncryptFinal(m: Matrix, key: Matrix): Matrix {
    AddRoundKey(SubShift(m), key)
  }

  ghost function DecryptRound(m: Matrix, key: Matrix): Matrix {
    Rounds.DecryptRound(STEPS, m, key)
  }

  ghost function DecryptFinal(m: Matrix, key: Matrix): Matrix {
    AddRoundKey(InvShiftSub(m), key)
  }

  ghost const ENCRYPT := Direction(MIX, Sbox, SHIFT_ROWS, EncryptRound, EncryptFinal)
  ghost const DECRYPT := Direction(INV_MIX, InvSbox, INV_SHIFT_ROWS, DecryptRound, DecryptFinal)

  lemma ShiftThenSub(m: Matrix)
    ensures SubBytes(ShiftRows(m)) == SubShift(m)
  {
  }

  lemma EncryptValid()
    ensures ENCRYPT.Valid()
  {
    forall m, key ensures ENCRYPT.RoundIs(m, key) && ENCRYPT.FinalIs(m, key) {
      ShiftThenSub(m);
    }
  }

  lemma DecryptValid()
    ensures DECRYPT.Valid()
  {
    forall m, key ensures DECRYPT.RoundIs(m, key) && DECRYPT.FinalIs(m, key) {
    }
  }

  lemma {:induction false} RepeatEncrypt(m: Matrix, keys: seq<Matrix>)
    ensures Repeat(EncryptRound, m, keys) == Rounds.EncryptRounds(STEPS, m, keys)
  {
    if keys != [] { RepeatEncrypt(m, keys[..|keys| - 1]); }
  }

  lemma {:induction false} RepeatDecrypt(m: Matrix, keys: seq<Matrix>)
    ensures Repeat(DecryptRound, m, keys) == Rounds.DecryptRounds(STEPS, m, keys)
  {
    if keys != [] { RepeatDecrypt(m, keys[..|keys| - 1]); }
  }

  /** InvMixColumns by way of the final encryption round and one decryption round, both with a zero key. */
  lemma UnmixByRounds(k: Matrix)
    ensures DecryptRound(EncryptFinal(k, ZERO), ZERO) == InvMixColumns(k)
  {
    AddZero(SubShift(k));
    SubShiftUndone(k);
    AddZero(InvMixColumns(k));
  }
}
