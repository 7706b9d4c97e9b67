/** The AES algorithm as its callers see it: set a key, encrypt and decrypt blocks. */
module AesAlgorithm {
  import opened Algebra
  import opened Field
  import opened Aes
  import opened AesTables
  import opened AesCipher
  import opened AesGenerate
  import opened AesContext
  import AesStandard
  import Rounds

  const EINVAL := -22
  const MAX_ROUNDS := 15

  /** Columns of a byte string. */
  function KeyColumns(k: seq<bv8>): (w: seq<Column>)
    requires |k| % 4 == 0
    ensures |w| == |k| / 4
  {
    seq(|k| / 4, i requires 0 <= i < |k| / 4 => Vec(k[4 * i], k[4 * i + 1], k[4 * i + 2], k[4 * i + 3]))
  }

  /** Round keys viewed as matrices of four columns. */
  function KeysOf(w: seq<Column>, count: nat): (ks: seq<Matrix>)
    requires 4 * count <= |w|
    ensures |ks| == count
  {
    seq(count, r requires 0 <= r < count => Vec(w[4 * r], w[4 * r + 1], w[4 * r + 2], w[4 * r + 3]))
  }

  lemma KeysExpanded(a: array<Column>, key: seq<Column>, count: nat)
    requires KeyLength(|key|) && count == KeyCount(|key|) && 4 * count <= a.Length && Expanded(a, key, 4 * count)
    ensures KeysOf(a[..], count) == RoundKeys(key)
  {
  }

  /** The expanded key is that of the standard, byte by byte. */
  lemma ExpandedStandard(k: seq<bv8>, w: seq<Column>)
    requires |k| == 16 || |k| == 24 || |k| == 32
    requires |w| == 4 * (|k| / 4 + 7) && forall j: nat :: j < |w| ==> w[j] == Word(KeyColumns(k), j)
    ensures AesStandard.Schedule(k, w, |k| / 4)
  {
    var key := KeyColumns(k);
    forall i: nat, r: nat | AesStandard.Block(|key|, i) && r < 4 ensures AesStandard.Follows(w, |key|, i, r) {
      AesStandard.WordFollows(key, w, i, r);
    }
    forall i, r | 0 <= i < |key| && 0 <= r < 4 ensures AesStandard.Row(w[i], r) == k[4 * i + r] {
      assert w[i] == key[i];
    }
  }

  /** All rounds of one direction. */
  ghost function Whole(d: Direction, m: Matrix, keys: seq<Matrix>): Matrix
    requires |keys| >= 2
  {
    var n := |keys|;
    d.final(Repeat(d.round, AddRoundKey(m, keys[0]), keys[1..n - 1]), keys[n - 1])
  }

  /** The common body of aes_encrypt() and aes_decrypt(). */
  method Run(t: array2<bv8>, stride: int, ghost d: Direction, keys: seq<Matrix>, src: State, dst: State)
    requires Ready(t, d) && stride == d.stride && |keys| % 2 == 1 && |keys| >= 3
    modifies dst
    ensures dst.m == Whole(d, old(src.m), keys)
  {
    var input := new State(src.m);
    var output := new State(ZERO);
    AddKey(input, keys[0]);
    IntermediateRounds(t, stride, d, input, output, keys[1..|keys| - 1]);
    Final(t, stride, d, output, dst, keys[|keys| - 1]);
  }

  /** The tables of both directions. */
  ghost predicate BothReady(mix: array2<bv8>, inv: array2<bv8>, e: Direction, d: Direction)
    reads mix, inv
  {
    Ready(mix, e) && Ready(inv, d) && e.stride == SHIFT_ROWS && d.stride == INV_SHIFT_ROWS
  }

  class Context {
    // Lookup tables, shared by all contexts and filled in on first use
    const mix: array2<bv8>
    const inv: array2<bv8>
    // Encryption keys, column by column, and decryption keys
    const encrypt: array<Column>
    const decrypt: array<Matrix>
    var rounds: nat
    // The directions the tables are for, and the round keys
    ghost const e: Direction
    ghost const d: Direction
    ghost var keys: seq<Matrix>

    /** Empty tables, and no key yet. */
    constructor ()
      ensures Valid() && e == ENCRYPT && d == DECRYPT && fresh(mix) && fresh(inv) && fresh(encrypt) && fresh(decrypt)
    {
      mix, inv := new bv8[256, 8]((_, _) => 0), new bv8[256, 8]((_, _) => 0);
      encrypt, decrypt := new Column[4 * MAX_ROUNDS](_ => Vec(0, 0, 0, 0)), new Matrix[MAX_ROUNDS](_ => ZERO);
      rounds, keys := 0, [];
      e, d := ENCRYPT, DECRYPT;
    }

    ghost predicate Sized() {
      Shape(mix) && Shape(inv) && mix != inv && encrypt.Length == 4 * MAX_ROUNDS && decrypt.Length == MAX_ROUNDS
    }

    /** Entry zero is empty until the tables have been generated. */
    ghost predicate Valid()
      reads mix, inv
    {
      Sized() && (mix[0, 0] != 0 ==> BothReady(mix, inv, e, d))
    }

    /** A key has been set. */
    ghost predicate Keyed()
      reads this, mix, inv, encrypt, decrypt
    {
      && Sized() && BothReady(mix, inv, e, d)
      && (rounds == 11 || rounds == 13 || rounds == 15)
      && keys == KeysOf(encrypt[..], rounds)
      && forall j: nat | j < rounds :: decrypt[j] == InverseKey(e, d, keys, j)
    }

    /** Decryption undoes encryption. */
    ghost predicate Reversible()
      reads `keys
    {
      |keys| >= 2 && forall m :: Undone(e, d, keys, m)
    }

    /** The part of aes_setkey() that follows validation of the key length. */
    method Schedule(raw: seq<Column>)
      requires Sized() && BothReady(mix, inv, e, d) && Holds(mix, MIX, Sbox)
      requires KeyLength(|raw|) && rounds == KeyCount(|raw|)
      modifies `keys, encrypt, decrypt
      ensures Keyed() && Expanded(encrypt, raw, 4 * rounds)
    {
      Expand(mix, raw, encrypt, rounds);
      keys := KeysOf(encrypt[..], rounds);
      Invert(mix, inv, e, d, KeysOf(encrypt[..], rounds), decrypt);
    }

    /** Generate the lookup tables, if not already done. */
    method EnsureTables()
      requires Valid() && e == ENCRYPT && d == DECRYPT
      modifies mix, inv
      ensures Valid() && BothReady(mix, inv, e, d) && Holds(mix, MIX, Sbox)
    {
      if mix[0, 0] == 0 {
        Generate(mix, inv);
        GeneratedReady(mix, inv);
      }
    }

    /** Both schedules, for a key of an accepted length. */
    method ScheduleKey(k: seq<bv8>)
      requires Sized() && BothReady(mix, inv, e, d) && Holds(mix, MIX, Sbox)
      requires (|k| == 16 || |k| == 24 || |k| == 32) && rounds == KeyCount(|k| / 4)
      modifies `keys, encrypt, decrypt
      ensures Keyed() && keys == RoundKeys(KeyColumns(k))
      ensures AesStandard.Schedule(k, encrypt[..4 * rounds], |k| / 4)
    {
      var raw := KeyColumns(k);
      Schedule(raw);
      KeysExpanded(encrypt, raw, rounds);
      ExpandedStandard(k, encrypt[..4 * rounds]);
    }

    /** aes_setkey() */
    method SetKey(k: seq<bv8>) returns (rc: int)
      requires Valid() && e == ENCRYPT && d == DECRYPT
      modifies this, mix, inv, encrypt, decrypt
      ensures Valid() && BothReady(mix, inv, e, d)
      ensures rc == if |k| == 16 || |k| == 24 || |k| == 32 then 0 else EINVAL
      ensures |k| == 16 || |k| == 24 || |k| == 32 ==> Keyed() && keys == RoundKeys(KeyColumns(k))
      ensures rc == 0 ==> AesStandard.Schedule(k, encrypt[..4 * rounds], |k| / 4)
      ensures rc != 0 ==> rounds == old(rounds) && keys == old(keys)
      ensures rc != 0 ==> encrypt[..] == old(encrypt[..]) && decrypt[..] == old(decrypt[..])
    {
      EnsureTables();
      if |k| == 16 {
        rounds := 11;
      } else if |k| == 24 {
        rounds := 13;
      } else if |k| == 32 {
        rounds := 15;
      } else {
        return EINVAL;
      }
      ScheduleKey(k);
      rc := 0;
    }

    /** aes_encrypt() */
    method Encrypt(src: State, dst: State)
      requires Keyed()
      modifies dst
      ensures dst.m == Whole(e, old(src.m), keys)
    {
      Run(mix, SHIFT_ROWS, e, KeysOf(encrypt[..], rounds), src, dst);
    }

    /** aes_decrypt() */
    method Decrypt(src: State, dst: State)
      requires Keyed()
      modifies dst
      ensures dst.m == Whole(d, old(src.m), InverseKeySeq(e, d, keys))
    {
      assert decrypt[..rounds] == InverseKeySeq(e, d, keys);
      Run(inv, INV_SHIFT_ROWS, d, decrypt[..rounds], src, dst);
    }
  }

  ghost function InverseKeySeq(e: Direction, d: Direction, keys: seq<Matrix>): (ks: seq<Matrix>)
    ensures |ks| == |keys|
  {
    seq(|keys|, j requires 0 <= j < |keys| => InverseKey(e, d, keys, j))
  }

  lemma GeneratedReady(mix: array2<bv8>, inv: array2<bv8>)
    requires TablesReady(mix, inv)
    ensures BothReady(mix, inv, ENCRYPT, DECRYPT)
  {
    EncryptValid();
    DecryptValid();
  }

  /** Encryption is the cipher of FIPS 197. */
  lemma EncryptIsCipher(key: seq<Column>, m: Matrix)
    requires KeyLength(|key|)
    ensures Whole(ENCRYPT, m, RoundKeys(key)) == Cipher(key, m)
  {
    var ks := RoundKeys(key);
    RepeatEncrypt(AddRoundKey(m, ks[0]), ks[1..|ks| - 1]);
  }

  lemma InverseKeySeqIs(enc: seq<Matrix>)
    requires |enc| >= 2
    ensures InverseKeySeq(ENCRYPT, DECRYPT, enc) == Rounds.InverseKeys(STEPS, enc)
  {
    InverseKeysAre(enc, 0);
    forall j: nat | j < |enc| ensures InverseKey(ENCRYPT, DECRYPT, enc, j) == Rounds.InverseKeys(STEPS, enc)[j] {
      InverseKeysAre(enc, j);
    }
  }

  /** Decryption is the inverse cipher of FIPS 197, on every block. */
  lemma DecryptIsInvCipher(key: seq<Column>, m: Matrix)
    requires KeyLength(|key|)
    ensures Whole(DECRYPT, m, InverseKeySeq(ENCRYPT, DECRYPT, RoundKeys(key))) == InvCipher(key, m)
  {
    var ks := RoundKeys(key);
    InverseKeySeqIs(ks);
    var dec := Rounds.InverseKeys(STEPS, ks);
    InverseKeysAre(ks, 0);
    RepeatDecrypt(AddRoundKey(m, dec[0]), dec[1..|dec| - 1]);
    InvCipherCorrect(key, m);
  }

  /** With the keys made by aes_setkey(), decryption undoes encryption on every block. */
  lemma DecryptUndoesEncrypt(key: seq<Column>, m: Matrix)
    requires KeyLength(|key|)
    ensures Undone(ENCRYPT, DECRYPT, RoundKeys(key), m)
  {
    EncryptIsCipher(key, m);
    DecryptIsInvCipher(key, Cipher(key, m));
    InvCipherCorrect(key, m);
  }

  ghost predicate Undone(e: Direction, d: Direction, keys: seq<Matrix>, m: Matrix)
    requires |keys| >= 2
  {
    Whole(d, Whole(e, m, keys), InverseKeySeq(e, d, keys)) == m
  }

  lemma AlwaysUndone(context: Context, key: seq<Column>)
    requires context.e == ENCRYPT && context.d == DECRYPT && KeyLength(|key|) && context.keys == RoundKeys(key)
    ensures context.Reversible()
  {
    forall m ensures Undone(context.e, context.d, context.keys, m) {
      DecryptUndoesEncrypt(key, m);
    }
  }

  /** The same, in place: with any key that is accepted, a block encrypted and then decrypted is unchanged. */
  method RoundTrip(context: Context, k: seq<bv8>, block: State) returns (rc: int)
    requires context.Valid() && context.e == ENCRYPT && context.d == DECRYPT
    modifies context, context.mix, context.inv, context.encrypt, context.decrypt, block
    ensures rc == 0 <==> |k| == 16 || |k| == 24 || |k| == 32
    ensures block.m == old(block.m)
  {
    rc := context.SetKey(k);
    if rc == 0 {
      AlwaysUndone(context, KeyColumns(k));
      EncryptThenDecrypt(context, block);
    }
  }

  method EncryptThenDecrypt(context: Context, block: State)
    requires context.Keyed() && context.Reversible()
    modifies block
    ensures block.m == old(block.m)
  {
    assert Undone(context.e, context.d, context.keys, block.m);
    context.Encrypt(block, block);
    context.Decrypt(block, block);
  }
}
