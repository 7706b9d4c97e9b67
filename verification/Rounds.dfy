/**
The round structure of AES over abstract steps: decryption that uses the same
sequence of steps as encryption, with transformed round keys, undoes encryption
(the equivalent inverse cipher of section 5.3.5 of FIPS 197).
*/
module Rounds {

  /** `sub` is ShiftRows with SubBytes, `mix` is MixColumns, `add` is AddRoundKey. */
  datatype Steps<!S> = Steps(sub: S -> S, unsub: S -> S, mix: S -> S, unmix: S -> S, add: (S, S) -> S) {

    ghost predicate UnsubUndoes(s: S) {
      unsub(sub(s)) == s
    }

    ghost predicate UnmixUndoes(s: S) {
      unmix(mix(s)) == s
    }

    /** The same the other way around. */
    ghost predicate Undone(s: S) {
      sub(unsub(s)) == s && mix(unmix(s)) == s
    }

    ghost predicate UnmixLinear(s: S, t: S) {
      unmix(add(s, t)) == add(unmix(s), unmix(t))
    }

    ghost predicate AddUndoes(s: S, k: S) {
      add(add(s, k), k) == s
    }
  }

  ghost predicate Laws<S(!new)>(c: Steps<S>) {
    && (forall s :: c.UnsubUndoes(s))
    && (forall s :: c.UnmixUndoes(s))
    && (forall s :: c.Undone(s))
    && (forall s, t :: c.UnmixLinear(s, t))
    && (forall s, k :: c.AddUndoes(s, k))
  }

  function EncryptRound<S>(c: Steps<S>, s: S, key: S): S {
    c.add(c.mix(c.sub(s)), key)
  }

  function DecryptRound<S>(c: Steps<S>, s: S, key: S): S {
    c.add(c.unmix(c.unsub(s)), key)
  }

  /** The intermediate rounds, one per key. */
  function EncryptRounds<S>(c: Steps<S>, s: S, keys: seq<S>): S {
    if keys == [] then s
    else EncryptRound(c, EncryptRounds(c, s, keys[..|keys| - 1]), keys[|keys| - 1])
  }

  function DecryptRounds<S>(c: Steps<S>, s: S, keys: seq<S>): S {
    if keys == [] then s
    else DecryptRound(c, DecryptRounds(c, s, keys[..|keys| - 1]), keys[|keys| - 1])
  }

  function Encrypt<S>(c: Steps<S>, s: S, keys: seq<S>): S
    requires |keys| >= 2
  {
    var n := |keys|;
    c.add(c.sub(EncryptRounds(c, c.add(s, keys[0]), keys[1..n - 1])), keys[n - 1])
  }

  function Decrypt<S>(c: Steps<S>, s: S, keys: seq<S>): S
    requires |keys| >= 2
  {
    var n := |keys|;
    c.add(c.unsub(DecryptRounds(c, c.add(s, keys[0]), keys[1..n - 1])), keys[n - 1])
  }

  /** Round keys in reverse order; all but the first and last go through `unmix`. */
  function InverseKeys<S>(c: Steps<S>, keys: seq<S>): seq<S>
    requires |keys| >= 2
  {
    [keys[|keys| - 1]] + Unmixed(c, keys[1..|keys| - 1]) + [keys[0]]
  }

  function Unmixed<S>(c: Steps<S>, keys: seq<S>): seq<S> {
    if keys == [] then [] else [c.unmix(keys[|keys| - 1])] + Unmixed(c, keys[..|keys| - 1])
  }

  /** The intermediate rounds of the plain inverse cipher, last key first. */
  function UndoRounds<S>(c: Steps<S>, s: S, keys: seq<S>): S {
    if keys == [] then s
    else UndoRounds(c, c.unsub(c.unmix(c.add(s, keys[|keys| - 1]))), keys[..|keys| - 1])
  }

  /** The inverse cipher of section 5.3: the encryption steps undone one by one. */
  function InverseCipher<S>(c: Steps<S>, s: S, keys: seq<S>): S
    requires |keys| >= 2
  {
    var n := |keys|;
    c.add(UndoRounds(c, c.unsub(c.add(s, keys[n - 1])), keys[1..n - 1]), keys[0])
  }

  lemma {:induction false} DecryptFirst<S>(c: Steps<S>, s: S, key: S, keys: seq<S>)
    ensures DecryptRounds(c, s, [key] + keys) == DecryptRounds(c, DecryptRound(c, s, key), keys)
  {
    var ks := [key] + keys;
    if keys == [] {
      assert ks[..|ks| - 1] == [];
    } else {
      assert ks[..|ks| - 1] == [key] + keys[..|keys| - 1];
      DecryptFirst(c, s, key, keys[..|keys| - 1]);
    }
  }

  lemma {:induction false} RoundsInverse<S(!new)>(c: Steps<S>, s: S, keys: seq<S>)
    requires forall x, y :: c.UnmixLinear(x, y)
    ensures c.unsub(DecryptRounds(c, s, Unmixed(c, keys))) == UndoRounds(c, c.unsub(s), keys)
    decreases |keys|
  {
    if keys != [] {
      var init, k := keys[..|keys| - 1], keys[|keys| - 1];
      DecryptFirst(c, s, c.unmix(k), Unmixed(c, init));
      assert c.UnmixLinear(c.unsub(s), k);
      RoundsInverse(c, DecryptRound(c, s, c.unmix(k)), init);
    }
  }

  /** Decryption with the transformed keys is the inverse cipher, on every input. */
  lemma EquivalentInverse<S(!new)>(c: Steps<S>, s: S, keys: seq<S>)
    requires Laws(c) && |keys| >= 2
    ensures Decrypt(c, s, InverseKeys(c, keys)) == InverseCipher(c, s, keys)
  {
    var n := |keys|;
    var dec := InverseKeys(c, keys);
    assert dec[1..|dec| - 1] == Unmixed(c, keys[1..n - 1]);
    RoundsInverse(c, c.add(s, keys[n - 1]), keys[1..n - 1]);
  }

  lemma {:induction false} RoundsUndone<S(!new)>(c: Steps<S>, s: S, keys: seq<S>)
    requires Laws(c)
    ensures UndoRounds(c, EncryptRounds(c, s, keys), keys) == s
  {
    if keys != [] {
      var init, k := keys[..|keys| - 1], keys[|keys| - 1];
      var u := EncryptRounds(c, s, init);
      assert c.AddUndoes(c.mix(c.sub(u)), k) && c.UnmixUndoes(c.sub(u)) && c.UnsubUndoes(u);
      RoundsUndone(c, s, init);
    }
  }

  /** Decryption with the transformed keys undoes encryption. */
  lemma DecryptUndoesEncrypt<S(!new)>(c: Steps<S>, s: S, keys: seq<S>)
    requires Laws(c) && |keys| >= 2
    ensures Decrypt(c, Encrypt(c, s, keys), InverseKeys(c, keys)) == s
  {
    var n := |keys|;
    var s0 := c.add(s, keys[0]);
    var t := EncryptRounds(c, s0, keys[1..n - 1]);
    EquivalentInverse(c, Encrypt(c, s, keys), keys);
    assert c.AddUndoes(c.sub(t), keys[n - 1]) && c.UnsubUndoes(t) && c.AddUndoes(s, keys[0]);
    RoundsUndone(c, s0, keys[1..n - 1]);
  }

  lemma {:induction false} RoundsRedone<S(!new)>(c: Steps<S>, s: S, keys: seq<S>)
    requires Laws(c)
    ensures EncryptRounds(c, UndoRounds(c, s, keys), keys) == s
    decreases |keys|
  {
    if keys != [] {
      var k := keys[|keys| - 1];
      var t := c.unmix(c.add(s, k));
      assert c.Undone(t) && c.Undone(c.add(s, k)) && c.AddUndoes(s, k);
      RoundsRedone(c, c.unsub(t), keys[..|keys| - 1]);
    }
  }

  /** Encryption undoes the inverse cipher. */
  lemma EncryptUndoesInverse<S(!new)>(c: Steps<S>, s: S, keys: seq<S>)
    requires Laws(c) && |keys| >= 2
    ensures Encrypt(c, InverseCipher(c, s, keys), keys) == s
  {
    var n := |keys|;
    var t := c.unsub(c.add(s, keys[n - 1]));
    RoundsRedone(c, t, keys[1..n - 1]);
    assert c.AddUndoes(UndoRounds(c, t, keys[1..n - 1]), keys[0]);
    assert c.Undone(c.add(s, keys[n - 1])) && c.AddUndoes(s, keys[n - 1]);
  }

  lemma {:induction false} UnmixedAt<S>(c: Steps<S>, keys: seq<S>, i: nat)
    requires i < |keys|
    ensures |Unmixed(c, keys)| == |keys| && Unmixed(c, keys)[i] == c.unmix(keys[|keys| - 1 - i])
    decreases |keys|
  {
    if |keys| > 1 { UnmixedAt(c, keys[..|keys| - 1], if i == 0 then 0 else i - 1); }
  }

  lemma InverseKeysAt<S>(c: Steps<S>, keys: seq<S>, i: nat)
    requires |keys| >= 2 && i < |keys|
    ensures |InverseKeys(c, keys)| == |keys|
    ensures InverseKeys(c, keys)[i] == if 0 < i < |keys| - 1 then c.unmix(keys[|keys| - 1 - i])
            else keys[|keys| - 1 - i]
  {
    var mid := keys[1..|keys| - 1];
    if |keys| > 2 { UnmixedAt(c, mid, if 0 < i < |keys| - 1 then i - 1 else 0); }
  }
}
