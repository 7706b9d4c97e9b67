/** AES key setup, encryption and decryption. */
module AesContext {
  import opened Algebra
  import opened Field
  import opened Aes
  import opened AesTables
  import opened AesCipher
  import Rounds

  // ---------------------------------------------------------------------
  // Key columns
  // ---------------------------------------------------------------------

  /** The S-box applied to the lowest byte, then rotation by a byte: i turns of the loop in aes_key_sbox(). */
  ghost function Turned(w: Column, i: nat): Column
    requires i <= 4
  {
    if i == 0 then w else var v := Turned(w, i - 1); Vec(v.d, Sbox(v.a), v.b, v.c)
  }

  lemma TurnedFour(w: Column)
    ensures Turned(w, 4) == SubWord(w)
  {
    assert Turned(w, 1) == Vec(w.d, Sbox(w.a), w.b, w.c);
    assert Turned(w, 2) == Vec(w.c, Sbox(w.d), Sbox(w.a), w.b);
    assert Turned(w, 3) == Vec(w.b, Sbox(w.c), Sbox(w.d), Sbox(w.a));
  }

  /** aes_key_sbox() */
  method KeySbox(mix: array2<bv8>, column: Column) returns (r: Column)
    requires Holds(mix, MIX, Sbox)
    ensures r == SubWord(column)
  {
    r := column;
    var i := 0;
    while i < 4
      invariant 0 <= i <= 4 && r == Turned(column, i)
    {
      var byte := r.a;
      assert EntryIs(mix, byte as int, MIX, Sbox(byte));
      byte := mix[byte as int, 0];
      r := Vec(r.d, byte, r.b, r.c);
      i := i + 1;
    }
    TurnedFour(column);
  }

  lemma SubTurn(w: Column)
    ensures Turn(SubWord(w)) == SubWord(Turn(w))
  {
  }

  /** The next value of (i % nk, i / nk). */
  lemma KeyStep(nk: nat, i: nat)
    requires KeyLength(nk)
    ensures if i % nk + 1 == nk then (i + 1) % nk == 0 && (i + 1) / nk == i / nk + 1
            else (i + 1) % nk == i % nk + 1 && (i + 1) / nk == i / nk
  {
  }

  lemma KeyStart(nk: nat)
    requires KeyLength(nk)
    ensures nk % nk == 0 && nk / nk == 1
  {
  }

  /** Which word of a block the loop is at: the test ( offset | keylen ) == 48 picks the middle of a 256-bit block. */
  lemma MiddleColumn(r: nat, nk: nat)
    requires KeyLength(nk) && r < nk
    ensures (4 * r) as bv8 | (4 * nk) as bv8 == 48 <==> nk > 6 && r == 4
  {
  }

  /** The round constant in use at word i: number i / nk, rounded up. */
  ghost function RconAt(nk: nat, i: nat): bv8
    requires KeyLength(nk) && i >= nk
  {
    KeyBlock(nk, i);
    RconByte(if i % nk == 0 then i / nk else i / nk + 1)
  }

  lemma KeyBlock(nk: nat, i: nat)
    requires KeyLength(nk) && i >= nk
    ensures i / nk >= 1
  {
  }

  lemma RconNext(nk: nat, i: nat)
    requires KeyLength(nk) && i >= nk
    ensures RconAt(nk, i + 1) == if i % nk == 0 then Double(RconAt(nk, i)) else RconAt(nk, i)
  {
    KeyStep(nk, i);
    KeyBlock(nk, i);
  }

  /** The S-box, rotation and round constant steps of the key expansion loop in aes_setkey(). */
  method Transform(mix: array2<bv8>, keylen: nat, offset: nat, last: Column, rcon: bv8, ghost nk: nat, ghost r: nat,
                   ghost q: nat)
    returns (tmp: Column)
    requires Holds(mix, MIX, Sbox) && KeyLength(nk) && r < nk && q >= 1
    requires keylen == 4 * nk && offset == 4 * r && (r == 0 ==> rcon == RconByte(q))
    ensures tmp == Scheduled(last, nk, r, q)
  {
    tmp := last;
    MiddleColumn(r, nk);
    if offset == 0 || offset as bv8 | keylen as bv8 == 48 {
      tmp := KeySbox(mix, tmp);
    }
    if offset == 0 {
      SubTurn(last);
      tmp := AddColumn(Turn(tmp), Vec(rcon, 0, 0, 0));
    }
  }

  /** One iteration of the loop. */
  method NextColumn(mix: array2<bv8>, ghost key: seq<Column>, ghost i: nat, keylen: nat, offset: nat, last: Column,
                    prev: Column, rcon: bv8)
    returns (tmp: Column, rcon': bv8)
    requires Holds(mix, MIX, Sbox) && KeyLength(|key|) && i >= |key|
    requires keylen == 4 * |key| && offset == 4 * (i % |key|) && rcon == RconAt(|key|, i)
    requires last == Word(key, i - 1) && prev == Word(key, i - |key|)
    ensures tmp == Word(key, i) && rcon' == RconAt(|key|, i + 1)
  {
    ghost var nk := |key|;
    KeyBlock(nk, i);
    tmp := Transform(mix, keylen, offset, last, rcon, nk, i % nk, i / nk);
    tmp := AddColumn(prev, tmp);
    RconNext(nk, i);
    rcon' := if offset == 0 then Double(rcon) else rcon;
  }

  ghost predicate Expanded(a: array<Column>, key: seq<Column>, n: nat)
    requires |key| >= 4 && n <= a.Length
    reads a
  {
    forall i: nat :: i < n ==> a[i] == Word(key, i)
  }

  method CopyKey(key: seq<Column>, a: array<Column>)
    requires 4 <= |key| <= a.Length
    modifies a
    ensures Expanded(a, key, |key|)
  {
    var i := 0;
    while i < |key|
      invariant 0 <= i <= |key| && Expanded(a, key, i)
    {
      a[i] := key[i];
      i := i + 1;
    }
  }

  method StoreColumn(a: array<Column>, ghost key: seq<Column>, next: nat, column: Column)
    requires |key| >= 4 && next < a.Length && Expanded(a, key, next) && column == Word(key, next)
    modifies a
    ensures Expanded(a, key, next + 1)
  {
    a[next] := column;
  }

  /** The key expansion of aes_setkey(). */
  method Expand(mix: array2<bv8>, key: seq<Column>, a: array<Column>, count: nat)
    requires Holds(mix, MIX, Sbox) && KeyLength(|key|) && |key| <= 4 * count <= a.Length
    modifies a
    ensures Expanded(a, key, 4 * count)
  {
    var nk := |key|;
    CopyKey(key, a);
    KeyStart(nk);
    var next, prev, offset, rcon := nk, 0, 0, 1;
    var tmp := a[next - 1];
    while next < 4 * count
      invariant nk <= next <= 4 * count && prev == next - nk && offset == 4 * (next % nk)
      invariant Expanded(a, key, next) && tmp == Word(key, next - 1) && rcon == RconAt(nk, next)
    {
      tmp, rcon := NextColumn(mix, key, next, 4 * nk, offset, tmp, a[prev], rcon);
      StoreColumn(a, key, next, tmp);
      KeyStep(nk, next);
      offset := offset + 4;
      if offset == 4 * nk { offset := 0; }
      next, prev := next + 1, prev + 1;
    }
  }

  // ---------------------------------------------------------------------
  // Decryption keys
  // ---------------------------------------------------------------------

  ghost predicate TablesReady(mix: array2<bv8>, inv: array2<bv8>)
    reads mix, inv
  {
    Holds(mix, MIX, Sbox) && Holds(inv, INV_MIX, InvSbox)
  }

  /** The final round of one direction and an intermediate round of the other, both with a zero key. */
  ghost function Converted(e: Direction, d: Direction, key: Matrix): Matrix {
    d.round(e.final(key, ZERO), ZERO)
  }

  method Convert(mix: array2<bv8>, inv: array2<bv8>, ghost e: Direction, ghost d: Direction, key: Matrix)
    returns (r: Matrix)
    requires Ready(mix, e) && Ready(inv, d) && e.stride == SHIFT_ROWS && d.stride == INV_SHIFT_ROWS
    ensures r == Converted(e, d, key)
  {
    var enc := new State(key);
    var temp := new State(ZERO);
    var dec := new State(ZERO);
    Final(mix, SHIFT_ROWS, e, enc, temp, ZERO);
    RepeatOne(d.round, temp.m, ZERO);
    IntermediateRounds(inv, INV_SHIFT_ROWS, d, temp, dec, [ZERO]);
    r := dec.m;
  }

  lemma RepeatOne(round: (Matrix, Matrix) -> Matrix, m: Matrix, key: Matrix)
    ensures Repeat(round, m, [key]) == round(m, key)
  {
  }

  /** Key j of the decryption keys made from the encryption keys. */
  ghost function InverseKey(e: Direction, d: Direction, enc: seq<Matrix>, j: nat): Matrix
    requires j < |enc|
  {
    if 0 < j < |enc| - 1 then Converted(e, d, enc[|enc| - 1 - j]) else enc[|enc| - 1 - j]
  }

  /** The conversion to decryption keys in aes_setkey(). */
  method Invert(mix: array2<bv8>, inv: array2<bv8>, ghost e: Direction, ghost d: Direction, enc: seq<Matrix>,
                dec: array<Matrix>)
    requires Ready(mix, e) && Ready(inv, d) && e.stride == SHIFT_ROWS && d.stride == INV_SHIFT_ROWS
    requires 2 <= |enc| <= dec.Length
    modifies dec
    ensures forall j: nat | j < |enc| :: dec[j] == InverseKey(e, d, enc, j)
  {
    var to, from := |enc| - 1, 0;
    dec[to] := enc[from];
    to, from := to - 1, from + 1;
    while to > 0
      invariant 0 <= to && from == |enc| - 1 - to
      invariant forall j: nat | to < j < |enc| :: dec[j] == InverseKey(e, d, enc, j)
    {
      var key := Convert(mix, inv, e, d, enc[from]);
      dec[to] := key;
      to, from := to - 1, from + 1;
    }
    dec[to] := enc[from];
  }

  /** They are the keys of the equivalent inverse cipher. */
  lemma InverseKeysAre(enc: seq<Matrix>, j: nat)
    requires |enc| >= 2 && j < |enc|
    ensures |Rounds.InverseKeys(STEPS, enc)| == |enc|
    ensures InverseKey(ENCRYPT, DECRYPT, enc, j) == Rounds.InverseKeys(STEPS, enc)[j]
  {
    Rounds.InverseKeysAt(STEPS, enc, j);
    UnmixByRounds(enc[|enc| - 1 - j]);
  }
}
