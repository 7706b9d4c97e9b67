/** AES key wrap: aes_wrap() and aes_unwrap() over a permutation of 128-bit blocks. */
module AesWrap {
  import opened Algebra
  import opened Field
  import opened AesGenerate
  import Aes

  /** Eight bytes: half a block, as two columns. */
  datatype Half = Half(l: Aes.Column, r: Aes.Column)

  const IV: Half := Half(Vec(0xA6, 0xA6, 0xA6, 0xA6), Vec(0xA6, 0xA6, 0xA6, 0xA6))

  /** Block encryption and decryption, and the way the step counter enters the integrity register. */
  datatype Block = Block(
    enc: (Half, Half) -> (Half, Half),
    dec: (Half, Half) -> (Half, Half),
    count: (Half, nat) -> Half)
  {

    ghost predicate DecUndoes(x: Half, y: Half) {
      var e := enc(x, y);
      dec(e.0, e.1) == (x, y)
    }

    ghost predicate EncUndoes(x: Half, y: Half) {
      var e := dec(x, y);
      enc(e.0, e.1) == (x, y)
    }

    ghost predicate CountUndoes(x: Half, t: nat) {
      count(count(x, t), t) == x
    }
  }

  ghost predicate Permutation(b: Block) {
    && (forall x, y :: b.DecUndoes(x, y))
    && (forall x, y :: b.EncUndoes(x, y))
    && (forall x, t :: b.CountUndoes(x, t))
  }

  /** Only the lowest byte of the counter reaches the register. */
  function CountByte(h: Half, t: nat): Half {
    h.(r := h.r.(d := Xor(h.r.d, ByteOf(t % 256))))
  }

  function Digit(t: nat, unit: nat): bv8
    requires unit > 0
  {
    ByteOf(t / unit % 256)
  }

  /** Exclusive or with the counter as a 64-bit big-endian integer, section 2.2.1 of RFC 3394. */
  function CountWord(h: Half, t: nat): Half {
    Half(Vec(Xor(h.l.a, Digit(t, 0x100_0000_0000_0000)), Xor(h.l.b, Digit(t, 0x1_0000_0000_0000)),
             Xor(h.l.c, Digit(t, 0x100_0000_0000)), Xor(h.l.d, Digit(t, 0x1_0000_0000))),
         Vec(Xor(h.r.a, Digit(t, 0x100_0000)), Xor(h.r.b, Digit(t, 0x1_0000)),
             Xor(h.r.c, Digit(t, 0x100)), Xor(h.r.d, Digit(t, 1))))
  }

  lemma HighByte(x: bv8, t: nat, unit: nat)
    requires t <= 255 < unit
    ensures Xor(x, Digit(t, unit)) == x
  {
    assert t / unit == 0;
    assert Digit(t, unit) == ByteOf(0) == 0;
    XorUnit(x);
  }

  lemma CountsAgree(h: Half, t: nat)
    requires t <= 255
    ensures CountByte(h, t) == CountWord(h, t)
  {
    HighByte(h.l.a, t, 0x100_0000_0000_0000);
    HighByte(h.l.b, t, 0x1_0000_0000_0000);
    HighByte(h.l.c, t, 0x100_0000_0000);
    HighByte(h.l.d, t, 0x1_0000_0000);
    HighByte(h.r.a, t, 0x100_0000);
    HighByte(h.r.b, t, 0x1_0000);
    HighByte(h.r.c, t, 0x100);
  }

  lemma CountByteUndoes(h: Half, t: nat)
    ensures CountByte(CountByte(h, t), t) == h
  {
  }

  // ---------------------------------------------------------------------
  // The steps
  // ---------------------------------------------------------------------

  /** Step i of a pass, on the register s[0] and the blocks s[1..]. */
  function WrapStep(b: Block, s: seq<Half>, i: nat, t: nat): (s': seq<Half>)
    requires 0 < i < |s|
    ensures |s'| == |s|
  {
    var e := b.enc(s[0], s[i]);
    s[0 := b.count(e.0, t)][i := e.1]
  }

  function UnwrapStep(b: Block, s: seq<Half>, i: nat, t: nat): (s': seq<Half>)
    requires 0 < i < |s|
    ensures |s'| == |s|
  {
    var e := b.dec(b.count(s[0], t), s[i]);
    s[0 := e.0][i := e.1]
  }

  /** The first i steps of pass j over n blocks. */
  function WrapPass(b: Block, s: seq<Half>, n: nat, j: nat, i: nat): (s': seq<Half>)
    requires i <= n < |s|
    ensures |s'| == |s|
  {
    if i == 0 then s else WrapStep(b, WrapPass(b, s, n, j, i - 1), i, n * j + i)
  }

  function WrapPasses(b: Block, s: seq<Half>, n: nat, j: nat): (s': seq<Half>)
    requires n < |s|
    ensures |s'| == |s|
  {
    if j == 0 then s else WrapPass(b, WrapPasses(b, s, n, j - 1), n, j - 1, n)
  }

  /** Steps i down to 1 of pass j undone. */
  function UnwrapPass(b: Block, s: seq<Half>, n: nat, j: nat, i: nat): (s': seq<Half>)
    requires i <= n < |s|
    ensures |s'| == |s|
    decreases i
  {
    if i == 0 then s else UnwrapPass(b, UnwrapStep(b, s, i, n * j + i), n, j, i - 1)
  }

  function UnwrapPasses(b: Block, s: seq<Half>, n: nat, j: nat): (s': seq<Half>)
    requires n < |s|
    ensures |s'| == |s|
    decreases j
  {
    if j == 0 then s else UnwrapPasses(b, UnwrapPass(b, s, n, j - 1, n), n, j - 1)
  }

  /** The wrapping of a sequence of blocks: six passes that start from the initial value. */
  function Wrapped(b: Block, data: seq<Half>): seq<Half> {
    WrapPasses(b, [IV] + data, |data|, 6)
  }

  function Unwrapped(b: Block, s: seq<Half>): seq<Half>
    requires |s| > 0
  {
    UnwrapPasses(b, s, |s| - 1, 6)
  }

  lemma StepsUndo(b: Block, s: seq<Half>, i: nat, t: nat)
    requires Permutation(b) && 0 < i < |s|
    ensures UnwrapStep(b, WrapStep(b, s, i, t), i, t) == s
    ensures WrapStep(b, UnwrapStep(b, s, i, t), i, t) == s
  {
    var e := b.enc(s[0], s[i]);
    assert b.DecUndoes(s[0], s[i]) && b.CountUndoes(e.0, t);
    var c := b.count(s[0], t);
    assert b.EncUndoes(c, s[i]) && b.CountUndoes(s[0], t);
  }

  lemma {:induction false} PassUndone(b: Block, s: seq<Half>, n: nat, j: nat, i: nat)
    requires Permutation(b) && i <= n < |s|
    ensures UnwrapPass(b, WrapPass(b, s, n, j, i), n, j, i) == s
    decreases i
  {
    if i > 0 {
      StepsUndo(b, WrapPass(b, s, n, j, i - 1), i, n * j + i);
      PassUndone(b, s, n, j, i - 1);
    }
  }

  lemma {:induction false} PassRedone(b: Block, s: seq<Half>, n: nat, j: nat, i: nat)
    requires Permutation(b) && i <= n < |s|
    ensures WrapPass(b, UnwrapPass(b, s, n, j, i), n, j, i) == s
    decreases i
  {
    if i > 0 {
      StepsUndo(b, s, i, n * j + i);
      PassRedone(b, UnwrapStep(b, s, i, n * j + i), n, j, i - 1);
    }
  }

  lemma {:induction false} PassesUndone(b: Block, s: seq<Half>, n: nat, j: nat)
    requires Permutation(b) && n < |s|
    ensures UnwrapPasses(b, WrapPasses(b, s, n, j), n, j) == s
    decreases j
  {
    if j > 0 {
      PassUndone(b, WrapPasses(b, s, n, j - 1), n, j - 1, n);
      PassesUndone(b, s, n, j - 1);
    }
  }

  lemma {:induction false} PassesRedone(b: Block, s: seq<Half>, n: nat, j: nat)
    requires Permutation(b) && n < |s|
    ensures WrapPasses(b, UnwrapPasses(b, s, n, j), n, j) == s
    decreases j
  {
    if j > 0 {
      PassesRedone(b, UnwrapPass(b, s, n, j - 1, n), n, j - 1);
      PassRedone(b, s, n, j - 1, n);
    }
  }

  /** A string unwraps to the initial value followed by data exactly when it is the wrapping of that data. */
  lemma UnwrapIff(b: Block, s: seq<Half>, data: seq<Half>)
    requires Permutation(b) && |s| == |data| + 1
    ensures Unwrapped(b, s) == [IV] + data <==> s == Wrapped(b, data)
  {
    PassesUndone(b, [IV] + data, |data|, 6);
    PassesRedone(b, s, |data|, 6);
  }

  // ---------------------------------------------------------------------
  // Agreement with RFC 3394
  // ---------------------------------------------------------------------

  ghost predicate SameCount(b: Block, c: Block, h: Half, t: nat) {
    b.count(h, t) == c.count(h, t)
  }

  lemma {:induction false} PassSame(b: Block, c: Block, s: seq<Half>, n: nat, j: nat, i: nat)
    requires i <= n < |s| && b.enc == c.enc && n * j + n <= 255
    requires forall h, t: nat | t <= 255 :: SameCount(b, c, h, t)
    ensures WrapPass(b, s, n, j, i) == WrapPass(c, s, n, j, i)
    decreases i
  {
    if i > 0 {
      PassSame(b, c, s, n, j, i - 1);
      var w := WrapPass(b, s, n, j, i - 1);
      assert SameCount(b, c, b.enc(w[0], w[i]).0, n * j + i);
    }
  }

  lemma {:induction false} PassesSame(b: Block, c: Block, s: seq<Half>, n: nat, j: nat)
    requires n < |s| && b.enc == c.enc && n * j <= 255
    requires forall h, t: nat | t <= 255 :: SameCount(b, c, h, t)
    ensures WrapPasses(b, s, n, j) == WrapPasses(c, s, n, j)
    decreases j
  {
    if j > 0 {
      assert n * j == n * (j - 1) + n;
      PassesSame(b, c, s, n, j - 1);
      PassSame(b, c, WrapPasses(b, s, n, j - 1), n, j - 1, n);
    }
  }

  /** As long as the counter fits in a byte, wrapping is that of section 2.2.1 of RFC 3394. */
  lemma WrapIsRfc3394(b: Block, data: seq<Half>)
    requires b.count == CountByte && 6 * |data| <= 255
    ensures Wrapped(b, data) == Wrapped(b.(count := CountWord), data)
  {
    var c := b.(count := CountWord);
    forall h, t: nat | t <= 255 ensures SameCount(b, c, h, t) { CountsAgree(h, t); }
    PassesSame(b, c, [IV] + data, |data|, 6);
  }

  // ---------------------------------------------------------------------
  // The code
  // ---------------------------------------------------------------------

  /** One step on the buffer: register in dest[0], block i in dest[i]. */
  method StepInPlace(b: Block, dest: array<Half>, i: nat, t: nat)
    requires 0 < i < dest.Length
    modifies dest
    ensures dest[..] == WrapStep(b, old(dest[..]), i, t)
  {
    var e := b.enc(dest[0], dest[i]);
    dest[0] := b.count(e.0, t);
    dest[i] := e.1;
  }

  /** The inner loop of aes_wrap(). */
  method PassInPlace(b: Block, dest: array<Half>, n: nat, j: nat)
    requires n < dest.Length
    modifies dest
    ensures dest[..] == WrapPass(b, old(dest[..]), n, j, n)
  {
    var i := 1;
    while i <= n
      invariant 1 <= i <= n + 1
      invariant dest[..] == WrapPass(b, old(dest[..]), n, j, i - 1)
    {
      StepInPlace(b, dest, i, n * j + i);
      i := i + 1;
    }
  }

  /** What the setup leaves in the first n blocks of the data: in place, the first one is lost. */
  function Setup(data: seq<Half>, inPlace: bool): seq<Half> {
    if inPlace && data != [] then data[0 := IV] else data
  }

  /** aes_wrap(), with or without the source in the destination buffer. */
  method Wrap(b: Block, src: array<Half>, dest: array<Half>, n: nat, memory: bool) returns (rc: int)
    requires n <= src.Length && dest.Length == n + 1
    modifies dest
    ensures rc == if memory then 0 else -1
    ensures rc == 0 ==> dest[..] == Wrapped(b, Setup(old(src[..n]), src == dest))
    ensures rc != 0 ==> dest[..] == old(dest[..])
  {
    if !memory { return -1; }
    ghost var data := Setup(src[..n], src == dest);
    dest[0] := IV;
    forall i | 0 <= i < n { dest[i + 1] := src[i]; }
    assert dest[..] == [IV] + data;
    var j := 0;
    while j < 6
      invariant 0 <= j <= 6
      invariant dest[..] == WrapPasses(b, [IV] + data, n, j)
    {
      PassInPlace(b, dest, n, j);
      j := j + 1;
    }
    rc := 0;
  }

  /** Wrapping in place is right exactly when there is no data or its first block is the initial value. */
  lemma WrapInPlaceIff(b: Block, data: seq<Half>)
    requires Permutation(b)
    ensures Wrapped(b, Setup(data, true)) == Wrapped(b, data) <==> data == [] || data[0] == IV
  {
    PassesUndone(b, [IV] + data, |data|, 6);
    PassesUndone(b, [IV] + Setup(data, true), |data|, 6);
    if data != [] {
      assert ([IV] + Setup(data, true))[1] == IV && ([IV] + data)[1] == data[0];
      if data[0] == IV { assert Setup(data, true) == data; }
    }
  }

  /** One step on the register and the first n blocks of the buffer. */
  method UnstepInPlace(b: Block, a: Half, dest: array<Half>, n: nat, i: nat, t: nat) returns (a': Half)
    requires 1 <= i <= n <= dest.Length
    modifies dest
    ensures [a'] + dest[..n] == UnwrapStep(b, [a] + old(dest[..n]), i, t)
  {
    var e := b.dec(b.count(a, t), dest[i - 1]);
    a' := e.0;
    dest[i - 1] := e.1;
  }

  /** The inner loop of aes_unwrap(). */
  method UnpassInPlace(b: Block, a: Half, dest: array<Half>, n: nat, j: nat) returns (a': Half)
    requires n <= dest.Length
    modifies dest
    ensures [a'] + dest[..n] == UnwrapPass(b, [a] + old(dest[..n]), n, j, n)
  {
    a' := a;
    var i := n;
    while i >= 1
      invariant 0 <= i <= n
      invariant UnwrapPass(b, [a'] + dest[..n], n, j, i) == UnwrapPass(b, [a] + old(dest[..n]), n, j, n)
    {
      a' := UnstepInPlace(b, a', dest, n, i, n * j + i);
      i := i - 1;
    }
  }

  /** The first loop nest of aes_unwrap(). */
  method Unpasses(b: Block, a: Half, dest: array<Half>, n: nat) returns (a': Half)
    requires n <= dest.Length
    modifies dest
    ensures [a'] + dest[..n] == Unwrapped(b, [a] + old(dest[..n]))
  {
    a' := a;
    var j := 5;
    while j >= 0
      invariant -1 <= j <= 5
      invariant UnwrapPasses(b, [a'] + dest[..n], n, j + 1) == UnwrapPasses(b, [a] + old(dest[..n]), n, 6)
    {
      a' := UnpassInPlace(b, a', dest, n, j);
      j := j - 1;
    }
  }

  /** aes_unwrap(); the source and the destination may be the same buffer. */
  method Unwrap(b: Block, src: array<Half>, dest: array<Half>, n: nat, memory: bool) returns (rc: int)
    requires Permutation(b) && n < src.Length && n <= dest.Length
    modifies dest
    ensures rc == 0 || rc == -1
    ensures rc == 0 <==> memory && exists data :: |data| == n && old(src[..n + 1]) == Wrapped(b, data)
    ensures rc == 0 ==> old(src[..n + 1]) == Wrapped(b, dest[..n])
    ensures !memory ==> dest[..] == old(dest[..])
  {
    if !memory { return -1; }
    ghost var s := src[..n + 1];
    var a := src[0];
    forall i | 0 <= i < n { dest[i] := src[i + 1]; }
    assert [a] + dest[..n] == s;
    a := Unpasses(b, a, dest, n);
    rc := if a == IV then 0 else -1;
    UnwrapOutcome(b, s, a, dest[..n]);
  }

  lemma UnwrapOutcome(b: Block, s: seq<Half>, a: Half, data: seq<Half>)
    requires Permutation(b) && |s| == |data| + 1 && [a] + data == Unwrapped(b, s)
    ensures a == IV ==> s == Wrapped(b, data)
    ensures a == IV <==> exists d :: |d| == |data| && s == Wrapped(b, d)
  {
    UnwrapIff(b, s, data);
    if d :| |d| == |data| && s == Wrapped(b, d) {
      UnwrapIff(b, s, d);
      assert ([a] + data)[0] == ([IV] + d)[0];
    }
  }

  // ---------------------------------------------------------------------
  // The permutation in use
  // ---------------------------------------------------------------------

  function Split(m: Aes.Matrix): (Half, Half) {
    (Half(m.a, m.b), Half(m.c, m.d))
  }

  function Join(x: Half, y: Half): Aes.Matrix {
    Vec(x.l, x.r, y.l, y.r)
  }

  /** AES with a given key, and the counter as the code applies it. */
  ghost function AesBlock(key: seq<Aes.Column>): Block
    requires Aes.KeyLength(|key|)
  {
    Block((x, y) => Split(Aes.Cipher(key, Join(x, y))), (x, y) => Split(Aes.InvCipher(key, Join(x, y))), CountByte)
  }

  lemma AesInverse(key: seq<Aes.Column>, x: Half, y: Half)
    requires Aes.KeyLength(|key|)
    ensures AesBlock(key).DecUndoes(x, y) && AesBlock(key).EncUndoes(x, y)
  {
    var m := Join(x, y);
    Aes.InvCipherCorrect(key, m);
    JoinSplit(Aes.Cipher(key, m));
    JoinSplit(Aes.InvCipher(key, m));
  }

  lemma JoinSplit(m: Aes.Matrix)
    ensures Join(Split(m).0, Split(m).1) == m
  {
  }

  /** AES is a permutation of blocks, so wrapping with it can be undone exactly. */
  lemma AesPermutation(key: seq<Aes.Column>)
    requires Aes.KeyLength(|key|)
    ensures Permutation(AesBlock(key))
  {
    var b := AesBlock(key);
    forall x, y ensures b.DecUndoes(x, y) && b.EncUndoes(x, y) { AesInverse(key, x, y); }
    forall x, t: nat ensures b.CountUndoes(x, t) { CountByteUndoes(x, t); }
  }
}
