/** AES key wrap as the shift register that section 2.2.1 of RFC 3394 defines. */
module AesWrapShift {
  import opened AesWrap

  /** The integrity register, and the blocks in the order in which they come next. */
  datatype Register = Register(a: Half, r: seq<Half>)

  /** Step t: the first block is encrypted with the register, all others move up, and the result goes last. */
  function Shift(b: Block, s: Register, t: nat): (s': Register)
    requires s.r != []
    ensures |s'.r| == |s.r|
  {
    var e := b.enc(s.a, s.r[0]);
    Register(b.count(e.0, t), s.r[1..] + [e.1])
  }

  /** Steps 1 to t. */
  function Shifted(b: Block, s: Register, t: nat): (s': Register)
    requires s.r != []
    ensures |s'.r| == |s.r|
  {
    if t == 0 then s else Shift(b, Shifted(b, s, t - 1), t)
  }

  /** The register s[0] and the blocks s[1..], of which the first i have been dealt with in this pass. */
  function Turned(s: seq<Half>, i: nat): Register
    requires i < |s|
  {
    Register(s[0], s[i + 1..] + s[1..i + 1])
  }

  lemma StepShifts(b: Block, s: seq<Half>, i: nat, t: nat)
    requires i + 1 < |s|
    ensures Turned(WrapStep(b, s, i + 1, t), i + 1) == Shift(b, Turned(s, i), t)
  {
    var s', e := WrapStep(b, s, i + 1, t), b.enc(s[0], s[i + 1]);
    assert Turned(s, i).r[0] == s[i + 1] && Turned(s, i).r[1..] == s[i + 2..] + s[1..i + 1];
    assert s'[i + 2..] == s[i + 2..] && s'[1..i + 2] == s[1..i + 1] + [e.1];
  }

  /** The blocks stand as the register does after t steps. */
  predicate Agree(b: Block, first: Register, s: seq<Half>, i: nat, t: nat)
    requires i < |s| && first.r != []
  {
    Turned(s, i) == Shifted(b, first, t)
  }

  lemma StepAgrees(b: Block, first: Register, s: seq<Half>, i: nat, t: nat)
    requires i + 1 < |s| && first.r != [] && Agree(b, first, s, i, t)
    ensures Agree(b, first, WrapStep(b, s, i + 1, t + 1), i + 1, t + 1)
  {
    StepShifts(b, s, i, t + 1);
  }

  /** The first i steps of a pass that begins after t steps. */
  lemma {:induction false} PassShifts(b: Block, first: Register, s: seq<Half>, n: nat, j: nat, i: nat, t: nat)
    requires |s| == n + 1 && i <= n && first.r != [] && t == n * j && Agree(b, first, s, 0, t)
    ensures Agree(b, first, WrapPass(b, s, n, j, i), i, t + i)
    decreases i
  {
    if i > 0 {
      PassShifts(b, first, s, n, j, i - 1, t);
      StepAgrees(b, first, WrapPass(b, s, n, j, i - 1), i - 1, t + i - 1);
      PassNext(b, s, n, j, i, t);
    }
  }

  lemma PassNext(b: Block, s: seq<Half>, n: nat, j: nat, i: nat, t: nat)
    requires 0 < i <= n < |s| && t == n * j
    ensures WrapPass(b, s, n, j, i) == WrapStep(b, WrapPass(b, s, n, j, i - 1), i, t + i)
  {
  }

  lemma PassTurns(s: seq<Half>, n: nat)
    requires |s| == n + 1
    ensures Turned(s, n) == Turned(s, 0)
  {
  }

  lemma NextPass(n: nat, j: nat)
    requires j > 0
    ensures n * (j - 1) + n == n * j && n * (j - 1) >= 0
  {
  }

  lemma {:induction false} PassesShift(b: Block, s: seq<Half>, n: nat, j: nat, t: nat)
    requires 0 < n && |s| == n + 1 && t == n * j
    ensures Turned(WrapPasses(b, s, n, j), 0) == Shifted(b, Turned(s, 0), t)
    decreases j
  {
    if j > 0 {
      NextPass(n, j);
      PassesShift(b, s, n, j - 1, t - n);
      PassShifts(b, Turned(s, 0), WrapPasses(b, s, n, j - 1), n, j - 1, n, t - n);
      PassTurns(WrapPasses(b, s, n, j), n);
    }
  }

  /** The wrapping of n blocks is what the register holds after 6 * n steps. */
  lemma WrappedShifts(b: Block, data: seq<Half>)
    requires data != []
    ensures |Wrapped(b, data)| == |data| + 1
    ensures Register(Wrapped(b, data)[0], Wrapped(b, data)[1..]) == Shifted(b, Register(IV, data), 6 * |data|)
  {
    var s := [IV] + data;
    PassesShift(b, s, |data|, 6, 6 * |data|);
    assert Turned(s, 0) == Register(IV, data);
    assert Turned(Wrapped(b, data), 0) == Register(Wrapped(b, data)[0], Wrapped(b, data)[1..]);
  }
}
