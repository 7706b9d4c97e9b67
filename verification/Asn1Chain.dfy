/** asn1.c: chains of builder calls, of which any may lack memory. */
module Asn1Chain {
  import opened Asn1
  import opened Asn1Code

  datatype Call = Raw(bytes: seq<Byte>) | Object(tag: Byte, body: seq<Byte>) | Enclose(tag: Byte)

  /** A call, and whether there is memory for it. */
  datatype Attempt = Attempt(call: Call, memory: bool)

  /** What a builder holds, or that an allocation failed when it was not empty. */
  datatype Build = Holds(bytes: seq<Byte>) | Lost(len: nat)

  /** A header for any length. */
  function Front(tag: Byte, len: nat): seq<Byte> {
    if len < 128 then [tag, len] else [tag, (128 + |Digits(len)|) % 256] + Digits(len)
  }

  lemma FrontIsHeader(tag: Byte, len: nat)
    requires len < UINT
    ensures Front(tag, len) == Header(tag, len)
  {
    DigitsShort(len);
  }

  /** What a call makes of the bytes so far. */
  function Extended(c: Call, s: seq<Byte>): seq<Byte> {
    match c
    case Raw(bytes) => bytes + s
    case Object(tag, body) => Front(tag, |body|) + body + s
    case Enclose(tag) => Front(tag, |s|) + s
  }

  /** What all calls together are to build. */
  function Whole(s: seq<Byte>, chain: seq<Attempt>): seq<Byte>
    decreases |chain|
  {
    if chain == [] then s else Whole(Extended(chain[0].call, s), chain[1..])
  }

  predicate Succeeds(b: Build, a: Attempt) {
    b.Holds? && (a.memory || Extended(a.call, b.bytes) == [])
  }

  /** A failure is remembered by the length, if there is any. */
  function Does(b: Build, a: Attempt): Build {
    if b.Lost? then b
    else if Succeeds(b, a) then Holds(Extended(a.call, b.bytes))
    else if b.bytes == [] then b else Lost(|b.bytes|)
  }

  function After(b: Build, chain: seq<Attempt>): Build
    decreases |chain|
  {
    if chain == [] then b else After(Does(b, chain[0]), chain[1..])
  }

  predicate AllSucceed(b: Build, chain: seq<Attempt>)
    decreases |chain|
  {
    chain != [] ==> Succeeds(b, chain[0]) && AllSucceed(Does(b, chain[0]), chain[1..])
  }

  /** The status of the last call, which is all that callers look at, is zero. */
  predicate LastSucceeds(b: Build, chain: seq<Attempt>)
    requires chain != []
    decreases |chain|
  {
    if |chain| == 1 then Succeeds(b, chain[0]) else LastSucceeds(Does(b, chain[0]), chain[1..])
  }

  // ---------------------------------------------------------------------
  // When failures are permanent
  // ---------------------------------------------------------------------

  lemma {:induction false} LostForever(b: Build, chain: seq<Attempt>)
    requires b.Lost?
    ensures After(b, chain) == b && (chain != [] ==> !LastSucceeds(b, chain))
    decreases |chain|
  {
    if chain != [] { LostForever(b, chain[1..]); }
  }

  /** No chain of later calls can end in success. */
  ghost predicate Permanent(b: Build) {
    forall chain :: chain != [] ==> !LastSucceeds(b, chain)
  }

  /** After a failed call all later ones fail, exactly if the builder was not empty. */
  lemma PermanentIff(b: Build, a: Attempt)
    requires !Succeeds(b, a)
    ensures Permanent(Does(b, a)) <==> b.Lost? || b.bytes != []
  {
    var t := Does(b, a);
    if t.Lost? {
      forall chain | chain != [] ensures !LastSucceeds(t, chain) { LostForever(t, chain); }
    } else {
      assert LastSucceeds(t, [Attempt(a.call, true)]);
    }
  }

  // ---------------------------------------------------------------------
  // What success of the last call means
  // ---------------------------------------------------------------------

  lemma {:induction false} DigitsMonotone(m: nat, n: nat)
    requires m <= n
    ensures |Digits(m)| <= |Digits(n)|
    decreases n
  {
    if m > 0 { DigitsMonotone(m / 256, n / 256); }
  }

  lemma FrontMonotone(tag: Byte, m: nat, n: nat)
    requires m <= n
    ensures 2 <= |Front(tag, m)| <= |Front(tag, n)|
  {
    DigitsMonotone(m, n);
  }

  lemma ExtendedMonotone(c: Call, s: seq<Byte>, t: seq<Byte>)
    requires |s| <= |t|
    ensures |s| <= |Extended(c, s)| <= |Extended(c, t)| && (|s| < |t| ==> |Extended(c, s)| < |Extended(c, t)|)
  {
    if c.Enclose? { FrontMonotone(c.tag, |s|, |t|); }
  }

  /** What is built is never longer than the whole, and once it is shorter it stays so. */
  lemma {:induction false} Shorter(b: Build, s: seq<Byte>, chain: seq<Attempt>)
    requires b.Holds? && |b.bytes| <= |s| && After(b, chain).Holds?
    ensures |b.bytes| < |s| || !AllSucceed(b, chain) ==> |After(b, chain).bytes| < |Whole(s, chain)|
    decreases |chain|
  {
    if chain != [] {
      var a, t := chain[0], Does(b, chain[0]);
      if t.Lost? { LostForever(t, chain[1..]); }
      ExtendedMonotone(a.call, b.bytes, s);
      Shorter(t, Extended(a.call, s), chain[1..]);
    }
  }

  lemma {:induction false} AllBuilt(b: Build, chain: seq<Attempt>)
    requires b.Holds? && AllSucceed(b, chain)
    ensures After(b, chain) == Holds(Whole(b.bytes, chain)) && (chain != [] ==> LastSucceeds(b, chain))
    decreases |chain|
  {
    if chain != [] { AllBuilt(Does(b, chain[0]), chain[1..]); }
  }

  lemma {:induction false} LastHolds(b: Build, chain: seq<Attempt>)
    requires chain != [] && LastSucceeds(b, chain)
    ensures After(b, chain).Holds?
    decreases |chain|
  {
    if |chain| == 1 {
      assert After(b, chain) == After(Does(b, chain[0]), []);
    } else {
      LastHolds(Does(b, chain[0]), chain[1..]);
    }
  }

  /** Once there is something to lose, the last call can only succeed if all of them have. */
  lemma {:induction false} NothingLost(b: Build, chain: seq<Attempt>)
    requires b.Holds? && b.bytes != [] && chain != [] && LastSucceeds(b, chain)
    ensures AllSucceed(b, chain)
    decreases |chain|
  {
    var t := Does(b, chain[0]);
    if |chain| > 1 {
      if t.Lost? { LostForever(t, chain[1..]); }
      ExtendedMonotone(chain[0].call, b.bytes, b.bytes);
      NothingLost(t, chain[1..]);
    }
  }

  /** If the last call succeeds, then the builder holds the whole exactly when all other calls have succeeded too. */
  lemma WholeIff(b: Build, chain: seq<Attempt>)
    requires b.Holds? && chain != [] && LastSucceeds(b, chain)
    ensures After(b, chain) == Holds(Whole(b.bytes, chain)) <==> AllSucceed(b, chain)
  {
    LastHolds(b, chain);
    if AllSucceed(b, chain) { AllBuilt(b, chain); } else { Shorter(b, b.bytes, chain); }
  }

  /** So it is enough to look at the first status and at the last, provided that the first call adds anything. */
  lemma FirstAndLast(chain: seq<Attempt>)
    requires chain != [] && Extended(chain[0].call, []) != []
    ensures var b := Holds([]); AllSucceed(b, chain) <==> Succeeds(b, chain[0]) && LastSucceeds(b, chain)
  {
    var b := Holds([]);
    if AllSucceed(b, chain) { AllBuilt(b, chain); }
    if Succeeds(b, chain[0]) && LastSucceeds(b, chain) && |chain| > 1 {
      NothingLost(Does(b, chain[0]), chain[1..]);
    }
  }

  // ---------------------------------------------------------------------
  // It is not enough to look at the last
  // ---------------------------------------------------------------------

  /** There is memory for all calls but the first. */
  function LackingFirst(calls: seq<Call>): seq<Attempt> {
    seq(|calls|, k requires 0 <= k < |calls| => Attempt(calls[k], k > 0))
  }

  lemma {:induction false} MemoryForAll(b: Build, chain: seq<Attempt>)
    requires b.Holds? && forall k :: 0 <= k < |chain| ==> chain[k].memory
    ensures AllSucceed(b, chain)
    decreases |chain|
  {
    if chain != [] { MemoryForAll(Does(b, chain[0]), chain[1..]); }
  }

  /** Any chain of several calls can report success without what the first call was to add. */
  lemma FirstGoesMissing(calls: seq<Call>)
    requires |calls| > 1 && Extended(calls[0], []) != []
    ensures var chain := LackingFirst(calls);
            && LastSucceeds(Holds([]), chain) && After(Holds([]), chain) == Holds(Whole([], chain[1..]))
            && After(Holds([]), chain) != Holds(Whole([], chain))
  {
    var b, chain := Holds([]), LackingFirst(calls);
    assert !Succeeds(b, chain[0]) && Does(b, chain[0]) == b;
    MemoryForAll(b, chain[1..]);
    AllBuilt(b, chain[1..]);
    WholeIff(b, chain);
  }

  // ---------------------------------------------------------------------
  // The calls themselves
  // ---------------------------------------------------------------------

  ghost function State(b: Builder): Build
    requires b.Valid()
    reads b, b.data
  {
    if b.Failed() then Lost(b.len) else Holds(b.Contents())
  }

  /** Lengths that asn1_header() has room for. */
  predicate Sized(b: Build, a: Attempt) {
    match a.call
    case Raw(_) => true
    case Object(_, body) => |body| < UINT
    case Enclose(_) => (if b.Holds? then |b.bytes| else b.len) < UINT
  }

  predicate AllSized(b: Build, chain: seq<Attempt>)
    decreases |chain|
  {
    chain != [] ==> Sized(b, chain[0]) && AllSized(Does(b, chain[0]), chain[1..])
  }

  method Perform(b: Builder, a: Attempt) returns (rc: int)
    requires b.Valid() && Sized(State(b), a)
    modifies b
    ensures b.Valid() && State(b) == Does(old(State(b)), a) && (rc == 0 <==> Succeeds(old(State(b)), a))
  {
    match a.call {
      case Raw(bytes) => rc := b.PrependRaw(bytes, a.memory);
      case Object(tag, body) =>
        FrontIsHeader(tag, |body|);
        rc := b.Prepend(tag, body, a.memory);
      case Enclose(tag) =>
        FrontIsHeader(tag, b.len);
        rc := b.Wrap(tag, a.memory);
    }
  }

  /** One call after the other, with only the last status kept. */
  method PerformAll(b: Builder, chain: seq<Attempt>) returns (rc: int)
    requires b.Valid() && chain != [] && AllSized(State(b), chain)
    modifies b
    ensures b.Valid() && State(b) == After(old(State(b)), chain) && (rc == 0 <==> LastSucceeds(old(State(b)), chain))
    decreases |chain|
  {
    rc := Perform(b, chain[0]);
    if |chain| > 1 {
      rc := PerformAll(b, chain[1..]);
    }
  }
}
