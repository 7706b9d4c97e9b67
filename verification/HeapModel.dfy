/**
The allocator of core/malloc.c as a state machine: alloc_memblock, free_memblock
and mpopulate as functions from state to state, and what every run of them keeps.
*/
module HeapModel {
  import opened Powers
  import opened FreeList

  const NULL: nat := 0

  /** Round a request up to whole minimum blocks, in size_t arithmetic. */
  function RoundUp(size: nat): nat
  {
    var sum := if size + MIN - 1 < WORD then size + MIN - 1 else (size + MIN - 1) % WORD;
    sum - sum % MIN
  }

  /** One more than the alignment mask: the larger of two powers of two. */
  function Unit(align: nat): nat {
    if align < MIN then MIN else align
  }

  /** Distance from a block's start to its first suitably aligned byte, in size_t arithmetic. */
  function PreSize(addr: nat, virtOffset: int, offset: nat, unit: nat): nat
    requires unit > 0
  {
    (offset - (addr + virtOffset)) % WORD % unit
  }

  /**
  `live` and `pool` record the blocks handed out and the regions given to
  mpopulate; `leaked` counts bytes dropped by splits.  Physical address is
  virtual address plus `virtOffset`.
  */
  datatype State = State(free: seq<Block>, live: set<Block>, leaked: nat, pool: seq<Block>, virtOffset: int)

  datatype Op =
    | Alloc(size: nat, align: nat, offset: nat)
    | Free(block: Block)
    | Populate(region: Block)

  predicate Fits(s: State, i: nat, actual: nat, offset: nat, unit: nat)
    requires i < |s.free| && unit > 0
  {
    PreSize(s.free[i].addr, s.virtOffset, offset, unit) + actual <= s.free[i].size
  }

  /** Index of the first block at or after `i` with enough space, or the list's length. */
  function FirstFit(s: State, i: nat, actual: nat, offset: nat, unit: nat): (r: nat)
    requires i <= |s.free| && unit > 0
    ensures i <= r <= |s.free|
    ensures r < |s.free| ==> Fits(s, r, actual, offset, unit)
    ensures forall j :: i <= j < r ==> !Fits(s, j, actual, offset, unit)
    decreases |s.free| - i
  {
    if i == |s.free| || Fits(s, i, actual, offset, unit) then i
    else FirstFit(s, i + 1, actual, offset, unit)
  }

  /** The address alloc_memblock() returns without discarding anything, or NULL. */
  function Allocated(s: State, size: nat, align: nat, offset: nat): nat {
    var actual, unit := RoundUp(size), Unit(align);
    var i := FirstFit(s, 0, actual, offset, unit);
    if actual == 0 || i == |s.free| then NULL
    else s.free[i].addr + PreSize(s.free[i].addr, s.virtOffset, offset, unit)
  }

  /** Cut `actual` bytes out of free block `i`, `pre` bytes in. */
  function SplitState(s: State, i: nat, pre: nat, actual: nat): State
    requires i < |s.free| && pre + actual <= s.free[i].size
  {
    s.(free := Split(s.free, i, pre, actual),
    live := s.live + {Block(s.free[i].addr + pre, actual)},
    leaked := s.leaked + Scraps(s.free[i], pre, actual))
  }

  function AfterAlloc(s: State, size: nat, align: nat, offset: nat): State {
    var actual, unit := RoundUp(size), Unit(align);
    var i := FirstFit(s, 0, actual, offset, unit);
    if actual == 0 || i == |s.free| then s
    else
      SplitState(s, i, PreSize(s.free[i].addr, s.virtOffset, offset, unit), actual)
  }

  function AfterFree(s: State, b: Block): State {
    s.(free := InsertMerge(s.free, b), live := s.live - {b})
  }

  function AfterPopulate(s: State, r: Block): State {
    s.(free := InsertMerge(s.free, r), pool := s.pool + [r])
  }

  function Apply(s: State, op: Op): State {
    match op
    case Alloc(size, align, offset) => AfterAlloc(s, size, align, offset)
    case Free(b) => AfterFree(s, b)
    case Populate(r) => AfterPopulate(s, r)
  }

  function Run(s: State, ops: seq<Op>): State
    decreases |ops|
  {
    if ops == [] then s else Run(Apply(s, ops[0]), ops[1..])
  }

  /** What malloc.c asks of its callers. */
  ghost predicate Legal(s: State, op: Op) {
    match op
    case Alloc(size, align, offset) => size < WORD && IsPow2(align) && align < WORD
    case Free(b) => b in s.live
    case Populate(r) =>
      && r.addr > 0 && r.End() < WORD && r.size >= MIN && r.size % MIN == 0 && DisjointFromAll(r, s.pool)
      && exists lo :: Inside(s.pool + [r], lo)
  }

  ghost predicate LegalRun(s: State, ops: seq<Op>)
    decreases |ops|
  {
    ops == [] || (Legal(s, ops[0]) && LegalRun(Apply(s, ops[0]), ops[1..]))
  }

  // ---------------------------------------------------------------------
  // The invariant
  // ---------------------------------------------------------------------

  ghost function Total(bs: set<Block>): nat {
    if bs == {} then 0 else
      var b :| b in bs;
      b.size + Total(bs - {b})
  }

  lemma {:induction false} TotalRemove(bs: set<Block>, b: Block)
    requires b in bs
    ensures Total(bs) == b.size + Total(bs - {b})
    decreases |bs|
  {
    var c :| c in bs && Total(bs) == c.size + Total(bs - {c});
    if c != b {
      TotalRemove(bs - {c}, b);
      TotalRemove(bs - {b}, c);
      assert bs - {c} - {b} == bs - {b} - {c};
    }
  }

  ghost predicate LiveCovers(live: set<Block>, a: int) {
    exists b :: b in live && b.Contains(a)
  }

  ghost predicate LiveApart(s: State) {
    && (forall b :: b in s.live ==> b.addr > 0 && b.size >= MIN && b.size % MIN == 0 && DisjointFromAll(b, s.free))
    && (forall x, y :: x in s.live && y in s.live && x != y ==> Disjoint(x, y))
  }

  ghost predicate InPool(s: State) {
    && (forall a :: Covers(s.free, a) ==> Covers(s.pool, a))
    && (forall a :: LiveCovers(s.live, a) ==> Covers(s.pool, a))
    && (forall a :: Covers(s.pool, a) ==> a + 1 < WORD)
    && (exists lo :: Inside(s.pool, lo))
  }

  ghost predicate Inv(s: State) {
    && WellFormed(s.free)
    && LiveApart(s)
    && InPool(s)
    && Total(s.live) + Sum(s.free) + s.leaked == Sum(s.pool)
  }

  lemma {:induction false} CoversWitness(bs: seq<Block>, a: int) returns (i: nat)
    requires Covers(bs, a)
    ensures i < |bs| && bs[i].Contains(a)
  {
    if bs[0].Contains(a) {
      i := 0;
    } else {
      i := CoversWitness(bs[1..], a);
      i := i + 1;
    }
  }

  lemma {:induction false} CoversIndex(bs: seq<Block>, i: nat, a: int)
    requires i < |bs| && bs[i].Contains(a)
    ensures Covers(bs, a)
  {
    if i > 0 { CoversIndex(bs[1..], i - 1, a); }
  }

  /** Blocks without a common byte are disjoint. */
  lemma ApartByBytes(x: Block, bs: seq<Block>)
    requires x.size > 0 && forall i :: 0 <= i < |bs| ==> bs[i].size > 0
    requires forall a :: x.Contains(a) ==> !Covers(bs, a)
    ensures DisjointFromAll(x, bs)
  {
    forall i | 0 <= i < |bs| ensures Disjoint(x, bs[i]) {
      if !Disjoint(x, bs[i]) {
        var a := if x.addr < bs[i].addr then bs[i].addr else x.addr;
        CoversIndex(bs, i, a);
        assert x.Contains(a);
      }
    }
  }

  lemma BytesByApart(x: Block, bs: seq<Block>, a: int)
    requires DisjointFromAll(x, bs) && x.Contains(a)
    ensures !Covers(bs, a)
  {
  }

  lemma FreeSizes(free: seq<Block>)
    requires WellFormed(free)
    ensures forall i :: 0 <= i < |free| ==> free[i].addr > 0 && free[i].size >= MIN
  {
    forall i | 0 <= i < |free| ensures free[i].addr > 0 && free[i].size >= MIN {
      AscendingDisjoint(free, 0, i);
    }
  }

  // ---------------------------------------------------------------------
  // Every step keeps the invariant
  // ---------------------------------------------------------------------

  lemma RoundUpCases(size: nat)
    requires size < WORD
    ensures RoundUp(size) % MIN == 0
    ensures RoundUp(size) == 0 <==> size == 0 || size > WORD - MIN
    ensures RoundUp(size) != 0 ==> size <= RoundUp(size) < size + MIN
  {
  }

  lemma RoundUpMultiple(size: nat)
    requires size < WORD && size % MIN == 0
    ensures RoundUp(size) == size
  {
  }

  lemma AllocInv(s: State, size: nat, align: nat, offset: nat)
    requires Inv(s) && size < WORD
    ensures Inv(AfterAlloc(s, size, align, offset))
  {
    var actual, unit := RoundUp(size), Unit(align);
    RoundUpCases(size);
    var i := FirstFit(s, 0, actual, offset, unit);
    if actual != 0 && i < |s.free| {
      assert Fits(s, i, actual, offset, unit);
      SplitInv(s, i, PreSize(s.free[i].addr, s.virtOffset, offset, unit), actual);
    }
  }

  lemma SplitInv(s: State, i: nat, pre: nat, actual: nat)
    requires Inv(s) && i < |s.free| && pre + actual <= s.free[i].size
    requires actual >= MIN && actual % MIN == 0
    ensures Inv(SplitState(s, i, pre, actual))
  {
    var t := SplitState(s, i, pre, actual);
    var x := Block(s.free[i].addr + pre, actual);
    SplitAscending(s.free, i, pre, actual, 0);
    SplitLiveApart(s, i, pre, actual);
    SplitSum(s.free, i, pre, actual);
    assert x !in s.live by { FreshBlock(s, i, pre, actual); }
    TotalRemove(t.live, x);
    assert t.live - {x} == s.live;
    forall a ensures (Covers(t.free, a) ==> Covers(t.pool, a)) && (LiveCovers(t.live, a) ==> Covers(t.pool, a)) {
      SplitCovers(s.free, i, pre, actual, 0, a);
      if LiveCovers(t.live, a) && !x.Contains(a) {
        assert LiveCovers(s.live, a);
      }
    }
  }

  /** The block handed out was free, so it is nobody else's. */
  lemma FreshBlock(s: State, i: nat, pre: nat, actual: nat)
    requires LiveApart(s) && i < |s.free| && pre + actual <= s.free[i].size && actual > 0
    ensures forall y :: y in s.live ==> Disjoint(y, Block(s.free[i].addr + pre, actual))
    ensures Block(s.free[i].addr + pre, actual) !in s.live
  {
  }

  lemma SplitLiveApart(s: State, i: nat, pre: nat, actual: nat)
    requires WellFormed(s.free) && LiveApart(s) && i < |s.free| && pre + actual <= s.free[i].size
    requires actual >= MIN && actual % MIN == 0
    ensures LiveApart(SplitState(s, i, pre, actual))
  {
    var t := SplitState(s, i, pre, actual);
    var x := Block(s.free[i].addr + pre, actual);
    FreshBlock(s, i, pre, actual);
    FreeSizes(s.free);
    forall y | y in t.live ensures DisjointFromAll(y, t.free) {
      SplitApart(s.free, i, pre, actual, y);
    }
  }

  lemma SplitApart(free: seq<Block>, i: nat, pre: nat, actual: nat, y: Block)
    requires WellFormed(free) && i < |free| && pre + actual <= free[i].size && actual > 0 && y.size > 0
    requires DisjointFromAll(y, free) || y == Block(free[i].addr + pre, actual)
    ensures DisjointFromAll(y, Split(free, i, pre, actual))
  {
    SplitAscending(free, i, pre, actual, 0);
    FreeSizes(Split(free, i, pre, actual));
    forall a | y.Contains(a) ensures !Covers(Split(free, i, pre, actual), a) {
      SplitCovers(free, i, pre, actual, 0, a);
      if DisjointFromAll(y, free) { BytesByApart(y, free, a); }
    }
    ApartByBytes(y, Split(free, i, pre, actual));
  }

  lemma InsertLiveApart(s: State, b: Block, live: set<Block>)
    requires WellFormed(s.free) && LiveApart(s)
    requires b.addr > 0 && b.size >= MIN && DisjointFromAll(b, s.free)
    requires live <= s.live && forall y :: y in live ==> Disjoint(y, b)
    ensures WellFormed(InsertMerge(s.free, b))
    ensures LiveApart(s.(free := InsertMerge(s.free, b), live := live))
  {
    var f := InsertMerge(s.free, b);
    InsertMergeAscending(s.free, b, 0);
    FreeSizes(f);
    forall y | y in live ensures DisjointFromAll(y, f) {
      forall a | y.Contains(a) ensures !Covers(f, a) {
        InsertMergeCovers(s.free, b, a);
        BytesByApart(y, s.free, a);
        assert Disjoint(y, b);
      }
      ApartByBytes(y, f);
    }
  }

  lemma FreeInv(s: State, b: Block)
    requires Inv(s) && b in s.live
    ensures Inv(AfterFree(s, b))
  {
    var t := AfterFree(s, b);
    InsertLiveApart(s, b, s.live - {b});
    InsertMergeSum(s.free, b);
    TotalRemove(s.live, b);
    forall a ensures (Covers(t.free, a) ==> Covers(t.pool, a)) && (LiveCovers(t.live, a) ==> Covers(t.pool, a)) {
      InsertMergeCovers(s.free, b, a);
      if b.Contains(a) { assert LiveCovers(s.live, a); }
      if LiveCovers(t.live, a) { assert LiveCovers(s.live, a); }
    }
  }

  lemma PopulateInv(s: State, r: Block)
    requires Inv(s) && Legal(s, Populate(r))
    ensures Inv(AfterPopulate(s, r))
  {
    var t := AfterPopulate(s, r);
    PopulateApart(s, r);
    InsertLiveApart(s, r, s.live);
    InsertMergeSum(s.free, r);
    SumAppend(s.pool, [r]);
    forall a ensures (Covers(t.free, a) ==> Covers(t.pool, a)) && (LiveCovers(t.live, a) ==> Covers(t.pool, a))
      ensures Covers(t.pool, a) ==> a + 1 < WORD
    {
      InsertMergeCovers(s.free, r, a);
      CoversAppend(s.pool, [r], a);
      if r.Contains(a) { CoversIndex([r], 0, a); }
      if Covers([r], a) { var i := CoversWitness([r], a); }
    }
  }

  lemma PopulateApart(s: State, r: Block)
    requires Inv(s) && Legal(s, Populate(r))
    ensures DisjointFromAll(r, s.free)
    ensures forall y :: y in s.live ==> Disjoint(y, r)
  {
    FreeSizes(s.free);
    forall a | r.Contains(a) ensures !Covers(s.free, a) && !LiveCovers(s.live, a) {
      BytesByApart(r, s.pool, a);
    }
    ApartByBytes(r, s.free);
    forall y | y in s.live ensures Disjoint(y, r) {
      if !Disjoint(y, r) {
        var a := if y.addr < r.addr then r.addr else y.addr;
        assert y.Contains(a) && r.Contains(a);
        assert LiveCovers(s.live, a);
      }
    }
  }

  /** Every block of memory in the pool lies within the window around the pool. */
  lemma CoveredWithin(pool: seq<Block>, b: Block, lo: nat)
    requires Inside(pool, lo) && b.size > 0 && forall a :: b.Contains(a) ==> Covers(pool, a)
    ensures Within(b, lo)
  {
    assert b.Contains(b.addr) && b.Contains(b.End() - 1);
    var i := CoversWitness(pool, b.addr);
    var j := CoversWitness(pool, b.End() - 1);
    assert Within(pool[i], lo) && Within(pool[j], lo);
  }

  lemma FreeInside(s: State, lo: nat)
    requires WellFormed(s.free) && InPool(s) && Inside(s.pool, lo)
    ensures Inside(s.free, lo) && forall b :: b in s.live && b.size > 0 ==> Within(b, lo)
  {
    FreeSizes(s.free);
    forall i | 0 <= i < |s.free| ensures Within(s.free[i], lo) {
      forall a | s.free[i].Contains(a) ensures Covers(s.pool, a) { CoversIndex(s.free, i, a); }
      CoveredWithin(s.pool, s.free[i], lo);
    }
    forall b | b in s.live && b.size > 0 ensures Within(b, lo) {
      forall a | b.Contains(a) ensures Covers(s.pool, a) { assert LiveCovers(s.live, a); }
      CoveredWithin(s.pool, b, lo);
    }
  }

  lemma ApplyInv(s: State, op: Op)
    requires Inv(s) && Legal(s, op)
    ensures Inv(Apply(s, op))
  {
    match op
    case Alloc(size, align, offset) => AllocInv(s, size, align, offset);
    case Free(b) => FreeInv(s, b);
    case Populate(r) => PopulateInv(s, r);
  }

  /** In every run the list stays canonical, live blocks stay apart, and no byte is lost or gained. */
  lemma {:induction false} RunInv(s: State, ops: seq<Op>)
    requires Inv(s) && LegalRun(s, ops)
    ensures Inv(Run(s, ops)) && Run(s, ops).virtOffset == s.virtOffset
    decreases |ops|
  {
    if ops != [] {
      ApplyInv(s, ops[0]);
      RunInv(Apply(s, ops[0]), ops[1..]);
    }
  }

  lemma {:induction false} RunAppend(s: State, ops: seq<Op>, op: Op)
    ensures Run(s, ops + [op]) == Apply(Run(s, ops), op)
    ensures LegalRun(s, ops + [op]) <==> LegalRun(s, ops) && Legal(Run(s, ops), op)
    decreases |ops|
  {
    if ops == [] {
      assert [op][1..] == [];
    } else {
      assert (ops + [op])[1..] == ops[1..] + [op];
      RunAppend(Apply(s, ops[0]), ops[1..], op);
    }
  }

  /** A live block lies inside the address space. */
  lemma LiveBounded(s: State, b: Block)
    requires Inv(s) && b in s.live
    ensures b.End() < WORD && RoundUp(b.size) == b.size
  {
    assert b.Contains(b.End() - 1);
    assert LiveCovers(s.live, b.End() - 1);
  }
}
