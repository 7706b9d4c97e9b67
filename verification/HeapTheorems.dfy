/**
What the allocator state machine promises its callers: alignment, first-fit
completeness, and, for minimum-block-aligned heaps and offsets, that nothing
leaks and that the free list depends only on which bytes are free.
*/
module HeapTheorems {
  import opened Powers
  import opened FreeList
  import opened HeapModel

  // ---------------------------------------------------------------------
  // Alignment
  // ---------------------------------------------------------------------

  lemma WordIsPow2()
    ensures Pow2(64) == WORD && Pow2(5) == MIN && Pow2(4) == 16
  {
    assert Pow2(4) == 16;
    Pow2Add(4, 4);
    assert Pow2(8) == 0x100;
    Pow2Add(8, 8);
    assert Pow2(16) == 0x1_0000;
    Pow2Add(16, 16);
    assert Pow2(32) == 0x1_0000_0000;
    Pow2Add(32, 32);
  }

  /** The alignment unit is a multiple of MIN and divides the address space. */
  lemma UnitDivides(align: nat) returns (q: nat, m: nat)
    requires IsPow2(align) && align < WORD
    ensures WORD == q * Unit(align) && Unit(align) == m * MIN
  {
    WordIsPow2();
    var n: nat :| align == Pow2(n);
    if n >= 64 { Pow2Monotone(64, n); }
    if align < MIN {
      Pow2Add(59, 5);
      q, m := Pow2(59), 1;
    } else {
      if n <= 4 { Pow2Monotone(n, 4); }
      Pow2Add(64 - n, n);
      Pow2Add(n - 5, 5);
      q, m := Pow2(64 - n), Pow2(n - 5);
    }
  }

  /** Address `p` satisfies the requested physical alignment and offset. */
  ghost predicate AlignedAt(p: int, virtOffset: int, offset: nat, unit: nat)
    requires unit > 0
  {
    (p + virtOffset - offset) % unit == 0
  }

  lemma PreSizeMod(addr: nat, virtOffset: int, offset: nat, unit: nat, q: nat)
    requires unit > 0 && WORD == q * unit
    ensures PreSize(addr, virtOffset, offset, unit) == (offset - (addr + virtOffset)) % unit
  {
    ModMod(offset - (addr + virtOffset), q, unit);
  }

  lemma PreSizeAligned(addr: nat, virtOffset: int, offset: nat, unit: nat, q: nat)
    requires unit > 0 && WORD == q * unit
    ensures AlignedAt(addr + PreSize(addr, virtOffset, offset, unit), virtOffset, offset, unit)
  {
    PreSizeMod(addr, virtOffset, offset, unit, q);
    var x := offset - (addr + virtOffset);
    assert x % unit - x == 0 + (-(x / unit)) * unit;
    ModMultiple(0, -(x / unit), unit);
  }

  lemma PreSizeLeast(addr: nat, virtOffset: int, offset: nat, unit: nat, q: nat, p: nat)
    requires unit > 0 && WORD == q * unit
    requires addr <= p && AlignedAt(p, virtOffset, offset, unit)
    ensures PreSize(addr, virtOffset, offset, unit) <= p - addr
  {
    PreSizeMod(addr, virtOffset, offset, unit, q);
    var x := offset - (addr + virtOffset);
    var k := (p + virtOffset - offset) / unit;
    assert p - addr == x + k * unit;
    ModMultiple(x, k, unit);
    ModAtMost(p - addr, unit);
  }

  lemma ModAtMost(x: nat, d: int)
    requires d > 0
    ensures x % d <= x
  {
  }

  // ---------------------------------------------------------------------
  // Allocation: success and failure
  // ---------------------------------------------------------------------

  /** Some suitably aligned run of `actual` bytes is free. */
  ghost predicate RoomAt(s: State, p: nat, actual: nat, offset: nat, unit: nat)
    requires unit > 0
  {
    AlignedAt(p, s.virtOffset, offset, unit) && forall a :: p <= a < p + actual ==> Covers(s.free, a)
  }

  /** No run of free bytes is long enough for a request. */
  ghost predicate NoRoom(s: State, size: nat, align: nat, offset: nat) {
    !exists p :: RoomAt(s, p, RoundUp(size), offset, Unit(align))
  }

  /** Free neighbours are always merged, so a contiguous run of free bytes lies in one block. */
  lemma RangeInOneBlock(free: seq<Block>, p: nat, n: nat) returns (i: nat)
    requires WellFormed(free) && n > 0
    requires forall a :: p <= a < p + n ==> Covers(free, a)
    ensures i < |free| && free[i].addr <= p && p + n <= free[i].End()
  {
    i := CoversWitness(free, p);
    if free[i].End() < p + n {
      var j := CoversWitness(free, free[i].End());
      AscendingDisjoint(free, 0, i);
      AscendingDisjoint(free, 0, j);
      assert false;
    }
  }

  /**
  alloc_memblock() fails exactly when the size is zero or overflows, or no
  aligned run of free bytes is long enough; otherwise the block it returns was
  entirely free, is aligned as requested, and overlaps no live block.
  */
  lemma AllocCorrect(s: State, size: nat, align: nat, offset: nat)
    requires Inv(s) && Legal(s, Alloc(size, align, offset))
    ensures Allocated(s, size, align, offset) == NULL <==>
            size == 0 || size > WORD - MIN || !exists p :: RoomAt(s, p, RoundUp(size), offset, Unit(align))
    ensures var p := Allocated(s, size, align, offset);
            p != NULL ==>
              && RoomAt(s, p, RoundUp(size), offset, Unit(align))
              && size <= RoundUp(size)
              && AfterAlloc(s, size, align, offset).live == s.live + {Block(p, RoundUp(size))}
              && forall y :: y in s.live ==> Disjoint(y, Block(p, RoundUp(size)))
    ensures Allocated(s, size, align, offset) == NULL ==> AfterAlloc(s, size, align, offset) == s
  {
    var actual, unit := RoundUp(size), Unit(align);
    RoundUpCases(size);
    var q, m := UnitDivides(align);
    var i := FirstFit(s, 0, actual, offset, unit);
    if actual != 0 {
      if i < |s.free| {
        AllocFound(s, i, actual, offset, unit, q);
      } else {
        forall p | RoomAt(s, p, actual, offset, unit) ensures false {
          AllocMissed(s, p, actual, offset, unit, q);
        }
      }
    }
  }

  lemma AllocFound(s: State, i: nat, actual: nat, offset: nat, unit: nat, q: nat)
    requires Inv(s) && unit > 0 && WORD == q * unit && actual > 0
    requires i < |s.free| && Fits(s, i, actual, offset, unit)
    ensures var p := s.free[i].addr + PreSize(s.free[i].addr, s.virtOffset, offset, unit);
            && p != NULL
            && RoomAt(s, p, actual, offset, unit)
            && forall y :: y in s.live ==> Disjoint(y, Block(p, actual))
  {
    var pre := PreSize(s.free[i].addr, s.virtOffset, offset, unit);
    PreSizeAligned(s.free[i].addr, s.virtOffset, offset, unit, q);
    FreeSizes(s.free);
    FreshBlock(s, i, pre, actual);
    forall a | s.free[i].addr + pre <= a < s.free[i].addr + pre + actual ensures Covers(s.free, a) {
      CoversIndex(s.free, i, a);
    }
  }

  lemma AllocMissed(s: State, p: nat, actual: nat, offset: nat, unit: nat, q: nat)
    requires Inv(s) && unit > 0 && WORD == q * unit && actual > 0
    requires RoomAt(s, p, actual, offset, unit)
    ensures FirstFit(s, 0, actual, offset, unit) < |s.free|
  {
    var i := RangeInOneBlock(s.free, p, actual);
    PreSizeLeast(s.free[i].addr, s.virtOffset, offset, unit, q, p);
    assert Fits(s, i, actual, offset, unit);
  }

  // ---------------------------------------------------------------------
  // Minimum-block-aligned heaps
  // ---------------------------------------------------------------------

  /** Nothing has leaked: every byte of the pool is either free or live. */
  ghost predicate Tight(s: State) {
    && s.leaked == 0
    && Aligned(s.free, s.virtOffset)
    && (forall b :: b in s.live ==> BlockAligned(b, s.virtOffset))
    && (forall a :: Covers(s.pool, a) ==> Covers(s.free, a) || LiveCovers(s.live, a))
  }

  predicate TightOp(s: State, op: Op) {
    match op
    case Alloc(_, _, offset) => offset % MIN == 0
    case Free(_) => true
    case Populate(r) => BlockAligned(r, s.virtOffset)
  }

  ghost predicate TightRun(s: State, ops: seq<Op>) {
    forall i :: 0 <= i < |ops| ==> TightOp(s, ops[i])
  }

  lemma PreSizeMultiple(addr: nat, virtOffset: int, offset: nat, unit: nat, q: nat, m: nat)
    requires unit > 0 && WORD == q * unit && unit == m * MIN
    requires (addr + virtOffset) % MIN == 0 && offset % MIN == 0
    ensures PreSize(addr, virtOffset, offset, unit) % MIN == 0
  {
    PreSizeMod(addr, virtOffset, offset, unit, q);
    UnitMultiple(offset - (addr + virtOffset), m, unit);
    MultipleMinus(offset, addr + virtOffset);
  }

  lemma UnitMultiple(x: int, m: nat, unit: nat)
    requires unit > 0 && unit == m * MIN
    ensures x % unit % MIN == x % MIN
  {
    ModMod(x, m, MIN);
  }

  lemma MultipleMinus(x: int, y: int)
    requires x % MIN == 0 && y % MIN == 0
    ensures (x - y) % MIN == 0
  {
  }

  lemma CutAligned(b: Block, pre: nat, actual: nat, virtOffset: int)
    requires BlockAligned(b, virtOffset) && pre % MIN == 0 && actual % MIN == 0
    ensures BlockAligned(Block(b.addr + pre, actual), virtOffset)
  {
    ModUnique(b.addr + pre + virtOffset, (b.addr + virtOffset) / MIN + pre / MIN, 0, MIN);
  }

  lemma SplitTight(s: State, i: nat, pre: nat, actual: nat)
    requires Inv(s) && Tight(s) && i < |s.free| && pre + actual <= s.free[i].size
    requires actual >= MIN && actual % MIN == 0 && pre % MIN == 0
    ensures Tight(SplitState(s, i, pre, actual))
  {
    var t := SplitState(s, i, pre, actual);
    var x := Block(s.free[i].addr + pre, actual);
    assert BlockAligned(s.free[i], s.virtOffset);
    CutAligned(s.free[i], pre, actual, s.virtOffset);
    SplitAligned(s.free, i, pre, actual, s.virtOffset);
    forall a | Covers(t.pool, a) ensures Covers(t.free, a) || LiveCovers(t.live, a) {
      SplitCovers(s.free, i, pre, actual, 0, a);
      if x.Contains(a) {
        assert x in t.live;
      } else if LiveCovers(s.live, a) {
        var y :| y in s.live && y.Contains(a);
        assert y in t.live;
      }
    }
  }

  lemma AllocTight(s: State, size: nat, align: nat, offset: nat)
    requires Inv(s) && Tight(s) && Legal(s, Alloc(size, align, offset)) && offset % MIN == 0
    ensures Tight(AfterAlloc(s, size, align, offset))
  {
    var actual, unit := RoundUp(size), Unit(align);
    RoundUpCases(size);
    var q, m := UnitDivides(align);
    var i := FirstFit(s, 0, actual, offset, unit);
    if actual != 0 && i < |s.free| {
      assert Fits(s, i, actual, offset, unit);
      assert BlockAligned(s.free[i], s.virtOffset);
      PreSizeMultiple(s.free[i].addr, s.virtOffset, offset, unit, q, m);
      SplitTight(s, i, PreSize(s.free[i].addr, s.virtOffset, offset, unit), actual);
    }
  }

  lemma InsertTight(s: State, t: State, b: Block)
    requires Tight(s) && BlockAligned(b, s.virtOffset)
    requires t.free == InsertMerge(s.free, b) && t.leaked == 0 && t.virtOffset == s.virtOffset
    requires t.live <= s.live
    requires forall a :: LiveCovers(s.live, a) ==> b.Contains(a) || LiveCovers(t.live, a)
    requires forall a :: Covers(t.pool, a) ==> Covers(s.pool, a) || b.Contains(a)
    ensures Tight(t)
  {
    InsertMergeAligned(s.free, b, s.virtOffset);
    forall a | Covers(t.pool, a) ensures Covers(t.free, a) || LiveCovers(t.live, a) {
      InsertMergeCovers(s.free, b, a);
    }
  }

  lemma ApplyTight(s: State, op: Op)
    requires Inv(s) && Tight(s) && Legal(s, op) && TightOp(s, op)
    ensures Tight(Apply(s, op))
  {
    match op
    case Alloc(size, align, offset) =>
      AllocTight(s, size, align, offset);
    case Free(b) =>
      var t := AfterFree(s, b);
      forall a | LiveCovers(s.live, a) ensures b.Contains(a) || LiveCovers(t.live, a) {
        var y :| y in s.live && y.Contains(a);
        assert y != b ==> y in t.live;
      }
      InsertTight(s, t, b);
    case Populate(r) =>
      var t := AfterPopulate(s, r);
      forall a | Covers(t.pool, a) ensures Covers(s.pool, a) || r.Contains(a) {
        CoversAppend(s.pool, [r], a);
        if Covers([r], a) { var i := CoversWitness([r], a); }
      }
      InsertTight(s, t, r);
  }

  lemma {:induction false} RunTight(s: State, ops: seq<Op>)
    requires Inv(s) && Tight(s) && LegalRun(s, ops) && TightRun(s, ops)
    ensures Inv(Run(s, ops)) && Tight(Run(s, ops)) && Run(s, ops).virtOffset == s.virtOffset
    decreases |ops|
  {
    if ops != [] {
      assert TightOp(s, ops[0]);
      ApplyInv(s, ops[0]);
      ApplyTight(s, ops[0]);
      var t := Apply(s, ops[0]);
      forall i | 0 <= i < |ops[1..]| ensures TightOp(t, ops[1..][i]) {
        assert TightOp(s, ops[i + 1]);
      }
      RunTight(t, ops[1..]);
    }
  }

  /** With nothing live, a tight free list is the pool itself, in canonical form. */
  lemma EmptyMeansPool(s: State)
    requires Inv(s) && Tight(s) && s.live == {} && WellFormed(s.pool)
    ensures s.free == s.pool
  {
    Canonical(s.free, s.pool, 0);
  }

  /** The state after init_heap() on an aligned heap. */
  function Fresh(heap: Block, virtOffset: int): State {
    State([heap], {}, 0, [heap], virtOffset)
  }

  lemma FreshInv(heap: Block, virtOffset: int)
    requires heap.addr > 0 && heap.End() < WORD && MIN <= heap.size <= SPAN && BlockAligned(heap, virtOffset)
    ensures Inv(Fresh(heap, virtOffset)) && Tight(Fresh(heap, virtOffset))
  {
    var s := Fresh(heap, virtOffset);
    assert s.free[1..] == [] && Ascending([], heap.End());
    assert forall a :: !LiveCovers({}, a);
    forall a | Covers(s.pool, a) ensures a + 1 < WORD {
      var i := CoversWitness(s.pool, a);
    }
    assert Total(s.live) == 0;
    assert Inside(s.pool, heap.addr);
  }

  lemma {:induction false} PoolKept(s: State, ops: seq<Op>)
    requires forall i :: 0 <= i < |ops| ==> !ops[i].Populate?
    ensures Run(s, ops).pool == s.pool
    decreases |ops|
  {
    if ops != [] {
      assert !ops[0].Populate?;
      forall i | 0 <= i < |ops[1..]| ensures !ops[1..][i].Populate? {
        assert !ops[i + 1].Populate?;
      }
      PoolKept(Apply(s, ops[0]), ops[1..]);
    }
  }

  /**
  After any run of allocations and frees, with offsets that are multiples of
  MIN, that ends with nothing live, the heap is again the one block it started as.
  */
  lemma FreeingAllRestores(heap: Block, virtOffset: int, ops: seq<Op>)
    requires heap.addr > 0 && heap.End() < WORD && MIN <= heap.size <= SPAN && BlockAligned(heap, virtOffset)
    requires LegalRun(Fresh(heap, virtOffset), ops) && TightRun(Fresh(heap, virtOffset), ops)
    requires forall i :: 0 <= i < |ops| ==> !ops[i].Populate?
    ensures var t := Run(Fresh(heap, virtOffset), ops);
            && Total(t.live) + Sum(t.free) == heap.size
            && (t.live == {} ==> t == Fresh(heap, virtOffset))
  {
    var s := Fresh(heap, virtOffset);
    FreshInv(heap, virtOffset);
    RunTight(s, ops);
    PoolKept(s, ops);
    var t := Run(s, ops);
    assert Sum([heap]) == heap.size by { assert [heap][1..] == []; }
    if t.live == {} {
      assert Ascending(t.pool[1..], heap.End());
      EmptyMeansPool(t);
    }
  }

  /** Frees commute: the order in which blocks are returned leaves no trace. */
  lemma FreesCommute(s: State, x: Block, y: Block)
    requires Inv(s) && x in s.live && y in s.live && x != y
    ensures AfterFree(AfterFree(s, x), y) == AfterFree(AfterFree(s, y), x)
  {
    var u, v := AfterFree(AfterFree(s, x), y), AfterFree(AfterFree(s, y), x);
    FreeInv(s, x);
    FreeInv(s, y);
    FreeInv(AfterFree(s, x), y);
    FreeInv(AfterFree(s, y), x);
    forall a ensures Covers(u.free, a) <==> Covers(v.free, a) {
      InsertMergeCovers(s.free, x, a);
      InsertMergeCovers(s.free, y, a);
      InsertMergeCovers(AfterFree(s, x).free, y, a);
      InsertMergeCovers(AfterFree(s, y).free, x, a);
    }
    Canonical(u.free, v.free, 0);
    assert u.live == v.live;
  }

  /** Allocating and freeing again leaves a tight heap as it was. */
  lemma AllocFreeIdentity(s: State, size: nat, align: nat, offset: nat)
    requires Inv(s) && Tight(s) && Legal(s, Alloc(size, align, offset)) && offset % MIN == 0
    ensures var p := Allocated(s, size, align, offset);
            p != NULL ==> AfterFree(AfterAlloc(s, size, align, offset), Block(p, RoundUp(size))) == s
  {
    var p := Allocated(s, size, align, offset);
    if p != NULL {
      var b := Block(p, RoundUp(size));
      var t := AfterAlloc(s, size, align, offset);
      var u := AfterFree(t, b);
      AllocCorrect(s, size, align, offset);
      AllocInv(s, size, align, offset);
      AllocTight(s, size, align, offset);
      assert b !in s.live by { assert !Disjoint(b, b) by { RoundUpCases(size); } }
      FreeInv(t, b);
      ApplyTight(t, Free(b));
      assert u.live == s.live;
      SameBytes(s, u);
    }
  }

  lemma SameBytes(s: State, u: State)
    requires Inv(s) && Inv(u) && Tight(s) && Tight(u) && s.pool == u.pool && s.live == u.live
    ensures s.free == u.free
  {
    forall a ensures Covers(s.free, a) <==> Covers(u.free, a) {
      if LiveCovers(s.live, a) {
        var y :| y in s.live && y.Contains(a);
        BytesByApart(y, s.free, a);
        BytesByApart(y, u.free, a);
      }
    }
    Canonical(s.free, u.free, 0);
  }

  lemma PreSizeResidue(addr: nat, virtOffset: int, offset: nat, unit: nat, q: nat, m: nat)
    requires unit > 0 && WORD == q * unit && unit == m * MIN && (addr + virtOffset) % MIN == 0
    ensures PreSize(addr, virtOffset, offset, unit) % MIN == offset % MIN
  {
    PreSizeMod(addr, virtOffset, offset, unit, q);
    UnitMultiple(offset - (addr + virtOffset), m, unit);
    ModUnique(offset - (addr + virtOffset), offset / MIN - (addr + virtOffset) / MIN, offset % MIN, MIN);
  }

  lemma ScrapsIff(b: Block, pre: nat, actual: nat, offset: nat)
    requires pre + actual <= b.size && b.size % MIN == 0 && actual % MIN == 0 && pre % MIN == offset % MIN
    ensures Scraps(b, pre, actual) > 0 <==> offset % MIN != 0 && (pre < MIN || b.size - pre - actual < MIN)
  {
    var rest := b.size - pre - actual;
    MultipleMinus(b.size, actual);
    ModUnique(pre, pre / MIN, pre % MIN, MIN);
    if offset % MIN == 0 { MultipleMinus(b.size - actual, pre); }
  }

  /** The range lies in a free block and comes within MIN of one of its ends without reaching it. */
  predicate NearEdge(b: Block, p: nat, actual: nat) {
    b.addr <= p && p + actual <= b.End() && (p < b.addr + MIN || b.End() < p + actual + MIN)
  }

  /** A piece that is there and too small to keep. */
  predicate TooSmall(n: int) {
    0 < n < MIN
  }

  /** The first block with enough space would be cut so that a piece in front or behind is too small. */
  predicate CutsTooSmall(s: State, size: nat, align: nat, offset: nat) {
    var actual, unit := RoundUp(size), Unit(align);
    var i := FirstFit(s, 0, actual, offset, unit);
    && actual != 0 && i < |s.free|
    && var pre := PreSize(s.free[i].addr, s.virtOffset, offset, unit);
       TooSmall(pre) || TooSmall(s.free[i].size - pre - actual)
  }

  /** An allocation leaks exactly when the first block that fits would be cut too close to one of its ends. */
  lemma LeaksIff(s: State, size: nat, align: nat, offset: nat)
    ensures AfterAlloc(s, size, align, offset).leaked != s.leaked <==> CutsTooSmall(s, size, align, offset)
  {
    var actual, unit := RoundUp(size), Unit(align);
    var i := FirstFit(s, 0, actual, offset, unit);
    if actual != 0 && i < |s.free| { assert Fits(s, i, actual, offset, unit); }
  }

  /**
  In a tight heap that is when the offset is not a multiple of MIN and the block comes within MIN of an edge,
  wherever it is.
  */
  lemma LeaksNearEdge(s: State, size: nat, align: nat, offset: nat)
    requires Inv(s) && Tight(s) && Legal(s, Alloc(size, align, offset)) && Allocated(s, size, align, offset) != NULL
    ensures CutsTooSmall(s, size, align, offset) <==>
              && offset % MIN != 0
              && exists b :: b in s.free && NearEdge(b, Allocated(s, size, align, offset), RoundUp(size))
  {
    var actual, unit := RoundUp(size), Unit(align);
    RoundUpCases(size);
    var q, m := UnitDivides(align);
    var i := FirstFit(s, 0, actual, offset, unit);
    var b, p := s.free[i], Allocated(s, size, align, offset);
    assert BlockAligned(b, s.virtOffset);
    PreSizeResidue(b.addr, s.virtOffset, offset, unit, q, m);
    ScrapsIff(b, p - b.addr, actual, offset);
    LeaksIff(s, size, align, offset);
    assert b in s.free;
    forall c | c in s.free && NearEdge(c, p, actual) ensures c == b {
      SameBlock(s.free, c, b, p);
    }
  }

  ghost predicate LeakFree(s: State, size: nat, align: nat, offset: nat) {
    Inv(s) && Tight(s) && Legal(s, Alloc(size, align, offset)) ==> AfterAlloc(s, size, align, offset).leaked == 0
  }

  /** A heap whose first aligned address lies offset % MIN bytes behind its start. */
  function EdgeHeap(actual: nat, unit: nat, offset: nat): Block
    requires unit > 0
  {
    Block(unit + (offset - offset % MIN) % unit, actual + MIN)
  }

  lemma CutBehind(addr: nat, offset: nat, unit: nat, q: nat, k: int, r: nat, o: nat)
    requires o < unit && r < unit && WORD == q * unit && addr == unit + r && offset - o == k * unit + r
    ensures PreSize(addr, 0, offset, unit) == o
  {
    PreSizeMod(addr, 0, offset, unit, q);
    ModUnique(offset - (addr + 0), k - 1, o, unit);
  }

  lemma EdgeHeapCut(actual: nat, unit: nat, offset: nat, q: nat, m: nat)
    requires unit > 0 && WORD == q * unit && unit == m * MIN
    ensures PreSize(EdgeHeap(actual, unit, offset).addr, 0, offset, unit) == offset % MIN
  {
    var o := offset % MIN;
    MulAtLeastMin(m, unit);
    CutBehind(EdgeHeap(actual, unit, offset).addr, offset, unit, q, (offset - o) / unit, (offset - o) % unit, o);
  }

  lemma EdgeHeapAligned(actual: nat, unit: nat, offset: nat, m: nat)
    requires unit > 0 && unit == m * MIN
    ensures EdgeHeap(actual, unit, offset).addr % MIN == 0 && EdgeHeap(actual, unit, offset).addr < 2 * unit
  {
    var o := offset % MIN;
    ModUnique(offset - o, offset / MIN, 0, MIN);
    UnitMultiple(offset - o, m, unit);
    MultiplePlus(unit, (offset - o) % unit, m);
  }

  lemma MulAtLeastMin(m: nat, unit: nat)
    requires unit == m * MIN && unit > 0
    ensures unit >= MIN
  {
  }

  lemma MultiplePlus(unit: nat, r: nat, m: nat)
    requires unit == m * MIN && r % MIN == 0
    ensures (unit + r) % MIN == 0
  {
    ModUnique(unit + r, m + r / MIN, 0, MIN);
  }

  /**
  Whatever the size and alignment, no allocation from any tight heap leaks exactly when the offset is a multiple of
  MIN.
  */
  lemma LeakFreeIff(size: nat, align: nat, offset: nat)
    requires 0 < size && IsPow2(align) && align < SPAN / 2 && size < SPAN / 2
    ensures (forall s :: LeakFree(s, size, align, offset)) <==> offset % MIN == 0
  {
    var actual, unit := RoundUp(size), Unit(align);
    RoundUpCases(size);
    if offset % MIN == 0 {
      forall s ensures LeakFree(s, size, align, offset) {
        if Inv(s) && Tight(s) && Legal(s, Alloc(size, align, offset)) { AllocTight(s, size, align, offset); }
      }
    } else {
      var q, m := UnitDivides(align);
      var heap := EdgeHeap(actual, unit, offset);
      EdgeHeapCut(actual, unit, offset, q, m);
      EdgeHeapAligned(actual, unit, offset, m);
      var s := Fresh(heap, 0);
      MultiplePlus(MIN, actual, 1);
      FreshInv(heap, 0);
      assert Fits(s, 0, actual, offset, unit);
      LeaksIff(s, size, align, offset);
      assert !LeakFree(s, size, align, offset);
    }
  }

  lemma SameBlock(free: seq<Block>, x: Block, y: Block, a: nat)
    requires WellFormed(free) && x in free && y in free && x.Contains(a) && y.Contains(a)
    ensures x == y
  {
    var i :| 0 <= i < |free| && free[i] == x;
    var j :| 0 <= j < |free| && free[j] == y;
    AscendingDisjoint(free, 0, i);
    AscendingDisjoint(free, 0, j);
  }

  /** An offset that is not a multiple of MIN can leak bytes in the middle of the heap. */
  lemma UnalignedOffsetLeaks()
    ensures var s := Fresh(Block(1024, 1024), 0);
            && Inv(s) && Tight(s) && Legal(s, Alloc(32, 1, 8))
            && Allocated(s, 32, 1, 8) == 1032
            && AfterAlloc(s, 32, 1, 8).leaked == 8
  {
    var s := Fresh(Block(1024, 1024), 0);
    FreshInv(Block(1024, 1024), 0);
    assert Pow2(0) == 1;
    assert RoundUp(32) == 32;
    assert PreSize(1024, 0, 8, 32) == 8;
    assert Fits(s, 0, 32, 8, 32);
  }
}
