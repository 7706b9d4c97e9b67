/**
The free list of core/malloc.c as a value: what check_blocks() asserts of it,
which bytes it stands for, and what splitting and merging do to it.  The list
is a canonical form of its set of free bytes, which is what makes the order of
frees irrelevant.
*/
module FreeList {

  /** MIN_MEMBLOCK_SIZE: sizeof (struct memory_block) rounded up to a power of two (64-bit build). */
  const MIN: nat := 32

  /** One more than the largest size_t, and than the largest ssize_t. */
  const WORD: nat := 0x1_0000_0000_0000_0000
  const SPAN: nat := 0x8000_0000_0000_0000

  /** A block of memory, free or allocated: [addr, addr + size). */
  datatype Block = Block(addr: nat, size: nat) {
    function End(): nat { addr + size }

    predicate Contains(a: int) { addr <= a < addr + size }
  }

  predicate Disjoint(x: Block, y: Block) {
    x.End() <= y.addr || y.End() <= x.addr
  }

  predicate DisjointFromAll(b: Block, bs: seq<Block>) {
    forall i :: 0 <= i < |bs| ==> Disjoint(b, bs[i])
  }

  /** Blocks ascend from above `lo`, never touch, and are never too small. */
  predicate Ascending(free: seq<Block>, lo: nat) {
    free == [] ||
    (lo < free[0].addr && free[0].size >= MIN && Ascending(free[1..], free[0].End()))
  }

  /** The free list invariant; address zero (NULL) is never part of a block. */
  predicate WellFormed(free: seq<Block>) {
    Ascending(free, 0)
  }

  /** The end of a block as a pointer. */
  function EndPointer(b: Block): nat {
    (b.addr + b.size) % WORD
  }

  /** What check_blocks() asserts of a block. */
  predicate CheckBlock(b: Block) {
    b.size >= MIN && EndPointer(b) > b.addr
  }

  /** What check_blocks() asserts of each block and its predecessor. */
  predicate CheckBlocks(free: seq<Block>) {
    forall i :: 0 <= i < |free| ==>
      CheckBlock(free[i]) && (i > 0 ==> free[i].addr > free[i - 1].addr && free[i].addr > EndPointer(free[i - 1]))
  }

  /** Addresses and sizes are machine words. */
  predicate Words(bs: seq<Block>) {
    forall i :: 0 <= i < |bs| ==> bs[i].addr < WORD && bs[i].size < WORD
  }

  predicate EndsBelow(bs: seq<Block>, limit: nat) {
    forall i :: 0 <= i < |bs| ==> bs[i].End() < limit
  }

  /** Blocks so close together that a difference of their addresses is a ssize_t. */
  predicate Inside(bs: seq<Block>, lo: nat) {
    forall i :: 0 <= i < |bs| ==> Within(bs[i], lo)
  }

  predicate Within(b: Block, lo: nat) {
    lo <= b.addr && b.End() <= lo + SPAN
  }

  /** A difference of pointers, as a ssize_t. */
  function SignedGap(x: nat, y: nat): int {
    var d := (x - y) % WORD;
    if d < SPAN then d else d - WORD
  }

  lemma SignedGapIs(x: nat, y: nat)
    requires 0 - SPAN <= x - y < SPAN
    ensures SignedGap(x, y) == x - y
  {
  }

  function Covers(bs: seq<Block>, a: int): bool {
    bs != [] && (bs[0].Contains(a) || Covers(bs[1..], a))
  }

  function Sum(bs: seq<Block>): nat {
    if bs == [] then 0 else bs[0].size + Sum(bs[1..])
  }

  /** End of the last block, or `lo` for an empty list. */
  function LastEnd(bs: seq<Block>, lo: nat): nat {
    if bs == [] then lo else LastEnd(bs[1..], bs[0].End())
  }

  lemma {:induction false} SumAppend(x: seq<Block>, y: seq<Block>)
    ensures Sum(x + y) == Sum(x) + Sum(y)
  {
    if x == [] {
      assert x + y == y;
    } else {
      assert (x + y)[1..] == x[1..] + y;
      SumAppend(x[1..], y);
    }
  }

  lemma {:induction false} CoversAppend(x: seq<Block>, y: seq<Block>, a: int)
    ensures Covers(x + y, a) <==> Covers(x, a) || Covers(y, a)
  {
    if x == [] {
      assert x + y == y;
    } else {
      assert (x + y)[1..] == x[1..] + y;
      CoversAppend(x[1..], y, a);
    }
  }

  lemma {:induction false} AscendingAppend(x: seq<Block>, y: seq<Block>, lo: nat)
    ensures Ascending(x + y, lo) <==> Ascending(x, lo) && Ascending(y, LastEnd(x, lo))
  {
    if x == [] {
      assert x + y == y;
    } else {
      assert (x + y)[1..] == x[1..] + y;
      AscendingAppend(x[1..], y, x[0].End());
    }
  }

  lemma {:induction false} AscendingLower(x: seq<Block>, lo: nat, lo': nat)
    requires Ascending(x, lo) && lo' <= lo
    ensures Ascending(x, lo')
  {
  }

  lemma {:induction false} AscendingCovers(x: seq<Block>, lo: nat, a: int)
    requires Ascending(x, lo) && Covers(x, a)
    ensures lo < a
  {
    if !x[0].Contains(a) {
      AscendingCovers(x[1..], x[0].End(), a);
    }
  }

  lemma {:induction false} AscendingDisjoint(x: seq<Block>, lo: nat, i: nat)
    requires Ascending(x, lo) && i < |x|
    ensures lo < x[i].addr && x[i].size >= MIN
    ensures forall j :: i < j < |x| ==> x[i].End() < x[j].addr
  {
    if i > 0 {
      AscendingDisjoint(x[1..], x[0].End(), i - 1);
      assert forall j :: i < j < |x| ==> x[j] == x[1..][j - 1];
    } else {
      forall j | 0 < j < |x| ensures x[0].End() < x[j].addr {
        AscendingDisjoint(x[1..], x[0].End(), j - 1);
      }
    }
  }

  lemma CheckBlockIff(b: Block)
    requires b.addr < WORD && b.size < WORD
    ensures CheckBlock(b) <==> b.size >= MIN && b.End() < WORD
    ensures CheckBlock(b) ==> EndPointer(b) == b.End()
  {
  }

  lemma CheckStep(free: seq<Block>)
    requires free != [] && Words(free)
    ensures Words(free[1..])
    ensures CheckBlocks(free) <==>
            CheckBlock(free[0]) && CheckBlocks(free[1..]) && (|free| > 1 ==> free[1].addr > free[0].End())
  {
    var t := free[1..];
    CheckBlockIff(free[0]);
    if CheckBlocks(free) {
      assert |free| > 1 ==> free[1].addr > EndPointer(free[1 - 1]);
      forall i | 0 <= i < |t| ensures CheckBlock(t[i]) &&
        (i > 0 ==> t[i].addr > t[i - 1].addr && t[i].addr > EndPointer(t[i - 1])) {
        assert t[i] == free[i + 1] && (i > 0 ==> t[i - 1] == free[i + 1 - 1]);
      }
    }
    if CheckBlock(free[0]) && CheckBlocks(t) && (|free| > 1 ==> free[1].addr > free[0].End()) {
      forall i | 0 <= i < |free|
        ensures CheckBlock(free[i]) && (i > 0 ==>
                free[i].addr > free[i - 1].addr && free[i].addr > EndPointer(free[i - 1]))
      {
        if i > 1 { assert free[i] == t[i - 1] && free[i - 1] == t[i - 1 - 1]; }
        if i == 1 { assert free[1] == t[0]; }
      }
    }
  }

  /**
  check_blocks() finds nothing to complain about exactly in a well-formed list that ends below the end of the
  address space.
  */
  lemma {:induction false} CheckBlocksIff(free: seq<Block>, lo: nat)
    requires Words(free) && (free != [] ==> lo < free[0].addr)
    ensures CheckBlocks(free) <==> Ascending(free, lo) && EndsBelow(free, WORD)
  {
    if free != [] {
      var t := free[1..];
      CheckStep(free);
      CheckBlockIff(free[0]);
      if t == [] || t[0].addr > free[0].End() { CheckBlocksIff(t, free[0].End()); }
      assert EndsBelow(free, WORD) <==> free[0].End() < WORD && EndsBelow(t, WORD) by {
        if free[0].End() < WORD && EndsBelow(t, WORD) {
          forall i | 0 <= i < |free| ensures free[i].End() < WORD { if i > 0 { assert free[i] == t[i - 1]; } }
        }
        if EndsBelow(free, WORD) {
          forall i | 0 <= i < |t| ensures t[i].End() < WORD { assert t[i] == free[i + 1]; }
        }
      }
    }
  }

  /** A well-formed free list is determined by the set of bytes it covers. */
  lemma {:induction false} Canonical(x: seq<Block>, y: seq<Block>, lo: nat)
    requires Ascending(x, lo) && Ascending(y, lo)
    requires forall a :: Covers(x, a) <==> Covers(y, a)
    ensures x == y
  {
    if x == [] {
      assert y != [] ==> Covers(y, y[0].addr);
    } else {
      assert Covers(y, x[0].addr);
      SameFirst(x, y, lo);
      forall a ensures Covers(x[1..], a) <==> Covers(y[1..], a) {
        if Covers(x[1..], a) { AscendingCovers(x[1..], x[0].End(), a); assert Covers(x, a); }
        if Covers(y[1..], a) { AscendingCovers(y[1..], y[0].End(), a); assert Covers(y, a); }
      }
      Canonical(x[1..], y[1..], x[0].End());
      assert x == [x[0]] + x[1..] && y == [y[0]] + y[1..];
    }
  }

  lemma SameFirst(x: seq<Block>, y: seq<Block>, lo: nat)
    requires Ascending(x, lo) && Ascending(y, lo) && x != [] && y != []
    requires forall a :: Covers(x, a) <==> Covers(y, a)
    ensures x[0] == y[0]
  {
    FirstNotBefore(x, y);
    FirstNotBefore(y, x);
    FirstNotLonger(x, y);
    FirstNotLonger(y, x);
  }

  lemma FirstNotBefore(x: seq<Block>, y: seq<Block>)
    requires x != [] && y != [] && y[0].size > 0 && Ascending(x[1..], x[0].End())
    requires forall a :: Covers(x, a) <==> Covers(y, a)
    ensures x[0].addr <= y[0].addr
  {
    var a := y[0].addr;
    assert Covers(y, a);
    if Covers(x[1..], a) { AscendingCovers(x[1..], x[0].End(), a); }
  }

  lemma FirstNotLonger(x: seq<Block>, y: seq<Block>)
    requires x != [] && y != [] && x[0].addr == y[0].addr && Ascending(x[1..], x[0].End())
    requires forall a :: Covers(x, a) <==> Covers(y, a)
    ensures y[0].size <= x[0].size
  {
    var a := x[0].End();
    if y[0].size > x[0].size {
      assert Covers(y, a);
      AscendingCovers(x[1..], x[0].End(), a);
    }
  }

  // ---------------------------------------------------------------------
  // Freeing: insertion with merging
  // ---------------------------------------------------------------------

  /** The list after `b` is returned to it: in address order, merged with its neighbours. */
  function InsertMerge(free: seq<Block>, b: Block): seq<Block> {
    if free == [] then
      [b]
    else if free[0].End() < b.addr then
      [free[0]] + InsertMerge(free[1..], b)
    else if free[0].End() == b.addr then
      InsertMerge(free[1..], Block(free[0].addr, free[0].size + b.size))
    else if b.End() == free[0].addr then
      [Block(b.addr, b.size + free[0].size)] + free[1..]
    else
      [b] + free
  }

  lemma {:induction false} InsertMergeAscending(free: seq<Block>, b: Block, lo: nat)
    requires Ascending(free, lo) && lo < b.addr && b.size >= MIN
    requires DisjointFromAll(b, free)
    ensures Ascending(InsertMerge(free, b), lo)
  {
    if free != [] {
      assert Disjoint(b, free[0]);
      if free[0].End() < b.addr {
        InsertMergeAscending(free[1..], b, free[0].End());
      } else if free[0].End() == b.addr {
        var m := Block(free[0].addr, free[0].size + b.size);
        MergedDisjoint(free, b, lo);
        AscendingLower(free[1..], free[0].End(), lo);
        InsertMergeAscending(free[1..], m, lo);
      }
    }
  }

  lemma MergedDisjoint(free: seq<Block>, b: Block, lo: nat)
    requires Ascending(free, lo) && DisjointFromAll(b, free)
    requires free != [] && free[0].End() == b.addr
    ensures DisjointFromAll(Block(free[0].addr, free[0].size + b.size), free[1..])
  {
    var t := free[1..];
    forall i | 0 <= i < |t| ensures Disjoint(Block(free[0].addr, free[0].size + b.size), t[i]) {
      AscendingDisjoint(free, lo, 0);
      assert t[i] == free[i + 1] && free[0].End() < free[i + 1].addr;
      AscendingDisjoint(t, free[0].End(), i);
      assert Disjoint(b, free[i + 1]);
    }
  }

  lemma {:induction false} InsertMergeCovers(free: seq<Block>, b: Block, a: int)
    ensures Covers(InsertMerge(free, b), a) <==> Covers(free, a) || b.Contains(a)
  {
    if free != [] {
      if free[0].End() < b.addr {
        InsertMergeCovers(free[1..], b, a);
      } else if free[0].End() == b.addr {
        InsertMergeCovers(free[1..], Block(free[0].addr, free[0].size + b.size), a);
      } else if b.End() == free[0].addr {
        assert ([Block(b.addr, b.size + free[0].size)] + free[1..])[1..] == free[1..];
      } else {
        assert ([b] + free)[1..] == free;
      }
    }
  }

  lemma {:induction false} InsertMergeSum(free: seq<Block>, b: Block)
    ensures Sum(InsertMerge(free, b)) == Sum(free) + b.size
  {
    if free != [] {
      if free[0].End() < b.addr {
        InsertMergeSum(free[1..], b);
        SumAppend([free[0]], InsertMerge(free[1..], b));
      } else if free[0].End() == b.addr {
        InsertMergeSum(free[1..], Block(free[0].addr, free[0].size + b.size));
      } else if b.End() == free[0].addr {
        SumAppend([Block(b.addr, b.size + free[0].size)], free[1..]);
      } else {
        SumAppend([b], free);
      }
    }
  }

  // One iteration of the insertion loop, with the list split at the cursor.

  /** Where the insertion loop may stand: `freeing` belongs somewhere in `rest`. */
  ghost predicate Inserting(rest: seq<Block>, freeing: Block) {
    freeing.size >= MIN && Ascending(rest, 0) && DisjointFromAll(freeing, rest)
  }

  lemma InsertSkip(before: seq<Block>, rest: seq<Block>, freeing: Block)
    requires Inserting(rest, freeing) && rest != [] && rest[0].End() < freeing.addr
    ensures Inserting(rest[1..], freeing)
    ensures before + InsertMerge(rest, freeing) == before + [rest[0]] + InsertMerge(rest[1..], freeing)
  {
    AscendingLower(rest[1..], rest[0].End(), 0);
    AppendAssoc(before, [rest[0]], InsertMerge(rest[1..], freeing));
  }

  lemma InsertJoin(rest: seq<Block>, freeing: Block)
    requires Inserting(rest, freeing) && rest != [] && rest[0].End() == freeing.addr
    ensures var joined := Block(rest[0].addr, rest[0].size + freeing.size);
            && Inserting(rest[1..], joined)
            && InsertMerge(rest, freeing) == InsertMerge(rest[1..], joined)
            && (rest[1..] != [] ==> joined.addr < rest[1].addr)
  {
    MergedDisjoint(rest, freeing, 0);
    AscendingLower(rest[1..], rest[0].End(), 0);
  }

  lemma InsertCompare(rest: seq<Block>, freeing: Block)
    requires Inserting(rest, freeing) && rest != []
    ensures rest[0].size >= MIN && Disjoint(freeing, rest[0])
  {
  }

  lemma InsertStop(before: seq<Block>, rest: seq<Block>, freeing: Block)
    requires Inserting(rest, freeing)
    requires rest != [] ==> freeing.End() <= rest[0].addr
    ensures before + InsertMerge(rest, freeing) ==
            if rest != [] && freeing.End() == rest[0].addr
            then before + [Block(freeing.addr, freeing.size + rest[0].size)] + rest[1..]
            else before + [freeing] + rest
  {
    if rest != [] && freeing.End() == rest[0].addr {
      AppendAssoc(before, [Block(freeing.addr, freeing.size + rest[0].size)], rest[1..]);
    } else {
      AppendAssoc(before, [freeing], rest);
    }
  }

  /** Every block starts and ends on a (physical) minimum-block boundary. */
  predicate Aligned(bs: seq<Block>, virtOffset: int) {
    forall i :: 0 <= i < |bs| ==> BlockAligned(bs[i], virtOffset)
  }

  predicate BlockAligned(b: Block, virtOffset: int) {
    (b.addr + virtOffset) % MIN == 0 && b.size % MIN == 0
  }

  lemma {:induction false} InsertMergeAligned(free: seq<Block>, b: Block, virtOffset: int)
    requires Aligned(free, virtOffset) && BlockAligned(b, virtOffset)
    ensures Aligned(InsertMerge(free, b), virtOffset)
  {
    if free != [] {
      assert BlockAligned(free[0], virtOffset);
      if free[0].End() < b.addr {
        InsertMergeAligned(free[1..], b, virtOffset);
      } else if free[0].End() == b.addr {
        InsertMergeAligned(free[1..], Block(free[0].addr, free[0].size + b.size), virtOffset);
      }
    }
  }

  // ---------------------------------------------------------------------
  // Allocating: splitting one block
  // ---------------------------------------------------------------------

  /** A piece too small to hold a free block header is leaked. */
  function Piece(addr: nat, size: nat): seq<Block> {
    if size >= MIN then [Block(addr, size)] else []
  }

  function Scrap(size: nat): nat {
    if size >= MIN then 0 else size
  }

  /** What is left of a block after `actual` bytes are cut out at offset `pre`. */
  function Remainder(b: Block, pre: nat, actual: nat): seq<Block>
    requires pre + actual <= b.size
  {
    Piece(b.addr, pre) + Piece(b.addr + pre + actual, b.size - pre - actual)
  }

  /** Bytes of the block leaked by the split. */
  function Scraps(b: Block, pre: nat, actual: nat): nat
    requires pre + actual <= b.size
  {
    Scrap(pre) + Scrap(b.size - pre - actual)
  }

  function Split(free: seq<Block>, i: nat, pre: nat, actual: nat): seq<Block>
    requires i < |free| && pre + actual <= free[i].size
  {
    free[..i] + Remainder(free[i], pre, actual) + free[i + 1..]
  }

  /** The list edits of alloc_memblock(): add "post" after "pre", shrink "pre", drop it if too small. */
  function SplitInPlace(free: seq<Block>, i: nat, pre: nat, actual: nat): seq<Block>
    requires i < |free| && pre + actual <= free[i].size
  {
    var b, post := free[i], free[i].size - pre - actual;
    var added := if post >= MIN then free[..i + 1] + [Block(b.addr + pre + actual, post)] + free[i + 1..] else free;
    var shrunk := added[i := Block(b.addr, pre)];
    if pre < MIN then shrunk[..i] + shrunk[i + 1..] else shrunk
  }

  lemma SplitInPlaceIsSplit(free: seq<Block>, i: nat, pre: nat, actual: nat)
    requires i < |free| && pre + actual <= free[i].size
    ensures SplitInPlace(free, i, pre, actual) == Split(free, i, pre, actual)
  {
  }

  lemma Unsplit(free: seq<Block>, i: nat)
    requires i < |free|
    ensures free == free[..i] + ([free[i]] + free[i + 1..])
  {
  }

  lemma RemainderAscending(b: Block, pre: nat, actual: nat, lo: nat, rest: seq<Block>)
    requires pre + actual <= b.size && actual > 0 && lo < b.addr
    requires Ascending(rest, b.End())
    ensures Ascending(Remainder(b, pre, actual) + rest, lo)
  {
    var p, q := Piece(b.addr, pre), Piece(b.addr + pre + actual, b.size - pre - actual);
    var mid := b.addr + pre;
    assert Ascending(q + rest, mid) by {
      AscendingLower(rest, b.End(), mid);
      if q != [] { assert (q + rest)[1..] == rest; }
      else { assert q + rest == rest; }
    }
    if p != [] {
      assert (p + (q + rest))[1..] == q + rest;
    } else {
      assert p + (q + rest) == q + rest;
      AscendingLower(q + rest, mid, lo);
    }
    assert p + (q + rest) == Remainder(b, pre, actual) + rest;
  }

  lemma SplitAscending(free: seq<Block>, i: nat, pre: nat, actual: nat, lo: nat)
    requires Ascending(free, lo) && i < |free| && pre + actual <= free[i].size && actual > 0
    ensures Ascending(Split(free, i, pre, actual), lo)
  {
    var x, b, rest := free[..i], free[i], free[i + 1..];
    Unsplit(free, i);
    AscendingMiddle(x, b, rest, lo);
    RemainderAscending(b, pre, actual, LastEnd(x, lo), rest);
    AscendingAppend(x, Remainder(b, pre, actual) + rest, lo);
    AppendAssoc(x, Remainder(b, pre, actual), rest);
  }

  lemma AscendingMiddle(x: seq<Block>, b: Block, rest: seq<Block>, lo: nat)
    requires Ascending(x + ([b] + rest), lo)
    ensures Ascending(x, lo) && LastEnd(x, lo) < b.addr && b.size >= MIN && Ascending(rest, b.End())
  {
    AscendingAppend(x, [b] + rest, lo);
    assert ([b] + rest)[1..] == rest;
  }

  lemma AppendAssoc(x: seq<Block>, y: seq<Block>, z: seq<Block>)
    ensures x + y + z == x + (y + z)
  {
  }

  lemma PieceCovers(addr: nat, size: nat, a: int)
    ensures Covers(Piece(addr, size), a) ==> Block(addr, size).Contains(a)
    ensures Scrap(size) == 0 && Block(addr, size).Contains(a) ==> Covers(Piece(addr, size), a)
  {
    var p := Piece(addr, size);
    if size >= MIN {
      assert p[1..] == [] && !Covers([], a);
    }
  }

  /** The allocated bytes leave the free list, and nothing else does unless it is leaked. */
  lemma SplitCovers(free: seq<Block>, i: nat, pre: nat, actual: nat, lo: nat, a: int)
    requires Ascending(free, lo) && i < |free| && pre + actual <= free[i].size && actual > 0
    ensures Covers(Split(free, i, pre, actual), a) ==> Covers(free, a) && !Block(free[i].addr + pre, actual).Contains(a)
    ensures Scraps(free[i], pre, actual) == 0 && Covers(free, a) && !Block(free[i].addr + pre, actual).Contains(a)
            ==> Covers(Split(free, i, pre, actual), a)
    ensures Block(free[i].addr + pre, actual).Contains(a) ==> Covers(free, a)
  {
    var b, rest := free[i], free[i + 1..];
    Unsplit(free, i);
    CoversAppend(free[..i], [b] + rest, a);
    CoversAppend([b], rest, a);
    CoversAppend(free[..i] + Remainder(b, pre, actual), rest, a);
    CoversAppend(free[..i], Remainder(b, pre, actual), a);
    CoversAppend(Piece(b.addr, pre), Piece(b.addr + pre + actual, b.size - pre - actual), a);
    PieceCovers(b.addr, pre, a);
    PieceCovers(b.addr + pre + actual, b.size - pre - actual, a);
    AscendingAppend(free[..i], [b] + rest, lo);
    assert ([b] + rest)[1..] == rest;
    if Covers(rest, a) { AscendingCovers(rest, b.End(), a); }
    if Covers(free[..i], a) { CoversBelow(free[..i], lo, a); }
    assert Covers([b], a) <==> b.Contains(a);
  }

  lemma {:induction false} CoversBelow(x: seq<Block>, lo: nat, a: int)
    requires Ascending(x, lo) && Covers(x, a)
    ensures a < LastEnd(x, lo)
  {
    if Covers(x[1..], a) {
      CoversBelow(x[1..], x[0].End(), a);
    } else {
      LastEndAbove(x[1..], x[0].End());
    }
  }

  lemma {:induction false} LastEndAbove(x: seq<Block>, lo: nat)
    requires Ascending(x, lo)
    ensures lo <= LastEnd(x, lo)
  {
    if x != [] { LastEndAbove(x[1..], x[0].End()); }
  }

  lemma SplitSum(free: seq<Block>, i: nat, pre: nat, actual: nat)
    requires i < |free| && pre + actual <= free[i].size
    ensures Sum(free) == Sum(Split(free, i, pre, actual)) + actual + Scraps(free[i], pre, actual)
  {
    var b, rest := free[i], free[i + 1..];
    var p, q := Piece(b.addr, pre), Piece(b.addr + pre + actual, b.size - pre - actual);
    Unsplit(free, i);
    SumAppend(free[..i], [b] + rest);
    SumAppend([b], rest);
    SumAppend(free[..i] + Remainder(b, pre, actual), rest);
    SumAppend(free[..i], Remainder(b, pre, actual));
    SumAppend(p, q);
  }

  lemma SplitAligned(free: seq<Block>, i: nat, pre: nat, actual: nat, virtOffset: int)
    requires Aligned(free, virtOffset) && i < |free| && pre + actual <= free[i].size
    requires pre % MIN == 0 && actual % MIN == 0
    ensures Aligned(Split(free, i, pre, actual), virtOffset)
    ensures Scraps(free[i], pre, actual) == 0
  {
    assert BlockAligned(free[i], virtOffset);
    assert Aligned(Remainder(free[i], pre, actual), virtOffset);
  }
}
